/** Where the Jam player keeps its data. With a workspace, fixed tables lie at its bottom,
    array records grow upwards behind them and symbol records downwards from its end;
    without one, array records are allocated singly and chained. */
module JamHeap {
  import opened Options

  const MAX_SYMBOL_COUNT: nat := 1021
  const MAX_NESTING_DEPTH: nat := 128
  const ADDRESS_SIZE: nat := 4
  const STACK_RECORD: nat := 28
  const HEAP_RECORD: nat := 28
  const SYMBOL_RECORD: nat := 56

  /** Bytes of the six JTAG buffers: DR and IR preamble, postamble and scan buffer. */
  const DR_PADDING: nat := 1024 / 8
  const IR_PADDING: nat := 256 / 8
  const DR_BUFFER: nat := 2048 / 8
  const IR_BUFFER: nat := 512 / 8
  const JTAG_BUFFER_SIZE: nat := (256 + 256 + 512 + 1024 + 1024 + 2048) / 8

  // ---------------------------------------------------------------------------
  // Regions of memory
  // ---------------------------------------------------------------------------

  /** Addresses from `from` up to, but not including, `to`. */
  datatype Region = Region(from: int, to: int)

  predicate Apart(a: Region, b: Region) {
    a.to <= b.from || b.to <= a.from
  }

  ghost predicate AllApart(rs: seq<Region>) {
    forall i, j :: 0 <= i < j < |rs| ==> Apart(rs[i], rs[j])
  }

  ghost predicate AllWithin(rs: seq<Region>, from: int, to: int) {
    forall i :: 0 <= i < |rs| ==> from <= rs[i].from <= rs[i].to <= to
  }

  function FixedSize(): nat {
    MAX_SYMBOL_COUNT * ADDRESS_SIZE + MAX_NESTING_DEPTH * STACK_RECORD + JTAG_BUFFER_SIZE
  }

  /** The regions three modules compute independently from the start of the workspace. */
  function FixedRegions(base: int): seq<Region> {
    var stack := base + MAX_SYMBOL_COUNT * ADDRESS_SIZE;
    var drPreamble := stack + MAX_NESTING_DEPTH * STACK_RECORD;
    var drPostamble := drPreamble + DR_PADDING;
    var irPreamble := drPostamble + DR_PADDING;
    var irPostamble := irPreamble + IR_PADDING;
    var drBuffer := irPostamble + IR_PADDING;
    var irBuffer := drBuffer + DR_BUFFER;
    [Region(base, stack), Region(stack, drPreamble), Region(drPreamble, drPostamble), Region(drPostamble, irPreamble),
     Region(irPreamble, irPostamble), Region(irPostamble, drBuffer), Region(drBuffer, irBuffer),
     Region(irBuffer, irBuffer + IR_BUFFER)]
  }

  /** They are apart and end exactly where the heap begins. */
  lemma FixedRegionsFit(base: int)
    ensures AllApart(FixedRegions(base)) && AllWithin(FixedRegions(base), base, base + FixedSize())
    ensures FixedRegions(base)[7].to == base + FixedSize()
    ensures FixedSize() == 1021 * 4 + 128 * 28 + 2 * 128 + 2 * 32 + 256 + 64
  {
  }

  // ---------------------------------------------------------------------------
  // The workspace
  // ---------------------------------------------------------------------------

  class Workspace {
    const base: int
    const size: nat
    var heapTop: int
    var symbolBottom: int
    var records: nat
    /** Everything handed out: the fixed tables, then the records in the order they came. */
    ghost var low: seq<Region>
    ghost var high: seq<Region>

    /** Upward records lie below everything handed out downwards; once the two ends have met,
        nothing is handed out any more. */
    ghost predicate Valid()
      reads this
    {
      && AllApart(low + high) && AllWithin(low + high, base, base + size)
      && base <= heapTop && symbolBottom <= base + size
      && (heapTop <= symbolBottom ==> AllWithin(low, base, heapTop) && AllWithin(high, symbolBottom, base + size))
    }

    function TheEnds(): Ends
      reads this
    {
      Ends(heapTop, symbolBottom)
    }

    /** jam_init_symbol_table, jam_init_stack, jam_init_jtag and jam_init_heap */
    constructor (base: int, size: nat)
      ensures this.base == base && this.size == size
      ensures FixedSize() <= size ==> Valid() && low == FixedRegions(base) && high == []
      ensures symbolBottom == base + size && heapTop == base + FixedSize()
    {
      this.base, this.size := base, size;
      heapTop, symbolBottom, records := base + FixedSize(), base + size, 0;
      low, high := FixedRegions(base), [];
      new;
      FixedRegionsFit(base);
      assert low + high == low;
    }

    /** The checks of the two initialisers; one implies the other. */
    method CheckSize() returns (ok: bool)
      requires heapTop == base + FixedSize()
      ensures ok == (FixedSize() <= size)
    {
      ok := true;
      if size < MAX_SYMBOL_COUNT * ADDRESS_SIZE {
        ok := false;
      }
      if heapTop > size + base {
        ok := false;
      }
    }

    /** jam_add_heap_record: the top moves even when the record does not fit. */
    method AddHeapRecord(spaceNeeded: nat) returns (record: Option<int>)
      requires Valid()
      modifies this
      ensures Valid() && symbolBottom == old(symbolBottom) && high == old(high)
      ensures TheEnds() == Moved(old(TheEnds()), ForArray(spaceNeeded))
      ensures record.Some? <==> Succeeds(old(TheEnds()), ForArray(spaceNeeded))
      ensures record.Some? ==> record.value == Given(old(TheEnds()), ForArray(spaceNeeded)).from
      ensures low == old(low) + if record.Some? then [Given(old(TheEnds()), ForArray(spaceNeeded))] else []
      ensures record.Some? ==> Region(record.value, record.value + 28 + spaceNeeded) in low
    {
      ghost var was := low;
      var start := heapTop;
      heapTop := start + HEAP_RECORD + spaceNeeded;
      if heapTop > symbolBottom {
        record := None;
      } else {
        record := Some(start);
        records := records + 1;
        low := low + [Region(start, heapTop)];
        InsertRegion(was, high, Region(start, heapTop), base, symbolBottom, base + size);
      }
    }

    /** jam_add_symbol, where it takes the memory for a record. */
    method AddSymbolRecord() returns (record: Option<int>)
      requires Valid()
      modifies this
      ensures Valid() && heapTop == old(heapTop) && low == old(low)
      ensures TheEnds() == Moved(old(TheEnds()), ForSymbol)
      ensures record.Some? <==> Succeeds(old(TheEnds()), ForSymbol)
      ensures record.Some? ==> record.value == Given(old(TheEnds()), ForSymbol).from
      ensures high == old(high) + if record.Some? then [Given(old(TheEnds()), ForSymbol)] else []
      ensures record.Some? ==> Region(record.value, record.value + 56) in high
    {
      ghost var was := high;
      symbolBottom := symbolBottom - SYMBOL_RECORD;
      if heapTop > symbolBottom {
        record := None;
      } else {
        record := Some(symbolBottom);
        ghost var r := Region(symbolBottom, symbolBottom + SYMBOL_RECORD);
        high := high + [r];
        AppendRegion(low + was, r);
        assert low + high == low + was + [r];
      }
    }

    /** jam_get_temp_workspace: temporary space lies in the gap between the two ends. */
    method GetTempWorkspace(n: nat) returns (start: Option<int>)
      requires Valid()
      ensures start == if heapTop + n <= symbolBottom then Some(heapTop) else None
      ensures start.Some? ==>
        var r := Region(start.value, start.value + n);
        base + size >= r.to && forall i :: 0 <= i < |low + high| ==> Apart((low + high)[i], r)
    {
      start := if heapTop + n <= symbolBottom then Some(heapTop) else None;
    }
  }

  lemma AppendRegion(rs: seq<Region>, r: Region)
    requires AllApart(rs) && forall i :: 0 <= i < |rs| ==> Apart(rs[i], r)
    ensures AllApart(rs + [r])
  {
  }

  lemma InsertRegion(low: seq<Region>, high: seq<Region>, r: Region, base: int, bottom: int, end: int)
    requires AllApart(low + high) && base <= r.from <= r.to <= bottom
    requires AllWithin(low, base, r.from) && AllWithin(high, bottom, end)
    ensures AllApart(low + [r] + high)
  {
    var all, before := low + [r] + high, low + high;
    forall i, j | 0 <= i < j < |all| ensures Apart(all[i], all[j]) {
      if i == |low| || j == |low| {
      } else {
        var i', j' := if i < |low| then i else i - 1, if j < |low| then j else j - 1;
        assert all[i] == before[i'] && all[j] == before[j'];
      }
    }
  }

  // ---------------------------------------------------------------------------
  // Whole runs: calls that succeed never overlap, and after one that fails none succeeds
  // ---------------------------------------------------------------------------

  datatype Call = ForArray(space: nat) | ForSymbol

  datatype Ends = Ends(top: int, bottom: int)

  function Moved(e: Ends, call: Call): Ends {
    match call
    case ForArray(space) => Ends(e.top + HEAP_RECORD + space, e.bottom)
    case ForSymbol => Ends(e.top, e.bottom - SYMBOL_RECORD)
  }

  predicate Succeeds(e: Ends, call: Call) {
    Moved(e, call).top <= Moved(e, call).bottom
  }

  /** What a call that succeeds hands out. */
  function Given(e: Ends, call: Call): Region {
    if call.ForArray? then Region(e.top, Moved(e, call).top) else Region(Moved(e, call).bottom, e.bottom)
  }

  /** The regions handed out by a run of calls, whatever the caller does about failures. */
  function Handed(e: Ends, calls: seq<Call>): (rs: seq<Region>)
    decreases |calls|
  {
    if calls == [] then []
    else
      var next := Moved(e, calls[0]);
      var rest := Handed(next, calls[1..]);
      if Succeeds(e, calls[0]) then [Given(e, calls[0])] + rest else rest
  }

  /** All of them are apart and between the two ends the run started from. */
  lemma {:induction false} HandedApart(e: Ends, calls: seq<Call>)
    ensures AllApart(Handed(e, calls)) && AllWithin(Handed(e, calls), e.top, e.bottom)
    decreases |calls|
  {
    if calls != [] {
      var next := Moved(e, calls[0]);
      var rest := Handed(next, calls[1..]);
      HandedApart(next, calls[1..]);
      if Succeeds(e, calls[0]) {
        var r := Given(e, calls[0]);
        assert forall i :: 0 <= i < |rest| ==> Apart(r, rest[i]);
        var all := [r] + rest;
        forall i, j | 0 <= i < j < |all| ensures Apart(all[i], all[j]) {
          assert all[j] == rest[j - 1];
        }
      }
    }
  }

  /** The calls of a run that succeed. */
  function Served(e: Ends, calls: seq<Call>): seq<Call>
    decreases |calls|
  {
    if calls == [] then []
    else (if Succeeds(e, calls[0]) then [calls[0]] else []) + Served(Moved(e, calls[0]), calls[1..])
  }

  /** Bytes a caller writes to: the header and the array behind it, or a symbol record. */
  function Room(call: Call): nat {
    match call
    case ForArray(space) => 28 + space
    case ForSymbol => 56
  }

  /** Every successful call of a run gets all the room it asked for. */
  lemma {:induction false} HandedHaveRoom(e: Ends, calls: seq<Call>)
    ensures |Handed(e, calls)| == |Served(e, calls)|
    ensures forall i :: 0 <= i < |Handed(e, calls)| ==>
      Handed(e, calls)[i].to - Handed(e, calls)[i].from == Room(Served(e, calls)[i])
    decreases |calls|
  {
    if calls != [] {
      HandedHaveRoom(Moved(e, calls[0]), calls[1..]);
    }
  }

  /** A failure is final: the ends have crossed and only move further apart. */
  lemma {:induction false} FailureIsFinal(e: Ends, calls: seq<Call>)
    requires e.top > e.bottom
    ensures Handed(e, calls) == []
    decreases |calls|
  {
    if calls != [] {
      FailureIsFinal(Moved(e, calls[0]), calls[1..]);
    }
  }

  // ---------------------------------------------------------------------------
  // Without a workspace
  // ---------------------------------------------------------------------------

  class HeapRecord {
    var next: HeapRecord?

    constructor ()
    {
    }
  }

  /** The list jam_heap with jam_heap_records records. The first record ever added is linked to
      itself, because the list head is set before the link is. */
  class HeapList {
    var heap: HeapRecord?
    var count: nat
    ghost var records: seq<HeapRecord>

    /** Newest first; the last one points to itself. */
    ghost predicate Valid()
      reads this, records
    {
      && count == |records|
      && (forall i, j :: 0 <= i < j < |records| ==> records[i] != records[j])
      && (records == [] ==> heap == null)
      && (records != [] ==> heap == records[0])
      && forall i :: 0 <= i < |records| ==>
        records[i].next == records[if i + 1 < |records| then i + 1 else i]
    }

    constructor ()
      ensures Valid() && records == []
    {
      heap, count, records := null, 0, [];
    }

    /** The linking part of jam_add_heap_record, for a record just allocated. */
    method Link(r: HeapRecord)
      requires Valid() && r !in records
      modifies this, r
      ensures Valid() && records == [r] + old(records)
    {
      if heap == null {
        heap := r;
      }
      r.next := heap;
      heap := r;
      count := count + 1;
      ghost var before := records;
      records := [r] + records;
      assert forall i :: 1 <= i < |records| ==> records[i] == before[i - 1] && records[i] != r;
    }

    /** jam_free_heap: the walk is cut off by the number of records, so it takes the last one,
        reads its link to itself, and does not follow it. */
    method Free() returns (freed: seq<HeapRecord>)
      requires Valid()
      ensures freed == records
    {
      freed := [];
      var p := heap;
      for record := 0 to count
        invariant freed == records[..record]
        invariant record < count ==> p == records[record]
      {
        if p != null {
          var t := p;
          p := p.next;
          freed := freed + [t];
        }
      }
    }
  }
}
