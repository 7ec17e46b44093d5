/** Page arithmetic and scatterlists of the cryptodev driver. A list denotes the physical
    addresses it covers, in order; user memory is mapped page by page by any function. */
module ScatterList {
  import opened Options

  const PAGE_SIZE: nat := 4096
  const EINVAL: int := 22
  const ENOMEM: int := 12
  const MAX_SRTP_AUTH_DATA_DIFF: int := 256

  /** One entry; `last` is the end mark that sg_set_page leaves alone. */
  datatype Entry = Entry(page: int, offset: nat, length: nat, last: bool)

  /** Which page backs each page of the user's address space. */
  type Mapping = int -> int

  // ---------------------------------------------------------------------------
  // What lists and buffers denote
  // ---------------------------------------------------------------------------

  function Run(start: int, n: nat): (r: seq<int>)
    ensures |r| == n
  {
    seq(n, i requires 0 <= i < n => start + i)
  }

  function EntryBytes(e: Entry): seq<int> {
    Run(e.page * PAGE_SIZE + e.offset, e.length)
  }

  function Bytes(sg: seq<Entry>): seq<int> {
    if sg == [] then [] else EntryBytes(sg[0]) + Bytes(sg[1..])
  }

  /** The end mark is on the final entry and nowhere else. */
  predicate Ended(sg: seq<Entry>) {
    sg != [] && forall k :: 0 <= k < |sg| ==> (sg[k].last <==> k == |sg| - 1)
  }

  predicate WithinPage(e: Entry) {
    e.offset + e.length <= PAGE_SIZE
  }

  function Physical(m: Mapping, address: nat): int {
    m(address / PAGE_SIZE) * PAGE_SIZE + address % PAGE_SIZE
  }

  function UserBytes(m: Mapping, address: nat, n: nat): (r: seq<int>)
    ensures |r| == n
  {
    seq(n, i requires 0 <= i < n => Physical(m, address + i))
  }

  /** PAGECOUNT: pages touched by a buffer. */
  function PageCount(address: nat, n: nat): (count: nat) {
    if n == 0 then 0 else (address + n - 1) / PAGE_SIZE - address / PAGE_SIZE + 1
  }

  /** Each byte of a buffer lies in the page its address falls into, at the same place in it, and
      the pages counted are all that are touched. */
  lemma ByteOfUser(m: Mapping, address: nat, n: nat, i: nat)
    requires i < n
    ensures UserBytes(m, address, n)[i] == m((address + i) / 4096) * 4096 + (address + i) % 4096
    ensures address / 4096 <= (address + i) / 4096 < address / 4096 + PageCount(address, n)
    ensures (address + n - 1) / 4096 == address / 4096 + PageCount(address, n) - 1
  {
    assert UserBytes(m, address, n)[i] == Physical(m, address + i);
  }

  lemma {:induction false} BytesAppend(a: seq<Entry>, b: seq<Entry>)
    ensures Bytes(a + b) == Bytes(a) + Bytes(b)
  {
    if a == [] {
      assert a + b == b;
    } else {
      assert (a + b)[1..] == a[1..] + b;
      BytesAppend(a[1..], b);
    }
  }

  lemma SameBytes(a: Entry, b: Entry)
    requires a.page == b.page && a.offset == b.offset && a.length == b.length
    ensures EntryBytes(a) == EntryBytes(b)
  {
  }

  lemma BytesOne(e: Entry)
    ensures Bytes([e]) == EntryBytes(e)
  {
    assert Bytes([e]) == EntryBytes(e) + Bytes([]);
  }

  lemma UserBytesSplit(m: Mapping, address: nat, a: nat, b: nat)
    ensures UserBytes(m, address, a + b) == UserBytes(m, address, a) + UserBytes(m, address + a, b)
  {
  }

  /** A stretch of user memory inside one page is one entry. */
  lemma OnePage(m: Mapping, address: nat, n: nat)
    requires address % PAGE_SIZE + n <= PAGE_SIZE
    ensures EntryBytes(Entry(m(address / PAGE_SIZE), address % PAGE_SIZE, n, false)) == UserBytes(m, address, n)
  {
    var e := Entry(m(address / PAGE_SIZE), address % PAGE_SIZE, n, false);
    forall i | 0 <= i < n ensures EntryBytes(e)[i] == UserBytes(m, address, n)[i] {
      var there := address + i;
      assert there / PAGE_SIZE == address / PAGE_SIZE && there % PAGE_SIZE == address % PAGE_SIZE + i;
      assert UserBytes(m, address, n)[i] == Physical(m, there);
    }
  }

  // ---------------------------------------------------------------------------
  // The kernel's list primitives
  // ---------------------------------------------------------------------------

  /** sg_init_table: cleared entries, the last one marked. */
  method InitTable(sg: array<Entry>, at: nat, n: nat)
    requires n > 0 && at + n <= sg.Length
    modifies sg
    ensures forall k :: at <= k < at + n ==> sg[k] == Entry(0, 0, 0, k == at + n - 1)
    ensures forall k :: 0 <= k < sg.Length && !(at <= k < at + n) ==> sg[k] == old(sg[k])
  {
    for i := 0 to n
      invariant forall k :: at <= k < at + i ==> sg[k] == Entry(0, 0, 0, false)
      invariant forall k :: 0 <= k < sg.Length && !(at <= k < at + n) ==> sg[k] == old(sg[k])
    {
      sg[at + i] := Entry(0, 0, 0, false);
    }
    sg[at + n - 1] := sg[at + n - 1].(last := true);
  }

  /** sg_set_page keeps the end mark. */
  method SetPage(sg: array<Entry>, i: nat, page: int, length: nat, offset: nat)
    requires i < sg.Length
    modifies sg
    ensures sg[i] == Entry(page, offset, length, old(sg[i].last))
    ensures forall k :: 0 <= k < sg.Length && k != i ==> sg[k] == old(sg[k])
  {
    sg[i] := Entry(page, offset, length, sg[i].last);
  }

  function Min(a: nat, b: nat): nat {
    if a < b then a else b
  }

  /** sg_set_page for the piece of user memory at `here` that lies in one page. */
  method PutPage(m: Mapping, sg: array<Entry>, at: nat, i: nat, here: nat, length: nat)
    requires at + i < sg.Length && here % PAGE_SIZE + length <= PAGE_SIZE
    modifies sg
    ensures Bytes(sg[at..at + i + 1]) == old(Bytes(sg[at..at + i])) + UserBytes(m, here, length)
    ensures sg[at + i].last == old(sg[at + i].last) && sg[at + i].length == length && WithinPage(sg[at + i])
    ensures forall k :: 0 <= k < sg.Length && k != at + i ==> sg[k] == old(sg[k])
  {
    hide Bytes, UserBytes, EntryBytes;
    ghost var sofar := sg[at..at + i];
    OnePage(m, here, length);
    SetPage(sg, at + i, m(here / PAGE_SIZE), length, here % PAGE_SIZE);
    assert sg[at..at + i + 1] == sofar + [sg[at + i]];
    BytesAppend(sofar, [sg[at + i]]);
    BytesOne(sg[at + i]);
    SameBytes(sg[at + i], Entry(m(here / PAGE_SIZE), here % PAGE_SIZE, length, false));
  }

  /** The loop of __get_userbuf, behind the first page. */
  method MorePages(m: Mapping, address: nat, n: nat, pgcount: nat, sg: array<Entry>, at: nat, first: nat)
    requires PageCount(address, n) <= pgcount && at + pgcount <= sg.Length
    requires 0 < first <= n && first == Min(PAGE_SIZE - address % PAGE_SIZE, n)
    requires Bytes(sg[at..at + 1]) == UserBytes(m, address, first)
    requires sg[at].length > 0 && WithinPage(sg[at])
    requires forall k :: at < k < at + pgcount ==> sg[k].length == 0 && WithinPage(sg[k])
    requires forall k :: at <= k < at + pgcount ==> (sg[k].last <==> k == at + pgcount - 1)
    modifies sg
    ensures Bytes(sg[at..at + PageCount(address, n)]) == UserBytes(m, address, n)
    ensures forall k :: at <= k < at + PageCount(address, n) ==> 0 < sg[k].length && WithinPage(sg[k])
    ensures forall k :: at + PageCount(address, n) <= k < at + pgcount ==> sg[k].length == 0 && WithinPage(sg[k])
    ensures forall k :: at <= k < at + pgcount ==> (sg[k].last <==> k == at + pgcount - 1)
    ensures forall k :: 0 <= k < sg.Length && !(at <= k < at + pgcount) ==> sg[k] == old(sg[k])
  {
    hide Bytes, UserBytes;
    var left := n - first;
    var i := 1;
    while left > 0
      invariant 0 <= left < n && 1 <= i <= PageCount(address, n)
      invariant left > 0 ==> address + n - left == (address / PAGE_SIZE + i) * PAGE_SIZE
      invariant left > 0 ==> i < PageCount(address, n)
      invariant left == 0 ==> i == PageCount(address, n)
      invariant Bytes(sg[at..at + i]) == UserBytes(m, address, n - left)
      invariant forall k :: at <= k < at + i ==> 0 < sg[k].length && WithinPage(sg[k])
      invariant forall k :: at + i <= k < at + pgcount ==> sg[k].length == 0 && WithinPage(sg[k])
      invariant forall k :: at <= k < at + pgcount ==> (sg[k].last <==> k == at + pgcount - 1)
      invariant forall k :: 0 <= k < sg.Length && !(at <= k < at + pgcount) ==> sg[k] == old(sg[k])
    {
      var pglen := Min(PAGE_SIZE, left);
      UserBytesSplit(m, address, n - left, pglen);
      PutPage(m, sg, at, i, address + n - left, pglen);
      left := left - pglen;
      i := i + 1;
    }
  }

  lemma AtLeastOnePage(address: nat, n: nat)
    requires n > 0
    ensures PageCount(address, n) >= 1
  {
  }

  /** __get_userbuf with at least the pages a buffer touches. Surplus pages leave empty entries
      behind, which denote nothing. For nothing at all only the end mark is set. */
  method GetUserPages(m: Mapping, address: nat, n: nat, pgcount: nat, sg: array<Entry>, at: nat)
    requires PageCount(address, n) <= pgcount && at + pgcount <= sg.Length && at < sg.Length
    modifies sg
    ensures n > 0 && address > 0 ==>
      && Bytes(sg[at..at + pgcount]) == UserBytes(m, address, n)
      && Ended(sg[at..at + pgcount])
      && (forall k :: at <= k < at + pgcount ==> WithinPage(sg[k]))
      && (forall k :: at <= k < at + PageCount(address, n) ==> sg[k].length > 0)
      && (forall k :: at + PageCount(address, n) <= k < at + pgcount ==> sg[k].length == 0)
      && (forall k :: 0 <= k < sg.Length && !(at <= k < at + pgcount) ==> sg[k] == old(sg[k]))
    ensures n == 0 || address == 0 ==> sg[..] == old(sg[..])[at := old(sg[at]).(last := true)]
  {
    hide Bytes, UserBytes, PageCount;
    if n > 0 {
      AtLeastOnePage(address, n);
    }
    if pgcount == 0 || n == 0 || address == 0 {
      sg[at] := sg[at].(last := true);
      return;
    }
    InitTable(sg, at, pgcount);
    NoEntries();
    assert sg[at..at] == [];
    var pglen := Min(PAGE_SIZE - address % PAGE_SIZE, n);
    PutPage(m, sg, at, 0, address, pglen);
    MorePages(m, address, n, pgcount, sg, at, pglen);
    ghost var filled := sg[..];
    sg[at + pgcount - 1] := sg[at + pgcount - 1].(last := true);
    assert sg[..] == filled;
    SurplusPages(sg[at..at + pgcount], PageCount(address, n));
    assert sg[at..at + pgcount][..PageCount(address, n)] == sg[at..at + PageCount(address, n)];
  }

  /** Empty entries at the end of a table add nothing to what it denotes. */
  lemma SurplusPages(sg: seq<Entry>, i: nat)
    requires i <= |sg| && forall k :: i <= k < |sg| ==> sg[k].length == 0
    ensures Bytes(sg) == Bytes(sg[..i])
  {
    hide Bytes;
    EmptyEntries(sg[i..]);
    BytesAppend(sg[..i], sg[i..]);
    assert sg == sg[..i] + sg[i..];
  }

  lemma {:induction false} EmptyEntries(sg: seq<Entry>)
    requires forall k :: 0 <= k < |sg| ==> sg[k].length == 0
    ensures Bytes(sg) == []
  {
    if sg != [] {
      EmptyEntries(sg[1..]);
    }
  }

  // ---------------------------------------------------------------------------
  // sg_advance and sg_copy
  // ---------------------------------------------------------------------------

  lemma EndedTail(sg: seq<Entry>)
    requires Ended(sg)
    ensures sg[0].last <==> |sg| == 1
    ensures |sg| > 1 ==> Ended(sg[1..])
    ensures Bytes(sg) == EntryBytes(sg[0]) + Bytes(sg[1..])
  {
  }

  /** Moving the start of an entry by n bytes drops n bytes, also when the offset runs
      over the page and the entry is rewritten to start in a later one. */
  lemma EntryDrop(e: Entry, n: nat)
    requires n <= e.length
    ensures EntryBytes(Entry(e.page, e.offset + n, e.length - n, e.last)) == EntryBytes(e)[n..]
    ensures var o := e.offset + n;
      EntryBytes(Entry(e.page + o / PAGE_SIZE, o % PAGE_SIZE, e.length - n, e.last)) == EntryBytes(e)[n..]
  {
  }

  /** sg_advance on the list in entries i to j: the entry it starts at now, or -1 (NULL)
      when nothing is left. */
  method Advance(sg: array<Entry>, i: nat, ghost j: nat, consumed: nat) returns (k: int)
    requires i < j <= sg.Length && Ended(sg[i..j])
    modifies sg
    ensures k == -1 <==> consumed >= |old(Bytes(sg[i..j]))|
    ensures k != -1 ==> i <= k < j && Ended(sg[k..j])
    ensures k != -1 ==> Bytes(sg[k..j]) == old(Bytes(sg[i..j]))[consumed..]
    ensures forall q :: 0 <= q < sg.Length && q != k ==> sg[q] == old(sg[q])
  {
    hide Bytes, EntryBytes, Ended;
    ghost var all := Bytes(sg[i..j]);
    var left := consumed;
    k := i;
    while k != -1 && left >= sg[k].length
      invariant 0 <= left <= consumed
      invariant k != -1 ==> i <= k < j && Ended(sg[k..j])
      invariant k != -1 ==> consumed - left <= |all| && Bytes(sg[k..j]) == all[consumed - left..]
      invariant k == -1 ==> consumed >= |all|
      invariant forall q :: 0 <= q < sg.Length ==> sg[q] == old(sg[q])
      decreases if k == -1 then 0 else j - k
    {
      EndedTail(sg[k..j]);
      EntryLength(sg[k]);
      assert sg[k..j][1..] == sg[k + 1..j];
      left := left - sg[k].length;
      if sg[k].last {
        NoEntries();
        assert sg[k + 1..j] == [];
        k := -1;
      } else {
        k := k + 1;
      }
    }
    if k != -1 {
      EndedTail(sg[k..j]);
      EntryLength(sg[k]);
      MoveStart(sg, k, j, left);
      assert all[consumed - left..][left..] == all[consumed..];
    }
  }

  /** The end of sg_advance: the entry that still has bytes starts further in. */
  method MoveStart(sg: array<Entry>, k: nat, ghost j: nat, left: nat)
    requires k < j <= sg.Length && Ended(sg[k..j]) && left < sg[k].length
    modifies sg
    ensures Ended(sg[k..j]) && left <= |old(Bytes(sg[k..j]))| && Bytes(sg[k..j]) == old(Bytes(sg[k..j]))[left..]
    ensures forall q :: 0 <= q < sg.Length && q != k ==> sg[q] == old(sg[q])
  {
    hide Bytes, EntryBytes, Ended;
    ghost var e, list := sg[k], sg[k..j];
    EntryDrop(e, left);
    sg[k] := sg[k].(offset := sg[k].offset + left, length := sg[k].length - left);
    if sg[k].offset >= PAGE_SIZE {
      SetPage(sg, k, sg[k].page + sg[k].offset / PAGE_SIZE, sg[k].length, sg[k].offset % PAGE_SIZE);
    }
    assert sg[k..j] == [sg[k]] + list[1..];
    HeadChanges(list, sg[k], left);
  }

  lemma HeadChanges(list: seq<Entry>, e: Entry, left: nat)
    requires Ended(list) && e.last == list[0].last && left <= list[0].length
    requires EntryBytes(e) == EntryBytes(list[0])[left..]
    ensures Ended([e] + list[1..])
    ensures left <= |Bytes(list)| && Bytes([e] + list[1..]) == Bytes(list)[left..]
  {
    EndedUpdate(list, e);
    EndedTail(list);
    hide Bytes, EntryBytes, Ended;
    EntryLength(list[0]);
    BytesAppend([e], list[1..]);
    BytesOne(e);
  }

  lemma EndedUpdate(sg: seq<Entry>, e: Entry)
    requires Ended(sg) && e.last == sg[0].last
    ensures Ended([e] + sg[1..])
  {
  }

  lemma EntryLength(e: Entry)
    ensures |EntryBytes(e)| == e.length
  {
  }

  lemma NoEntries()
    ensures Bytes([]) == []
  {
  }

  /** sg_set_page with the first `length` bytes of another entry. */
  method PutCopy(sg: array<Entry>, a: nat, to: nat, from: nat, length: nat)
    requires from < a <= to < sg.Length && length <= sg[from].length
    modifies sg
    ensures Bytes(sg[a..to + 1]) == old(Bytes(sg[a..to])) + EntryBytes(old(sg[from]))[..length]
    ensures sg[to].last == old(sg[to].last) && sg[to].length == length
    ensures forall q :: 0 <= q < sg.Length && q != to ==> sg[q] == old(sg[q])
  {
    hide Bytes, EntryBytes;
    ghost var copied := sg[a..to];
    SetPage(sg, to, sg[from].page, length, sg[from].offset);
    assert sg[a..to + 1] == copied + [sg[to]];
    BytesAppend(copied, [sg[to]]);
    BytesOne(sg[to]);
    EntryTake(sg[to], sg[from], length);
  }

  /** sg_copy of the first n bytes of the list i to j into the cleared table a to b; `end`
      is where the copy stops. */
  method Copy(sg: array<Entry>, i: nat, ghost j: nat, a: nat, ghost b: nat, n: nat) returns (err: int, ghost end: nat)
    requires i < j <= a < b <= sg.Length && b - a >= j - i
    requires Ended(sg[i..j])
    requires forall q :: a <= q < b ==> sg[q].length == 0 && (sg[q].last <==> q == b - 1)
    modifies sg
    ensures err == if n <= |old(Bytes(sg[i..j]))| then 0 else -ENOMEM
    ensures err == 0 ==> a < end <= b && Ended(sg[a..end]) && Bytes(sg[a..end]) == old(Bytes(sg[i..j]))[..n]
    ensures forall q :: 0 <= q < sg.Length && !(a <= q < b) ==> sg[q] == old(sg[q])
  {
    hide Bytes, EntryBytes;
    ghost var all, source := Bytes(sg[i..j]), sg[i..j];
    var from, to, left := i, a, n;
    NoEntries();
    assert sg[a..a] == [];
    end := a;
    while left > sg[from].length
      invariant i <= from < j && to - a == from - i
      invariant 0 <= left <= n <= left + |all|
      invariant Bytes(source[from - i..]) == all[n - left..]
      invariant Bytes(sg[a..to]) == all[..n - left]
      invariant forall q :: to <= q < b ==> sg[q].length == 0
      invariant forall q :: a <= q < b ==> (sg[q].last <==> q == b - 1)
      invariant forall q :: 0 <= q < sg.Length && !(a <= q < b) ==> sg[q] == old(sg[q])
      decreases j - from
    {
      assert sg[from] == source[from - i];
      CopyEntry(source, from - i);
      EntryLength(sg[from]);
      left := left - sg[from].length;
      PutCopy(sg, a, to, from, sg[from].length);
      if sg[from].last {
        err := -ENOMEM;
        return;
      }
      to := to + 1;
      from := from + 1;
    }
    assert sg[from] == source[from - i];
    CopyEntry(source, from - i);
    EntryLength(sg[from]);
    FinishCopy(sg, a, to, from, left);
    end := to + 1;
    err := 0;
  }

  /** The end of sg_copy: what is left of the last entry, and the end mark. */
  method FinishCopy(sg: array<Entry>, a: nat, to: nat, from: nat, left: nat)
    requires from < a <= to < sg.Length && left <= sg[from].length && sg[to].length == 0
    requires forall q :: a <= q < to ==> !sg[q].last
    modifies sg
    ensures Ended(sg[a..to + 1]) && Bytes(sg[a..to + 1]) == old(Bytes(sg[a..to])) + EntryBytes(old(sg[from]))[..left]
    ensures forall q :: 0 <= q < sg.Length && q != to ==> sg[q] == old(sg[q])
  {
    hide Bytes, EntryBytes;
    if left > 0 {
      PutCopy(sg, a, to, from, left);
    } else {
      CopyNothing(sg[a..to + 1], to - a);
      assert sg[a..to + 1][..to - a] == sg[a..to];
    }
    ghost var done := sg[a..to + 1];
    sg[to] := sg[to].(last := true);
    MarkEnd(done, sg[a..to + 1]);
  }

  lemma CopyNothing(sg: seq<Entry>, k: nat)
    requires |sg| == k + 1 && sg[k].length == 0
    ensures Bytes(sg) == Bytes(sg[..k])
  {
    SurplusPages(sg, k);
  }

  /** The end mark does not change what a list denotes. */
  lemma MarkEnd(a: seq<Entry>, b: seq<Entry>)
    requires a != [] && |a| == |b| && b == a[|a| - 1 := a[|a| - 1].(last := true)]
    ensures Bytes(a) == Bytes(b)
  {
    hide Bytes;
    var k := |a| - 1;
    assert a == a[..k] + [a[k]] && b == a[..k] + [b[k]];
    BytesAppend(a[..k], [a[k]]);
    BytesAppend(a[..k], [b[k]]);
    BytesOne(a[k]);
    BytesOne(b[k]);
    SameBytes(a[k], b[k]);
  }

  lemma CopyEntry(source: seq<Entry>, k: nat)
    requires Ended(source) && k < |source|
    ensures Bytes(source[k..]) == EntryBytes(source[k]) + Bytes(source[k + 1..])
    ensures source[k].last <==> k == |source| - 1
    ensures source[k].last ==> Bytes(source[k + 1..]) == []
  {
    assert source[k..][1..] == source[k + 1..];
  }

  lemma EntryTake(copy: Entry, e: Entry, n: nat)
    requires n <= e.length && copy.length == n
    requires n > 0 ==> copy.page == e.page && copy.offset == e.offset
    ensures EntryBytes(copy) == EntryBytes(e)[..n]
  {
  }

  // ---------------------------------------------------------------------------
  // The session's page lists
  // ---------------------------------------------------------------------------

  /** A list inside the session's table, from its first entry up to its end mark. */
  ghost predicate ListDenotes(sg: array<Entry>, at: nat, end: nat, bytes: seq<int>)
    reads sg
  {
    at < end <= sg.Length && Ended(sg[at..end]) && Bytes(sg[at..end]) == bytes
  }

  lemma UserBytesDrop(m: Mapping, address: nat, n: nat, k: nat)
    requires k <= n
    ensures UserBytes(m, address, n)[k..] == UserBytes(m, address + k, n - k)
  {
  }

  /** PAGECOUNT of a buffer, after the length of a missing one has been set to zero. */
  function Pages(address: nat, length: nat): nat {
    PageCount(address, if address == 0 then 0 else length)
  }

  lemma NoPages(address: nat)
    ensures PageCount(address, 0) == 0
  {
  }

  method OnlyList(m: Mapping, address: nat, n: nat, sg: array<Entry>)
    requires address > 0 && n > 0 && PageCount(address, n) <= sg.Length
    modifies sg
    ensures ListDenotes(sg, 0, PageCount(address, n), UserBytes(m, address, n))
  {
    hide Bytes, UserBytes, PageCount, WithinPage;
    AtLeastOnePage(address, n);
    GetUserPages(m, address, n, PageCount(address, n), sg, 0);
  }

  /** One list for a buffer that is read and written in place. */
  method OneList(m: Mapping, address: nat, n: nat, other: nat, pages: nat, sg: array<Entry>)
    requires address > 0 && n > 0 && PageCount(address, n) <= pages <= sg.Length
    modifies sg
    ensures ListDenotes(sg, 0, pages, UserBytes(m, address, n))
    ensures ListDenotes(sg, 0, pages, UserBytes(m, address, other)) <==> n == other
  {
    hide Bytes, UserBytes, PageCount, WithinPage;
    AtLeastOnePage(address, n);
    GetUserPages(m, address, n, pages, sg, 0);
  }

  /** Two buffers, one behind the other in the table. */
  method TwoLists(m: Mapping, src: nat, srcLen: nat, dst: nat, dstLen: nat, sg: array<Entry>)
    requires src > 0 && srcLen > 0 && dst > 0 && dstLen > 0 && PageCount(src, srcLen) + PageCount(dst, dstLen) <= sg.Length
    modifies sg
    ensures var p, q := PageCount(src, srcLen), PageCount(src, srcLen) + PageCount(dst, dstLen);
      && ListDenotes(sg, 0, p, UserBytes(m, src, srcLen))
      && ListDenotes(sg, p, q, UserBytes(m, dst, dstLen))
  {
    hide Bytes, UserBytes, PageCount, Ended, WithinPage;
    AtLeastOnePage(src, srcLen);
    AtLeastOnePage(dst, dstLen);
    var p, q := PageCount(src, srcLen), PageCount(dst, dstLen);
    GetUserPages(m, src, srcLen, p, sg, 0);
    ghost var first := sg[0..p];
    GetUserPages(m, dst, dstLen, q, sg, p);
    assert sg[0..p] == first;
  }

  /** The list of the authenticated data, and behind it the list of its tail. */
  method ListAndTail(m: Mapping, address: nat, n: nat, diff: nat, sg: array<Entry>) returns (k: int, ghost end: nat)
    requires address > 0 && n > 0 && 2 * PageCount(address, n) <= sg.Length
    modifies sg
    ensures ListDenotes(sg, 0, PageCount(address, n), UserBytes(m, address, n))
    ensures k == -1 <==> diff >= n
    ensures k != -1 ==> PageCount(address, n) <= k && ListDenotes(sg, k, end, UserBytes(m, address + diff, n - diff))
  {
    hide Bytes, UserBytes, PageCount, WithinPage;
    AtLeastOnePage(address, n);
    var pages := PageCount(address, n);
    GetUserPages(m, address, n, pages, sg, 0);
    ghost var auth := sg[0..pages];
    InitTable(sg, pages, pages);
    assert sg[0..pages] == auth;
    var err;
    err, end := Copy(sg, 0, pages, pages, 2 * pages, n);
    assert sg[0..pages] == auth;
    assert UserBytes(m, address, n)[..n] == UserBytes(m, address, n);
    hide Ended;
    k := Advance(sg, pages, end, diff);
    assert sg[0..pages] == auth;
    if k != -1 {
      UserBytesDrop(m, address, n, diff);
    }
  }

  class Session {
    var sg: array<Entry>
    var arraySize: nat
    var usedPages: nat
    var readonlyPages: nat

    ghost predicate Valid()
      reads this
    {
      sg.Length == arraySize > 0
    }

    constructor (size: nat)
      requires size > 0
      ensures Valid() && arraySize == size && fresh(sg)
    {
      sg := new Entry[size](_ => Entry(0, 0, 0, false));
      arraySize, usedPages, readonlyPages := size, 0, 0;
    }

    /** adjust_sg_array: doubles until it is large enough. */
    method AdjustArray(pagecount: nat)
      requires Valid()
      modifies this
      ensures Valid() && arraySize >= pagecount && arraySize >= old(arraySize)
      ensures arraySize == old(arraySize) || arraySize < 2 * pagecount
      ensures fresh(sg) && sg[..old(arraySize)] == old(sg[..])
      ensures usedPages == old(usedPages) && readonlyPages == old(readonlyPages)
    {
      var size := arraySize;
      while size < pagecount
        invariant size >= old(arraySize) && size > 0
        invariant size == old(arraySize) || size < 2 * pagecount
        decreases pagecount - size
      {
        size := size * 2;
      }
      var was := sg;
      sg := new Entry[size](k requires 0 <= k < size reads was => if k < was.Length then was[k] else Entry(0, 0, 0, false));
      arraySize := size;
    }

    /** get_userbuf; address 0 stands for NULL, and buffers that are there are not empty. Done in
        place, one list serves both, so the output is covered only if it is as long as the input. */
    method GetUserbuf(m: Mapping, src: nat, srcLength: nat, dst: nat, dstLength: nat)
      returns (srcAt: Option<nat>, dstAt: Option<nat>, ghost srcEnd: nat, ghost dstEnd: nat)
      requires Valid() && (src > 0 ==> srcLength > 0) && (dst > 0 ==> dstLength > 0)
      modifies this, sg
      ensures Valid()
      ensures src == dst ==> srcAt.Some? && srcAt == dstAt && srcEnd == dstEnd
      ensures src != dst ==> (srcAt.Some? <==> src > 0) && (dstAt.Some? <==> dst > 0)
      ensures src > 0 ==> ListDenotes(sg, srcAt.value, srcEnd, UserBytes(m, src, srcLength))
      ensures src != dst && dst > 0 ==> ListDenotes(sg, dstAt.value, dstEnd, UserBytes(m, dst, dstLength))
      ensures src != dst && src > 0 && dst > 0 ==> srcEnd <= dstAt.value
      ensures src == dst > 0 ==>
        (ListDenotes(sg, dstAt.value, dstEnd, UserBytes(m, dst, dstLength)) <==> srcLength == dstLength)
      ensures var p, q := Pages(src, srcLength), Pages(dst, dstLength);
        && readonlyPages == (if src == dst then 0 else p)
        && usedPages == if src != dst then p + q else if p < q then q else p
    {
      hide UserBytes, PageCount, ListDenotes;
      var srcLen, dstLen := if src == 0 then 0 else srcLength, if dst == 0 then 0 else dstLength;
      var srcPages, dstPages := PageCount(src, srcLen), PageCount(dst, dstLen);
      NoPages(src);
      usedPages := if src == dst then (if srcPages < dstPages then dstPages else srcPages) else srcPages + dstPages;
      readonlyPages := if src == dst then 0 else srcPages;
      if usedPages > arraySize {
        AdjustArray(usedPages);
      }
      srcAt, dstAt, srcEnd, dstEnd := None, None, 0, 0;
      if src == dst {
        if src == 0 {
          sg[0] := sg[0].(last := true);
        } else {
          OneList(m, src, srcLen, dstLen, usedPages, sg);
        }
        srcAt, dstAt, srcEnd, dstEnd := Some(0), Some(0), usedPages, usedPages;
      } else if src > 0 && dst > 0 {
        TwoLists(m, src, srcLen, dst, dstLen, sg);
        srcAt, dstAt, srcEnd, dstEnd := Some(0), Some(readonlyPages), readonlyPages, usedPages;
      } else if src > 0 {
        OnlyList(m, src, srcLen, sg);
        srcAt, srcEnd := Some(0), readonlyPages;
      } else {
        OnlyList(m, dst, dstLen, sg);
        dstAt, dstEnd := Some(0), usedPages;
      }
    }

    /** get_userbuf_srtp: one list for the authenticated data, and a second one for the
        part of it that starts at `src`, on entries of its own. */
    method GetUserbufSrtp(m: Mapping, dst: nat, src: nat, authSrc: nat, authLen: nat, dstLen: nat)
      returns (rc: int, authAt: nat, dstAt: nat, ghost authEnd: nat, ghost dstEnd: nat)
      requires Valid() && (authSrc == 0 ==> dst == 0)
      modifies this, sg
      ensures Valid()
      ensures rc == 0 <==> authSrc > 0 && dstLen > 0 && 0 <= src - authSrc <= 256
                           && src - authSrc < authLen
      ensures rc != 0 ==> rc == -EINVAL
      ensures rc == 0 ==> ListDenotes(sg, authAt, authEnd, UserBytes(m, authSrc, authLen))
      ensures rc == 0 ==> ListDenotes(sg, dstAt, dstEnd, UserBytes(m, src, authLen - (src - authSrc)))
      ensures rc == 0 ==> authEnd <= dstAt
    {
      hide ListDenotes, UserBytes, PageCount;
      rc, authAt, dstAt, authEnd, dstEnd := -EINVAL, 0, 0, 0, 0;
      if dst == 0 && authSrc == 0 {
        return;
      }
      if dstLen == 0 || authLen == 0 {
        return;
      }
      var pages := PageCount(authSrc, authLen);
      var diff := src - authSrc;
      if diff > MAX_SRTP_AUTH_DATA_DIFF || diff < 0 {
        return;
      }
      AdjustArray(pages * 2);
      usedPages, readonlyPages := pages, 0;
      AtLeastOnePage(authSrc, authLen);
      var k, end := ListAndTail(m, authSrc, authLen, diff, sg);
      if k == -1 {
        usedPages := 0;
        return;
      }
      rc, dstAt, authEnd, dstEnd := 0, k, pages, end;
    }
  }
}
