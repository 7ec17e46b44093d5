/** Arrays written in run-length text: blocks of zeros, of ones and of plain bits, each with
    its length in up to five characters. Both decoders, the one over the statement buffer
    and the one over the input stream, give back the bits of every such text. */
module JamRlc {
  import opened Bits
  import opened Options
  import opened BitArrays
  import opened AcaFormat
  import JamComp
  import opened JamText
  import opened JamAca

  datatype Kind = ConstantZeros | ConstantOnes | RandomBits

  /** jam_rlc_key_char */
  function KeyChar(ch: int): (r: Option<(Kind, nat)>)
    ensures r.Some? ==> 1 <= r.value.1 <= 5
  {
    if 'A' as int <= ch <= 'E' as int then Some((ConstantZeros, ch + 1 - 'A' as int))
    else if 'I' as int <= ch <= 'M' as int then Some((ConstantOnes, ch + 1 - 'I' as int))
    else if 'Q' as int <= ch <= 'U' as int then Some((RandomBits, ch + 1 - 'Q' as int))
    else None
  }

  /** A to E begin zeros, I to M ones and Q to U plain bits, with one to five characters of
      length; nothing else begins a block. */
  lemma KeysOfBlocks(ch: int)
    ensures forall n: nat :: 1 <= n <= 5 ==>
      && KeyChar("ABCDE"[n - 1] as int) == Some((ConstantZeros, n))
      && KeyChar("IJKLM"[n - 1] as int) == Some((ConstantOnes, n))
      && KeyChar("QRSTU"[n - 1] as int) == Some((RandomBits, n))
    ensures KeyChar(ch).Some? ==> exists c :: c in "ABCDEIJKLMQRSTU" && ch == c as int
  {
    if KeyChar(ch).Some? {
      assert ch as char in "ABCDEIJKLMQRSTU";
    }
  }

  // ---------------------------------------------------------------------------
  // The writer
  // ---------------------------------------------------------------------------

  /** A block of bits, all equal unless its kind is RandomBits, with the number of characters
      its length is written in, and the characters of a random block. */
  datatype Block = Block(kind: Kind, bits: seq<bool>, size: nat, chars: seq<byte>)

  /** Six bits to a character, lowest first; the last one may carry anything in what is left
      of it. */
  predicate Spelt(chars: seq<byte>, bits: seq<bool>) {
    |chars| == (|bits| + 5) / 6 && forall i :: 0 <= i < |bits| ==> SpeltAt(chars, bits, i)
  }

  predicate SpeltAt(chars: seq<byte>, bits: seq<bool>, i: nat)
    requires i < |bits| && |chars| == (|bits| + 5) / 6
  {
    SixBit(chars[i / 6]).Some? && Bit(SixBit(chars[i / 6]).value, i % 6) == bits[i]
  }

  function Pow64(n: nat): (p: nat)
    ensures p > 0
  {
    if n == 0 then 1 else 64 * Pow64(n - 1)
  }

  predicate Legal(b: Block) {
    && 1 <= b.size <= 5 && |b.bits| < Pow64(b.size)
    && (b.kind == ConstantZeros ==> forall i :: 0 <= i < |b.bits| ==> !b.bits[i])
    && (b.kind == ConstantOnes ==> forall i :: 0 <= i < |b.bits| ==> b.bits[i])
    && (b.kind == RandomBits ==> Spelt(b.chars, b.bits))
  }

  function Key(kind: Kind, size: nat): byte
    requires 1 <= size <= 5
  {
    match kind
    case ConstantZeros => 'A' as int + (size - 1)
    case ConstantOnes => 'I' as int + (size - 1)
    case RandomBits => 'Q' as int + (size - 1)
  }

  /** Base 64, most significant character first. */
  function CountText(n: nat, size: nat): (text: seq<byte>)
    ensures |text| == size
    decreases n, size
  {
    if size == 0 then [] else CountText(n / 64, size - 1) + [SixBitChar(n % 64)]
  }

  function BlockText(b: Block): seq<byte>
    requires Legal(b)
  {
    [Key(b.kind, b.size)] + CountText(|b.bits|, b.size) + if b.kind == RandomBits then b.chars else []
  }

  /** An example by hand: B10 stands for 64 zeros, highest digit first. */
  lemma SixtyFourZeros()
    ensures var zeros := Block(ConstantZeros, seq(64, _ => false), 2, []);
      Legal(zeros) && BlockText(zeros) == ['B' as int, '1' as int, '0' as int]
  {
    var zeros := Block(ConstantZeros, seq(64, _ => false), 2, []);
    assert Pow64(2) == 64 * (64 * Pow64(0));
    assert Legal(zeros);
    SixBitIsPlace(1);
    SixBitIsPlace(0);
    hide SixBitChar;
    assert CountText(64, 2) == CountText(1, 1) + [SixBitChar(0)];
    assert CountText(1, 1) == CountText(0, 0) + [SixBitChar(1)];
  }

  function Text(blocks: seq<Block>): seq<byte>
    requires forall i :: 0 <= i < |blocks| ==> Legal(blocks[i])
  {
    if blocks == [] then [] else BlockText(blocks[0]) + Text(blocks[1..])
  }

  function BitsOf(blocks: seq<Block>): seq<bool> {
    if blocks == [] then [] else blocks[0].bits + BitsOf(blocks[1..])
  }

  /** Every block starts before the array is full, and together they fill it. */
  predicate Fits(blocks: seq<Block>, room: nat) {
    if blocks == [] then room == 0
    else Legal(blocks[0]) && room > 0 && |blocks[0].bits| <= room && Fits(blocks[1..], room - |blocks[0].bits|)
  }

  lemma {:induction false} FittingIsLegal(blocks: seq<Block>, room: nat)
    requires Fits(blocks, room)
    ensures |BitsOf(blocks)| == room
    ensures forall i :: 0 <= i < |blocks| ==> Legal(blocks[i])
  {
    hide Legal;
    if blocks != [] {
      FittingIsLegal(blocks[1..], room - |blocks[0].bits|);
      assert forall i :: 1 <= i < |blocks| ==> blocks[i] == blocks[1..][i - 1];
    }
  }

  // ---------------------------------------------------------------------------
  // Reading characters
  // ---------------------------------------------------------------------------

  /** The value of count characters, None when one of them is illegal. */
  function CountValue(text: seq<byte>): Option<nat> {
    if text == [] then Some(0)
    else
      match (CountValue(text[..|text| - 1]), SixBit(text[|text| - 1]))
      case (Some(high), Some(low)) => Some(64 * high + low)
      case _ => None
  }

  lemma {:induction false} CountRoundTrip(n: nat, size: nat)
    requires n < Pow64(size)
    ensures CountValue(CountText(n, size)) == Some(n)
    decreases size
  {
    if size != 0 {
      CountRoundTrip(n / 64, size - 1);
      assert CountText(n, size)[..size - 1] == CountText(n / 64, size - 1);
    }
  }

  lemma {:induction false} CountPrefix(text: seq<byte>, n: nat)
    requires n <= |text| && CountValue(text).Some?
    ensures CountValue(text[..n]).Some? && (n < |text| ==> SixBit(text[n]).Some?)
    decreases |text|
  {
    hide SixBit;
    if n < |text| {
      var init := text[..|text| - 1];
      CountPrefix(init, n);
      assert init[..n] == text[..n] && (n < |init| ==> init[n] == text[n]);
    } else {
      assert text[..n] == text;
    }
  }

  lemma CountSnoc(text: seq<byte>, n: nat)
    requires n < |text| && CountValue(text).Some?
    ensures CountValue(text[..n]).Some? && SixBit(text[n]).Some?
    ensures CountValue(text[..n + 1]) == Some(64 * CountValue(text[..n]).value + SixBit(text[n]).value)
  {
    hide SixBit, CountValue;
    CountPrefix(text, n);
    var upTo := text[..n + 1];
    assert upTo[..|upTo| - 1] == text[..n];
    CountStep(upTo);
  }

  lemma CountStep(text: seq<byte>)
    requires text != [] && CountValue(text[..|text| - 1]).Some? && SixBit(text[|text| - 1]).Some?
    ensures CountValue(text)
      == Some(64 * CountValue(text[..|text| - 1]).value + SixBit(text[|text| - 1]).value)
  {
    hide SixBit;
  }

  /** `count |= value` after `count <<= 6`, which the stream version writes as a sum. */
  lemma ShiftAndOr(count: nat, value: nat)
    requires value < 64
    ensures Or(value, Shl(count, 6)) == 64 * count + value
  {
    Pow2Values();
    assert Pow2(6) == 64;
    OrDisjoint(value, count, 6);
  }

  /** Where a bit of the writer's text is found. */
  lemma {:induction false} SixTextBit(bits: seq<bool>, i: nat)
    requires i < |bits|
    ensures i / 6 < |SixText(bits)|
    ensures SixBit(SixText(bits)[i / 6]).Some? && Bit(SixBit(SixText(bits)[i / 6]).value, i % 6) == bits[i]
    decreases |bits|
  {
    hide BitsValue, SixBit, Bit, SixText, Six;
    SixTextLength(bits);
    if i < 6 {
      FirstSix(bits, i);
    } else {
      SixTextTail(bits);
      SixTextBit(bits[6..], i - 6);
      assert i / 6 == (i - 6) / 6 + 1;
    }
  }

  lemma FirstSix(bits: seq<bool>, i: nat)
    requires i < |bits| && i < 6
    ensures SixText(bits) != [] && SixBit(SixText(bits)[0]).Some?
    ensures Bit(SixBit(SixText(bits)[0]).value, i) == bits[i]
  {
    hide BitsValue, SixBit, Bit;
    Pow2Values();
    assert Pow2(6) == 64;
    BitsValueBit(Six(bits), i);
  }

  lemma SixTextTail(bits: seq<bool>)
    requires |bits| > 6
    ensures SixText(bits) != [] && SixText(bits)[1..] == SixText(bits[6..])
  {
    hide BitsValue, Six;
  }

  lemma {:induction false} SixTextLength(bits: seq<bool>)
    ensures |SixText(bits)| == (|bits| + 5) / 6
    decreases |bits|
  {
    if bits != [] {
      SixTextLength(bits[JamComp.Min(6, |bits|)..]);
    }
  }

  /** Random blocks can be written: the spare bits are zero here. */
  lemma EveryBlockIsSpelt(bits: seq<bool>)
    ensures Spelt(SixText(bits), bits)
  {
    hide SixText, SixBit, Bit;
    SixTextLength(bits);
    forall i | 0 <= i < |bits| ensures SpeltAt(SixText(bits), bits, i) {
      SixTextBit(bits, i);
    }
  }

  // ---------------------------------------------------------------------------
  // Storing bits
  // ---------------------------------------------------------------------------

  ghost predicate Stored(heap: array<word>, bits: seq<bool>)
    reads heap
  {
    |bits| <= 32 * heap.Length && forall q: nat :: q < |bits| ==> WordBit(heap, q) == bits[q]
  }

  method StoreNext(heap: array<word>, address: nat, b: bool, ghost bits: seq<bool>)
    requires Stored(heap, bits) && |bits| == address < 32 * heap.Length
    modifies heap
    ensures Stored(heap, bits + [b])
  {
    hide WordBit;
    PutWordBit(heap, address, b);
  }

  /** The loop of a constant block. */
  method StoreRun(heap: array<word>, start: nat, count: nat, b: bool, ghost done: seq<bool>, ghost block: seq<bool>)
    returns (address: nat)
    requires Stored(heap, done) && |done| == start && start + count <= 32 * heap.Length
    requires |block| == count && forall i :: 0 <= i < count ==> block[i] == b
    modifies heap
    ensures address == start + count && Stored(heap, done + block)
  {
    hide Stored;
    address := start;
    assert done + block[..0] == done;
    for bit := 0 to count
      invariant address == start + bit && Stored(heap, done + block[..bit])
    {
      StoreNext(heap, address, b, done + block[..bit]);
      assert done + block[..bit] + [b] == done + block[..bit + 1];
      address := address + 1;
    }
    assert block[..count] == block;
  }

  // ---------------------------------------------------------------------------
  // From the statement buffer
  // ---------------------------------------------------------------------------

  method ReadCount(buffer: array<byte>, start: nat, size: nat, ghost chars: seq<byte>) returns (ok: bool, count: nat)
    requires start + size <= buffer.Length && buffer[start..start + size] == chars
    requires CountValue(chars).Some?
    ensures ok && count == CountValue(chars).value
  {
    hide SixBit;
    ok, count := true, 0;
    assert chars[..0] == [];
    for j := 0 to size
      invariant ok && CountValue(chars[..j]) == Some(count)
    {
      CountSnoc(chars, j);
      assert buffer[start + j] == chars[j];
      count := Shl(count, 6);
      var value := SixBit(buffer[start + j]);
      match value
      case None => ok := false;
      case Some(v) =>
        ShiftAndOr(CountValue(chars[..j]).value, v);
        count := Or(v, count);
    }
    assert chars[..size] == chars;
  }

  /** The loop of a random block. */
  method StoreRandom(heap: array<word>, buffer: array<byte>, index: nat, start: nat, count: nat,
      ghost done: seq<bool>, ghost block: seq<bool>, ghost chars: seq<byte>)
    returns (ok: bool, address: nat)
    requires Stored(heap, done) && |done| == start && start + count <= 32 * heap.Length && |block| == count
    requires Spelt(chars, block)
    requires index + |chars| <= buffer.Length && buffer[index..index + |chars|] == chars
    requires heap != buffer as object
    modifies heap
    ensures ok && address == start + count && Stored(heap, done + block)
  {
    hide Stored, SixBit, Bit;
    ok, address := true, start;
    assert done + block[..0] == done;
    for bit := 0 to count
      invariant ok && address == start + bit && Stored(heap, done + block[..bit])
    {
      assert SpeltAt(chars, block, bit);
      assert buffer[index + bit / 6] == chars[bit / 6];
      var value := SixBit(buffer[index + bit / 6]);
      match value
      case None => ok := false;
      case Some(v) =>
        StoreNext(heap, address, Bit(v, bit % 6), done + block[..bit]);
        assert done + block[..bit] + [block[bit]] == done + block[..bit + 1];
        address := address + 1;
    }
    assert block[..count] == block;
  }

  lemma KeyIsRead(kind: Kind, size: nat)
    requires 1 <= size <= 5
    ensures KeyChar(Key(kind, size)) == Some((kind, size))
  {
  }

  lemma BlockParts(b: Block)
    requires Legal(b)
    ensures var text := BlockText(b);
      && text[0] == Key(b.kind, b.size)
      && text[1..1 + b.size] == CountText(|b.bits|, b.size)
      && text[1 + b.size..] == if b.kind == RandomBits then b.chars else []
  {
    hide CountText, Spelt, Key;
  }

  /** What a decoder finds at the start of a block. */
  lemma BlockFacts(b: Block)
    requires Legal(b)
    ensures var text := BlockText(b);
      && |text| == 1 + b.size + (if b.kind == RandomBits then |b.chars| else 0)
      && KeyChar(text[0]) == Some((b.kind, b.size))
      && text[1..1 + b.size] == CountText(|b.bits|, b.size)
      && CountValue(CountText(|b.bits|, b.size)) == Some(|b.bits|)
      && (b.kind == RandomBits ==> text[1 + b.size..] == b.chars && Spelt(b.chars, b.bits))
      && (b.kind == ConstantZeros ==> forall i :: 0 <= i < |b.bits| ==> !b.bits[i])
      && (b.kind == ConstantOnes ==> forall i :: 0 <= i < |b.bits| ==> b.bits[i])
    ensures b.kind == RandomBits ==> |b.chars| == (|b.bits| + 5) / 6
  {
    hide CountText, CountValue, SpeltAt;
    BlockParts(b);
    KeyIsRead(b.kind, b.size);
    CountRoundTrip(|b.bits|, b.size);
  }

  lemma Slice(buffer: array<byte>, start: nat, text: seq<byte>, i: nat, j: nat)
    requires start + |text| <= buffer.Length && buffer[start..start + |text|] == text
    requires i <= j <= |text|
    ensures buffer[start + i..start + j] == text[i..j]
  {
    forall q | i <= q < j ensures buffer[start + q] == text[q] {
      assert buffer[start..start + |text|][q] == text[q];
    }
  }

  /** One block of the statement buffer. */
  method ExtractBlock(heap: array<word>, buffer: array<byte>, start: nat, from: nat, ghost done: seq<bool>, ghost b: Block)
    returns (ok: bool, index: nat, address: nat)
    requires heap != buffer as object
    requires Legal(b) && start + |BlockText(b)| <= buffer.Length
    requires buffer[start..start + |BlockText(b)|] == BlockText(b)
    requires Stored(heap, done) && |done| == from && from + |b.bits| <= 32 * heap.Length
    modifies heap
    ensures ok && index == start + |BlockText(b)| && address == from + |b.bits|
    ensures Stored(heap, done + b.bits)
  {
    hide Stored, Spelt, CountValue, CountText, BlockText, Legal, KeyChar;
    ghost var text := BlockText(b);
    ghost var n := |b.bits|;
    BlockFacts(b);
    assert buffer[start] == text[0];
    var key := KeyChar(buffer[start]);
    ok, index, address := true, start, from;
    match key
    case None => ok := false;
    case Some((kind, size)) =>
      index := index + 1;
      Slice(buffer, start, text, 1, 1 + b.size);
      var count;
      ok, count := ReadCount(buffer, index, size, CountText(n, size));
      index := index + size;
      match kind {
        case ConstantZeros => address := StoreRun(heap, address, count, false, done, b.bits);
        case ConstantOnes => address := StoreRun(heap, address, count, true, done, b.bits);
        case RandomBits =>
          Slice(buffer, start, text, 1 + b.size, |text|);
          ok, address := StoreRandom(heap, buffer, index, address, count, done, b.bits, b.chars);
          index := index + count / 6 + if count % 6 != 0 then 1 else 0;
      }
  }

  /** These blocks and the semicolon stand at position p of a text. */
  predicate Ahead(s: seq<byte>, p: nat, left: seq<Block>)
    requires forall i :: 0 <= i < |left| ==> Legal(left[i])
  {
    p + |Text(left)| < |s| && s[p..p + |Text(left)|] == Text(left) && s[p + |Text(left)|] == SEMICOLON
  }

  lemma FirstAhead(s: seq<byte>, p: nat, left: seq<Block>)
    requires left != [] && (forall i :: 0 <= i < |left| ==> Legal(left[i])) && Ahead(s, p, left)
    ensures var end := p + |BlockText(left[0])|;
      && end < |s| && s[p..end] == BlockText(left[0])
      && (forall i :: 0 <= i < |left[1..]| ==> Legal(left[1..][i]))
      && Ahead(s, end, left[1..])
  {
    hide BlockText, Legal;
    var first, rest := BlockText(left[0]), Text(left[1..]);
    var all := s[p..p + |Text(left)|];
    assert all == first + rest;
    assert s[p..p + |first|] == all[..|first|];
    assert s[p + |first|..p + |first| + |rest|] == all[|first|..];
  }

  /** jam_extract_bool_run_length */
  method ExtractRlc(buffer: array<byte>, heap: array<word>, dimension: nat, ghost text: seq<byte>, ghost blocks: seq<Block>)
    returns (ok: bool)
    requires heap != buffer as object
    requires Holds(buffer, text) && heap.Length == WordsFor(dimension)
    requires Fits(blocks, dimension)
    requires forall i :: 0 <= i < |blocks| ==> Legal(blocks[i])
    requires Ahead(Squeezed(text), 0, blocks)
    modifies buffer, heap
    ensures ok && Stored(heap, BitsOf(blocks)) && |BitsOf(blocks)| == dimension
  {
    hide Stored, BlockText, WordsFor, Squeezed, Text, Ahead, Fits, Legal, BitsOf;
    RoomForBits(dimension);
    FittingIsLegal(blocks, dimension);
    Squeeze(buffer, text);
    ghost var left, done := blocks, [];
    assert done + BitsOf(blocks) == BitsOf(blocks);
    ghost var s := Squeezed(text);
    NothingStored(heap);
    ok := true;
    var index, address := 0, 0;
    while ok && address < dimension
      invariant ok && 0 <= index <= |s| && 0 <= address <= dimension
      invariant Fits(left, dimension - address) && |done| == address
      invariant forall i :: 0 <= i < |left| ==> Legal(left[i])
      invariant Ahead(s, index, left)
      invariant Stored(heap, done) && done + BitsOf(left) == BitsOf(blocks)
      invariant Holds(buffer, s)
      decreases |left|
    {
      FirstFits(left, dimension - address);
      ghost var b, rest := left[0], left[1..];
      FirstAhead(s, index, left);
      BitsOfFirst(done, left);
      Slice(buffer, 0, s, index, index + |BlockText(b)|);
      ok, index, address := ExtractBlock(heap, buffer, index, address, done, b);
      left, done := rest, done + b.bits;
    }
    NothingAhead(s, index, left, dimension - address);
    assert done + [] == done;
    if ok && buffer[index] != SEMICOLON {
      ok := false;
    }
    if ok && address != dimension {
      ok := false;
    }
  }

  lemma FirstFits(left: seq<Block>, room: nat)
    requires Fits(left, room) && room > 0
    ensures left != [] && Legal(left[0]) && |left[0].bits| <= room && Fits(left[1..], room - |left[0].bits|)
  {
    hide Legal;
  }

  lemma BitsOfFirst(done: seq<bool>, left: seq<Block>)
    requires left != []
    ensures done + BitsOf(left) == done + left[0].bits + BitsOf(left[1..])
  {
  }

  lemma NothingAhead(s: seq<byte>, p: nat, left: seq<Block>, room: nat)
    requires (forall i :: 0 <= i < |left| ==> Legal(left[i])) && Ahead(s, p, left)
    requires Fits(left, room) && room == 0
    ensures left == [] && p < |s| && s[p] == SEMICOLON && BitsOf(left) == []
  {
  }

  lemma NothingStored(heap: array<word>)
    ensures Stored(heap, [])
  {
  }

  // ---------------------------------------------------------------------------
  // From the input stream
  // ---------------------------------------------------------------------------

  /** The stream is about to deliver these characters, from number p of `s` on. */
  ghost predicate At(stream: CharStream, s: seq<byte>, p: nat)
    reads stream
  {
    p <= |s| && RealText(stream.input, stream.position) == s[p..]
  }

  method NextChar(stream: CharStream, ghost s: seq<byte>, ghost p: nat) returns (ch: int)
    requires At(stream, s, p) && p < |s|
    modifies stream
    ensures ch == s[p] && At(stream, s, p + 1)
  {
    hide NextReal, RealText;
    TextIsHeadAndRest(stream.input, stream.position);
    ch := stream.GetRealChar();
    assert s[p..][1..] == s[p + 1..];
  }

  method ReadCountChars(stream: CharStream, size: nat, ghost s: seq<byte>, ghost p: nat, ghost chars: seq<byte>)
    returns (ok: bool, count: nat)
    requires At(stream, s, p) && p + size <= |s| && s[p..p + size] == chars && CountValue(chars).Some?
    modifies stream
    ensures ok && count == CountValue(chars).value && At(stream, s, p + size)
  {
    hide SixBit, At;
    ok, count := true, 0;
    assert chars[..0] == [];
    for j := 0 to size
      invariant ok && CountValue(chars[..j]) == Some(count)
      invariant At(stream, s, p + j)
    {
      CountSnoc(chars, j);
      assert s[p + j] == chars[j];
      count := Shl(count, 6);
      var ch := NextChar(stream, s, p + j);
      match SixBit(ch)
      case None => ok := false;
      case Some(v) =>
        ShiftAndOr(CountValue(chars[..j]).value, v);
        OrDisjointSum(CountValue(chars[..j]).value, v);
        count := count + v;
    }
    assert chars[..size] == chars;
  }

  lemma OrDisjointSum(count: nat, v: nat)
    ensures Shl(count, 6) + v == 64 * count + v
  {
    assert Pow2(6) == 64;
  }

  method ReadRandom(heap: array<word>, stream: CharStream, start: nat, count: nat, ghost s: seq<byte>, ghost p: nat,
      ghost done: seq<bool>, ghost block: seq<bool>, ghost chars: seq<byte>)
    returns (ok: bool, address: nat)
    requires Stored(heap, done) && |done| == start && start + count <= 32 * heap.Length && |block| == count
    requires Spelt(chars, block)
    requires At(stream, s, p) && p + |chars| <= |s| && s[p..p + |chars|] == chars
    modifies heap, stream
    ensures ok && address == start + count && Stored(heap, done + block)
    ensures At(stream, s, p + |chars|)
  {
    hide Stored, SixBit, Bit, At;
    ok, address := true, start;
    var value: nat := 0;
    assert done + block[..0] == done;
    for bit := 0 to count
      invariant ok && address == start + bit && Stored(heap, done + block[..bit])
      invariant At(stream, s, p + (bit + 5) / 6)
      invariant bit % 6 != 0 ==> SixBit(chars[bit / 6]) == Some(value)
    {
      assert SpeltAt(chars, block, bit);
      assert s[p + bit / 6] == chars[bit / 6];
      if bit % 6 == 0 {
        var ch := NextChar(stream, s, p + bit / 6);
        match SixBit(ch)
        case None => ok := false;
        case Some(v) => value := v;
      }
      StoreNext(heap, address, Bit(value, bit % 6), done + block[..bit]);
      assert done + block[..bit] + [block[bit]] == done + block[..bit + 1];
      address := address + 1;
    }
    assert block[..count] == block;
  }

  /** One block of the stream. */
  method ReadBlock(heap: array<word>, stream: CharStream, from: nat, ghost s: seq<byte>, ghost p: nat,
      ghost done: seq<bool>, ghost b: Block)
    returns (ok: bool, address: nat)
    requires Legal(b) && At(stream, s, p) && p + |BlockText(b)| <= |s| && s[p..p + |BlockText(b)|] == BlockText(b)
    requires Stored(heap, done) && |done| == from && from + |b.bits| <= 32 * heap.Length
    modifies heap, stream
    ensures ok && address == from + |b.bits| && Stored(heap, done + b.bits)
    ensures At(stream, s, p + |BlockText(b)|)
  {
    hide Stored, Spelt, CountValue, CountText, At, BlockText, Legal, KeyChar;
    ghost var text := BlockText(b);
    ghost var n := |b.bits|;
    BlockFacts(b);
    SubText(s, p, text, 0, 1);
    SubText(s, p, text, 1, 1 + b.size);
    SubText(s, p, text, 1 + b.size, |text|);
    var ch := NextChar(stream, s, p);
    ok, address := true, from;
    match KeyChar(ch)
    case None => ok := false;
    case Some((kind, size)) =>
      var count;
      ok, count := ReadCountChars(stream, size, s, p + 1, CountText(n, b.size));
      match kind {
        case ConstantZeros => address := StoreRun(heap, address, count, false, done, b.bits);
        case ConstantOnes => address := StoreRun(heap, address, count, true, done, b.bits);
        case RandomBits => ok, address := ReadRandom(heap, stream, address, count, s, p + 1 + b.size, done, b.bits, b.chars);
      }
  }

  lemma SubText(s: seq<byte>, p: nat, text: seq<byte>, i: nat, j: nat)
    requires p + |text| <= |s| && s[p..p + |text|] == text && i <= j <= |text|
    ensures s[p + i..p + j] == text[i..j] && (i < j ==> s[p + i] == text[i])
  {
    forall q | i <= q < j ensures s[p + q] == text[q] {
      assert s[p..p + |text|][q] == text[q];
    }
  }

  /** jam_read_bool_run_length */
  method ReadRlc(stream: CharStream, heap: array<word>, dimension: nat, ghost blocks: seq<Block>) returns (ok: bool)
    requires heap.Length == WordsFor(dimension)
    requires Fits(blocks, dimension)
    requires forall i :: 0 <= i < |blocks| ==> Legal(blocks[i])
    requires Ahead(RealText(stream.input, stream.position), 0, blocks)
    modifies stream, heap
    ensures ok && Stored(heap, BitsOf(blocks)) && |BitsOf(blocks)| == dimension
  {
    hide Stored, BlockText, WordsFor, Text, RealText, At, Ahead, Fits, Legal, BitsOf;
    RoomForBits(dimension);
    FittingIsLegal(blocks, dimension);
    ghost var left, done := blocks, [];
    assert done + BitsOf(blocks) == BitsOf(blocks);
    ghost var s := RealText(stream.input, stream.position);
    ghost var p := 0;
    AtTheStart(stream);
    NothingStored(heap);
    ok := true;
    var address := 0;
    while ok && address < dimension
      invariant ok && 0 <= p <= |s| && 0 <= address <= dimension
      invariant Fits(left, dimension - address) && |done| == address
      invariant forall i :: 0 <= i < |left| ==> Legal(left[i])
      invariant Ahead(s, p, left) && At(stream, s, p)
      invariant Stored(heap, done) && done + BitsOf(left) == BitsOf(blocks)
      decreases |left|
    {
      FirstFits(left, dimension - address);
      ghost var b, rest := left[0], left[1..];
      FirstAhead(s, p, left);
      BitsOfFirst(done, left);
      ok, address := ReadBlock(heap, stream, address, s, p, done, b);
      left, done, p := rest, done + b.bits, p + |BlockText(b)|;
    }
    NothingAhead(s, p, left, dimension - address);
    assert done + [] == done;
    var ch := NextChar(stream, s, p);
    if ch == EOF {
      ok := false;
    }
    if ok && (ch != SEMICOLON || address != dimension) {
      ok := false;
    }
  }

  lemma AtTheStart(stream: CharStream)
    ensures At(stream, RealText(stream.input, stream.position), 0)
  {
  }
}
