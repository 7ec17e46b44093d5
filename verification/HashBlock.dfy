/** Hashing a block header: SHA-256 padding done in place, and the midstate route of the
    miner against two plain hashes. The compression function is any function at all. */
module HashBlock {

  type Bytes = seq<bv8>
  type Words = seq<bv32>

  const DIGEST_LENGTH: nat := 32
  const BLOCK: nat := 64

  /** pSHA256InitState */
  const INIT_STATE: Words :=
    [0x6a09e667, 0xbb67ae85, 0x3c6ef372, 0xa54ff53a, 0x510e527f, 0x9b05688c, 0x1f83d9ab, 0x5be0cd19]

  // ---------------------------------------------------------------------------
  // Words and the bytes they lie in
  // ---------------------------------------------------------------------------

  function BeWord(a: bv8, b: bv8, c: bv8, d: bv8): bv32 {
    ((a as bv32) << 24) | ((b as bv32) << 16) | ((c as bv32) << 8) | (d as bv32)
  }

  function BeBytes(w: bv32): (r: Bytes)
    ensures |r| == 4
  {
    [(w >> 24) as bv8, ((w >> 16) & 0xff) as bv8, ((w >> 8) & 0xff) as bv8, (w & 0xff) as bv8]
  }

  /** The target is little-endian: a word is stored lowest byte first. */
  function LeWord(a: bv8, b: bv8, c: bv8, d: bv8): bv32 {
    BeWord(d, c, b, a)
  }

  function LeBytes(w: bv32): (r: Bytes)
    ensures |r| == 4
  {
    var b := BeBytes(w);
    [b[3], b[2], b[1], b[0]]
  }

  function ByteReverse(value: bv32): bv32 {
    var v := ((value & 0xFF00FF00) >> 8) | ((value & 0x00FF00FF) << 8);
    (v << 16) | (v >> 16)
  }

  lemma ReverseIsOtherOrder(a: bv8, b: bv8, c: bv8, d: bv8)
    ensures ByteReverse(LeWord(a, b, c, d)) == BeWord(a, b, c, d)
  {
  }

  lemma WordReadsBack(w: bv32)
    ensures var b := BeBytes(w); BeWord(b[0], b[1], b[2], b[3]) == w
  {
  }

  lemma BytesReadBack(a: bv8, b: bv8, c: bv8, d: bv8)
    ensures BeBytes(BeWord(a, b, c, d)) == [a, b, c, d]
  {
  }

  function BeWords(s: Bytes): (r: Words)
    ensures |r| == |s| / 4
  {
    seq(|s| / 4, i requires 0 <= i < |s| / 4 => BeWord(s[4 * i], s[4 * i + 1], s[4 * i + 2], s[4 * i + 3]))
  }

  function LeWords(s: Bytes): (r: Words)
    ensures |r| == |s| / 4
  {
    seq(|s| / 4, i requires 0 <= i < |s| / 4 => LeWord(s[4 * i], s[4 * i + 1], s[4 * i + 2], s[4 * i + 3]))
  }

  /** Words written highest byte first, and lowest byte first. */
  function BeText(ws: Words): (r: Bytes)
    ensures |r| == 4 * |ws|
  {
    seq(4 * |ws|, k requires 0 <= k < 4 * |ws| => BeBytes(ws[k / 4])[k % 4])
  }

  function LeText(ws: Words): (r: Bytes)
    ensures |r| == 4 * |ws|
  {
    seq(4 * |ws|, k requires 0 <= k < 4 * |ws| => LeBytes(ws[k / 4])[k % 4])
  }

  lemma TextReadsBack(ws: Words)
    ensures BeWords(BeText(ws)) == ws && LeWords(LeText(ws)) == ws
  {
    hide BeWords, BeText, LeWords, LeText;
    BeTextReadsBack(ws);
    LeTextReadsBack(ws);
  }

  lemma BeTextReadsBack(ws: Words)
    ensures BeWords(BeText(ws)) == ws
  {
    hide BeWord, BeBytes;
    forall i | 0 <= i < |ws| ensures BeWords(BeText(ws))[i] == ws[i] {
      WordReadsBack(ws[i]);
      Quarters(i);
    }
  }

  lemma LeTextReadsBack(ws: Words)
    ensures LeWords(LeText(ws)) == ws
  {
    hide LeWord, LeBytes;
    forall i | 0 <= i < |ws| ensures LeWords(LeText(ws))[i] == ws[i] {
      LeWordReadsBack(ws[i]);
      Quarters(i);
    }
  }

  lemma Quarters(i: nat)
    ensures (4 * i) / 4 == i && (4 * i + 1) / 4 == i && (4 * i + 2) / 4 == i && (4 * i + 3) / 4 == i
    ensures (4 * i) % 4 == 0 && (4 * i + 1) % 4 == 1 && (4 * i + 2) % 4 == 2 && (4 * i + 3) % 4 == 3
  {
  }

  lemma LeWordReadsBack(w: bv32)
    ensures var b := LeBytes(w); LeWord(b[0], b[1], b[2], b[3]) == w
  {
  }

  lemma WordsJoin(a: Bytes, b: Bytes)
    requires |a| % 4 == 0
    ensures BeWords(a + b) == BeWords(a) + BeWords(b) && LeWords(a + b) == LeWords(a) + LeWords(b)
  {
    hide BeWord;
  }

  // ---------------------------------------------------------------------------
  // SHA-256 around its compression function
  // ---------------------------------------------------------------------------

  type Compression = (Words, Words) -> Words

  ghost predicate Compresses(f: Compression) {
    forall state: Words, block: Words :: |f(state, block)| == 8
  }

  /** 1 + ((len + 8) / 64) */
  function BlockCount(n: nat): nat {
    1 + (n + 8) / BLOCK
  }

  /** The length in bits, in eight bytes, highest first. */
  function LengthField(bits: nat): (r: Bytes)
    ensures |r| == 8
  {
    seq(8, i requires 0 <= i < 8 => ByteOf(bits, 7 - i))
  }

  /** Byte i of a number: a shift and a mask. */
  function ByteOf(x: nat, i: nat): bv8
    decreases i
  {
    if i == 0 then (x % 0x100) as bv8 else ByteOf(x / 0x100, i - 1)
  }

  /** The padded message of section 5.1.1 of FIPS 180-4: a 1 bit, the fewest zeros that make
      whole blocks, and the length. */
  function Padded(m: Bytes): (r: Bytes)
    ensures |r| % BLOCK == 0
  {
    var zeros: nat := (119 - |m| % BLOCK) % BLOCK;
    m + [0x80] + seq(zeros, _ => 0) + LengthField(8 * |m|)
  }

  /** No shorter run of zeros fills the last block. */
  lemma PaddingIsMinimal(n: nat, zeros: nat)
    requires (n + 1 + zeros + 8) % BLOCK == 0
    ensures zeros >= (119 - n % BLOCK) % BLOCK
    ensures n + 1 + (119 - n % BLOCK) % BLOCK + 8 == BLOCK * BlockCount(n)
  {
  }

  function Fold(f: Compression, state: Words, s: Bytes): Words
    decreases |s|
  {
    if |s| < BLOCK then state else Fold(f, f(state, BeWords(s[..BLOCK])), s[BLOCK..])
  }

  /** The 32 bits behind the point of a root: the root lies between whole + bits / 2^32 and the
      next such number. */
  predicate RootBits(p: nat, whole: nat, bits: bv32) {
    var x := 0x1_0000_0000 * whole + bits as nat;
    x * x <= p * 0x1_0000_0000_0000_0000 < (x + 1) * (x + 1)
  }

  /** Section 5.3.3 of FIPS 180-4: the initial hash value is made of the square roots of the
      first eight primes. */
  lemma InitStateIsRoots()
    ensures |INIT_STATE| == 8
    ensures RootBits(2, 1, INIT_STATE[0]) && RootBits(3, 1, INIT_STATE[1])
    ensures RootBits(5, 2, INIT_STATE[2]) && RootBits(7, 2, INIT_STATE[3])
    ensures RootBits(11, 3, INIT_STATE[4]) && RootBits(13, 3, INIT_STATE[5])
    ensures RootBits(17, 4, INIT_STATE[6]) && RootBits(19, 4, INIT_STATE[7])
  {
  }

  /** The example of that section: the message abc. */
  lemma PaddedAbc()
    ensures Padded([0x61, 0x62, 0x63]) == [0x61, 0x62, 0x63, 0x80] + seq(52, _ => 0) + [0, 0, 0, 0, 0, 0, 0, 0x18]
  {
    assert LengthField(24) == [0, 0, 0, 0, 0, 0, 0, 0x18] by {
      SmallLength();
    }
  }

  lemma SmallLength()
    ensures forall i: nat :: i < 8 ==> ByteOf(24, i) == if i == 0 then 0x18 else 0
  {
    assert forall i: nat :: ByteOf(0, i) == 0 by {
      forall i: nat ensures ByteOf(0, i) == 0 {
        NoBytes(i);
      }
    }
  }

  lemma {:induction false} NoBytes(i: nat)
    ensures ByteOf(0, i) == 0
  {
    if i != 0 {
      NoBytes(i - 1);
    }
  }

  /** A plain SHA-256 of a message. */
  function Sha(f: Compression, m: Bytes): Bytes {
    BeText(Fold(f, INIT_STATE, Padded(m)))
  }

  // ---------------------------------------------------------------------------
  // Padding in place
  // ---------------------------------------------------------------------------

  /** What FormatHashBlocks leaves: only the low four bytes of the length are written. */
  function Written(m: Bytes): (r: Bytes)
    ensures |r| == BLOCK * BlockCount(|m|)
  {
    var zeros := (119 - |m| % BLOCK) % BLOCK;
    PaddingIsMinimal(|m|, zeros);
    m + [0x80] + seq(zeros, _ => 0) + ([0, 0, 0, 0] + LengthField(8 * |m|)[4..])
  }

  /** Those four bytes are enough exactly for messages below 2^29 bytes. */
  lemma WrittenIsPaddedIff(m: Bytes)
    requires |m| < 0x1_0000_0000
    ensures Written(m) == Padded(m) <==> |m| < 0x2000_0000
  {
    hide ByteOf;
    var zeros := (119 - |m| % BLOCK) % BLOCK;
    var head := m + [0x80] + seq(zeros, _ => 0);
    var field := LengthField(8 * |m|);
    assert Written(m)[|head|..] == [0, 0, 0, 0] + field[4..] && Padded(m)[|head|..] == field;
    HighBytes(8 * |m|);
    if |m| < 0x2000_0000 {
      assert field == [0, 0, 0, 0] + field[4..];
    } else {
      assert field[3] != 0;
    }
  }

  lemma HighBytes(x: nat)
    requires x < 0x8_0000_0000
    ensures ByteOf(x, 7) == 0 && ByteOf(x, 6) == 0 && ByteOf(x, 5) == 0
    ensures ByteOf(x, 4) == 0 <==> x < 0x1_0000_0000
  {
    assert Power256(3) == 0x100_0000;
    assert Power256(4) == 0x1_0000_0000;
    assert Power256(5) == 0x100 * Power256(4);
    assert Power256(6) == 0x100 * Power256(5);
    assert Power256(7) == 0x100 * Power256(6);
    TopByte(x, 4);
    TopByte(x, 5);
    TopByte(x, 6);
    TopByte(x, 7);
  }

  function Power256(i: nat): (p: nat)
    ensures p > 0
  {
    if i == 0 then 1 else 0x100 * Power256(i - 1)
  }

  /** The top byte of a number is zero exactly when the number does not reach it. */
  lemma {:induction false} TopByte(x: nat, i: nat)
    requires x < 0x100 * Power256(i)
    ensures ByteOf(x, i) == 0 <==> x < Power256(i)
    decreases i
  {
    if i == 0 {
      SmallByte(x);
    } else {
      TopByte(x / 0x100, i - 1);
    }
  }

  lemma SmallByte(x: nat)
    requires x < 0x100
    ensures x as bv8 == 0 <==> x == 0
  {
    assert (x as bv8) as nat == x;
  }

  /** memset to zero */
  method Clear(buffer: array<bv8>, from: nat, to: nat)
    requires from <= to <= buffer.Length
    modifies buffer
    ensures forall k :: from <= k < to ==> buffer[k] == 0
    ensures forall k :: 0 <= k < buffer.Length && !(from <= k < to) ==> buffer[k] == old(buffer[k])
  {
    for k := from to to
      invariant forall q :: from <= q < k ==> buffer[q] == 0
      invariant forall q :: 0 <= q < buffer.Length && !(from <= q < to) ==> buffer[q] == old(buffer[q])
    {
      buffer[k] := 0;
    }
  }

  /** The 0x80 byte and the four length bytes, put into the cleared rest of the blocks. */
  method Mark(buffer: array<bv8>, at: nat, len: nat, end: nat)
    requires at + len + 9 <= end <= buffer.Length
    requires forall k :: at + len <= k < end ==> buffer[k] == 0
    modifies buffer
    ensures buffer[at + len..end] == [0x80] + seq(end - at - len - 9, _ => 0) + ([0, 0, 0, 0] + LengthField(8 * len)[4..])
    ensures forall k :: 0 <= k < buffer.Length && !(at + len <= k < end) ==> buffer[k] == old(buffer[k])
  {
    hide ByteOf, LengthField;
    var bits := 8 * len;
    buffer[at + len] := 0x80;
    buffer[end - 1] := ByteOf(bits, 0);
    buffer[end - 2] := ByteOf(bits, 1);
    buffer[end - 3] := ByteOf(bits, 2);
    buffer[end - 4] := ByteOf(bits, 3);
    Marked(buffer[at + len..end], bits);
  }

  lemma Marked(s: Bytes, bits: nat)
    requires |s| >= 9 && s[0] == 0x80 && forall k :: 0 < k < |s| - 4 ==> s[k] == 0
    requires s[|s| - 4..] == [ByteOf(bits, 3), ByteOf(bits, 2), ByteOf(bits, 1), ByteOf(bits, 0)]
    ensures s == [0x80] + seq(|s| - 9, _ => 0) + ([0, 0, 0, 0] + LengthField(bits)[4..])
  {
    hide ByteOf;
    LengthTail(bits);
    hide LengthField;
    var n := |s|;
    assert s[1..n - 8] == seq(n - 9, _ => 0);
    assert s[n - 8..n - 4] == [0, 0, 0, 0];
    assert s == [s[0]] + s[1..n - 8] + (s[n - 8..n - 4] + s[n - 4..]);
  }

  lemma LengthTail(bits: nat)
    ensures LengthField(bits)[4..] == [ByteOf(bits, 3), ByteOf(bits, 2), ByteOf(bits, 1), ByteOf(bits, 0)]
  {
    hide ByteOf;
  }

  /** FormatHashBlocks on the part of a buffer that starts at `at`. */
  method FormatHashBlocks(buffer: array<bv8>, at: nat, len: nat) returns (blocks: nat)
    requires at + BLOCK * BlockCount(len) <= buffer.Length
    modifies buffer
    ensures blocks == BlockCount(len)
    ensures buffer[at..at + BLOCK * blocks] == Written(old(buffer[at..at + len]))
    ensures forall k :: 0 <= k < buffer.Length && !(at + len <= k < at + BLOCK * blocks) ==> buffer[k] == old(buffer[k])
  {
    hide LengthField;
    ghost var m := buffer[at..at + len];
    blocks := 1 + (len + 8) / BLOCK;
    var end := at + BLOCK * blocks;
    PaddingIsMinimal(len, (119 - len % BLOCK) % BLOCK);
    Clear(buffer, at + len, end);
    Mark(buffer, at, len, end);
    assert buffer[at..end] == buffer[at..at + len] + buffer[at + len..end];
    assert buffer[at..at + len] == m;
    WrittenParts(m);
  }

  lemma WrittenParts(m: Bytes)
    ensures Written(m) ==
      m + ([0x80] + seq(BLOCK * BlockCount(|m|) - |m| - 9, _ => 0) + ([0, 0, 0, 0] + LengthField(8 * |m|)[4..]))
  {
    hide LengthField;
    var zeros := (119 - |m| % BLOCK) % BLOCK;
    PaddingIsMinimal(|m|, zeros);
    hide BlockCount;
  }

  // ---------------------------------------------------------------------------
  // The two routes
  // ---------------------------------------------------------------------------

  function Reversed(s: Bytes): (r: Bytes)
    ensures |r| == |s| && forall k :: 0 <= k < |r| ==> r[k] == s[|s| - 1 - k]
  {
    seq(|s|, k requires 0 <= k < |s| => s[|s| - 1 - k])
  }

  /** byte_swap */
  method ByteSwap(data: array<bv8>, len: nat)
    requires len <= data.Length
    modifies data
    ensures data[..len] == Reversed(old(data[..len]))
    ensures forall k :: len <= k < data.Length ==> data[k] == old(data[k])
  {
    ghost var was := data[..len];
    var tmp := new bv8[len];
    for c := 0 to len
      invariant forall k :: 0 <= k < c ==> tmp[k] == was[len - 1 - k]
      invariant data[..] == old(data[..])
    {
      tmp[c] := data[len - (c + 1)];
    }
    for c := 0 to len
      invariant forall k :: 0 <= k < c ==> data[k] == tmp[k]
      invariant forall k :: 0 <= k < len ==> tmp[k] == was[len - 1 - k]
      invariant forall k :: len <= k < data.Length ==> data[k] == old(data[k])
    {
      data[c] := tmp[c];
    }
  }

  /** ByteReverse on every word of a buffer: from now on its words, read as the processor
      reads them, are the words SHA-256 reads. */
  method SwapWords(buffer: array<bv8>)
    requires buffer.Length % 4 == 0
    modifies buffer
    ensures LeWords(buffer[..]) == BeWords(old(buffer[..]))
    ensures BeWords(buffer[..]) == LeWords(old(buffer[..]))
  {
    hide BeWord, BeBytes, ByteReverse;
    ghost var was := buffer[..];
    for i := 0 to buffer.Length / 4
      invariant forall j :: 0 <= j < i ==> Swapped(buffer[..], was, j)
      invariant forall k :: 4 * i <= k < buffer.Length ==> buffer[k] == was[k]
    {
      var w := ByteReverse(LeWord(buffer[4 * i], buffer[4 * i + 1], buffer[4 * i + 2], buffer[4 * i + 3]));
      ReverseIsOtherOrder(was[4 * i], was[4 * i + 1], was[4 * i + 2], was[4 * i + 3]);
      BytesReadBack(was[4 * i], was[4 * i + 1], was[4 * i + 2], was[4 * i + 3]);
      var b := LeBytes(w);
      ghost var before := buffer[..];
      buffer[4 * i], buffer[4 * i + 1], buffer[4 * i + 2], buffer[4 * i + 3] := b[0], b[1], b[2], b[3];
      forall j | 0 <= j <= i ensures Swapped(buffer[..], was, j) {
        assert j < i ==> Swapped(before, was, j);
      }
    }
    SwappedWords(buffer[..], was);
  }

  lemma SwappedWords(now: Bytes, was: Bytes)
    requires |now| == |was| && |was| % 4 == 0 && forall j :: 0 <= j < |was| / 4 ==> Swapped(now, was, j)
    ensures LeWords(now) == BeWords(was) && BeWords(now) == LeWords(was)
  {
    hide BeWord;
    forall j | 0 <= j < |was| / 4 ensures LeWords(now)[j] == BeWords(was)[j] && BeWords(now)[j] == LeWords(was)[j] {
      assert Swapped(now, was, j);
    }
  }

  /** The four bytes of word j have changed their order. */
  predicate Swapped(now: Bytes, was: Bytes, j: nat)
    requires |now| == |was| && 4 * j + 4 <= |was|
  {
    && now[4 * j] == was[4 * j + 3] && now[4 * j + 1] == was[4 * j + 2]
    && now[4 * j + 2] == was[4 * j + 1] && now[4 * j + 3] == was[4 * j]
  }

  /** SHA256Transform: the words are reversed into a byte buffer, which SHA256_Update then
      reads in its own order. */
  method Transform(f: Compression, input: Words, init: Words) returns (state: Words)
    requires |input| == 16 && |init| == 8
    ensures state == f(init, input)
  {
    hide BeWord, BeBytes, ByteReverse;
    var data: Bytes := [];
    for i := 0 to 16
      invariant |data| == 4 * i && BeWords(data) == input[..i]
    {
      var b := LeBytes(ByteReverse(input[i]));
      ReverseInMemory(input[i]);
      WordsJoin(data, b);
      data := data + b;
      assert input[..i + 1] == input[..i] + [input[i]];
    }
    assert input[..16] == input;
    state := f(init, BeWords(data));
  }

  lemma ReverseInMemory(w: bv32)
    ensures BeWords(LeBytes(ByteReverse(w))) == [w]
  {
    hide BeWord, BeBytes, ByteReverse;
    var b := BeBytes(w);
    WordReadsBack(w);
    ReverseIsOtherOrder(b[3], b[2], b[1], b[0]);
    BytesReadBack(b[3], b[2], b[1], b[0]);
    assert LeWord(b[3], b[2], b[1], b[0]) == w;
    assert LeBytes(ByteReverse(w)) == b;
  }

  lemma WordsOfSlice(s: Bytes, i: nat, j: nat)
    requires 4 * i <= 4 * j <= |s|
    ensures BeWords(s[4 * i..4 * j]) == BeWords(s)[i..j] && LeWords(s[4 * i..4 * j]) == LeWords(s)[i..j]
  {
    hide BeWord;
  }

  /** What stands behind a message depends on its length only. */
  lemma SameTail(m: Bytes, m': Bytes)
    requires |m| == |m'|
    ensures Written(m)[|m|..] == Written(m')[|m|..]
  {
    WrittenParts(m);
    WrittenParts(m');
    hide Written, LengthField;
  }

  /** The first hash: two blocks, with the state between them. */
  lemma TwoBlocks(f: Compression, header: Bytes)
    requires |header| == 80
    ensures var s := Written(header);
      && |s| == 2 * BLOCK
      && Fold(f, INIT_STATE, Padded(header)) == f(f(INIT_STATE, BeWords(s[..BLOCK])), BeWords(s[BLOCK..]))
  {
    WrittenIsPaddedIff(header);
    hide Written, Padded, BeWords;
    var s := Written(header);
    var middle := f(INIT_STATE, BeWords(s[..BLOCK]));
    assert s[BLOCK..][..BLOCK] == s[BLOCK..] && s[BLOCK..][BLOCK..] == [];
    assert Fold(f, INIT_STATE, s) == Fold(f, middle, s[BLOCK..]);
    assert Fold(f, middle, s[BLOCK..]) == Fold(f, f(middle, BeWords(s[BLOCK..])), []);
  }

  /** The second hash: one block, the digest and its padding. */
  lemma OneBlock(f: Compression, state: Words, blank: Bytes)
    requires |state| == 8 && |blank| == 32
    ensures Fold(f, INIT_STATE, Padded(BeText(state))) == f(INIT_STATE, state + BeWords(Written(blank)[32..]))
  {
    var m := BeText(state);
    WrittenIsPaddedIff(m);
    WrittenParts(m);
    SameTail(m, blank);
    TextReadsBack(state);
    hide Padded, BeText, LengthField;
    var s := Written(m);
    hide Written;
    assert s[..BLOCK] == s && |s[BLOCK..]| == 0;
    assert s == m + s[32..];
    WordsJoin(m, s[32..]);
  }

  method Store(buffer: array<bv8>, at: nat, s: Bytes)
    requires at + |s| <= buffer.Length
    modifies buffer
    ensures buffer[at..at + |s|] == s
    ensures forall k :: 0 <= k < buffer.Length && !(at <= k < at + |s|) ==> buffer[k] == old(buffer[k])
  {
    for i := 0 to |s|
      invariant forall k :: at <= k < at + i ==> buffer[k] == s[k - at]
      invariant forall k :: 0 <= k < buffer.Length && !(at <= k < at + |s|) ==> buffer[k] == old(buffer[k])
    {
      buffer[at + i] := s[i];
    }
  }

  /** The buffers FormatHashBuffers prepares: the padded header and the padding of a digest,
      as words the processor reads in SHA-256's order. */
  method PrepareBuffers(header: Bytes) returns (block: Words, tail: Words)
    requires |header| == 80
    ensures block == BeWords(Written(header)) && |block| == 32
    ensures tail == BeWords(Written(seq(32, _ => 0))[32..]) && |tail| == 8
  {
    hide Written, BeWords, LeWords, BeWord;
    var tmp := new bv8[240](_ => 0);
    Store(tmp, 0, header);
    assert tmp[144..176] == seq(32, _ => 0);
    var blocks := FormatHashBlocks(tmp, 0, 80);
    ghost var first := tmp[0..128];
    assert tmp[144..176] == seq(32, _ => 0);
    blocks := FormatHashBlocks(tmp, 144, 32);
    assert tmp[0..128] == first;
    ghost var was := tmp[..];
    assert was[0..128] == first && was[144..208] == Written(seq(32, _ => 0));
    assert was[176..208] == was[144..208][32..];
    SwapWords(tmp);
    WordsOfSlice(tmp[..], 0, 32);
    WordsOfSlice(was, 0, 32);
    WordsOfSlice(tmp[..], 44, 52);
    WordsOfSlice(was, 44, 52);
    block, tail := LeWords(tmp[0..128]), LeWords(tmp[176..208]);
    assert tmp[..][0..128] == tmp[0..128] && tmp[..][176..208] == tmp[176..208];
  }

  /** FormatHashBuffers, with the route it prints as VER2: one compression of the first block
      gives the midstate, and two more from there give the digest. */
  method MidstateHash(f: Compression, header: Bytes) returns (midstate: Words, hash: Bytes)
    requires |header| == 80 && Compresses(f)
    ensures midstate == f(INIT_STATE, BeWords(header[..BLOCK]))
    ensures hash == Reversed(Sha(f, Sha(f, header)))
  {
    hide BeWords, LeWords, Written, Fold, BeText, LeText, Reversed, Padded;
    var block, tail := PrepareBuffers(header);
    midstate := Transform(f, block[..16], INIT_STATE);
    var state := Transform(f, block[16..], midstate);
    var digest := Transform(f, state + tail, INIT_STATE);
    var phash := new bv8[DIGEST_LENGTH];
    Store(phash, 0, LeText(digest));
    assert phash[..] == LeText(digest);
    SwapWords(phash);
    TextReadsBack(digest);
    SameWords(phash[..], BeText(digest));
    ByteSwap(phash, DIGEST_LENGTH);
    hash := phash[..];
    TwoBlocks(f, header);
    HeaderWords(header);
    OneBlock(f, state, seq(32, _ => 0));
  }

  /** The words of the padded header, block by block. */
  lemma HeaderWords(header: Bytes)
    requires |header| == 80
    ensures var s := Written(header);
      && |s| == 2 * BLOCK && |BeWords(s)| == 32
      && BeWords(s)[..16] == BeWords(s[..BLOCK]) == BeWords(header[..BLOCK])
      && BeWords(s)[16..] == BeWords(s[BLOCK..])
  {
    WrittenParts(header);
    var s := Written(header);
    hide Written, BeWord;
    assert s[..BLOCK] == header[..BLOCK];
    WordsOfSlice(s, 0, 16);
    WordsOfSlice(s, 16, 32);
    assert s[0..64] == s[..BLOCK] && s[64..128] == s[BLOCK..];
  }

  lemma SameWords(s: Bytes, t: Bytes)
    requires |s| == |t| && |s| % 4 == 0 && BeWords(s) == BeWords(t)
    ensures s == t
  {
    hide BeWord, BeBytes;
    forall i | 0 <= i < |s| / 4
      ensures s[4 * i] == t[4 * i] && s[4 * i + 1] == t[4 * i + 1] && s[4 * i + 2] == t[4 * i + 2] && s[4 * i + 3] == t[4 * i + 3]
    {
      assert BeWords(s)[i] == BeWords(t)[i];
      BytesReadBack(s[4 * i], s[4 * i + 1], s[4 * i + 2], s[4 * i + 3]);
      BytesReadBack(t[4 * i], t[4 * i + 1], t[4 * i + 2], t[4 * i + 3]);
    }
    forall k | 0 <= k < |s| ensures s[k] == t[k] {
      assert k == 4 * (k / 4) + k % 4;
    }
  }

  /** The route printed as VER1: two plain hashes, with the digest swapped twice in between. */
  method PlainHash(f: Compression, header: Bytes) returns (hash: Bytes)
    requires |header| == 80 && Compresses(f)
    ensures hash == Reversed(Sha(f, Sha(f, header)))
  {
    hide Fold, BeText, Padded;
    DigestLength(f, header);
    var hash1 := new bv8[DIGEST_LENGTH];
    Store(hash1, 0, Sha(f, header));
    assert hash1[..] == Sha(f, header);
    ByteSwap(hash1, DIGEST_LENGTH);
    ByteSwap(hash1, DIGEST_LENGTH);
    assert hash1[..] == Sha(f, header);
    DigestLength(f, Sha(f, header));
    var hash2 := new bv8[DIGEST_LENGTH];
    Store(hash2, 0, Sha(f, hash1[..]));
    assert hash2[..] == Sha(f, Sha(f, header));
    ByteSwap(hash2, DIGEST_LENGTH);
    hash := hash2[..];
  }

  lemma DigestLength(f: Compression, m: Bytes)
    requires Compresses(f)
    ensures |Sha(f, m)| == DIGEST_LENGTH
  {
    hide Padded, BeText;
    FoldLength(f, INIT_STATE, Padded(m));
  }

  lemma {:induction false} FoldLength(f: Compression, state: Words, s: Bytes)
    requires Compresses(f) && |state| == 8
    ensures |Fold(f, state, s)| == 8
    decreases |s|
  {
    hide BeWords;
    if |s| >= BLOCK {
      FoldLength(f, f(state, BeWords(s[..BLOCK])), s[BLOCK..]);
    }
  }
}
