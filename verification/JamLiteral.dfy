/** Where the longs of a literal array go. A literal of up to 32 bits gets a variable of its
    own. A longer one is stored back over the text it came from, from the word boundary at or
    up to three bytes in front of the statement buffer. */
module JamLiteral {
  import opened Bits
  import opened BitArrays

  const MAX_LITERAL_ARRAYS: nat := 4

  /** `below` is the memory between the word boundary and the statement buffer. */
  predicate Apart(below: array<byte>, buffer: array<byte>, literals: array<word>) {
    && below.Length < 4 && literals.Length == MAX_LITERAL_ARRAYS
    && below != buffer && literals != below as object && literals != buffer as object
  }

  /** Byte k of the memory from the word boundary on. */
  function Cell(below: array<byte>, buffer: array<byte>, k: nat): byte
    requires k < below.Length + buffer.Length
    reads below, buffer
  {
    if k < below.Length then below[k] else buffer[k - below.Length]
  }

  method PutCell(below: array<byte>, buffer: array<byte>, k: nat, x: byte)
    requires below != buffer && k < below.Length + buffer.Length
    modifies below, buffer
    ensures forall j: nat :: j < below.Length + buffer.Length ==>
      Cell(below, buffer, j) == if j == k then x else old(Cell(below, buffer, j))
  {
    if k < below.Length {
      below[k] := x;
    } else {
      buffer[k - below.Length] := x;
    }
  }

  /** One byte of a long, lowest first. */
  function ByteOfWord(x: nat, i: nat): byte {
    if i == 0 then x % 0x100 else ByteOfWord(x / 0x100, i - 1)
  }

  lemma LowByte(b: byte, rest: nat)
    ensures (b + 0x100 * rest) % 0x100 == b && (b + 0x100 * rest) / 0x100 == rest
  {
  }

  lemma BytesOfWord(b0: byte, b1: byte, b2: byte, b3: byte)
    ensures var x := Word(b0, b1, b2, b3);
      ByteOfWord(x, 0) == b0 && ByteOfWord(x, 1) == b1 && ByteOfWord(x, 2) == b2 && ByteOfWord(x, 3) == b3
  {
    var x2 := b2 + 0x100 * b3;
    var x1 := b1 + 0x100 * x2;
    LowByte(b3, 0);
    LowByte(b2, b3);
    LowByte(b1, x2);
    LowByte(b0, x1);
    assert Word(b0, b1, b2, b3) == b0 + 0x100 * x1;
    assert ByteOfWord(b0 + 0x100 * x1, 1) == ByteOfWord(x1, 0);
    assert ByteOfWord(b0 + 0x100 * x1, 2) == ByteOfWord(x1, 1) == ByteOfWord(x2, 0);
    assert ByteOfWord(b0 + 0x100 * x1, 3) == ByteOfWord(x1, 2) == ByteOfWord(x2, 1) == ByteOfWord(b3, 0);
  }

  /** A long stored at the word boundary number w, lowest byte first. */
  method PutLong(below: array<byte>, buffer: array<byte>, w: nat, x: word)
    requires below != buffer && 4 * w + 4 <= below.Length + buffer.Length
    modifies below, buffer
    ensures forall j: nat :: j < below.Length + buffer.Length ==>
      Cell(below, buffer, j) == if 4 * w <= j < 4 * w + 4 then ByteOfWord(x, j - 4 * w) else old(Cell(below, buffer, j))
  {
    hide Cell, ByteOfWord;
    for i := 0 to 4
      invariant forall j: nat :: j < below.Length + buffer.Length ==>
        Cell(below, buffer, j) == if 4 * w <= j < 4 * w + i then ByteOfWord(x, j - 4 * w) else old(Cell(below, buffer, j))
    {
      PutCell(below, buffer, 4 * w + i, ByteOfWord(x, i));
    }
  }

  /** The longs are read from the buffer and stored up to three bytes lower in the same
      memory: no byte is overwritten before it has been read. */
  method StoreWords(below: array<byte>, buffer: array<byte>, longs: nat)
    requires below != buffer && below.Length < 4 && 4 * longs <= buffer.Length
    modifies below, buffer
    ensures forall k: nat :: k < 4 * longs ==> Cell(below, buffer, k) == old(buffer[k])
    ensures forall k: nat :: 4 * longs <= k < below.Length + buffer.Length ==>
      Cell(below, buffer, k) == old(Cell(below, buffer, k))
  {
    hide Word, ByteOfWord;
    for w := 0 to longs
      invariant forall k: nat :: k < 4 * w ==> Cell(below, buffer, k) == old(buffer[k])
      invariant forall k: nat :: 4 * w <= k < below.Length + buffer.Length ==>
        Cell(below, buffer, k) == old(Cell(below, buffer, k))
    {
      ghost var was := old(buffer[..]);
      forall k: nat | 4 * w <= k < buffer.Length ensures buffer[k] == was[k] {
        assert Cell(below, buffer, k + below.Length) == old(Cell(below, buffer, k + below.Length));
      }
      BytesOfWord(was[4 * w], was[4 * w + 1], was[4 * w + 2], was[4 * w + 3]);
      PutLong(below, buffer, w, Word(buffer[4 * w], buffer[4 * w + 1], buffer[4 * w + 2], buffer[4 * w + 3]));
      forall k: nat | 4 * w <= k < 4 * w + 4 ensures Cell(below, buffer, k) == was[k] {
        assert k == 4 * w || k == 4 * w + 1 || k == 4 * w + 2 || k == 4 * w + 3;
      }
    }
  }

  function LongsFor(length: nat): nat {
    ((length + 7) / 8 + 3) / 4
  }

  /** Bit q of the literal, read where the output pointer points. */
  predicate LiteralBit(below: array<byte>, buffer: array<byte>, literals: array<word>, arg: nat, length: nat, q: nat)
    requires q < length && 4 * LongsFor(length) <= buffer.Length
    requires LongsFor(length) <= 1 ==> arg < literals.Length
    reads below, buffer, literals
  {
    if LongsFor(length) > 1 then Bit(Cell(below, buffer, q / 8), q % 8) else Bit(literals[arg], q)
  }

  ghost predicate HoldsLiteral(below: array<byte>, buffer: array<byte>, literals: array<word>, arg: nat, length: nat, x: nat)
    reads below, buffer, literals
  {
    && 4 * LongsFor(length) <= buffer.Length
    && (LongsFor(length) <= 1 ==> arg < literals.Length)
    && forall q: nat :: q < length ==> LiteralBit(below, buffer, literals, arg, length, q) == Bit(x, q)
  }

  /** The last part of both conversions: the buffer holds the number, and the literal is to. */
  method StoreLiteral(below: array<byte>, buffer: array<byte>, literals: array<word>, arg: nat, length: nat, ghost x: nat)
    returns (ok: bool)
    requires Apart(below, buffer, literals) && 4 * LongsFor(length) <= buffer.Length
    requires forall q: nat :: q < length ==> q < 8 * buffer.Length && BufferBit(buffer, q) == Bit(x, q)
    modifies below, buffer, literals
    ensures ok == (length > 32 || arg < MAX_LITERAL_ARRAYS)
    ensures ok ==> HoldsLiteral(below, buffer, literals, arg, length, x)
    ensures forall k :: 0 <= k < literals.Length && (k != arg || length > 32) ==> literals[k] == old(literals[k])
  {
    hide Bit, Word;
    var longs := LongsFor(length);
    ok := longs > 1 || arg < MAX_LITERAL_ARRAYS;
    if longs > 1 {
      StoreWords(below, buffer, longs);
    } else if ok && longs == 1 {
      literals[arg] := Word(buffer[0], buffer[1], buffer[2], buffer[3]);
      forall q: nat | q < length ensures LiteralBit(below, buffer, literals, arg, length, q) == Bit(x, q) {
        WordBits4(buffer[0], buffer[1], buffer[2], buffer[3], q);
        assert [buffer[0], buffer[1], buffer[2], buffer[3]][q / 8] == buffer[q / 8];
      }
    }
  }
}
