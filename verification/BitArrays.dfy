/** Byte buffers and word arrays seen as arrays of bits, read and written in place. */
module BitArrays {
  import opened Bits

  /** Bit `p` of a byte buffer and bit `k` of a word array, low bits first. */
  predicate BufferBit(buffer: array<byte>, p: nat)
    requires p < 8 * buffer.Length
    reads buffer
  {
    Bit(buffer[p / 8], p % 8)
  }

  predicate WordBit(data: array<word>, k: nat)
    requires k < 32 * data.Length
    reads data
  {
    Bit(data[k / 32], k % 32)
  }

  function WordBits(data: array<word>, from: nat, n: nat): (bits: seq<bool>)
    requires from + n <= 32 * data.Length
    reads data
    ensures |bits| == n
  {
    seq(n, i requires 0 <= i < n reads data => WordBit(data, from + i))
  }

  function BufferBits(buffer: array<byte>, n: nat): (bits: seq<bool>)
    requires n <= 8 * buffer.Length
    reads buffer
    ensures |bits| == n
  {
    seq(n, i requires 0 <= i < n reads buffer => BufferBit(buffer, i))
  }

  method PutBufferBit(buffer: array<byte>, p: nat, b: bool)
    requires p < 8 * buffer.Length
    modifies buffer
    ensures forall k :: 0 <= k < buffer.Length && k != p / 8 ==> buffer[k] == old(buffer[k])
    ensures forall q: nat :: q < 8 * buffer.Length ==>
      BufferBit(buffer, q) == if p == q then b else old(BufferBit(buffer, q))
  {
    buffer[p / 8] := SetByteBit(buffer[p / 8], p % 8, b);
  }

  method PutWordBit(data: array<word>, k: nat, b: bool)
    requires k < 32 * data.Length
    modifies data
    ensures forall q: nat :: q < 32 * data.Length ==>
      WordBit(data, q) == if k == q then b else old(WordBit(data, q))
  {
    data[k / 32] := SetWordBit(data[k / 32], k % 32, b);
  }

  /** Bytes and words an array of that many bits takes. */
  function BytesFor(dimension: nat): nat {
    dimension / 8 + if dimension % 8 != 0 then 1 else 0
  }

  function WordsFor(dimension: nat): nat {
    dimension / 32 + if dimension % 32 != 0 then 1 else 0
  }

  // ---------------------------------------------------------------------------
  // From bytes to the words of the array
  // ---------------------------------------------------------------------------

  function Word(b0: byte, b1: byte, b2: byte, b3: byte): word {
    b0 + 0x100 * b1 + 0x1_0000 * b2 + 0x100_0000 * b3
  }

  lemma WordBits4(b0: byte, b1: byte, b2: byte, b3: byte, i: nat)
    requires i < 32
    ensures Bit(Word(b0, b1, b2, b3), i) == Bit([b0, b1, b2, b3][i / 8], i % 8)
  {
    hide Bit;
    BitOfSum(b0, b1 + 0x100 * b2 + 0x1_0000 * b3, i);
    if i >= 8 {
      BitOfSum(b1, b2 + 0x100 * b3, i - 8);
      if i >= 16 {
        BitOfSum(b2, b3, i - 16);
      }
    }
  }

  /** Bits of a number written in base 256. */
  lemma BitOfSum(low: byte, high: nat, i: nat)
    ensures Bit(low + 0x100 * high, i) == if i < 8 then Bit(low, i) else Bit(high, i - 8)
  {
    Pow2Values();
    BitOfParts(low, high, 8, i);
  }

  /** Four bytes to a word, lowest first. */
  method ToWords(bytes: array<byte>, words: array<word>)
    requires bytes.Length >= 4 * words.Length
    modifies words
    ensures forall q: nat :: q < 32 * words.Length ==> WordBit(words, q) == BufferBit(bytes, q)
  {
    hide Bit, Word;
    for w := 0 to words.Length
      invariant forall q: nat :: q < 32 * w ==> WordBit(words, q) == BufferBit(bytes, q)
    {
      words[w] := Word(bytes[4 * w], bytes[4 * w + 1], bytes[4 * w + 2], bytes[4 * w + 3]);
      forall q: nat | 32 * w <= q < 32 * (w + 1) ensures WordBit(words, q) == BufferBit(bytes, q) {
        WordBits4(bytes[4 * w], bytes[4 * w + 1], bytes[4 * w + 2], bytes[4 * w + 3], q - 32 * w);
        assert q / 32 == w && q % 32 == q - 32 * w;
        assert q / 8 == 4 * w + (q - 32 * w) / 8 && q % 8 == (q - 32 * w) % 8;
      }
    }
  }

  lemma RoomForBits(dimension: nat)
    ensures dimension <= 32 * WordsFor(dimension)
  {
  }
}
