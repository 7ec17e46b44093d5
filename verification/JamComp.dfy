/** The ACA decompressor of the Jam player: a bit reader whose place survives
    between calls, and an LZ decoder whose offset field grows with the output. */
module JamComp {
  import opened Bits
  import opened Options

  const SHORT_BITS: nat := 16
  const CHAR_BITS: nat := 8
  const DATA_BLOB_LENGTH: nat := 3
  const MATCH_DATA_LENGTH: nat := 8192

  // ---------------------------------------------------------------------------
  // Bit streams
  // ---------------------------------------------------------------------------

  /** Bit `p` of a byte string, counting from the low bit of byte 0. */
  predicate StreamBit(s: seq<byte>, p: nat)
    requires p < 8 * |s|
  {
    Bit(s[p / 8], p % 8)
  }

  /** The n-bit field at position `p`, least significant bit first. */
  function Field(s: seq<byte>, p: nat, n: nat): nat
    requires p + n <= 8 * |s|
    decreases s, n
  {
    if n == 0 then 0 else BoolToNat(StreamBit(s, p)) + 2 * Field(s, p + 1, n - 1)
  }

  lemma {:induction false} FieldBound(s: seq<byte>, p: nat, n: nat)
    requires p + n <= 8 * |s|
    ensures Field(s, p, n) < Pow2(n)
    decreases n
  {
    if n != 0 {
      FieldBound(s, p + 1, n - 1);
    }
  }

  lemma {:induction false} FieldSplit(s: seq<byte>, p: nat, a: nat, b: nat)
    requires p + a + b <= 8 * |s|
    ensures Field(s, p, a + b) == Field(s, p, a) + Field(s, p + a, b) * Pow2(a)
    decreases a
  {
    if a != 0 {
      FieldSplit(s, p + 1, a - 1, b);
      MulPow2(Field(s, p + a, b), a);
      assert p + 1 + (a - 1) == p + a;
    }
  }

  /** The bits of byte `i` from position `k` on are that byte shifted right by `k`. */
  lemma {:induction false} FieldWithinByte(s: seq<byte>, i: nat, k: nat)
    requires i < |s| && k <= 8
    ensures Field(s, 8 * i + k, 8 - k) == s[i] / Pow2(k)
    decreases 8 - k
  {
    Pow2Values();
    if k != 8 {
      FieldWithinByte(s, i, k + 1);
      DivBit(s[i], k);
      assert (8 * i + k) / 8 == i && (8 * i + k) % 8 == k;
    }
  }

  // ---------------------------------------------------------------------------
  // jam_bits_required and jam_read_packed
  // ---------------------------------------------------------------------------

  /** Number of bits in the binary form of `n`; zero still takes one. */
  function BitsRequired(n: nat): (r: nat)
    ensures r >= 1 && n < Pow2(r)
    ensures n > 0 ==> Pow2(r - 1) <= n
  {
    if n < 2 then 1 else 1 + BitsRequired(n / 2)
  }

  lemma BitsRequiredUnique(n: nat, r: nat)
    requires n > 0 && r >= 1 && Pow2(r - 1) <= n < Pow2(r)
    ensures r == BitsRequired(n)
  {
    var k := BitsRequired(n);
    if r < k {
      Pow2Mono(r, k - 1);
    } else if k < r {
      Pow2Mono(k, r - 1);
    }
  }

  /** The argument is a short seen as its 16-bit pattern. The source shifts it left,
      dropping the carry, until the sign bit appears. */
  method BitsRequiredLoop(n: nat) returns (result: nat)
    requires n < 0x1_0000
    ensures result == BitsRequired(n)
  {
    result := SHORT_BITS;
    if n == 0 {
      result := 1;
    } else {
      var v := n;
      Pow2Values();
      assert n * Pow2(SHORT_BITS - result) == n;
      while v < 0x8000
        invariant 1 <= result <= SHORT_BITS
        invariant 0 < v < 0x1_0000
        invariant v == n * Pow2(SHORT_BITS - result)
        decreases 0x1_0000 - v
      {
        assert Pow2(15) == 0x8000;
        MulMono(1, n, Pow2(15));
        v := (2 * v) % 0x1_0000;
        result := result - 1;
        MulPow2(n, SHORT_BITS - result);
      }
      BitsFromNormalised(n, result, v);
    }
  }

  lemma BitsFromNormalised(n: nat, r: nat, v: nat)
    requires n > 0 && 1 <= r <= SHORT_BITS
    requires v == n * Pow2(SHORT_BITS - r) && 0x8000 <= v < 0x1_0000
    ensures r == BitsRequired(n)
  {
    hide Pow2;
    var q, h := Pow2(SHORT_BITS - r), Pow2(r - 1);
    Pow2Values();
    Pow2Add(SHORT_BITS - r, r);
    DoublePow2(r);
    Bracketed(n, q, h);
    BitsRequiredUnique(n, r);
  }

  lemma DoublePow2(r: nat)
    requires r > 0
    ensures Pow2(r) == 2 * Pow2(r - 1)
  {
  }

  lemma Bracketed(n: nat, q: nat, h: nat)
    requires q * (2 * h) == 0x1_0000 && 0x8000 <= n * q < 0x1_0000
    ensures h <= n < 2 * h
  {
    assert q * (2 * h) == 2 * (h * q);
    if n >= 2 * h {
      MulMono(2 * h, n, q);
    }
    if n < h {
      MulMono(n + 1, h, q);
      MulDistributes(q, n, 1);
    }
  }

  /** A 16-bit pattern read back as a signed short. */
  function AsShort(v: nat): int
    requires v < 0x1_0000
  {
    if v < 0x8000 then v else v - 0x1_0000
  }

  /** The place kept by the static variables of the bit reader. */
  class PackedReader {
    var index: nat
    var bitsAvail: nat

    constructor ()
      ensures index == 0 && bitsAvail == CHAR_BITS
    {
      index, bitsAvail := 0, CHAR_BITS;
    }

    ghost predicate Valid()
      reads this
    {
      bitsAvail <= CHAR_BITS
    }

    ghost function Position(): nat
      requires Valid()
      reads this
    {
      8 * index + (CHAR_BITS - bitsAvail)
    }

    /** The reader can be called again on a buffer of `length` bytes. */
    ghost predicate Ready(length: nat)
      reads this
    {
      Valid() && index < length && Position() <= 8 * length
    }

    /** The call with a null buffer. */
    method Reset()
      modifies this
      ensures Valid() && Position() == 0 && index == 0
    {
      index := 0;
      bitsAvail := CHAR_BITS;
    }

    /** Reads the next `bits` bits, or reports -1 once the buffer runs out; after that
        the source would read past its end, which `index < length` rules out. */
    method Read(buffer: seq<byte>, bits: nat) returns (result: int)
      requires Valid() && index < |buffer| && bits <= SHORT_BITS
      modifies this
      ensures Valid()
      ensures old(Position()) + bits <= 8 * |buffer| ==>
        && index < |buffer|
        && Position() == old(Position()) + bits
        && ReadsField(buffer, old(Position()), bits, result)
      ensures old(Position()) + bits > 8 * |buffer| ==> result == -1 && index == |buffer|
    {
      ghost var p0 := Position();
      ghost var overrun := false;
      result := 0;
      var left: nat := bits;
      var shift: nat := 0;
      while result != -1 && left > 0
        invariant Valid() && left <= bits
        invariant overrun ==> result == -1 && p0 + bits > 8 * |buffer| && index == |buffer|
        invariant !overrun ==> index < |buffer| && p0 + bits - left == Position() <= 8 * |buffer|
        invariant !overrun && left > 0 ==> result >= 0 && shift == bits - left && result == Field(buffer, p0, shift)
        invariant !overrun && left == 0 ==> ReadsField(buffer, p0, bits, result)
        decreases !overrun, |buffer| - index, left
      {
        var k := CHAR_BITS - bitsAvail;
        var chunk := Shr(buffer[index], k);
        var pattern := Or(result, Shl(chunk, shift)) % 0x1_0000;
        assert pattern == Pattern(buffer, p0, shift, index, k);
        if left <= bitsAvail {
          LastStep(buffer, p0, shift, index, k, left);
          result := AsShort(LowBits(pattern, left + shift));
          bitsAvail := bitsAvail - left;
          left := 0;
        } else {
          MiddleStep(buffer, p0, shift, index, k, left);
          result := AsShort(pattern);
          index := index + 1;
          if index >= |buffer| {
            result := -1;
            overrun := true;
          } else {
            shift := shift + bitsAvail;
            left := left - bitsAvail;
            bitsAvail := CHAR_BITS;
          }
        }
      }
    }
  }

  /** What a completed read returns: the field, as the short it is stored in. */
  ghost predicate ReadsField(s: seq<byte>, p: nat, n: nat, result: int)
    requires p + n <= 8 * |s|
  {
    Field(s, p, n) < 0x1_0000 && result == AsShort(Field(s, p, n))
  }

  /** Or-ing in the rest of byte `i`, shifted past the bits already read. */
  lemma ChunkExtends(s: seq<byte>, p: nat, shift: nat, i: nat, k: nat)
    requires i < |s| && k <= 8 && p + shift == 8 * i + k
    ensures Or(Field(s, p, shift), Shl(Shr(s[i], k), shift)) == Field(s, p, shift + (8 - k))
  {
    FieldWithinByte(s, i, k);
    FieldBound(s, p, shift);
    FieldSplit(s, p, shift, 8 - k);
    OrDisjoint(Field(s, p, shift), s[i] / Pow2(k), shift);
  }

  /** What the source has in hand after or-ing the rest of byte `i` into the result. */
  ghost function Pattern(s: seq<byte>, p: nat, shift: nat, i: nat, k: nat): (u: nat)
    requires i < |s| && k <= 8 && p + shift == 8 * i + k
    ensures u < 0x1_0000
  {
    Or(Field(s, p, shift), Shl(Shr(s[i], k), shift)) % 0x1_0000
  }

  /** The request is now complete ... */
  lemma LastStep(s: seq<byte>, p: nat, shift: nat, i: nat, k: nat, left: nat)
    requires i < |s| && k <= 8 && p + shift == 8 * i + k
    requires shift + left <= SHORT_BITS && left <= 8 - k
    ensures ReadsField(s, p, shift + left, AsShort(LowBits(Pattern(s, p, shift, i, k), shift + left)))
  {
    ChunkExtends(s, p, shift, i, k);
    LowField(s, p, shift + left, shift + (8 - k));
  }

  /** ... or the whole rest of the byte was taken, and the value is a non-negative short. */
  lemma MiddleStep(s: seq<byte>, p: nat, shift: nat, i: nat, k: nat, left: nat)
    requires i < |s| && k <= 8 && p + shift == 8 * i + k
    requires shift + left <= SHORT_BITS && left > 8 - k
    ensures AsShort(Pattern(s, p, shift, i, k)) == Field(s, p, shift + (8 - k))
  {
    ChunkExtends(s, p, shift, i, k);
    SmallField(s, p, shift + (8 - k));
  }

  lemma SmallField(s: seq<byte>, p: nat, n: nat)
    requires n < SHORT_BITS && p + n <= 8 * |s|
    ensures Field(s, p, n) < 0x8000
  {
    FieldBound(s, p, n);
    Pow2Mono(n, 15);
    assert Pow2(15) == 0x8000;
  }

  /** The two masks keep exactly the n bits that were asked for. */
  lemma LowField(s: seq<byte>, p: nat, n: nat, m: nat)
    requires n <= m && n <= SHORT_BITS && p + m <= 8 * |s|
    ensures LowBits(Field(s, p, m) % 0x1_0000, n) == Field(s, p, n) < 0x1_0000
  {
    var x, y := Field(s, p, n), Field(s, p + n, m - n);
    FieldSplit(s, p, n, m - n);
    FieldBound(s, p, n);
    ModOfSum(x, y, Pow2(n));
    Pow2Mono(n, 16);
    assert Pow2(16) == 0x1_0000 by { Pow2Values(); }
    assert Field(s, p, m) == x + y * Pow2(n);
    ModPow2Mod(Field(s, p, m), 16, n);
  }

  // ---------------------------------------------------------------------------
  // What a compressed stream means
  // ---------------------------------------------------------------------------

  function Min(a: int, b: int): int {
    if a < b then a else b
  }

  /** `out` extended by `length` bytes, each copied from `offset` bytes back; a copy may
      overlap itself. Offset zero re-reads the cleared byte about to be written. */
  function CopyMatch(out: seq<byte>, offset: nat, length: nat): (r: seq<byte>)
    requires offset <= |out|
    ensures |r| == |out| + length && r[..|out|] == out
    ensures offset > 0 ==> forall k :: |out| <= k < |r| ==> r[k] == r[k - offset]
    decreases length
  {
    if length == 0 then out
    else CopyMatch(CopyOne(out, offset), offset, length - 1)
  }

  function CopyOne(out: seq<byte>, offset: nat): (r: seq<byte>)
    requires offset <= |out|
  {
    out + [if offset == 0 then 0 else out[|out| - offset]]
  }

  /** Width of the offset field once `produced` bytes have been written. */
  function OffsetBits(produced: nat, window: nat): nat {
    BitsRequired(Min(produced, window))
  }

  function ByteAt(s: seq<byte>, p: nat): byte
    requires p + 8 <= 8 * |s|
  {
    ByteField(s, p);
    Field(s, p, 8)
  }

  lemma ByteField(s: seq<byte>, p: nat)
    requires p + 8 <= 8 * |s|
    ensures Field(s, p, 8) < 0x100
  {
    Pow2Values();
    FieldBound(s, p, 8);
  }

  /** The `m` bytes packed at bit position `p`. */
  function BytesAt(s: seq<byte>, p: nat, m: nat): (r: seq<byte>)
    requires p + 8 * m <= 8 * |s|
    ensures |r| == m
    decreases m
  {
    if m == 0 then [] else [ByteAt(s, p)] + BytesAt(s, p + 8, m - 1)
  }

  /** The meaning of the tokens from bit `p` on, given the bytes already produced;
      None when the stream ends early or a match reaches before the first byte. */
  function Decode(s: seq<byte>, p: nat, out: seq<byte>, n: nat, window: nat): (r: Option<seq<byte>>)
    requires p <= 8 * |s| && |out| <= n
    ensures r.Some? ==> |r.value| == n && r.value[..|out|] == out
    decreases 8 * |s| - p
  {
    if |out| == n then Some(out)
    else if p == 8 * |s| then None
    else if !StreamBit(s, p) then
      var m := Min(DATA_BLOB_LENGTH, n - |out|);
      if p + 1 + 8 * m > 8 * |s| then None
      else Decode(s, p + 1 + 8 * m, out + BytesAt(s, p + 1, m), n, window)
    else
      var k := OffsetBits(|out|, window);
      if p + 1 + k + 8 > 8 * |s| then None
      else
        var offset := Field(s, p + 1, k);
        var length := ByteAt(s, p + 1 + k);
        if offset > |out| then None
        else Decode(s, p + 1 + k + 8, CopyMatch(out, offset, Min(length, n - |out|)), n, window)
  }

  lemma DecodeLiteralStep(s: seq<byte>, p: nat, out: seq<byte>, bytes: seq<byte>, n: nat, window: nat)
    requires p < 8 * |s| && |out| < n && !StreamBit(s, p)
    requires |bytes| == Min(DATA_BLOB_LENGTH, n - |out|) && p + 1 + 8 * |bytes| <= 8 * |s|
    requires BytesAt(s, p + 1, |bytes|) == bytes
    ensures Decode(s, p, out, n, window) == Decode(s, p + 1 + 8 * |bytes|, out + bytes, n, window)
  {
    hide BytesAt, StreamBit;
  }

  lemma DecodeMatchStep(s: seq<byte>, p: nat, out: seq<byte>, offset: nat, length: nat, n: nat, window: nat)
    requires p < 8 * |s| && |out| < n && StreamBit(s, p) && offset <= |out|
    requires var k := OffsetBits(|out|, window);
      p + 1 + k + 8 <= 8 * |s| && Field(s, p + 1, k) == offset && ByteAt(s, p + 1 + k) == length
    ensures Decode(s, p, out, n, window)
      == Decode(s, p + 1 + OffsetBits(|out|, window) + 8, CopyMatch(out, offset, Min(length, n - |out|)), n, window)
  {
    hide OffsetBits, CopyMatch, Field, ByteAt, StreamBit;
  }

  /** One token of a stream that decodes: where it ends and what it makes of `out`. */
  lemma DecodeStep(s: seq<byte>, p: nat, out: seq<byte>, n: nat, window: nat) returns (q: nat, next: seq<byte>)
    requires p <= 8 * |s| && |out| < n && Decode(s, p, out, n, window).Some?
    ensures p < q <= 8 * |s| && |next| <= n && Decode(s, p, out, n, window) == Decode(s, q, next, n, window)
    ensures !StreamBit(s, p) ==> var m := Min(DATA_BLOB_LENGTH, n - |out|);
      && q == p + 1 + 8 * m
      && next == out + BytesAt(s, p + 1, m)
    ensures StreamBit(s, p) ==> var k := OffsetBits(|out|, window);
      && q == p + 1 + k + 8
      && Field(s, p + 1, k) <= |out|
      && next == CopyMatch(out, Field(s, p + 1, k), Min(ByteAt(s, p + 1 + k), n - |out|))
  {
    hide BytesAt, CopyMatch, Field, ByteAt, OffsetBits, StreamBit;
    if !StreamBit(s, p) {
      var m := Min(DATA_BLOB_LENGTH, n - |out|);
      q, next := p + 1 + 8 * m, out + BytesAt(s, p + 1, m);
    } else {
      var k := OffsetBits(|out|, window);
      q, next := p + 1 + k + 8, CopyMatch(out, Field(s, p + 1, k), Min(ByteAt(s, p + 1 + k), n - |out|));
    }
  }

  /** The four length bytes, read as a signed 32-bit number. */
  function HeaderLength(s: seq<byte>): int
    requires |s| >= 4
  {
    var v := Field(s, 0, 32);
    if v < 0x8000_0000 then v else v - 0x1_0000_0000
  }

  /** How far back a match may reach: in Jam 2.0 one byte less. */
  function Window(version: int): (w: nat)
    ensures w == if version == 2 then 8191 else 8192
  {
    if version == 2 then MATCH_DATA_LENGTH - 1 else MATCH_DATA_LENGTH
  }

  /** Input on which the decompressor stays inside its buffers. */
  predicate WellFormed(s: seq<byte>, outLength: nat, version: int) {
    && |s| >= 4
    && (0 <= HeaderLength(s) <= outLength ==> Decode(s, 32, [], HeaderLength(s), Window(version)).Some?)
  }

  // ---------------------------------------------------------------------------
  // jam_uncompress
  // ---------------------------------------------------------------------------

  /** From byte 8192 on an offset takes 14 bits, in Jam 2.0 only 13. */
  lemma LateOffsetWidth(produced: nat, version: int)
    requires produced >= 8192
    ensures OffsetBits(produced, Window(version)) == if version == 2 then 13 else 14
  {
    assert Pow2(12) == 0x1000 && Pow2(13) == 0x2000 && Pow2(14) == 0x4000 by {
      Pow2Values();
      Pow2Add(8, 4);
      assert Pow2(13) == 2 * Pow2(12) && Pow2(14) == 2 * Pow2(13);
    }
    BitsRequiredUnique(Window(version), if version == 2 then 13 else 14);
  }

  lemma OffsetWidth(produced: nat, window: nat)
    requires window <= 8192
    ensures OffsetBits(produced, window) <= 14
    ensures Min(produced, window) < 0x1_0000
  {
    var k := OffsetBits(produced, window);
    assert Pow2(13) == MATCH_DATA_LENGTH && Pow2(14) == 2 * MATCH_DATA_LENGTH;
    if k > 14 {
      Pow2Mono(14, k - 1);
    }
  }

  /** Reading eight bits gives a byte, never a negative short. */
  method ReadByte(reader: PackedReader, input: seq<byte>) returns (b: byte)
    requires reader.Ready(|input|)
    requires reader.Position() + 8 <= 8 * |input|
    modifies reader
    ensures reader.Ready(|input|) && reader.Position() == old(reader.Position()) + 8
    ensures b == ByteAt(input, old(reader.Position()))
  {
    ByteField(input, reader.Position());
    b := reader.Read(input, CHAR_BITS);
  }

  method ReadFlag(reader: PackedReader, input: seq<byte>) returns (flag: int)
    requires reader.Ready(|input|)
    requires reader.Position() + 1 <= 8 * |input|
    modifies reader
    ensures reader.Ready(|input|) && reader.Position() == old(reader.Position()) + 1
    ensures flag == BoolToNat(StreamBit(input, old(reader.Position())))
  {
    assert Field(input, reader.Position(), 1)
        == BoolToNat(StreamBit(input, reader.Position()));
    flag := reader.Read(input, 1);
  }

  /** Reads an offset, as wide as the output produced so far asks for, and a length. */
  method ReadMatch(reader: PackedReader, input: seq<byte>, i: nat, window: nat)
    returns (offset: nat, length: nat)
    requires reader.Ready(|input|) && window <= 8192
    requires reader.Position() + OffsetBits(i, window) + 8 <= 8 * |input|
    modifies reader
    ensures reader.Ready(|input|)
    ensures var k := OffsetBits(i, window);
      && reader.Position() == old(reader.Position()) + k + 8
      && offset == Field(input, old(reader.Position()), k)
      && length == ByteAt(input, old(reader.Position()) + k)
  {
    hide Field, ByteAt, BitsRequired, Pow2, Bit;
    OffsetWidth(i, window);
    var bits := BitsRequiredLoop(if i > window then window else i);
    SmallField(input, reader.Position(), bits);
    offset := reader.Read(input, bits);
    length := ReadByte(reader, input);
  }

  /** Reads the four length bytes at the start of the stream. */
  method ReadHeader(reader: PackedReader, input: seq<byte>) returns (dataLength: int)
    requires reader.Valid() && reader.Position() == 0 && reader.index == 0
    requires 4 <= |input|
    modifies reader
    ensures reader.Ready(|input|) && reader.Position() == 32
    ensures dataLength == HeaderLength(input)
  {
    var v: nat := 0;
    for i := 0 to 4
      invariant reader.Ready(|input|) && reader.Position() == 8 * i
      invariant v == Field(input, 0, 8 * i)
    {
      var b := ReadByte(reader, input);
      FieldSplit(input, 0, 8 * i, 8);
      FieldBound(input, 0, 8 * i);
      OrDisjoint(v, b, 8 * i);
      v := Or(v, Shl(b, i * CHAR_BITS));
    }
    FieldBound(input, 0, 32);
    Pow2Values();
    dataLength := if v < 0x8000_0000 then v else v - 0x1_0000_0000;
  }

  lemma {:induction false} BytesAtSnoc(s: seq<byte>, p: nat, m: nat)
    requires p + 8 * (m + 1) <= 8 * |s|
    ensures BytesAt(s, p, m + 1) == BytesAt(s, p, m) + [ByteAt(s, p + 8 * m)]
    decreases m
  {
    if m != 0 {
      BytesAtSnoc(s, p + 8, m - 1);
      assert p + 8 + 8 * (m - 1) == p + 8 * m;
    }
  }

  /** A 0 bit was read: up to three bytes follow verbatim. */
  method CopyLiteral(reader: PackedReader, input: seq<byte>, out: array<byte>, start: nat, dataLength: nat)
    returns (i: nat)
    requires start < dataLength <= out.Length
    requires reader.Ready(|input|)
    requires reader.Position() + 8 * Min(DATA_BLOB_LENGTH, dataLength - start) <= 8 * |input|
    modifies reader, out
    ensures reader.Ready(|input|)
    ensures i == start + Min(DATA_BLOB_LENGTH, dataLength - start)
    ensures reader.Position() == old(reader.Position()) + 8 * (i - start)
    ensures out[..i] == old(out[..start]) + BytesAt(input, old(reader.Position()), i - start)
    ensures forall k :: i <= k < out.Length ==> out[k] == old(out[k])
  {
    ghost var p := reader.Position();
    i := start;
    for j := 0 to DATA_BLOB_LENGTH
      invariant i == start + Min(j, dataLength - start) <= dataLength
      invariant reader.Ready(|input|) && reader.Position() == p + 8 * (i - start) <= 8 * |input|
      invariant out[..i] == old(out[..start]) + BytesAt(input, p, i - start)
      invariant forall k :: i <= k < out.Length ==> out[k] == old(out[k])
    {
      if i < dataLength {
        BytesAtSnoc(input, p, i - start);
        var b := ReadByte(reader, input);
        ghost var before := out[..];
        out[i] := b;
        assert out[..i + 1] == before[..i] + [b];
        i := i + 1;
      }
    }
  }

  lemma {:induction false} CopyMatchSnoc(out: seq<byte>, offset: nat, length: nat)
    requires offset <= |out|
    ensures CopyMatch(out, offset, length + 1) == CopyOne(CopyMatch(out, offset, length), offset)
    decreases length
  {
    if length != 0 {
      CopyMatchSnoc(CopyOne(out, offset), offset, length - 1);
    }
  }

  method CopyByte(out: array<byte>, i: nat, offset: nat)
    requires offset <= i < out.Length && out[i] == 0
    modifies out
    ensures out[..i + 1] == CopyOne(old(out[..i]), offset)
    ensures forall k :: i < k < out.Length ==> out[k] == old(out[k])
  {
    ghost var sofar := out[..i];
    var v := out[i - offset];
    assert v == if offset == 0 then 0 else sofar[i - offset];
    out[i] := v;
    assert out[..i + 1] == sofar + [v];
  }

  /** A 1 bit, an offset and a length were read: earlier output is copied forward. */
  method CopyBack(out: array<byte>, start: nat, offset: nat, length: nat, dataLength: nat) returns (i: nat)
    requires start <= dataLength <= out.Length && offset <= start
    requires forall k :: start <= k < dataLength ==> out[k] == 0
    modifies out
    ensures i == start + Min(length, dataLength - start)
    ensures out[..i] == CopyMatch(old(out[..start]), offset, i - start)
    ensures forall k :: i <= k < out.Length ==> out[k] == old(out[k])
  {
    ghost var was := out[..start];
    assert CopyMatch(was, offset, 0) == was;
    hide CopyMatch, CopyOne;
    i := start;
    for j := 0 to length
      invariant i == start + Min(j, dataLength - start) <= dataLength
      invariant out[..i] == CopyMatch(was, offset, i - start)
      invariant forall k :: i <= k < out.Length ==> out[k] == old(out[k])
    {
      if i < dataLength {
        CopyMatchSnoc(was, offset, i - start);
        CopyByte(out, i, offset);
        i := i + 1;
      }
    }
  }

  /** Decompresses `input` into `out` and returns the number of bytes produced, or -1
      when they do not fit. */
  method Uncompress(input: seq<byte>, out: array<byte>, outLength: nat, version: int)
    returns (dataLength: int)
    requires outLength <= out.Length
    requires WellFormed(input, outLength, version)
    modifies out
    ensures var header := HeaderLength(input);
      && dataLength == (if header > outLength then -1 else header)
      && (0 <= header <= outLength ==>
            var window := if version == 2 then 8191 else 8192;
            out[..header] == Decode(input, 32, [], header, window).value)
      && (forall k :: (if dataLength < 0 then 0 else dataLength) <= k < outLength ==> out[k] == 0)
      && (forall k :: outLength <= k < out.Length ==> out[k] == old(out[k]))
  {
    hide Decode, Field;
    var reader := new PackedReader();
    reader.Reset();
    for i := 0 to outLength
      invariant reader.Valid() && reader.Position() == 0 && reader.index == 0
      invariant forall k :: 0 <= k < i ==> out[k] == 0
      invariant forall k :: outLength <= k < out.Length ==> out[k] == old(out[k])
    {
      out[i] := 0;
    }
    var matchDataLength: nat := MATCH_DATA_LENGTH;
    if version == 2 {
      matchDataLength := matchDataLength - 1;
    }
    dataLength := ReadHeader(reader, input);
    if dataLength > outLength {
      dataLength := -1;
    } else if dataLength >= 0 {
      DecodeLoop(reader, input, out, dataLength, outLength, matchDataLength);
    }
  }

  /** One token: a flag bit, then a literal or a match. */
  method DecodeToken(reader: PackedReader, input: seq<byte>, out: array<byte>,
                     start: nat, dataLength: nat, window: nat) returns (i: nat)
    requires window <= 8192 && start < dataLength <= out.Length
    requires reader.Ready(|input|)
    requires Decode(input, reader.Position(), out[..start], dataLength, window).Some?
    requires forall k :: start <= k < dataLength ==> out[k] == 0
    modifies reader, out
    ensures reader.Ready(|input|) && reader.Position() > old(reader.Position())
    ensures start <= i <= dataLength && (forall k :: i <= k < out.Length ==> out[k] == old(out[k]))
    ensures Decode(input, reader.Position(), out[..i], dataLength, window)
         == Decode(input, old(reader.Position()), old(out[..start]), dataLength, window)
  {
    hide Decode, BytesAt, CopyMatch, Field, ByteAt, BitsRequired, Pow2, Bit;
    ghost var sofar := out[..start];
    ghost var q, next := DecodeStep(input, reader.Position(), sofar, dataLength, window);
    var flag := ReadFlag(reader, input);
    assert out[..start] == sofar;
    if flag == 0 {
      i := CopyLiteral(reader, input, out, start, dataLength);
      assert out[..i] == next;
    } else {
      var offset, length := ReadMatch(reader, input, start, window);
      assert out[..start] == sofar;
      i := CopyBack(out, start, offset, length, dataLength);
      assert out[..i] == next;
    }
    assert reader.Position() == q;
  }

  /** The token loop; a negative length word in the header skips it altogether. */
  method DecodeLoop(reader: PackedReader, input: seq<byte>, out: array<byte>,
                    dataLength: nat, outLength: nat, window: nat)
    requires window <= 8192 && dataLength <= outLength <= out.Length
    requires reader.Ready(|input|) && reader.Position() == 32
    requires Decode(input, 32, [], dataLength, window).Some?
    requires forall k :: 0 <= k < outLength ==> out[k] == 0
    modifies reader, out
    ensures out[..dataLength] == Decode(input, 32, [], dataLength, window).value
    ensures forall k :: dataLength <= k < out.Length ==> out[k] == old(out[k])
  {
    assert forall out: seq<byte>, p: nat :: |out| == dataLength && p <= 8 * |input| ==>
      Decode(input, p, out, dataLength, window) == Some(out);
    hide Decode;
    ghost var goal := Decode(input, 32, [], dataLength, window);
    var i := 0;
    while i < dataLength
      invariant 0 <= i <= dataLength && reader.Ready(|input|)
      invariant Decode(input, reader.Position(), out[..i], dataLength, window) == goal
      invariant forall k :: i <= k < out.Length ==> out[k] == old(out[k])
      decreases 8 * |input| - reader.Position()
    {
      i := DecodeToken(reader, input, out, i, dataLength, window);
    }
  }
}
