/** The ACA format from the packing side: which token lists describe a byte string, the
    bits they are packed into, and the proof that the decompressor gets the string back. */
module AcaFormat {
  import opened Bits
  import opened JamComp
  import opened Options

  datatype Token = Literal(bytes: seq<byte>) | Match(offset: nat, length: nat)

  /** How many bytes of `data` a token produces when it starts at byte `i`. */
  function Covers(t: Token, i: nat, data: seq<byte>): nat
    requires i <= |data|
  {
    match t
    case Literal(bytes) => |bytes|
    case Match(_, length) => Min(length, |data| - i)
  }

  /** A literal holds the next three bytes, fewer only at the end. A match repeats what
      stands `offset` bytes earlier, possibly running into itself. */
  predicate Describes(t: Token, i: nat, data: seq<byte>, window: nat)
    requires i < |data|
  {
    match t
    case Literal(bytes) =>
      |bytes| == Min(DATA_BLOB_LENGTH, |data| - i) && bytes == data[i..i + |bytes|]
    case Match(offset, length) =>
      && 1 <= offset <= Min(i, window)
      && length < 0x100
      && forall k :: i <= k < i + Min(length, |data| - i) ==> data[k] == data[k - offset]
  }

  /** The tokens describe exactly the bytes of `data` from `i` to the end. */
  predicate Tokenises(tokens: seq<Token>, i: nat, data: seq<byte>, window: nat)
    requires i <= |data|
  {
    if tokens == [] then i == |data|
    else
      && i < |data|
      && Describes(tokens[0], i, data, window)
      && Tokenises(tokens[1..], i + Covers(tokens[0], i, data), data, window)
  }

  // ---------------------------------------------------------------------------
  // Packing
  // ---------------------------------------------------------------------------

  /** The low n bits of v, least significant first. */
  function NatBits(v: nat, n: nat): (r: seq<bool>)
    ensures |r| == n
    decreases v, n
  {
    if n == 0 then [] else [v % 2 == 1] + NatBits(v / 2, n - 1)
  }

  lemma {:induction false} NatBitsBit(v: nat, n: nat, i: nat)
    requires i < n
    ensures NatBits(v, n)[i] == Bit(v, i)
    decreases n
  {
    if i != 0 {
      NatBitsBit(v / 2, n - 1, i - 1);
    }
  }

  function BytesBits(bytes: seq<byte>): (r: seq<bool>)
    ensures |r| == 8 * |bytes|
  {
    if bytes == [] then [] else NatBits(bytes[0], CHAR_BITS) + BytesBits(bytes[1..])
  }

  function TokenBits(t: Token, i: nat, window: nat): seq<bool> {
    match t
    case Literal(bytes) => [false] + BytesBits(bytes)
    case Match(offset, length) =>
      [true] + (NatBits(offset, OffsetBits(i, window)) + NatBits(length, CHAR_BITS))
  }

  function StreamBits(tokens: seq<Token>, i: nat, data: seq<byte>, window: nat): seq<bool>
    requires i <= |data| && Tokenises(tokens, i, data, window)
  {
    if tokens == [] then []
    else
      TokenBits(tokens[0], i, window)
        + StreamBits(tokens[1..], i + Covers(tokens[0], i, data), data, window)
  }

  /** Eight bits to a byte, the last byte filled up with zeros. */
  function Pack(bits: seq<bool>): (s: seq<byte>)
    ensures 8 * |s| >= |bits|
    decreases |bits|
  {
    if bits == [] then [] else [PackByte(Octet(bits))] + Pack(bits[Min(8, |bits|)..])
  }

  /** The first eight bits, zeros standing in for missing ones. */
  function Octet(bits: seq<bool>): (o: seq<bool>)
    ensures |o| == 8
    ensures forall q :: 0 <= q < 8 && q < |bits| ==> o[q] == bits[q]
  {
    if |bits| < 8 then bits + seq(8 - |bits|, _ => false) else bits[..8]
  }

  function BitsValue(bits: seq<bool>): (v: nat)
    ensures v < Pow2(|bits|)
  {
    if bits == [] then 0 else BoolToNat(bits[0]) + 2 * BitsValue(bits[1..])
  }

  function PackByte(bits: seq<bool>): byte
    requires |bits| == 8
  {
    Pow2Values();
    BitsValue(bits)
  }

  /** The whole compressed stream: a four-byte length, then the tokens. */
  function Compressed(tokens: seq<Token>, data: seq<byte>, window: nat): seq<byte>
    requires Tokenises(tokens, 0, data, window)
  {
    Pack(NatBits(|data|, 32) + StreamBits(tokens, 0, data, window))
  }

  // ---------------------------------------------------------------------------
  // Unpacking inverts packing
  // ---------------------------------------------------------------------------

  /** The byte string carries `bits` from position `p` on. */
  predicate Carries(s: seq<byte>, p: nat, bits: seq<bool>) {
    && p + |bits| <= 8 * |s|
    && forall q :: p <= q < p + |bits| ==> StreamBit(s, q) == bits[q - p]
  }

  lemma CarriesSplit(s: seq<byte>, p: nat, a: seq<bool>, b: seq<bool>)
    requires Carries(s, p, a + b)
    ensures Carries(s, p, a) && Carries(s, p + |a|, b)
  {
    forall q | p <= q < p + |a| ensures StreamBit(s, q) == a[q - p] {
      assert (a + b)[q - p] == a[q - p];
    }
    forall q | p + |a| <= q < p + |a| + |b| ensures StreamBit(s, q) == b[q - p - |a|] {
      assert (a + b)[q - p] == b[q - p - |a|];
    }
  }

  lemma CarriesHead(s: seq<byte>, p: nat, b: bool, rest: seq<bool>)
    requires Carries(s, p, [b] + rest)
    ensures p < 8 * |s| && StreamBit(s, p) == b && Carries(s, p + 1, rest)
    ensures p + 1 + |rest| <= 8 * |s|
  {
    CarriesSplit(s, p, [b], rest);
  }

  lemma {:induction false} BitsValueBit(bits: seq<bool>, q: nat)
    requires q < |bits|
    ensures Bit(BitsValue(bits), q) == bits[q]
  {
    if q != 0 {
      BitsValueBit(bits[1..], q - 1);
    }
  }

  lemma {:induction false} PackCarries(bits: seq<bool>)
    ensures Carries(Pack(bits), 0, bits)
    decreases |bits|
  {
    hide BitsValue, Bit, Pow2, Octet;
    if bits != [] {
      var rest := bits[Min(8, |bits|)..];
      PackCarries(rest);
      forall q | 0 <= q < |bits| ensures StreamBit(Pack(bits), q) == bits[q] {
        PackStep(bits, q);
      }
    }
  }

  lemma PackStep(bits: seq<bool>, q: nat)
    requires q < |bits|
    ensures q < 8 ==> StreamBit(Pack(bits), q) == bits[q]
    ensures q >= 8 ==> q - 8 < 8 * |Pack(bits[8..])| && StreamBit(Pack(bits), q) == StreamBit(Pack(bits[8..]), q - 8)
  {
    hide BitsValue, Bit, Pow2, Octet;
    if q < 8 {
      BitsValueBit(Octet(bits), q);
    } else {
      assert Pack(bits)[q / 8] == Pack(bits[8..])[(q - 8) / 8];
    }
  }

  lemma {:induction false} FieldOfNatBits(s: seq<byte>, p: nat, v: nat, n: nat)
    requires Carries(s, p, NatBits(v, n)) && v < Pow2(n)
    ensures Field(s, p, n) == v
    decreases n
  {
    if n != 0 {
      assert NatBits(v, n) == [v % 2 == 1] + NatBits(v / 2, n - 1);
      CarriesHead(s, p, v % 2 == 1, NatBits(v / 2, n - 1));
      FieldOfNatBits(s, p + 1, v / 2, n - 1);
    }
  }

  lemma ByteOfNatBits(s: seq<byte>, p: nat, v: nat)
    requires v < 0x100 && Carries(s, p, NatBits(v, CHAR_BITS))
    ensures ByteAt(s, p) == v
  {
    Pow2Values();
    FieldOfNatBits(s, p, v, CHAR_BITS);
  }

  lemma {:induction false} BytesOfBits(s: seq<byte>, p: nat, bytes: seq<byte>)
    requires Carries(s, p, BytesBits(bytes))
    ensures BytesAt(s, p, |bytes|) == bytes
    decreases |bytes|
  {
    if bytes != [] {
      CarriesSplit(s, p, NatBits(bytes[0], CHAR_BITS), BytesBits(bytes[1..]));
      ByteOfNatBits(s, p, bytes[0]);
      BytesOfBits(s, p + 8, bytes[1..]);
    }
  }

  /** A match whose repetition holds in `data` copies exactly those bytes. */
  lemma {:induction false} CopyMatchIsRepetition(data: seq<byte>, i: nat, offset: nat, length: nat)
    requires 1 <= offset <= i && i + length <= |data|
    requires forall k :: i <= k < i + length ==> data[k] == data[k - offset]
    ensures CopyMatch(data[..i], offset, length) == data[..i + length]
    decreases length
  {
    if length != 0 {
      assert CopyOne(data[..i], offset) == data[..i + 1];
      CopyMatchIsRepetition(data, i + 1, offset, length - 1);
    }
  }

  lemma CoversWithin(t: Token, i: nat, data: seq<byte>, window: nat)
    requires i < |data| && Describes(t, i, data, window)
    ensures i + Covers(t, i, data) <= |data|
  {
  }

  /** A packed literal and a packed match, read back by the decoder. */
  lemma DecodeLiteral(s: seq<byte>, p: nat, bytes: seq<byte>, i: nat, data: seq<byte>, window: nat)
    requires i < |data| && Describes(Literal(bytes), i, data, window)
    requires Carries(s, p, [false] + BytesBits(bytes))
    ensures p + 1 + 8 * |bytes| <= 8 * |s|
    ensures Decode(s, p, data[..i], |data|, window)
      == Decode(s, p + 1 + 8 * |bytes|, data[..i + |bytes|], |data|, window)
  {
    hide Decode, Carries, StreamBit, BytesAt, BytesBits;
    CarriesHead(s, p, false, BytesBits(bytes));
    BytesOfBits(s, p + 1, bytes);
    assert data[..i] + bytes == data[..i + |bytes|];
    DecodeLiteralStep(s, p, data[..i], bytes, |data|, window);
  }

  lemma OffsetFits(i: nat, offset: nat, window: nat)
    requires offset <= Min(i, window)
    ensures offset < Pow2(OffsetBits(i, window))
  {
  }

  lemma DecodeMatch(s: seq<byte>, p: nat, offset: nat, length: nat, i: nat, data: seq<byte>, window: nat)
    requires i < |data| && Describes(Match(offset, length), i, data, window)
    requires Carries(s, p, [true] + (NatBits(offset, OffsetBits(i, window)) + NatBits(length, CHAR_BITS)))
    ensures var k := OffsetBits(i, window);
      && p + 1 + k + 8 <= 8 * |s|
      && Decode(s, p, data[..i], |data|, window)
      == Decode(s, p + 1 + k + 8, data[..i + Min(length, |data| - i)], |data|, window)
  {
    hide Decode, Carries, CopyMatch, Field, ByteAt, OffsetBits, StreamBit, NatBits, Pow2;
    OffsetFits(i, offset, window);
    var k := OffsetBits(i, window);
    var width, tail := NatBits(offset, k), NatBits(length, CHAR_BITS);
    CarriesHead(s, p, true, width + tail);
    CarriesSplit(s, p + 1, width, tail);
    FieldOfNatBits(s, p + 1, offset, k);
    ByteOfNatBits(s, p + 1 + k, length);
    CopyMatchIsRepetition(data, i, offset, Min(length, |data| - i));
    DecodeMatchStep(s, p, data[..i], offset, length, |data|, window);
  }

  /** Decoding one packed token yields the bytes the token describes. */
  lemma DecodeOne(s: seq<byte>, p: nat, t: Token, i: nat, data: seq<byte>, window: nat)
    requires i < |data| && Describes(t, i, data, window)
    requires Carries(s, p, TokenBits(t, i, window))
    ensures var j := i + Covers(t, i, data);
      && j <= |data| && p + |TokenBits(t, i, window)| <= 8 * |s|
      && Decode(s, p, data[..i], |data|, window)
      == Decode(s, p + |TokenBits(t, i, window)|, data[..j], |data|, window)
  {
    hide Decode, Carries, OffsetBits, NatBits, BytesBits, Describes;
    CoversWithin(t, i, data, window);
    match t
    case Literal(bytes) =>
      DecodeLiteral(s, p, bytes, i, data, window);
    case Match(offset, length) =>
      DecodeMatch(s, p, offset, length, i, data, window);
  }

  lemma DecodeDone(s: seq<byte>, p: nat, data: seq<byte>, window: nat)
    requires p <= 8 * |s|
    ensures Decode(s, p, data, |data|, window) == Some(data)
  {
  }

  /** The token part of a packed stream decodes to the described bytes. */
  lemma {:induction false} DecodeInvertsPacking(s: seq<byte>, p: nat, tokens: seq<Token>, i: nat, data: seq<byte>, window: nat)
    requires i <= |data| && Tokenises(tokens, i, data, window)
    requires p <= 8 * |s| && Carries(s, p, StreamBits(tokens, i, data, window))
    ensures Decode(s, p, data[..i], |data|, window) == Some(data)
    decreases |tokens|
  {
    hide Decode, Describes, TokenBits, Covers, Carries;
    if tokens == [] {
      DecodeDone(s, p, data, window);
      assert data[..i] == data;
    } else {
      CoversWithin(tokens[0], i, data, window);
      var j := i + Covers(tokens[0], i, data);
      var bits, rest := TokenBits(tokens[0], i, window), StreamBits(tokens[1..], j, data, window);
      assert StreamBits(tokens, i, data, window) == bits + rest;
      CarriesSplit(s, p, bits, rest);
      DecodeOne(s, p, tokens[0], i, data, window);
      DecodeInvertsPacking(s, p + |bits|, tokens[1..], j, data, window);
    }
  }

  /** Whatever legal tokens a byte string was packed with, and whatever stands after
      them, the decompressor accepts the stream and returns that string. */
  lemma StreamRoundTrip(s: seq<byte>, tokens: seq<Token>, data: seq<byte>, outLength: nat, version: int, window: nat)
    requires |data| <= outLength && |data| < 0x8000_0000
    requires window == if version == 2 then 8191 else 8192
    requires Tokenises(tokens, 0, data, window)
    requires Carries(s, 0, NatBits(|data|, 32) + StreamBits(tokens, 0, data, window))
    ensures WellFormed(s, outLength, version)
    ensures HeaderLength(s) == |data|
    ensures Decode(s, 32, [], |data|, window) == Some(data)
  {
    hide Decode, NatBits, Field;
    CarriesSplit(s, 0, NatBits(|data|, 32), StreamBits(tokens, 0, data, window));
    Pow2Values();
    FieldOfNatBits(s, 0, |data|, 32);
    DecodeInvertsPacking(s, 32, tokens, 0, data, window);
    assert data[..0] == [];
  }

  /** Tokens that reach back up to 8192 bytes are unpacked by Jam 1.x, up to 8191 by Jam 2.0. */
  lemma RoundTrip(tokens: seq<Token>, data: seq<byte>, outLength: nat, version: int, window: nat)
    requires |data| <= outLength && |data| < 0x8000_0000
    requires window == if version == 2 then 8191 else 8192
    requires Tokenises(tokens, 0, data, window)
    ensures var s := Compressed(tokens, data, window);
      && WellFormed(s, outLength, version)
      && HeaderLength(s) == |data|
      && Decode(s, 32, [], |data|, window) == Some(data)
  {
    PackCarries(NatBits(|data|, 32) + StreamBits(tokens, 0, data, window));
    StreamRoundTrip(Compressed(tokens, data, window), tokens, data, outLength, version, window);
  }

  /** An example by hand: ABCAB is its length, a 0 and the letters ABC, and a 1 with offset 3 in
      two bits and length 2; low bits come first. */
  lemma ExampleIsUnpacked(outLength: nat, version: int)
    requires outLength >= 5
    ensures var s := [0x05, 0, 0, 0, 0x82, 0x84, 0x86, 0x2e, 0x00];
      && WellFormed(s, outLength, version) && HeaderLength(s) == 5
      && Decode(s, 32, [], 5, if version == 2 then 8191 else 8192) == Some([0x41, 0x42, 0x43, 0x41, 0x42])
  {
    hide Decode, Carries, Describes, NatBits;
    var window := if version == 2 then 8191 else 8192;
    var data: seq<byte>, tokens := [0x41, 0x42, 0x43, 0x41, 0x42], [Literal([0x41, 0x42, 0x43]), Match(3, 2)];
    var body: seq<byte>, header: seq<byte> := [0x82, 0x84, 0x86, 0x2e, 0x00], [0x05, 0, 0, 0];
    ExampleIsTokenised(data, tokens, window);
    ExampleHeader();
    ExampleTokens(data, tokens, window);
    ExampleBody();
    JoinedBits(header, body);
    var bits := StreamBits(tokens, 0, data, window);
    assert BytesBits(header + body) == (NatBits(5, 32) + bits) + [false, false, false, false];
    BytesCarry(header + body, NatBits(5, 32) + bits);
    assert header + body == [0x05, 0, 0, 0, 0x82, 0x84, 0x86, 0x2e, 0x00];
    StreamRoundTrip(header + body, tokens, data, outLength, version, window);
  }

  lemma ExampleIsTokenised(data: seq<byte>, tokens: seq<Token>, window: nat)
    requires data == [0x41, 0x42, 0x43, 0x41, 0x42]
    requires tokens == [Literal([0x41, 0x42, 0x43]), Match(3, 2)] && window >= 8191
    ensures Tokenises(tokens, 0, data, window)
    ensures tokens[1..] == [Match(3, 2)] && Tokenises(tokens[1..], 3, data, window)
  {
    assert tokens[1..][1..] == [];
    assert data[0..3] == [0x41, 0x42, 0x43];
    assert Tokenises([], 5, data, window);
    assert Tokenises(tokens[1..], 3, data, window);
  }

  lemma {:induction false} BytesBitsBit(bytes: seq<byte>, q: nat)
    requires q < 8 * |bytes|
    ensures BytesBits(bytes)[q] == Bit(bytes[q / 8], q % 8)
  {
    hide Bit, NatBits;
    if q < 8 {
      NatBitsBit(bytes[0], 8, q);
    } else {
      BytesBitsBit(bytes[1..], q - 8);
      assert q / 8 == (q - 8) / 8 + 1 && q % 8 == (q - 8) % 8;
    }
  }

  lemma BytesCarry(s: seq<byte>, bits: seq<bool>)
    requires bits <= BytesBits(s)
    ensures Carries(s, 0, bits)
  {
    hide Bit;
    forall q | 0 <= q < |bits| ensures StreamBit(s, q) == bits[q] {
      BytesBitsBit(s, q);
    }
  }

  lemma {:induction false} JoinedBits(a: seq<byte>, b: seq<byte>)
    ensures BytesBits(a + b) == BytesBits(a) + BytesBits(b)
  {
    hide NatBits;
    if a == [] {
      assert a + b == b;
    } else {
      assert (a + b)[1..] == a[1..] + b;
      JoinedBits(a[1..], b);
    }
  }

  /** The bits of a number, given as a list. */
  lemma {:induction false} NatBitsOfValue(bits: seq<bool>)
    ensures NatBits(BitsValue(bits), |bits|) == bits
  {
    if bits != [] {
      NatBitsOfValue(bits[1..]);
    }
  }

  lemma EightBits(v: byte, b: seq<bool>)
    requires |b| == 8
    requires v == BoolToNat(b[0]) + 2 * BoolToNat(b[1]) + 4 * BoolToNat(b[2]) + 8 * BoolToNat(b[3])
      + 16 * BoolToNat(b[4]) + 32 * BoolToNat(b[5]) + 64 * BoolToNat(b[6]) + 128 * BoolToNat(b[7])
    ensures NatBits(v, 8) == b
  {
    hide NatBits, Pow2, BitsValue;
    NatBitsOfValue(b);
    HeadBit(b);
    HeadBit(b[1..]);
    HeadBit(b[2..]);
    HeadBit(b[3..]);
    HeadBit(b[4..]);
    HeadBit(b[5..]);
    HeadBit(b[6..]);
    HeadBit(b[7..]);
    HeadBit(b[8..]);
    assert b[1..][1..] == b[2..] && b[2..][1..] == b[3..] && b[3..][1..] == b[4..] && b[4..][1..] == b[5..];
    assert b[5..][1..] == b[6..] && b[6..][1..] == b[7..] && b[7..][1..] == b[8..];
  }

  lemma HeadBit(b: seq<bool>)
    ensures BitsValue(b) == if b == [] then 0 else BoolToNat(b[0]) + 2 * BitsValue(b[1..])
  {
  }

  lemma {:induction false} ZerosAbove(v: nat, n: nat, m: nat)
    requires v < Pow2(n)
    ensures NatBits(v, n + m) == NatBits(v, n) + NatBits(0, m)
    decreases n
  {
    if n != 0 {
      ZerosAbove(v / 2, n - 1, m);
      assert NatBits(v, n + m) == [v % 2 == 1] + NatBits(v / 2, n - 1 + m);
    }
  }

  lemma ExampleHeader()
    ensures BytesBits([0x05, 0, 0, 0]) == NatBits(5, 32)
  {
    hide NatBits;
    Pow2Values();
    ZerosAbove(5, 8, 24);
    ZerosAbove(0, 8, 16);
    ZerosAbove(0, 8, 8);
    hide Pow2;
    var s: seq<byte> := [0x05, 0, 0, 0];
    assert s[1..] == [0, 0, 0] && s[1..][1..] == [0, 0] && s[1..][1..][1..] == [0] && s[1..][1..][1..][1..] == [];
  }

  function ExampleList(): seq<bool> {
    [
      false, true, false, false, false, false, false, true, false, false, true, false,
      false, false, false, true, false, true, true, false, false, false, false, true,
      false, true, true, true, false, true, false, false, false, false, false, false]
  }

  function ExampleParts(): seq<bool> {
    ([false] + (NatBits(0x41, 8) + (NatBits(0x42, 8) + NatBits(0x43, 8))))
      + ([true] + (NatBits(3, 2) + NatBits(2, 8)))
  }

  lemma ExampleTokens(data: seq<byte>, tokens: seq<Token>, window: nat)
    requires data == [0x41, 0x42, 0x43, 0x41, 0x42]
    requires tokens == [Literal([0x41, 0x42, 0x43]), Match(3, 2)] && window >= 8191
    requires Tokenises(tokens, 0, data, window)
    ensures StreamBits(tokens, 0, data, window) == ExampleList()
  {
    ExamplePartsAre();
    hide NatBits, Describes, BitsRequired, ExampleList;
    ExampleIsTokenised(data, tokens, window);
    assert OffsetBits(3, window) == 2 by {
      BitsRequiredUnique(3, 2);
    }
    var abc: seq<byte> := [0x41, 0x42, 0x43];
    assert abc[1..] == [0x42, 0x43] && abc[1..][1..] == [0x43] && abc[1..][1..][1..] == [];
    assert BytesBits(abc) == NatBits(0x41, 8) + (NatBits(0x42, 8) + NatBits(0x43, 8));
    assert tokens[1..][1..] == [];
    var second := [true] + (NatBits(3, 2) + NatBits(2, 8));
    assert TokenBits(Match(3, 2), 3, window) == second;
    assert StreamBits([], 5, data, window) == [];
    assert Covers(Match(3, 2), 3, data) == 2;
    assert StreamBits(tokens[1..], 3, data, window) == second + [];
  }

  lemma ExamplePartsAre()
    ensures ExampleParts() == ExampleList()
  {
    hide NatBits;
    EightBits(0x41, [true, false, false, false, false, false, true, false]);
    EightBits(0x42, [false, true, false, false, false, false, true, false]);
    EightBits(0x43, [true, true, false, false, false, false, true, false]);
    EightBits(0x02, [false, true, false, false, false, false, false, false]);
    TwoBits();
  }

  lemma TwoBits()
    ensures NatBits(3, 2) == [true, true]
  {
    assert NatBits(1, 1) == [true];
  }

  lemma ExampleBody()
    ensures BytesBits([0x82, 0x84, 0x86, 0x2e, 0x00]) == ExampleList() + [false, false, false, false]
  {
    hide NatBits, ExampleList;
    EightBits(0x82, [false, true, false, false, false, false, false, true]);
    EightBits(0x84, [false, false, true, false, false, false, false, true]);
    EightBits(0x86, [false, true, true, false, false, false, false, true]);
    EightBits(0x2e, [false, true, true, true, false, true, false, false]);
    EightBits(0x00, [false, false, false, false, false, false, false, false]);
    var s: seq<byte> := [0x82, 0x84, 0x86, 0x2e, 0x00];
    assert s[1..] == [0x84, 0x86, 0x2e, 0x00] && s[1..][1..] == [0x86, 0x2e, 0x00];
    assert s[1..][1..][1..] == [0x2e, 0x00] && s[1..][1..][1..][1..] == [0x00];
    assert s[1..][1..][1..][1..][1..] == [];
    assert BytesBits(s) == NatBits(s[0], 8) + (NatBits(s[1], 8) + (NatBits(s[2], 8) + (NatBits(s[3], 8) + NatBits(s[4], 8))));
    ExampleChunks();
  }

  lemma ExampleChunks()
    ensures ExampleList() + [false, false, false, false] ==
      [false, true, false, false, false, false, false, true]
      + ([false, false, true, false, false, false, false, true]
      + ([false, true, true, false, false, false, false, true]
      + ([false, true, true, true, false, true, false, false]
      + ([false, false, false, false, false, false, false, false]))))
  {
  }

  /** The token list with no matches at all; every byte string has one. */
  function AllLiterals(i: nat, data: seq<byte>): (tokens: seq<Token>)
    requires i <= |data|
    decreases |data| - i
  {
    if i == |data| then []
    else
      var m := Min(DATA_BLOB_LENGTH, |data| - i);
      [Literal(data[i..i + m])] + AllLiterals(i + m, data)
  }

  lemma {:induction false} AllLiteralsTokenise(i: nat, data: seq<byte>, window: nat)
    requires i <= |data|
    ensures Tokenises(AllLiterals(i, data), i, data, window)
    decreases |data| - i
  {
    if i != |data| {
      var m := Min(DATA_BLOB_LENGTH, |data| - i);
      AllLiteralsTokenise(i + m, data, window);
      assert AllLiterals(i, data)[1..] == AllLiterals(i + m, data);
    }
  }
}
