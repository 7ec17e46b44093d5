/** Arrays written as ACA text: six bits per character, unpacked into the very buffer the
    characters are read from, or from the input stream into a buffer of its own; then
    decompressed and stored as words. */
module JamAca {
  import opened Bits
  import opened Options
  import opened BitArrays
  import opened JamComp
  import opened AcaFormat
  import opened JamText

  /** The bits a text of six-bit characters carries, None when a character is illegal. */
  function SixBits(text: seq<byte>): (r: Option<seq<bool>>)
    ensures r.Some? ==> |r.value| == 6 * |text|
  {
    if text == [] then Some([])
    else
      match (SixBits(text[..|text| - 1]), SixBit(text[|text| - 1]))
      case (Some(bits), Some(v)) => Some(bits + NatBits(v, 6))
      case _ => None
  }

  // ---------------------------------------------------------------------------
  // In place
  // ---------------------------------------------------------------------------

  /** The bits of the buffer below `end` are `bits`, filled up with zeros. */
  ghost predicate BitsBelow(buffer: array<byte>, bits: seq<bool>, end: nat)
    requires end <= 8 * buffer.Length
    reads buffer
  {
    forall q: nat :: q < end ==> BufferBit(buffer, q) == (q < |bits| && bits[q])
  }

  /** The six iterations that store one character. */
  method PutSix(buffer: array<byte>, address: nat, value: nat)
    requires address + 6 <= 8 * buffer.Length && value < 64
    modifies buffer
    ensures forall k :: 0 <= k < buffer.Length && k > (address + 5) / 8 ==> buffer[k] == old(buffer[k])
    ensures forall q: nat :: q < 8 * buffer.Length ==>
      BufferBit(buffer, q) == if address <= q < address + 6 then Bit(value, q - address) else old(BufferBit(buffer, q))
  {
    hide Bit;
    for bit := 0 to 6
      invariant forall k :: 0 <= k < buffer.Length && k > (address + 5) / 8 ==> buffer[k] == old(buffer[k])
      invariant forall q: nat :: q < 8 * buffer.Length ==>
        BufferBit(buffer, q) == if address <= q < address + bit then Bit(value, q - address) else old(BufferBit(buffer, q))
    {
      PutBufferBit(buffer, address + bit, Bit(value, bit));
    }
  }

  method ClearByte(buffer: array<byte>, index: nat)
    requires index < buffer.Length
    modifies buffer
    ensures forall k :: 0 <= k < buffer.Length && k != index ==> buffer[k] == old(buffer[k])
    ensures forall q: nat :: q < 8 * buffer.Length ==>
      BufferBit(buffer, q) == (q / 8 != index && old(BufferBit(buffer, q)))
  {
    buffer[index] := 0;
    forall i: nat ensures !Bit(0, i) {
      ZeroBit(i);
    }
  }

  /** One character: its byte is cleared, its six bits go to the front of the buffer, and no
      character still to be read is touched. */
  method UnpackOne(buffer: array<byte>, index: nat, value: nat, ghost bits: seq<bool>)
    requires index < buffer.Length && value < 64
    requires |bits| == 6 * index && BitsBelow(buffer, bits, 8 * index)
    modifies buffer
    ensures forall k :: index < k < buffer.Length ==> buffer[k] == old(buffer[k])
    ensures BitsBelow(buffer, bits + NatBits(value, 6), 8 * (index + 1))
  {
    hide Bit, NatBits;
    ClearByte(buffer, index);
    PutSix(buffer, 6 * index, value);
    var all := bits + NatBits(value, 6);
    forall q: nat | q < 8 * (index + 1) ensures BufferBit(buffer, q) == (q < |all| && all[q]) {
      if 6 * index <= q < 6 * index + 6 {
        NatBitsBit(value, 6, q - 6 * index);
      }
    }
  }

  /** The whole loop, up to `end`, where `text` has been squeezed into the buffer and a NUL or
      the statement's semicolon stops it. */
  method Unpack(buffer: array<byte>, stop: byte, ghost text: seq<byte>) returns (ok: bool, index: nat)
    requires Holds(buffer, text)
    modifies buffer
    ensures ok == SixBits(Until(text, stop)).Some?
    ensures ok ==>
      && index == |Until(text, stop)| && buffer[index] == (if index < |text| then stop else NUL)
      && BitsBelow(buffer, SixBits(Until(text, stop)).value, 8 * index)
  {
    hide BitsBelow, SixBit, NatBits;
    ghost var end := |Until(text, stop)|;
    assert Until(text, stop) == text[..end];
    assert BitsBelow(buffer, [], 0) by {
      EmptyBelow(buffer);
    }
    index, ok := 0, true;
    assert text[..0] == [];
    while ok && buffer[index] != NUL && buffer[index] != stop
      invariant index <= end
      invariant ok ==> forall k :: index <= k < |text| ==> buffer[k] == text[k]
      invariant buffer[|text|] == NUL
      invariant ok ==> SixBits(text[..index]).Some? && BitsBelow(buffer, SixBits(text[..index]).value, 8 * index)
      invariant !ok ==> index < end && SixBit(text[index]) == None
      decreases end - index, ok
    {
      assert index < end;
      var value := SixBit(buffer[index]);
      match value
      case None =>
        ok := false;
        buffer[index] := 0;
      case Some(v) =>
        ghost var bits := SixBits(text[..index]).value;
        UnpackOne(buffer, index, v, bits);
        assert text[..index + 1][..index] == text[..index];
        index := index + 1;
    }
    if !ok {
      IllegalSixBits(text[..end], index);
    }
  }

  lemma EmptyBelow(buffer: array<byte>)
    ensures BitsBelow(buffer, [], 0)
  {
  }

  lemma {:induction false} IllegalSixBits(text: seq<byte>, i: nat)
    requires i < |text| && SixBit(text[i]) == None
    ensures SixBits(text) == None
    decreases |text|
  {
    if i < |text| - 1 {
      IllegalSixBits(text[..|text| - 1], i);
    }
  }

  // ---------------------------------------------------------------------------
  // What lies in the buffer is the packed stream
  // ---------------------------------------------------------------------------

  lemma {:induction false} PackLength(bits: seq<bool>)
    ensures |Pack(bits)| == (|bits| + 7) / 8
    decreases |bits|
  {
    if bits != [] {
      PackLength(bits[Min(8, |bits|)..]);
    }
  }

  /** Only one byte string has these bits and zeros behind them. */
  lemma {:induction false} PackUnique(s: seq<byte>, bits: seq<bool>)
    requires |s| == (|bits| + 7) / 8
    requires forall q: nat :: q < 8 * |s| ==> StreamBit(s, q) == (q < |bits| && bits[q])
    ensures s == Pack(bits)
    decreases |bits|
  {
    hide Bit, StreamBit, PackByte;
    if bits != [] {
      var rest := bits[Min(8, |bits|)..];
      FirstByte(s, bits);
      forall q: nat | q < 8 * |s[1..]| ensures StreamBit(s[1..], q) == (q < |rest| && rest[q]) {
        TailBit(s, q);
      }
      PackUnique(s[1..], rest);
      assert s == [s[0]] + s[1..];
    }
  }

  lemma FirstByte(s: seq<byte>, bits: seq<bool>)
    requires bits != [] && s != []
    requires forall q: nat :: q < 8 * |s| ==> StreamBit(s, q) == (q < |bits| && bits[q])
    ensures s[0] == PackByte(Octet(bits))
  {
    hide BitsValue, Bit;
    var octet := Octet(bits);
    Pow2Values();
    forall i: nat | i < 8 ensures Bit(s[0], i) == Bit(BitsValue(octet), i) {
      assert StreamBit(s, i) == Bit(s[0], i);
      BitsValueBit(octet, i);
    }
    SameBits(s[0], BitsValue(octet), 8);
  }

  lemma TailBit(s: seq<byte>, q: nat)
    requires 0 < |s| && q < 8 * |s[1..]|
    ensures StreamBit(s[1..], q) == StreamBit(s, q + 8)
  {
    hide Bit;
    assert s[1..][q / 8] == s[(q + 8) / 8];
  }

  /** After unpacking, the front of the buffer is the packed stream. */
  lemma UnpackedIsPacked(buffer: array<byte>, bits: seq<bool>, end: nat)
    requires end <= 8 * buffer.Length && |bits| <= end && (|bits| + 7) / 8 * 8 <= end
    requires BitsBelow(buffer, bits, end)
    ensures buffer[..(|bits| + 7) / 8] == Pack(bits)
  {
    hide Bit;
    var s := buffer[..(|bits| + 7) / 8];
    forall q: nat | q < 8 * |s| ensures StreamBit(s, q) == (q < |bits| && bits[q]) {
      assert s[q / 8] == buffer[q / 8];
      assert BufferBit(buffer, q) == StreamBit(s, q);
    }
    PackUnique(s, bits);
  }

  // ---------------------------------------------------------------------------
  // A declared array, from the statement buffer
  // ---------------------------------------------------------------------------

  /** The bytes a squeezed text stands for, when its length field is the expected size. */
  function ArrayBytes(body: seq<byte>, size: nat, version: int): Option<seq<byte>> {
    match SixBits(body)
    case None => None
    case Some(bits) =>
      var s := Pack(bits);
      if |s| >= 4 && HeaderLength(s) == size then Decode(s, 32, [], size, Window(version)) else None
  }

  ghost predicate GoodStream(body: seq<byte>, size: nat, version: int) {
    SixBits(body).Some? ==> WellFormed(Pack(SixBits(body).value), size, version)
  }

  /** jam_extract_bool_compressed */
  method ExtractCompressed(buffer: array<byte>, heap: array<word>, dimension: nat, version: int, ghost text: seq<byte>)
    returns (ok: bool)
    requires buffer != heap as object
    requires Holds(buffer, text) && heap.Length == WordsFor(dimension)
    requires GoodStream(Until(Squeezed(text), SEMICOLON), BytesFor(dimension), version)
    modifies buffer, heap
    ensures var body := Until(Squeezed(text), SEMICOLON);
      var bytes := ArrayBytes(body, BytesFor(dimension), version);
      && ok == (|body| < |Squeezed(text)| && bytes.Some?)
      && (ok ==> forall q: nat :: q < dimension ==> WordBit(heap, q) == StreamBit(bytes.value, q))
  {
    hide Pack, Decode, Field, BitsBelow, Bit, SixBits, Squeezed;
    Squeeze(buffer, text);
    ghost var body := Until(Squeezed(text), SEMICOLON);
    var index;
    ok, index := Unpack(buffer, SEMICOLON, Squeezed(text));
    if ok && buffer[index] != SEMICOLON {
      ok := false;
    }
    if ok {
      var address := 6 * index;
      UnpackedIsPacked(buffer, SixBits(body).value, 8 * index);
      var input := buffer[..address / 8 + if address % 8 != 0 then 1 else 0];
      assert input == Pack(SixBits(body).value);
      ok := Fill(input, heap, dimension, version);
    }
  }

  /** The decompressor run into the array's own memory, and the words put in order. */
  method Fill(input: seq<byte>, heap: array<word>, dimension: nat, version: int) returns (ok: bool)
    requires heap.Length == WordsFor(dimension) && WellFormed(input, BytesFor(dimension), version)
    modifies heap
    ensures ok == (HeaderLength(input) == BytesFor(dimension))
    ensures ok ==>
      var bytes := Decode(input, 32, [], BytesFor(dimension), Window(version));
      bytes.Some? && forall q: nat :: q < dimension ==> WordBit(heap, q) == StreamBit(bytes.value, q)
  {
    hide Decode, Field, Bit;
    var memory := new byte[4 * heap.Length];
    var size := BytesFor(dimension);
    var length := Uncompress(input, memory, size, version);
    ok := length == size;
    if ok {
      ghost var bytes := Decode(input, 32, [], size, Window(version)).value;
      assert memory[..size] == bytes;
      ToWords(memory, heap);
      forall q: nat | q < dimension ensures WordBit(heap, q) == StreamBit(bytes, q) {
        assert memory[q / 8] == bytes[q / 8];
      }
    }
  }

  // ---------------------------------------------------------------------------
  // An ACA literal, which brings its own length
  // ---------------------------------------------------------------------------

  ghost predicate GoodLiteral(body: seq<byte>, version: int) {
    SixBits(body).Some? ==>
      var s := Pack(SixBits(body).value);
      |s| >= 4 && HeaderLength(s) >= 0 && WellFormed(s, HeaderLength(s), version)
  }

  /** jam_convert_literal_aca */
  method ConvertLiteralAca(buffer: array<byte>, version: int, ghost text: seq<byte>)
    returns (ok: bool, words: array<word>, length: nat)
    requires Holds(buffer, text) && GoodLiteral(Squeezed(text), version)
    modifies buffer
    ensures ok == SixBits(Squeezed(text)).Some? && fresh(words)
    ensures ok ==>
      && length <= 32 * words.Length
      && var size := HeaderLength(Pack(SixBits(Squeezed(text)).value));
        var bytes := ArrayBytes(Squeezed(text), size, version);
        && length == 8 * size && bytes.Some?
        && forall q: nat :: q < length ==> WordBit(words, q) == StreamBit(bytes.value, q)
  {
    hide Pack, Decode, Field, BitsBelow, Bit, SixBits, Squeezed, HeaderLength;
    Squeeze(buffer, text);
    ghost var body := Squeezed(text);
    UntilIs(body, NUL, |body|);
    assert body[..|body|] == body;
    var index;
    ok, index := Unpack(buffer, NUL, body);
    words, length := new word[0], 0;
    if ok {
      var address := 6 * index;
      UnpackedIsPacked(buffer, SixBits(body).value, 8 * index);
      var input := buffer[..address / 8 + if address % 8 != 0 then 1 else 0];
      assert input == Pack(SixBits(body).value);
      var size := HeaderLength(input);
      var memory := new byte[size + 4];
      words := new word[(size + 3) / 4];
      var produced := Uncompress(input, memory, size, version);
      ghost var bytes := Decode(input, 32, [], size, Window(version)).value;
      assert memory[..size] == bytes;
      ToWords(memory, words);
      length := 8 * size;
      forall q: nat | q < length ensures WordBit(words, q) == StreamBit(bytes, q) {
        assert memory[q / 8] == bytes[q / 8];
      }
    }
  }

  // ---------------------------------------------------------------------------
  // A declared array, from the input stream
  // ---------------------------------------------------------------------------

  /** The loop of jam_read_bool_compressed. The buffer's old contents do not matter. */
  method ReadSix(stream: CharStream, buffer: array<byte>) returns (ok: bool, address: nat)
    requires 6 * |Until(RealText(stream.input, stream.position), SEMICOLON)| <= 8 * buffer.Length
    modifies stream, buffer
    ensures var chars := old(RealText(stream.input, stream.position));
      var body := Until(chars, SEMICOLON);
      && ok == (|body| < |chars| && SixBits(body).Some?)
      && (ok ==> address == 6 * |body| && forall q: nat :: q < address ==> BufferBit(buffer, q) == SixBits(body).value[q])
  {
    hide Bit, NatBits, SixBit, NextReal, SixBits, Until, RealText, BufferBit;
    SixBitsOfNothing();
    ghost var chars := RealText(stream.input, stream.position);
    ghost var body := Until(chars, SEMICOLON);
    ghost var n: nat := 0;
    var done := false;
    ok, address := true, 0;
    assert chars[..0] == [];
    while ok && !done
      invariant n <= |body| && address == 6 * n
      invariant ok && !done ==> RealText(stream.input, stream.position) == chars[n..]
      invariant ok ==> SixBits(chars[..n]).Some?
      invariant ok ==> forall q: nat :: q < address ==> BufferBit(buffer, q) == SixBits(chars[..n]).value[q]
      invariant done ==> ok && n == |body| < |chars|
      invariant !ok ==> |body| == |chars| || SixBits(body) == None
      decreases |body| - n, ok && !done
    {
      ghost var p := stream.position;
      var ch := stream.GetRealChar();
      TextIsHeadAndRest(stream.input, p);
      if ch == SEMICOLON {
        assert chars[n] == SEMICOLON;
        AtStop(chars, SEMICOLON, n);
        done := true;
      } else if ch == EOF {
        ok := false;
      } else {
        assert chars[n] == ch && chars[n..][1..] == chars[n + 1..];
        BeforeStop(chars, SEMICOLON, n);
        match SixBit(ch)
        case None =>
          IllegalSixBits(body, n);
          ok := false;
        case Some(v) =>
          StoreOne(buffer, address, v, SixBits(chars[..n]).value);
          SixBitsSnoc(chars, n);
          address, n := address + 6, n + 1;
      }
    }
  }

  lemma TextIsHeadAndRest(input: seq<byte>, p: nat)
    ensures var (ch, next) := NextReal(input, p, false);
      RealText(input, p) == if ch == EOF then [] else [ch] + RealText(input, next)
  {
  }

  lemma SixBitsSnoc(text: seq<byte>, n: nat)
    requires n < |text| && SixBits(text[..n]).Some? && SixBit(text[n]).Some?
    ensures SixBits(text[..n + 1]) == Some(SixBits(text[..n]).value + NatBits(SixBit(text[n]).value, 6))
  {
    hide NatBits, SixBit;
    assert text[..n + 1][..n] == text[..n];
  }

  lemma AtStop(text: seq<byte>, stop: byte, n: nat)
    requires n <= |Until(text, stop)| && n < |text| && text[n] == stop
    ensures n == |Until(text, stop)|
  {
    var r := Until(text, stop);
    assert forall k :: 0 <= k < |r| ==> r[k] != stop;
  }

  lemma BeforeStop(text: seq<byte>, stop: byte, n: nat)
    requires n <= |Until(text, stop)| && n < |text| && text[n] != stop
    ensures n < |Until(text, stop)| && Until(text, stop)[n] == text[n]
  {
  }

  method StoreOne(buffer: array<byte>, address: nat, v: nat, ghost bits: seq<bool>)
    requires address + 6 <= 8 * buffer.Length && v < 64 && |bits| == address
    requires forall q: nat :: q < address ==> BufferBit(buffer, q) == bits[q]
    modifies buffer
    ensures forall q: nat :: q < address + 6 ==> BufferBit(buffer, q) == (bits + NatBits(v, 6))[q]
  {
    hide Bit, NatBits;
    PutSix(buffer, address, v);
    forall q: nat | address <= q < address + 6 ensures BufferBit(buffer, q) == (bits + NatBits(v, 6))[q] {
      NatBitsBit(v, 6, q - address);
    }
  }

  /** Six bits to a character, lowest first. */
  lemma {:induction false} SixBitsBit(text: seq<byte>, j: nat)
    requires SixBits(text).Some? && j < 6 * |text|
    ensures SixBit(text[j / 6]).Some? && SixBits(text).value[j] == Bit(SixBit(text[j / 6]).value, j % 6)
    decreases |text|
  {
    hide Bit, SixBit, NatBits;
    var n := |text| - 1;
    if j < 6 * n {
      SixBitsBit(text[..n], j);
    } else {
      NatBitsBit(SixBit(text[n]).value, 6, j - 6 * n);
      assert j / 6 == n && j % 6 == j - 6 * n;
    }
  }

  /** The text spells these bits, perhaps with more behind them. */
  ghost predicate Spells(body: seq<byte>, bits: seq<bool>) {
    SixBits(body).Some? && |bits| <= 6 * |body| && SixBits(body).value[..|bits|] == bits
  }

  function PackedStream(tokens: seq<Token>, data: seq<byte>, version: int): seq<bool>
    requires Tokenises(tokens, 0, data, Window(version))
  {
    NatBits(|data|, 32) + StreamBits(tokens, 0, data, Window(version))
  }

  /** jam_read_bool_compressed, on text that spells any legal tokens of the array's bytes. */
  method ReadCompressed(stream: CharStream, heap: array<word>, dimension: nat, version: int,
      ghost tokens: seq<Token>, ghost data: seq<byte>)
    returns (ok: bool)
    requires heap.Length == WordsFor(dimension) && |data| == BytesFor(dimension) < 0x8000_0000
    requires Tokenises(tokens, 0, data, Window(version))
    requires var chars := RealText(stream.input, stream.position);
      var body := Until(chars, SEMICOLON);
      && |body| < |chars| && Spells(body, PackedStream(tokens, data, version))
      && 6 * |body| <= 8 * (|data| + |data| / 10 + 100)
    modifies stream, heap
    ensures ok && forall q: nat :: q < dimension ==> WordBit(heap, q) == StreamBit(data, q)
  {
    hide Decode, Field, Bit, SixBits, NatBits, StreamBits, Tokenises;
    var outSize := BytesFor(dimension);
    var buffer := new byte[outSize + outSize / 10 + 100];
    ghost var body := Until(RealText(stream.input, stream.position), SEMICOLON);
    var address;
    ok, address := ReadSix(stream, buffer);
    if ok {
      var input := buffer[..address / 8 + if address % 8 != 0 then 1 else 0];
      ghost var bits := PackedStream(tokens, data, version);
      forall q | 0 <= q < |bits| ensures StreamBit(input, q) == bits[q] {
        assert input[q / 8] == buffer[q / 8];
        assert BufferBit(buffer, q) == SixBits(body).value[q] == SixBits(body).value[..|bits|][q];
      }
      StreamRoundTrip(input, tokens, data, outSize, version, Window(version));
      ok := Fill(input, heap, dimension, version);
    }
  }

  // ---------------------------------------------------------------------------
  // Writing and reading a declared array
  // ---------------------------------------------------------------------------

  function Six(bits: seq<bool>): (o: seq<bool>)
    ensures |o| == 6
  {
    if |bits| < 6 then bits + seq(6 - |bits|, _ => false) else bits[..6]
  }

  /** A writer: six bits to a character, lowest first, zeros filling up the last one. */
  function SixText(bits: seq<bool>): (text: seq<byte>)
    decreases |bits|
  {
    if bits == [] then []
    else
      Pow2Values();
      assert Pow2(6) == 64;
      [SixBitChar(BitsValue(Six(bits)))] + SixText(bits[Min(6, |bits|)..])
  }

  lemma {:induction false} SixBitsHead(ch: byte, rest: seq<byte>)
    requires SixBit(ch).Some? && SixBits(rest).Some?
    ensures SixBits([ch] + rest) == Some(NatBits(SixBit(ch).value, 6) + SixBits(rest).value)
    decreases |rest|
  {
    hide NatBits, SixBit;
    if rest == [] {
      assert [ch] + rest == [ch] && [ch][..0] == [];
      SixBitsOfNothing();
      var bits := NatBits(SixBit(ch).value, 6);
      assert [] + bits == bits == bits + [];
    } else {
      var init := rest[..|rest| - 1];
      assert ([ch] + rest)[..|rest|] == [ch] + init;
      var last := SixBit(rest[|rest| - 1]);
      SixBitsHead(ch, init);
      assert ([ch] + rest)[|rest|] == rest[|rest| - 1];
      assert SixBits(rest) == Some(SixBits(init).value + NatBits(last.value, 6));
      var a, b, c := NatBits(SixBit(ch).value, 6), SixBits(init).value, NatBits(last.value, 6);
      assert a + b + c == a + (b + c);
    }
  }

  lemma {:induction false} SixTextSpells(bits: seq<bool>)
    ensures Spells(SixText(bits), bits)
    decreases |bits|
  {
    hide NatBits, SixBit, BitsValue, SixBits;
    if bits == [] {
      SixBitsOfNothing();
    } else {
      Pow2Values();
      var rest := bits[Min(6, |bits|)..];
      SixTextSpells(rest);
      var v := BitsValue(Six(bits));
      NatBitsOfValue(Six(bits));
      SixBitsHead(SixBitChar(v), SixText(rest));
    }
  }

  lemma SixBitsOfNothing()
    ensures SixBits([]) == Some([])
  {
  }

  /** However an array's bytes are cut into legal tokens, and wherever white space is put into
      the text that spells them, the declaration gives those bytes. */
  lemma TextRoundTrip(text: seq<byte>, tokens: seq<Token>, data: seq<byte>, version: int)
    requires |data| < 0x8000_0000 && Tokenises(tokens, 0, data, Window(version))
    requires Spells(Until(Squeezed(text), SEMICOLON), PackedStream(tokens, data, version))
    ensures GoodStream(Until(Squeezed(text), SEMICOLON), |data|, version)
    ensures ArrayBytes(Until(Squeezed(text), SEMICOLON), |data|, version) == Some(data)
  {
    hide Decode, Field, Bit, SixBits, NatBits, StreamBits, Tokenises, Squeezed, Until;
    var body := Until(Squeezed(text), SEMICOLON);
    var all := SixBits(body).value;
    var bits := PackedStream(tokens, data, version);
    PackCarries(all);
    assert all == bits + all[|bits|..];
    CarriesSplit(Pack(all), 0, bits, all[|bits|..]);
    StreamRoundTrip(Pack(all), tokens, data, |data|, version, Window(version));
  }
}
