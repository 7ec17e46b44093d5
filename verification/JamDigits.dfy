/** Arrays written as binary or hexadecimal digits. A declared array is extracted into the
    words of its heap record and then reversed; a literal is converted in the buffer it was
    written in. Both are proved to hold the binary digits of the number the text denotes. */
module JamDigits {
  import opened Bits
  import opened Options
  import opened BitArrays
  import opened DigitArrays
  import opened JamText
  import opened JamLiteral

  // ---------------------------------------------------------------------------
  // Digits and the numbers they denote
  // ---------------------------------------------------------------------------

  function DigitOf(ch: byte, k: Width): (r: Option<nat>)
    ensures r.Some? ==> r.value < Pow2(k)
  {
    Pow2Values();
    assert Pow2(1) == 2;
    if k == 1 then
      if ch == '0' as int || ch == '1' as int then Some(ch - '0' as int) else None
    else if 'A' as int <= ch <= 'F' as int then Some(ch + 10 - 'A' as int)
    else if 'a' as int <= ch <= 'f' as int then Some(ch + 10 - 'a' as int)
    else if '0' as int <= ch <= '9' as int then Some(ch - '0' as int)
    else None
  }

  /** The digits of a text, white space left out, None when there is anything else in it. */
  function Digits(text: seq<byte>, k: Width): (r: Option<seq<nat>>)
    ensures r.Some? ==> |r.value| <= |text| && forall j :: 0 <= j < |r.value| ==> r.value[j] < Pow2(k)
  {
    if text == [] then Some([])
    else
      var before, last := Digits(text[..|text| - 1], k), text[|text| - 1];
      if before == None then None
      else if DigitOf(last, k).Some? then Some(before.value + [DigitOf(last, k).value])
      else if IsSpace(last) then before
      else None
  }

  lemma DigitsSnoc(text: seq<byte>, n: nat, k: Width)
    requires n < |text| && Digits(text[..n], k).Some?
    ensures var d := DigitOf(text[n], k);
      Digits(text[..n + 1], k) ==
        if d.Some? then Some(Digits(text[..n], k).value + [d.value])
        else if IsSpace(text[n]) then Digits(text[..n], k)
        else None
  {
    assert text[..n + 1][..n] == text[..n];
  }

  /** An illegal character spoils every text it begins, and digits never get fewer. */
  lemma {:induction false} DigitsGrow(text: seq<byte>, n: nat, k: Width)
    requires n <= |text|
    ensures Digits(text[..n], k) == None ==> Digits(text, k) == None
    ensures Digits(text, k).Some? ==> |Digits(text[..n], k).value| <= |Digits(text, k).value|
    decreases |text|
  {
    hide DigitOf, IsSpace;
    if n < |text| {
      var init := text[..|text| - 1];
      DigitsGrow(init, n, k);
      assert init[..n] == text[..n];
    } else {
      assert text[..n] == text;
    }
  }

  /** A digit in upper or in lower case. */
  function DigitChar(d: nat, upper: bool): byte
    requires d < 16
  {
    (if upper then "0123456789ABCDEF"[d] else "0123456789abcdef"[d]) as int
  }

  lemma DigitIsRead(d: nat, k: Width, upper: bool)
    requires d < Pow2(k)
    ensures d < 16 && DigitOf(DigitChar(d, upper), k) == Some(d)
  {
    Pow2Values();
    assert Pow2(1) == 2;
  }

  /** A number in n digits, highest first; `upper` chooses the case of each. */
  function DigitText(x: nat, n: nat, k: Width, upper: nat -> bool): (text: seq<byte>)
    ensures |text| == n
    decreases n, x
  {
    if n == 0 then []
    else
      DigitIsRead(x % Pow2(k), k, upper(n));
      DigitText(x / Pow2(k), n - 1, k, upper) + [DigitChar(x % Pow2(k), upper(n))]
  }

  lemma NumberSnoc(ds: seq<nat>, d: nat, k: Width)
    ensures Number(ds + [d], k) == d + Pow2(k) * Number(ds, k)
  {
    assert (ds + [d])[..|ds|] == ds;
  }

  lemma Quotient(x: nat, k: Width, n: nat)
    requires x < Pow2(k * (n + 1))
    ensures x / Pow2(k) < Pow2(k * n) && x == x % Pow2(k) + Pow2(k) * (x / Pow2(k))
  {
    hide Pow2;
    assert k * (n + 1) == k + k * n by {
      MulDistributes(k, n, 1);
    }
    Pow2Add(k, k * n);
    Split(x, Pow2(k), Pow2(k * n));
  }

  lemma Split(x: nat, p: nat, q: nat)
    requires p > 0 && x < p * q
    ensures x / p < q && x == x % p + p * (x / p)
  {
    DivisionRule(x, p);
    if x / p >= q {
      MulMono(q, x / p, p);
    }
  }

  /** What is written in digits is read as the number it was written for, in either case. */
  lemma {:induction false} DigitTextIsRead(x: nat, n: nat, k: Width, upper: nat -> bool)
    requires x < Pow2(k * n)
    ensures var ds := Digits(DigitText(x, n, k, upper), k);
      ds.Some? && |ds.value| == n && Number(ds.value, k) == x
    decreases n
  {
    hide DigitOf, DigitChar, Pow2, Digits, Number;
    if n == 0 {
      NothingWritten(x, k);
    } else {
      var p := Pow2(k);
      Quotient(x, k, n - 1);
      DigitTextIsRead(x / p, n - 1, k, upper);
      DigitIsRead(x % p, k, upper(n));
      OneMoreDigit(DigitText(x / p, n - 1, k, upper), DigitChar(x % p, upper(n)), x % p, k);
    }
  }

  lemma OneMoreDigit(text: seq<byte>, ch: byte, d: nat, k: Width)
    requires Digits(text, k).Some? && DigitOf(ch, k) == Some(d)
    ensures var ds := Digits(text, k).value;
      Digits(text + [ch], k) == Some(ds + [d]) && Number(ds + [d], k) == d + Pow2(k) * Number(ds, k)
  {
    hide DigitOf, Pow2, Number;
    assert (text + [ch])[..|text|] == text;
    NumberSnoc(Digits(text, k).value, d, k);
  }

  lemma NothingWritten(x: nat, k: Width)
    requires x < Pow2(k * 0)
    ensures x == 0 && Digits([], k) == Some([]) && Number([], k) == 0
  {
  }

  /** A declaration of that text in any case declares the number, and nothing else. */
  lemma WrittenIsDeclared(x: nat, n: nat, k: Width, upper: nat -> bool, behind: seq<byte>, ds: seq<nat>)
    requires x < Pow2(k * n)
    ensures var text := DigitText(x, n, k, upper) + [SEMICOLON] + behind;
      && (exists ds :: Declares(text, n, k, ds))
      && (Declares(text, n, k, ds) ==> Number(ds, k) == x)
  {
    hide Digits, Number, Pow2;
    var body := DigitText(x, n, k, upper);
    var text := body + [SEMICOLON] + behind;
    DigitTextIsRead(x, n, k, upper);
    NoSemicolon(x, n, k, upper);
    assert text[..n] == body;
    UntilIs(text, SEMICOLON, n);
    assert Declares(text, n, k, Digits(body, k).value);
  }

  lemma {:induction false} NoSemicolon(x: nat, n: nat, k: Width, upper: nat -> bool)
    ensures SEMICOLON !in DigitText(x, n, k, upper)
    decreases n
  {
    hide DigitChar;
    if n != 0 {
      NoSemicolon(x / Pow2(k), n - 1, k, upper);
      DigitIsRead(x % Pow2(k), k, upper(n));
      DigitIsNoSemicolon(k);
    }
  }

  lemma DigitIsNoSemicolon(k: Width)
    ensures DigitOf(SEMICOLON, k) == None
  {
  }

  lemma RoomForDigits(dimension: nat, k: Width, j: nat)
    requires j < DigitCount(dimension, k)
    ensures WordOf(j, k) < WordsFor(dimension)
  {
  }

  // ---------------------------------------------------------------------------
  // Declared arrays: extract, then reverse
  // ---------------------------------------------------------------------------

  function CharAt(text: seq<byte>, index: nat): byte {
    if index < |text| then text[index] else NUL
  }

  function DigitCount(dimension: nat, k: Width): nat {
    (dimension + k - 1) / k
  }

  method SkipSpaces(text: seq<byte>, start: nat, k: Width) returns (index: nat)
    requires start <= |text| && Digits(text[..start], k).Some? && SEMICOLON !in text[..start]
    ensures start <= index <= |text| && !IsSpace(CharAt(text, index))
    ensures Digits(text[..index], k) == Digits(text[..start], k) && SEMICOLON !in text[..index]
  {
    index := start;
    while IsSpace(CharAt(text, index))
      invariant start <= index <= |text|
      invariant Digits(text[..index], k) == Digits(text[..start], k) && SEMICOLON !in text[..index]
      decreases |text| - index
    {
      DigitsSnoc(text, index, k);
      assert text[..index + 1] == text[..index] + [text[index]];
      index := index + 1;
    }
  }

  /** The body of a declaration holds exactly the digits asked for. */
  ghost predicate Declares(text: seq<byte>, count: nat, k: Width, ds: seq<nat>) {
    var body := Until(text, SEMICOLON);
    |body| < |text| && Digits(body, k) == Some(ds) && |ds| == count
  }

  /** jam_extract_bool_binary and jam_extract_bool_hex */
  method ExtractDigits(text: seq<byte>, heap: array<word>, dimension: nat, k: Width) returns (ok: bool)
    requires heap.Length == WordsFor(dimension)
    modifies heap
    ensures ok ==> exists ds :: Declares(text, DigitCount(dimension, k), k, ds) && HoldsDigits(heap, ds, k)
    ensures !ok ==> forall ds :: !Declares(text, DigitCount(dimension, k), k, ds)
  {
    hide DigitAt, Digits, DigitOf, Until, WordOf, WordsFor;
    var count := DigitCount(dimension, k);
    var index, j := 0, 0;
    ghost var ds: seq<nat> := [];
    assert text[..0] == [] && Digits([], k) == Some([]) by {
      NoDigits(k);
    }
    while j < count
      invariant 0 <= j <= count && |ds| == j && 0 <= index <= |text|
      invariant Digits(text[..index], k) == Some(ds) && SEMICOLON !in text[..index]
      invariant HoldsDigits(heap, ds, k)
    {
      index := SkipSpaces(text, index, k);
      var d := DigitOf(CharAt(text, index), k);
      if d == None {
        TooFew(text, index, count, k, ds);
        return false;
      }
      NoDigitIs(CharAt(text, index), k);
      DigitsSnoc(text, index, k);
      assert text[..index + 1] == text[..index] + [text[index]];
      RoomForDigits(dimension, k, j);
      PutDigit(heap, j, d.value, k);
      ds := ds + [d.value];
      index, j := index + 1, j + 1;
    }
    index := SkipSpaces(text, index, k);
    ok := CharAt(text, index) == SEMICOLON;
    if ok {
      UntilIs(text, SEMICOLON, index);
      assert Declares(text, count, k, ds);
    } else {
      TooMany(text, index, count, k, ds);
    }
  }

  lemma NoDigitIs(ch: byte, k: Width)
    requires DigitOf(ch, k).Some?
    ensures ch != NUL && ch != SEMICOLON
  {
  }

  lemma NoDigits(k: Width)
    ensures Digits([], k) == Some([])
  {
  }

  /** Something that is no digit stands where a digit is missing. */
  lemma TooFew(text: seq<byte>, index: nat, count: nat, k: Width, ds: seq<nat>)
    requires index <= |text| && Digits(text[..index], k) == Some(ds) && |ds| < count && SEMICOLON !in text[..index]
    requires DigitOf(CharAt(text, index), k) == None && !IsSpace(CharAt(text, index))
    ensures forall ds' :: !Declares(text, count, k, ds')
  {
    hide Digits, DigitOf, Until, IsSpace;
    var body := Until(text, SEMICOLON);
    if index == |text| || text[index] == SEMICOLON {
      UntilIs(text, SEMICOLON, index);
    } else {
      Illegal(text, index, k);
    }
  }

  /** All digits are there and something other than the semicolon follows. */
  lemma TooMany(text: seq<byte>, index: nat, count: nat, k: Width, ds: seq<nat>)
    requires index <= |text| && Digits(text[..index], k) == Some(ds) && |ds| == count && SEMICOLON !in text[..index]
    requires !IsSpace(CharAt(text, index)) && CharAt(text, index) != SEMICOLON
    ensures forall ds' :: !Declares(text, count, k, ds')
  {
    hide Digits, DigitOf, Until, IsSpace;
    if index == |text| {
      UntilIs(text, SEMICOLON, index);
    } else {
      Illegal(text, index, k);
    }
  }

  /** What stands at `index` belongs to the body, and is counted or refused there. */
  lemma Illegal(text: seq<byte>, index: nat, k: Width)
    requires index < |text| && SEMICOLON !in text[..index + 1] && !IsSpace(text[index])
    requires Digits(text[..index], k).Some?
    ensures var body := Digits(Until(text, SEMICOLON), k);
      && (DigitOf(text[index], k) == None ==> body == None)
      && (body.Some? ==> |body.value| > |Digits(text[..index], k).value|)
  {
    hide Digits, DigitOf, IsSpace;
    var body := Until(text, SEMICOLON);
    assert index < |body|;
    assert body[..index + 1] == text[..index + 1];
    DigitsSnoc(text, index, k);
    DigitsGrow(body, index + 1, k);
  }

  /** The outer i elements on either side have changed places. */
  ghost predicate EndsSwapped(ds: seq<nat>, now: seq<nat>, i: nat) {
    |now| == |ds| && forall d: nat :: d < |ds| ==> now[d] == ds[if i <= d < |ds| - i then d else |ds| - 1 - d]
  }

  lemma SwapEnds(ds: seq<nat>, now: seq<nat>, i: nat)
    requires EndsSwapped(ds, now, i) && i < |ds| / 2
    ensures var j := |ds| - 1 - i;
      i < j && EndsSwapped(ds, now[j := now[i]][i := now[j]], i + 1)
  {
  }

  method ReadDigit(heap: array<word>, j: nat, k: Width, ghost ds: seq<nat>) returns (v: nat)
    requires HoldsDigits(heap, ds, k) && j < |ds|
    ensures v == ds[j] < Pow2(k)
  {
    v := DigitAt(heap, j, k);
  }

  method ReplaceDigit(heap: array<word>, j: nat, v: nat, k: Width, ghost ds: seq<nat>)
    requires HoldsDigits(heap, ds, k) && j < |ds| && v < Pow2(k)
    modifies heap
    ensures HoldsDigits(heap, ds[j := v], k)
  {
    hide DigitAt, WordOf;
    PutDigit(heap, j, v, k);
  }

  /** jam_reverse_boolean_array_bin and jam_reverse_boolean_array_hex */
  method ReverseDigits(heap: array<word>, dimension: nat, k: Width, ghost ds: seq<nat>)
    requires heap.Length == WordsFor(dimension)
    requires |ds| == DigitCount(dimension, k) && HoldsDigits(heap, ds, k)
    modifies heap
    ensures HoldsDigits(heap, Reversed(ds), k)
  {
    hide DigitAt, WordOf, WordsFor, HoldsDigits, DigitCount;
    var count := DigitCount(dimension, k);
    ghost var now: seq<nat> := ds;
    for i := 0 to count / 2
      invariant HoldsDigits(heap, now, k) && EndsSwapped(ds, now, i)
    {
      var j := count - 1 - i;
      var a := ReadDigit(heap, i, k, now);
      var b := ReadDigit(heap, j, k, now);
      ReplaceDigit(heap, j, a, k, now);
      ReplaceDigit(heap, i, b, k, now[j := a]);
      SwapEnds(ds, now, i);
      now := now[j := a][i := b];
    }
    assert now == Reversed(ds);
  }

  /** The array's bits are the binary digits of this number, from the lowest up. */
  ghost predicate HoldsNumber(heap: array<word>, dimension: nat, x: nat)
    requires dimension <= 32 * heap.Length
    reads heap
  {
    forall q: nat :: q < dimension ==> WordBit(heap, q) == Bit(x, q)
  }

  lemma HoldsTheNumber(heap: array<word>, dimension: nat, k: Width, ds: seq<nat>)
    requires heap.Length == WordsFor(dimension) && dimension <= 32 * heap.Length && |ds| == DigitCount(dimension, k)
    requires forall j :: 0 <= j < |ds| ==> ds[j] < Pow2(k)
    requires HoldsDigits(heap, Reversed(ds), k)
    ensures HoldsNumber(heap, dimension, Number(ds, k))
  {
    hide Bit, WordBit, Number, WordsFor, HoldsDigits, DigitCount;
    forall q: nat | q < dimension ensures WordBit(heap, q) == Bit(Number(ds, k), q) {
      SplitIndex(q, dimension, k);
      HoldsTheBit(heap, k, ds, q / k, q % k);
    }
  }

  lemma HoldsTheBit(heap: array<word>, k: Width, ds: seq<nat>, j: nat, i: nat)
    requires forall d :: 0 <= d < |ds| ==> ds[d] < Pow2(k)
    requires HoldsDigits(heap, Reversed(ds), k) && j < |ds| && i < k
    ensures k * j + i < 32 * heap.Length
    ensures WordBit(heap, k * j + i) == Bit(Number(ds, k), k * j + i)
  {
    hide Bit, Number, DigitAt, WordOf, Pow2, WordBit;
    NumberBit(ds, k, j, i);
    assert Reversed(ds)[j] == ds[|ds| - 1 - j];
    DigitBit(heap, j, k, i);
  }

  lemma SplitIndex(q: nat, dimension: nat, k: Width)
    requires q < dimension
    ensures 0 <= q / k < DigitCount(dimension, k) && k * (q / k) + q % k == q && q % k < k
  {
  }

  /** A Jam 2.0 declaration in BIN or HEX: extraction and reversal leave the number the text
      denotes, whatever the dimension and wherever the white space is. */
  method DeclareDigits(text: seq<byte>, heap: array<word>, dimension: nat, k: Width) returns (ok: bool)
    requires heap.Length == WordsFor(dimension) && dimension <= 32 * heap.Length
    modifies heap
    ensures ok ==> exists ds ::
      Declares(text, DigitCount(dimension, k), k, ds) && HoldsNumber(heap, dimension, Number(ds, k))
    ensures !ok ==> forall ds :: !Declares(text, DigitCount(dimension, k), k, ds)
  {
    hide HoldsDigits, Number, Digits, HoldsNumber, WordsFor, DigitCount;
    ok := ExtractDigits(text, heap, dimension, k);
    if ok {
      ghost var ds :| Declares(text, DigitCount(dimension, k), k, ds) && HoldsDigits(heap, ds, k);
      ReverseDigits(heap, dimension, k, ds);
      HoldsTheNumber(heap, dimension, k, ds);
    }
  }

  // ---------------------------------------------------------------------------
  // Binary literals, converted in the buffer
  // ---------------------------------------------------------------------------

  ghost predicate HoldsBits(buffer: array<byte>, ds: seq<nat>)
    reads buffer
  {
    |ds| <= 8 * buffer.Length && forall q: nat :: q < |ds| ==> BufferBit(buffer, q) == (ds[q] == 1)
  }

  /** The rest of the byte that bit `count` would go to is clear. */
  ghost predicate ClearFrom(buffer: array<byte>, count: nat)
    reads buffer
  {
    count % 8 != 0 ==>
      count < 8 * buffer.Length && forall q: nat :: count <= q < 8 * (count / 8 + 1) ==> !BufferBit(buffer, q)
  }

  /** The loop over the text: digit j becomes bit j of the buffer. */
  method CollectBits(buffer: array<byte>, ghost text: seq<byte>) returns (ok: bool, count: nat)
    requires Holds(buffer, text)
    modifies buffer
    ensures ok == Digits(text, 1).Some?
    ensures ok ==> |Digits(text, 1).value| == count <= |text| && HoldsBits(buffer, Digits(text, 1).value)
  {
    hide Digits, DigitOf, HoldsBits, ClearFrom, IsSpace;
    var i := 0;
    ok, count := true, 0;
    NoDigits(1);
    NothingStored(buffer);
    ghost var ds: seq<nat> := [];
    assert text[..0] == [];
    while ok && buffer[i] != NUL
      invariant 0 <= i <= |text| && |ds| == count <= i
      invariant Digits(text[..i], 1) == Some(ds)
      invariant HoldsBits(buffer, ds) && ClearFrom(buffer, count)
      invariant forall m :: i <= m < |text| ==> buffer[m] == text[m]
      invariant buffer[|text|] == NUL
      invariant !ok ==> Digits(text, 1) == None
      decreases |text| - i, ok
    {
      var ch := buffer[i];
      DigitsSnoc(text, i, 1);
      var d := DigitOf(ch, 1);
      if d == None && !IsSpace(ch) {
        DigitsGrow(text, i + 1, 1);
        ok := false;
      } else {
        if d.Some? {
          StoreBit(buffer, count, d.value, ds);
          count, ds := count + 1, ds + [d.value];
        }
        i := i + 1;
      }
    }
    assert ok ==> text[..i] == text;
  }

  lemma NothingStored(buffer: array<byte>)
    ensures HoldsBits(buffer, []) && ClearFrom(buffer, 0)
  {
  }

  method StoreBit(buffer: array<byte>, count: nat, data: nat, ghost ds: seq<nat>)
    requires count / 8 < buffer.Length && |ds| == count && data < 2
    requires HoldsBits(buffer, ds) && ClearFrom(buffer, count)
    modifies buffer
    ensures forall m :: 0 <= m < buffer.Length && m != count / 8 ==> buffer[m] == old(buffer[m])
    ensures HoldsBits(buffer, ds + [data]) && ClearFrom(buffer, count + 1)
  {
    hide Bit;
    if count % 8 == 0 {
      buffer[count / 8] := 0;
      forall i: nat ensures !Bit(0, i) {
        ZeroBit(i);
      }
    }
    assert forall q: nat :: q < count ==> BufferBit(buffer, q) == (ds[q] == 1);
    assert forall q: nat :: count <= q < 8 * (count / 8 + 1) ==> !BufferBit(buffer, q);
    if data != 0 {
      PutBufferBit(buffer, count, true);
    }
  }

  method ReplaceBit(buffer: array<byte>, p: nat, b: bool, ghost ds: seq<nat>)
    requires HoldsBits(buffer, ds) && p < |ds|
    modifies buffer
    ensures HoldsBits(buffer, ds[p := BoolToNat(b)])
  {
    hide BufferBit;
    PutBufferBit(buffer, p, b);
  }

  /** The swaps that reverse the bits, from the middle outwards. */
  method ReverseBits(buffer: array<byte>, count: nat, ghost ds: seq<nat>)
    requires HoldsBits(buffer, ds) && |ds| == count && forall j :: 0 <= j < count ==> ds[j] < 2
    modifies buffer
    ensures HoldsBits(buffer, Reversed(ds))
  {
    hide BufferBit;
    var r := count / 2;
    ghost var now: seq<nat> := ds;
    while r > 0
      invariant 0 <= r <= count / 2
      invariant HoldsBits(buffer, now) && |now| == count
      invariant forall q: nat :: q < count ==> now[q] == if r <= q < count - r then ds[count - 1 - q] else ds[q]
    {
      var near, far := r - 1, count - r;
      var data, other := BufferBit(buffer, near), BufferBit(buffer, far);
      ReplaceBit(buffer, near, other, now);
      ReplaceBit(buffer, far, data, now[near := BoolToNat(other)]);
      now := now[near := BoolToNat(other)][far := BoolToNat(data)];
      r := r - 1;
    }
    assert now == Reversed(ds);
  }

  // ---------------------------------------------------------------------------
  // Hexadecimal literals, converted in the buffer
  // ---------------------------------------------------------------------------

  /** Two digits to a byte, the first one in the high half. */
  function Pairs(ds: seq<nat>): (bytes: seq<byte>)
    requires |ds| % 2 == 0 && forall j :: 0 <= j < |ds| ==> ds[j] < 16
    ensures |bytes| == |ds| / 2
    ensures forall b :: 0 <= b < |bytes| ==> bytes[b] == 16 * ds[2 * b] + ds[2 * b + 1]
  {
    seq(|ds| / 2, b requires 0 <= b < |ds| / 2 => 16 * ds[2 * b] + ds[2 * b + 1])
  }

  /** Byte b of digits written two to a byte, a clear low half beside an odd last one. */
  predicate IsByte(ds: seq<nat>, b: nat, x: byte)
    requires 2 * b < |ds|
  {
    x == 16 * ds[2 * b] + if 2 * b + 1 < |ds| then ds[2 * b + 1] else 0
  }

  ghost predicate HoldsNibbles(buffer: array<byte>, ds: seq<nat>)
    reads buffer
  {
    && (forall j :: 0 <= j < |ds| ==> ds[j] < 16)
    && |ds| <= 2 * buffer.Length
    && forall b: nat :: 2 * b < |ds| ==> b < buffer.Length && IsByte(ds, b, buffer[b])
  }

  /** The loop over the text. */
  method CollectNibbles(buffer: array<byte>, ghost text: seq<byte>) returns (ok: bool, count: nat)
    requires Holds(buffer, text)
    modifies buffer
    ensures ok == Digits(text, 4).Some?
    ensures ok ==> |Digits(text, 4).value| == count <= |text| && HoldsNibbles(buffer, Digits(text, 4).value)
  {
    hide Digits, DigitOf, HoldsNibbles, IsSpace;
    var i := 0;
    ok, count := true, 0;
    NoDigits(4);
    NoNibbles(buffer);
    ghost var ds: seq<nat> := [];
    assert text[..0] == [];
    while ok && buffer[i] != NUL
      invariant 0 <= i <= |text| && |ds| == count <= i
      invariant Digits(text[..i], 4) == Some(ds)
      invariant HoldsNibbles(buffer, ds)
      invariant forall m :: i <= m < |text| ==> buffer[m] == text[m]
      invariant buffer[|text|] == NUL
      invariant !ok ==> Digits(text, 4) == None
      decreases |text| - i, ok
    {
      var ch := buffer[i];
      DigitsSnoc(text, i, 4);
      var d := DigitOf(ch, 4);
      if d == None && !IsSpace(ch) {
        DigitsGrow(text, i + 1, 4);
        ok := false;
      } else {
        if d.Some? {
          StoreNibble(buffer, count, d.value, ds);
          count, ds := count + 1, ds + [d.value];
        }
        i := i + 1;
      }
    }
    assert ok ==> text[..i] == text;
  }

  lemma NoNibbles(buffer: array<byte>)
    ensures HoldsNibbles(buffer, [])
  {
  }

  /** An even digit starts a byte. */
  method StoreHigh(buffer: array<byte>, at: nat, data: nat, ghost ds: seq<nat>)
    requires at < buffer.Length && |ds| == 2 * at && data < 16 && HoldsNibbles(buffer, ds)
    modifies buffer
    ensures forall m :: 0 <= m < buffer.Length && m != at ==> buffer[m] == old(buffer[m])
    ensures HoldsNibbles(buffer, ds + [data])
  {
    hide IsByte;
    ByteStarted(ds, data, at);
    buffer[at] := data * 16;
    forall b: nat | b < at ensures IsByte(ds + [data], b, buffer[b]) {
      ByteKept(ds, data, b, buffer[b]);
    }
  }

  /** An odd digit completes it. */
  method StoreLow(buffer: array<byte>, at: nat, data: nat, ghost ds: seq<nat>)
    requires at < buffer.Length && |ds| == 2 * at + 1 && data < 16 && HoldsNibbles(buffer, ds)
    modifies buffer
    ensures forall m :: 0 <= m < buffer.Length && m != at ==> buffer[m] == old(buffer[m])
    ensures HoldsNibbles(buffer, ds + [data])
  {
    hide IsByte;
    ByteFilled(ds, data, at, buffer[at]);
    buffer[at] := data + buffer[at] / 16 * 16;
    forall b: nat | b < at ensures IsByte(ds + [data], b, buffer[b]) {
      ByteKept(ds, data, b, buffer[b]);
    }
  }

  method StoreNibble(buffer: array<byte>, count: nat, data: nat, ghost ds: seq<nat>)
    requires count / 2 < buffer.Length && |ds| == count && data < Pow2(4) && HoldsNibbles(buffer, ds)
    modifies buffer
    ensures forall m :: 0 <= m < buffer.Length && m != count / 2 ==> buffer[m] == old(buffer[m])
    ensures HoldsNibbles(buffer, ds + [data])
  {
    hide HoldsNibbles;
    Pow2Values();
    if count % 2 == 1 {
      StoreLow(buffer, count / 2, data, ds);
    } else {
      StoreHigh(buffer, count / 2, data, ds);
    }
  }

  lemma ByteStarted(ds: seq<nat>, data: nat, at: nat)
    requires |ds| == 2 * at && data < 16
    ensures IsByte(ds + [data], at, data * 16)
  {
  }

  lemma ByteKept(ds: seq<nat>, data: nat, b: nat, x: byte)
    requires 2 * b + 1 < |ds| && IsByte(ds, b, x)
    ensures IsByte(ds + [data], b, x)
  {
  }

  lemma ByteFilled(ds: seq<nat>, data: nat, at: nat, x: byte)
    requires |ds| == 2 * at + 1 && forall j :: 0 <= j < |ds| ==> ds[j] < 16
    requires IsByte(ds, at, x) && data < 16
    ensures data + x / 16 * 16 < 0x100 && IsByte(ds + [data], at, data + x / 16 * 16)
  {
    TwoNibbles(ds[|ds| - 1], 0);
  }

  /** An odd number of digits is moved up by one nibble, from the last byte to the first. */
  method ShiftNibbles(buffer: array<byte>, count: nat, ghost ds: seq<nat>)
    requires HoldsNibbles(buffer, ds) && |ds| == count && count % 2 == 1
    modifies buffer
    ensures count / 2 < buffer.Length && buffer[..count / 2 + 1] == Pairs([0] + ds)
  {
    ghost var was, wanted := buffer[..], Pairs([0] + ds);
    assert forall b: nat :: b <= count / 2 ==> IsByte(ds, b, was[b]);
    hide Pairs, IsByte, HoldsNibbles;
    var o := count / 2;
    while o > 0
      invariant 0 <= o <= count / 2
      invariant forall b :: 0 <= b <= o ==> buffer[b] == was[b]
      invariant forall b :: o < b <= count / 2 ==> buffer[b] == wanted[b]
    {
      ShiftedByte(ds, o, was[o - 1], was[o]);
      buffer[o] := buffer[o - 1] % 16 * 16 + buffer[o] / 16;
      o := o - 1;
    }
    ShiftedByte(ds, 0, 0, was[0]);
    buffer[0] := buffer[0] / 16;
  }

  lemma TwoNibbles(high: nat, low: nat)
    requires low < 16
    ensures (16 * high + low) / 16 == high && (16 * high + low) % 16 == low
  {
  }

  lemma ShiftedByte(ds: seq<nat>, b: nat, before: byte, x: byte)
    requires |ds| % 2 == 1 && 2 * b < |ds| && forall j :: 0 <= j < |ds| ==> ds[j] < 16
    requires IsByte(ds, b, x) && (b > 0 ==> IsByte(ds, b - 1, before)) && (b == 0 ==> before == 0)
    ensures Pairs([0] + ds)[b] == before % 16 * 16 + x / 16
  {
    var all := [0] + ds;
    assert all[2 * b + 1] == ds[2 * b];
    TwoNibbles(ds[2 * b], if 2 * b + 1 < |ds| then ds[2 * b + 1] else 0);
    if b > 0 {
      assert all[2 * b] == ds[2 * b - 1];
      TwoNibbles(ds[2 * (b - 1)], ds[2 * (b - 1) + 1]);
    }
  }

  function ReversedBytes(s: seq<byte>): (r: seq<byte>)
    ensures |r| == |s| && forall b :: 0 <= b < |r| ==> r[b] == s[|s| - 1 - b]
  {
    seq(|s|, b requires 0 <= b < |s| => s[|s| - 1 - b])
  }

  method ReverseBytes(buffer: array<byte>, count: nat)
    requires count <= buffer.Length
    modifies buffer
    ensures buffer[..count] == ReversedBytes(old(buffer[..count]))
  {
    ghost var was := buffer[..count];
    var r := count / 2;
    while r > 0
      invariant 0 <= r <= count / 2
      invariant forall b :: 0 <= b < count ==> buffer[b] == was[if r <= b < count - r then count - 1 - b else b]
    {
      buffer[r - 1], buffer[count - r] := buffer[count - r], buffer[r - 1];
      r := r - 1;
    }
  }

  /** Reversed pairs are the bytes of the number, lowest first. */
  lemma PairsHoldTheNumber(bytes: seq<byte>, ds: seq<nat>, b: nat, i: nat)
    requires |ds| % 2 == 0 && forall j :: 0 <= j < |ds| ==> ds[j] < 16
    requires bytes == ReversedBytes(Pairs(ds)) && b < |bytes| && i < 8
    ensures Bit(bytes[b], i) == Bit(Number(ds, 4), 8 * b + i)
  {
    hide Bit, Number, Pow2;
    Pow2Values();
    var at := |bytes| - 1 - b;
    BitOfParts(ds[2 * at + 1], ds[2 * at], 4, i);
    if i < 4 {
      NumberBit(ds, 4, 2 * b, i);
    } else {
      NumberBit(ds, 4, 2 * b + 1, i - 4);
    }
  }

  // ---------------------------------------------------------------------------
  // Literals as a whole
  // ---------------------------------------------------------------------------

  lemma RoomForLiteral(n: nat, textLength: nat)
    requires n <= textLength
    ensures 4 * (((n + 7) / 8 + 3) / 4) <= textLength + 4
    ensures n <= 32 * (((n + 7) / 8 + 3) / 4)
    ensures ((n + 7) / 8 + 3) / 4 > 1 <==> n > 32
  {
  }

  /** jam_convert_literal_binary */
  method ConvertBinary(below: array<byte>, buffer: array<byte>, literals: array<word>, arg: nat, ghost text: seq<byte>)
    returns (ok: bool, length: nat)
    requires Apart(below, buffer, literals)
    requires Holds(buffer, text) && |text| + 4 <= buffer.Length
    modifies below, buffer, literals
    ensures ok == (Digits(text, 1).Some? && (|Digits(text, 1).value| > 32 || arg < MAX_LITERAL_ARRAYS))
    ensures ok ==>
      && length == |Digits(text, 1).value|
      && HoldsLiteral(below, buffer, literals, arg, length, Number(Digits(text, 1).value, 1))
    ensures forall k :: 0 <= k < literals.Length && (k != arg || (ok && length > 32)) ==> literals[k] == old(literals[k])
  {
    hide Digits, Number, Bit, Pow2, HoldsLiteral, BufferBit;
    ok, length := CollectBits(buffer, text);
    if ok {
      ghost var ds := Digits(text, 1).value;
      PowOfOne();
      ReverseBits(buffer, length, ds);
      RoomForLiteral(length, |text|);
      BitsAreTheNumber(buffer, ds);
      ok := StoreLiteral(below, buffer, literals, arg, length, Number(ds, 1));
    }
  }

  lemma PowOfOne()
    ensures Pow2(1) == 2
  {
  }

  lemma BitsAreTheNumber(buffer: array<byte>, ds: seq<nat>)
    requires HoldsBits(buffer, Reversed(ds)) && |ds| <= 8 * buffer.Length
    requires forall j :: 0 <= j < |ds| ==> ds[j] < 2
    ensures forall q: nat :: q < |ds| ==> BufferBit(buffer, q) == Bit(Number(ds, 1), q)
  {
    hide Bit, BufferBit, Number, Pow2, HoldsBits;
    forall q: nat | q < |ds| ensures BufferBit(buffer, q) == Bit(Number(ds, 1), q) {
      BitIsTheNumber(buffer, ds, q);
    }
  }

  lemma BitIsTheNumber(buffer: array<byte>, ds: seq<nat>, q: nat)
    requires HoldsBits(buffer, Reversed(ds)) && q < |ds|
    requires forall j :: 0 <= j < |ds| ==> ds[j] < 2
    ensures BufferBit(buffer, q) == Bit(Number(ds, 1), q)
  {
    hide Bit, BufferBit, Number, Pow2, Reversed;
    var d := ds[|ds| - 1 - q];
    assert BufferBit(buffer, q) == (d == 1) by {
      assert Reversed(ds)[q] == d;
    }
    BinaryDigit(ds, q);
  }

  lemma BinaryDigit(ds: seq<nat>, q: nat)
    requires q < |ds| && forall j :: 0 <= j < |ds| ==> ds[j] < 2
    ensures Bit(Number(ds, 1), q) == (ds[|ds| - 1 - q] == 1)
  {
    hide Bit, Number, Pow2;
    PowOfOne();
    NumberBit(ds, 1, q, 0);
    LowestBit(ds[|ds| - 1 - q]);
  }

  lemma LowestBit(x: nat)
    requires x < 2
    ensures Bit(x, 0) == (x == 1)
  {
  }

  /** jam_convert_literal_array */
  method ConvertHex(below: array<byte>, buffer: array<byte>, literals: array<word>, arg: nat, ghost text: seq<byte>)
    returns (ok: bool, length: nat)
    requires Apart(below, buffer, literals)
    requires Holds(buffer, text) && |text| + 4 <= buffer.Length
    modifies below, buffer, literals
    ensures ok == (Digits(text, 4).Some? && (|Digits(text, 4).value| > 8 || arg < MAX_LITERAL_ARRAYS))
    ensures ok ==>
      && length == 4 * |Digits(text, 4).value|
      && HoldsLiteral(below, buffer, literals, arg, length, Number(Digits(text, 4).value, 4))
    ensures forall k :: 0 <= k < literals.Length && (k != arg || (ok && length > 32)) ==> literals[k] == old(literals[k])
  {
    hide Digits, Number, Bit, Pow2, HoldsNibbles, Pairs, HoldsLiteral, BufferBit;
    var count;
    ok, count := CollectNibbles(buffer, text);
    length := 4 * count;
    if ok {
      ghost var ds := Digits(text, 4).value;
      var bytes := LineUp(buffer, count, ds);
      ghost var all := if count % 2 == 1 then [0] + ds else ds;
      ReverseBytes(buffer, bytes);
      RoomForLiteral(8 * bytes, 8 * bytes);
      LeadingZero(ds, 4);
      BytesAreTheNumber(buffer, length, all);
      ok := StoreLiteral(below, buffer, literals, arg, length, Number(ds, 4));
    }
  }

  /** The nibble shift for an odd count, and the number of bytes. */
  method LineUp(buffer: array<byte>, count: nat, ghost ds: seq<nat>) returns (bytes: nat)
    requires HoldsNibbles(buffer, ds) && |ds| == count
    modifies buffer
    ensures bytes == (count + 1) / 2 <= buffer.Length
    ensures forall j :: 0 <= j < |ds| ==> ds[j] < 16
    ensures buffer[..bytes] == Pairs(if count % 2 == 1 then [0] + ds else ds)
  {
    bytes := (count + 1) / 2;
    if count % 2 == 1 {
      ShiftNibbles(buffer, count, ds);
    } else {
      assert forall b :: 0 <= b < bytes ==> IsByte(ds, b, buffer[b]);
    }
  }

  lemma BytesAreTheNumber(buffer: array<byte>, length: nat, ds: seq<nat>)
    requires |ds| % 2 == 0 && forall j :: 0 <= j < |ds| ==> ds[j] < 16
    requires length <= 4 * |ds| <= 8 * buffer.Length
    requires buffer[..|ds| / 2] == ReversedBytes(Pairs(ds))
    ensures forall q: nat :: q < length ==> BufferBit(buffer, q) == Bit(Number(ds, 4), q)
  {
    hide Bit, BufferBit, Number, Pairs, ReversedBytes;
    forall q: nat | q < length ensures BufferBit(buffer, q) == Bit(Number(ds, 4), q) {
      ByteIsTheNumber(buffer, ds, q);
    }
  }

  lemma ByteIsTheNumber(buffer: array<byte>, ds: seq<nat>, q: nat)
    requires |ds| % 2 == 0 && forall j :: 0 <= j < |ds| ==> ds[j] < 16
    requires q < 4 * |ds| <= 8 * buffer.Length
    requires buffer[..|ds| / 2] == ReversedBytes(Pairs(ds))
    ensures BufferBit(buffer, q) == Bit(Number(ds, 4), q)
  {
    hide Bit, Number, Pairs, ReversedBytes;
    var bytes := buffer[..|ds| / 2];
    assert buffer[q / 8] == bytes[q / 8];
    PairsHoldTheNumber(bytes, ds, q / 8, q % 8);
    assert q == 8 * (q / 8) + q % 8;
  }
}
