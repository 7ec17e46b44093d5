/** base_uint<BITS>: fixed-width unsigned numbers kept as 32-bit words, lowest first. Every
    operation is a loop over the words; each is proved to be arithmetic on the number the
    words stand for, modulo 2 to the power of the width, for every width. */
module UintArithmetic {
  import opened Bits
  import opened Options
  import opened BitArrays
  import opened DigitArrays

  const BASE: nat := 0x1_0000_0000

  // ---------------------------------------------------------------------------
  // The number the words stand for
  // ---------------------------------------------------------------------------

  function Weight(i: nat): (p: nat)
    ensures p > 0
  {
    Pow2(32 * i)
  }

  function Value(s: seq<word>): nat {
    if s == [] then 0 else Value(s[..|s| - 1]) + s[|s| - 1] * Weight(|s| - 1)
  }

  lemma WeightStep(i: nat)
    ensures Weight(i + 1) == BASE * Weight(i)
  {
    hide Pow2;
    Pow2Values();
    Pow2Add(32, 32 * i);
  }

  lemma ValueSnoc(s: seq<word>, x: word)
    ensures Value(s + [x]) == Value(s) + x * Weight(|s|)
  {
    hide Weight;
    assert (s + [x])[..|s|] == s;
  }

  lemma ValueUpTo(s: seq<word>, i: nat)
    requires i < |s|
    ensures Value(s[..i + 1]) == Value(s[..i]) + s[i] * Weight(i)
  {
    hide Value;
    ValueSnoc(s[..i], s[i]);
    assert s[..i + 1] == s[..i] + [s[i]];
  }

  lemma {:induction false} ValueBound(s: seq<word>)
    ensures Value(s) < Weight(|s|)
    decreases |s|
  {
    hide Weight;
    if s == [] {
      assert Weight(0) > 0;
    } else {
      var n := |s| - 1;
      ValueBound(s[..n]);
      WeightStep(n);
      MulMono(s[n], BASE - 1, Weight(n));
      MulDistributes(Weight(n), BASE, -1);
    }
  }

  /** Bit t of word m is bit 32 m + t of the number. */
  lemma {:induction false} ValueBit(s: seq<word>, m: nat, t: nat)
    requires m < |s| && t < 32
    ensures Bit(Value(s), 32 * m + t) == Bit(s[m], t)
    decreases |s|
  {
    hide Bit, Pow2;
    var n := |s| - 1;
    ValueBound(s[..n]);
    TopWord(s);
    hide Value;
    BitOfParts(Value(s[..n]), s[n], 32 * n, 32 * m + t);
    if m < n {
      ValueBit(s[..n], m, t);
    } else {
      assert 32 * m + t - 32 * n == t;
    }
  }

  lemma TopWord(s: seq<word>)
    requires s != []
    ensures Value(s) == Value(s[..|s| - 1]) + Pow2(32 * (|s| - 1)) * s[|s| - 1]
    ensures Value(s) == Weight(|s| - 1) * s[|s| - 1] + Value(s[..|s| - 1])
  {
    hide Pow2;
  }

  lemma {:induction false} BitBeyond(x: nat, n: nat, j: nat)
    requires x < Pow2(n) && j >= n
    ensures !Bit(x, j)
    decreases n
  {
    if n == 0 {
      ZeroBit(j);
    } else {
      BitBeyond(x / 2, n - 1, j - 1);
    }
  }

  lemma WholeSlice(s: seq<word>)
    ensures s[..|s|] == s && s[..0] == []
  {
  }

  /** Words are determined by the number. */
  lemma {:induction false} ValueDetermines(a: seq<word>, b: seq<word>)
    requires |a| == |b| && Value(a) == Value(b)
    ensures a == b
    decreases |a|
  {
    hide Weight, Value;
    if a != [] {
      var n := |a| - 1;
      TopWord(a);
      TopWord(b);
      ValueBound(a[..n]);
      ValueBound(b[..n]);
      DivUnique(Value(a), Weight(n), a[n], Value(a[..n]));
      DivUnique(Value(b), Weight(n), b[n], Value(b[..n]));
      ValueDetermines(a[..n], b[..n]);
      assert a == a[..n] + [a[n]] && b == b[..n] + [b[n]];
    }
  }

  // ---------------------------------------------------------------------------
  // One word
  // ---------------------------------------------------------------------------

  /** What one iteration of an addition does to the sums so far. */
  lemma AddStep(p: nat, v: nat, x: nat, y: nat, a: nat, b: nat, carry: nat, r: nat, next: nat)
    requires v + carry * p == x + y && carry + a + b == r + BASE * next
    ensures (v + r * p) + next * (BASE * p) == (x + a * p) + (y + b * p)
  {
    MulDistributes(p, a, b);
    MulDistributes(p, a + b, carry);
    MulDistributes(p, r, BASE * next);
    assert p * (BASE * next) == next * (BASE * p);
  }

  /** What is left of a sum when the last carry is dropped. */
  lemma Reduced(v: nat, carry: nat, p: nat, sum: nat)
    requires v < p && v + carry * p == sum
    ensures v == sum % p
  {
    DivUnique(sum, p, carry, v);
  }

  lemma {:induction false} Complement(s: seq<word>, t: seq<word>)
    requires |s| == |t| && forall i :: 0 <= i < |s| ==> t[i] == BASE - 1 - s[i]
    ensures Value(t) == Weight(|s|) - 1 - Value(s)
    decreases |s|
  {
    hide Weight;
    if s == [] {
      assert Weight(0) == 1 by {
        WeightOfNothing();
      }
    } else {
      var n := |s| - 1;
      Complement(s[..n], t[..n]);
      WeightStep(n);
      var x: int := s[n];
      MulDistributes(Weight(n), BASE - 1, -x);
      MulDistributes(Weight(n), BASE, -1);
    }
  }

  lemma WeightOfNothing()
    ensures Weight(0) == 1
  {
  }

  // ---------------------------------------------------------------------------
  // Words shifted and joined
  // ---------------------------------------------------------------------------

  lemma {:induction false} OrBit(x: nat, y: nat, j: nat)
    ensures Bit(Or(x, y), j) == (Bit(x, j) || Bit(y, j))
    decreases j
  {
    if x == 0 {
      ZeroBit(j);
    } else if y == 0 {
      ZeroBit(j);
    } else {
      OrParts(x, y);
      hide Or;
      if j != 0 {
        OrBit(x / 2, y / 2, j - 1);
      }
    }
  }

  lemma OrParts(x: nat, y: nat)
    requires x != 0 && y != 0
    ensures (Or(x, y) % 2 == 1) == (x % 2 == 1 || y % 2 == 1) && Or(x, y) / 2 == Or(x / 2, y / 2)
  {
  }

  lemma {:induction false} OrBound(x: nat, y: nat, n: nat)
    requires x < Pow2(n) && y < Pow2(n)
    ensures Or(x, y) < Pow2(n)
    decreases n
  {
    if x != 0 && y != 0 {
      OrBound(x / 2, y / 2, n - 1);
    }
  }

  function OrWord(x: word, y: word): (r: word)
    ensures forall j: nat :: Bit(r, j) == (Bit(x, j) || Bit(y, j))
  {
    Pow2Values();
    OrBound(x, y, 32);
    assert forall j: nat :: Bit(Or(x, y), j) == (Bit(x, j) || Bit(y, j)) by {
      forall j: nat { OrBit(x, y, j); }
    }
    Or(x, y)
  }

  /** x << n, cut off at 32 bits. */
  function LeftWord(x: word, n: nat): (r: word)
    ensures forall j: nat :: Bit(r, j) == (n <= j < 32 && Bit(x, j - n))
  {
    Pow2Values();
    var r := LowBits(Shl(x, n), 32);
    assert forall j: nat :: Bit(r, j) == (n <= j < 32 && Bit(x, j - n)) by {
      forall j: nat ensures Bit(r, j) == (n <= j < 32 && Bit(x, j - n)) {
        ShiftedLeft(x, n, j);
        if j < 32 {
          MaskedBit(Shl(x, n), 32, j);
        } else {
          BitBeyond(r, 32, j);
        }
      }
    }
    r
  }

  lemma ShiftedLeft(x: nat, n: nat, j: nat)
    ensures Bit(Shl(x, n), j) == (j >= n && Bit(x, j - n))
  {
    BitOfParts(0, x, n, j);
    ZeroBit(j);
    assert 0 + Pow2(n) * x == Shl(x, n);
  }

  function RightWord(x: word, n: nat): (r: word)
    ensures forall j: nat :: Bit(r, j) == Bit(x, n + j)
  {
    DivNonNegative(x, Pow2(n));
    DivisionRule(x, Pow2(n));
    MulMono(1, Pow2(n), x / Pow2(n));
    assert forall j: nat :: Bit(Shr(x, n), j) == Bit(x, n + j) by {
      forall j: nat { ShiftedBit(x, n, j); }
    }
    Shr(x, n)
  }

  /** A number below 2^(32 n) is determined by its bits. */
  lemma SameNumber(x: nat, y: nat, n: nat)
    requires x < Weight(n) && y < Weight(n)
    requires forall j: nat :: j < 32 * n ==> Bit(x, j) == Bit(y, j)
    ensures x == y
  {
    SameBits(x, y, 32 * n);
  }

  // ---------------------------------------------------------------------------
  // Comparing
  // ---------------------------------------------------------------------------

  /** Above word i the numbers agree, so word i decides. */
  lemma {:induction false} TopDecides(a: seq<word>, b: seq<word>, i: nat)
    requires |a| == |b| && i < |a| && a[i] < b[i]
    requires forall k :: i < k < |a| ==> a[k] == b[k]
    ensures Value(a) < Value(b)
    decreases |a|
  {
    hide Value, Weight;
    var n := |a| - 1;
    TopWord(a);
    TopWord(b);
    if i < n {
      TopDecides(a[..n], b[..n], i);
    } else {
      ValueBound(a[..n]);
      MulMono(a[n] + 1, b[n], Weight(n));
      MulDistributes(Weight(n), a[n], 1);
    }
  }

  /** The scan all four order comparisons make: the highest word that differs, or -1. */
  method FirstDifference(a: array<word>, b: array<word>) returns (i: int)
    requires a.Length == b.Length
    ensures -1 <= i < a.Length && (i == -1 ==> a[..] == b[..])
    ensures i >= 0 ==>
      && a[i] != b[i]
      && (a[i] < b[i] <==> Value(a[..]) < Value(b[..]))
      && (a[i] > b[i] <==> Value(a[..]) > Value(b[..]))
  {
    hide Value;
    i := a.Length - 1;
    while i >= 0 && a[i] == b[i]
      invariant -1 <= i < a.Length
      invariant forall k :: i < k < a.Length ==> a[k] == b[k]
    {
      i := i - 1;
    }
    if i >= 0 {
      if a[i] < b[i] {
        TopDecides(a[..], b[..], i);
      } else {
        TopDecides(b[..], a[..], i);
      }
    }
  }

  // ---------------------------------------------------------------------------
  // Hexadecimal text
  // ---------------------------------------------------------------------------

  function HexChar(d: nat): (ch: char)
    requires d < 16
    ensures IsHexDigit(ch) && HexDigit(ch) == d
  {
    "0123456789abcdef"[d]
  }

  /** The table phexdigit, 0 for everything that is no digit. */
  function HexDigit(ch: char): (d: nat)
    ensures d < 16
  {
    if '0' <= ch <= '9' then ch as nat - '0' as nat
    else if 'A' <= ch <= 'F' then ch as nat - 'A' as nat + 10
    else if 'a' <= ch <= 'f' then ch as nat - 'a' as nat + 10
    else 0
  }

  lemma HexDigitIsPlace(d: nat)
    requires d < 16
    ensures HexDigit("0123456789abcdef"[d]) == HexDigit("0123456789ABCDEF"[d]) == d
    ensures HexChar(d) == "0123456789abcdef"[d]
  {
  }

  predicate IsHexDigit(ch: char) {
    HexDigit(ch) != 0 || ch == '0'
  }

  predicate IsSpace(ch: char) {
    '\t' <= ch <= '\r' || ch == ' '
  }

  /** n digits of a number, highest first. */
  function HexText(x: nat, n: nat): (s: string)
    ensures |s| == n && forall p :: 0 <= p < n ==> IsHexDigit(s[p])
    decreases n, x
  {
    if n == 0 then "" else HexText(x / 16, n - 1) + [HexChar(x % 16)]
  }

  function SkipSpaces(s: string): string {
    if s != "" && IsSpace(s[0]) then SkipSpaces(s[1..]) else s
  }

  function SkipPrefix(s: string): string {
    if |s| >= 2 && s[0] == '0' && (s[1] == 'x' || s[1] == 'X') then s[2..] else s
  }

  function HexRun(s: string): (r: string)
    ensures |r| <= |s| && r == s[..|r|] && (forall p :: 0 <= p < |r| ==> IsHexDigit(r[p]))
    ensures |r| < |s| ==> !IsHexDigit(s[|r|])
  {
    if s != "" && IsHexDigit(s[0]) then [s[0]] + HexRun(s[1..]) else ""
  }

  function HexDigits(s: string): (ds: seq<nat>)
    ensures |ds| == |s| && forall p :: 0 <= p < |s| ==> ds[p] == HexDigit(s[p]) && ds[p] < 16
  {
    seq(|s|, p requires 0 <= p < |s| => HexDigit(s[p]))
  }

  /** The number a text is read as: the digits after white space and an optional 0x. */
  function HexValue(s: string): nat {
    Number(HexDigits(HexRun(SkipPrefix(SkipSpaces(s)))), 4)
  }

  /** Digit j of a number, counted from the lowest. */
  function Nibble(x: nat, j: nat): (d: nat)
    ensures d < 16
  {
    Pow2Values();
    LowBits(Shr(x, 4 * j), 4)
  }

  lemma NibbleUp(x: nat, j: nat)
    ensures Nibble(x / 16, j) == Nibble(x, j + 1)
  {
    hide LowBits, Pow2;
    Pow2Values();
    Pow2Add(4, 4 * j);
    DivDiv(x, 16, Pow2(4 * j));
  }

  lemma {:induction false} HexTextAt(x: nat, n: nat, p: nat)
    requires p < n
    ensures HexText(x, n)[p] == HexChar(Nibble(x, n - 1 - p))
    decreases n
  {
    hide HexChar, Nibble;
    if p == n - 1 {
      LowestNibble(x);
    } else {
      HexTextAt(x / 16, n - 1, p);
      NibbleUp(x, n - 2 - p);
    }
  }

  lemma LowestNibble(x: nat)
    ensures Nibble(x, 0) == x % 16
  {
    Pow2Values();
    assert Pow2(0) == 1;
  }

  /** Nibbles of the words are nibbles of the number. */
  lemma NibbleOfWords(words: array<word>, j: nat)
    requires WordOf(j, 4) < words.Length
    ensures Nibble(Value(words[..]), j) == DigitAt(words, j, 4)
  {
    hide Bit, DigitAt, WordOf, Value, Nibble, Pow2;
    Pow2Values();
    forall i: nat | i < 4 ensures Bit(Nibble(Value(words[..]), j), i) == Bit(DigitAt(words, j, 4), i) {
      NibbleBit(Value(words[..]), j, i);
      DigitBit(words, j, 4, i);
      WordsBit(words, 4 * j + i);
    }
    SameBits(Nibble(Value(words[..]), j), DigitAt(words, j, 4), 4);
  }

  lemma NibbleBit(x: nat, j: nat, i: nat)
    requires i < 4
    ensures Bit(Nibble(x, j), i) == Bit(x, 4 * j + i)
  {
    hide Bit;
    MaskedBit(Shr(x, 4 * j), 4, i);
    ShiftedBit(x, 4 * j, i);
  }

  lemma WordsBit(words: array<word>, q: nat)
    requires q < 32 * words.Length
    ensures Bit(Value(words[..]), q) == WordBit(words, q)
  {
    hide Bit, Value;
    ValueBit(words[..], q / 32, q % 32);
    assert q == 32 * (q / 32) + q % 32;
  }

  lemma {:induction false} TextReadsBack(x: nat, n: nat)
    requires x < Pow2(4 * n)
    ensures Number(HexDigits(HexText(x, n)), 4) == x
    decreases n
  {
    hide HexChar;
    Pow2Values();
    if n != 0 {
      Pow2Add(4, 4 * (n - 1));
      DivisionRule(x, 16);
      MulMono(Pow2(4 * (n - 1)), x / 16, 16);
      TextReadsBack(x / 16, n - 1);
      assert HexDigits(HexText(x, n))[..n - 1] == HexDigits(HexText(x / 16, n - 1));
    }
  }

  lemma {:induction false} RunOfDigits(s: string)
    requires forall p :: 0 <= p < |s| ==> IsHexDigit(s[p])
    ensures HexRun(s) == s
  {
    if s != "" {
      RunOfDigits(s[1..]);
    }
  }

  /** Reading what was written gives the number back: no leading white space, and a second
      digit is never an x. */
  lemma HexRoundTrip(x: nat, n: nat)
    requires x < Pow2(4 * n)
    ensures HexValue(HexText(x, n)) == x
  {
    hide HexText, HexDigit, Number;
    var s := HexText(x, n);
    assert SkipSpaces(s) == s by {
      if n > 0 {
        DigitIsNoSpace(s[0]);
      }
    }
    assert SkipPrefix(s) == s by {
      if n >= 2 {
        DigitIsNoSpace(s[1]);
      }
    }
    RunOfDigits(s);
    TextReadsBack(x, n);
  }

  lemma DigitIsNoSpace(ch: char)
    requires IsHexDigit(ch)
    ensures !IsSpace(ch) && ch != 'x' && ch != 'X'
  {
  }

  // ---------------------------------------------------------------------------
  // The operators
  // ---------------------------------------------------------------------------

  class BaseUint {
    const pn: array<word>

    ghost predicate Valid() {
      pn.Length > 0
    }

    ghost function Val(): nat
      reads pn
    {
      Value(pn[..])
    }

    ghost function Modulus(): (p: nat)
      ensures p > 0
    {
      Weight(pn.Length)
    }

    constructor Zero(width: nat)
      requires width > 0
      ensures Valid() && fresh(pn) && pn.Length == width && forall i :: 0 <= i < width ==> pn[i] == 0
    {
      pn := new word[width](_ => 0);
    }

    constructor Copy(b: BaseUint)
      requires b.Valid()
      ensures Valid() && fresh(pn) && pn[..] == b.pn[..]
    {
      var other := b.pn;
      pn := new word[other.Length](i requires 0 <= i < other.Length reads other => other[i]);
    }

    /** operator+= */
    method AddAssign(b: BaseUint)
      requires Valid() && b.pn.Length == pn.Length
      modifies pn
      ensures Val() == (old(Val()) + old(b.Val())) % Modulus()
    {
      hide Value, Weight;
      ghost var x, y := pn[..], b.pn[..];
      var carry: nat := 0;
      assert carry * Weight(0) == 0;
      NothingSummed(x, y);
      assert pn[..0] == [];
      for i := 0 to pn.Length
        invariant carry <= 1 && Value(pn[..i]) + carry * Weight(i) == Value(x[..i]) + Value(y[..i])
        invariant forall k :: i <= k < pn.Length ==> pn[k] == x[k] && b.pn[k] == y[k]
      {
        ghost var v := pn[..i];
        var n := carry + pn[i] + b.pn[i];
        ValueUpTo(x, i);
        ValueUpTo(y, i);
        AddStep(Weight(i), Value(v), Value(x[..i]), Value(y[..i]), pn[i], b.pn[i], carry, n % BASE, n / BASE);
        WeightStep(i);
        ValueSnoc(v, n % BASE);
        pn[i] := n % BASE;
        carry := n / BASE;
        assert pn[..i + 1] == v + [n % BASE];
      }
      WholeSlice(x);
      WholeSlice(y);
      WholeSlice(pn[..]);
      ValueBound(pn[..]);
      Reduced(Value(pn[..]), carry, Weight(pn.Length), Value(x) + Value(y));
    }

    /** operator++ */
    method Increment()
      requires Valid()
      modifies pn
      ensures Val() == (old(Val()) + 1) % Modulus()
    {
      hide Value, Weight;
      ghost var x := pn[..];
      var i := 0;
      pn[0] := (pn[0] + 1) % BASE;
      while pn[i] == 0 && i < pn.Length - 1
        invariant 0 <= i < pn.Length
        invariant forall k :: 0 <= k < i ==> pn[k] == 0 && x[k] == BASE - 1
        invariant pn[i] == (x[i] + 1) % BASE
        invariant forall k :: i < k < pn.Length ==> pn[k] == x[k]
        decreases pn.Length - i
      {
        i := i + 1;
        pn[i] := (pn[i] + 1) % BASE;
      }
      Incremented(x, pn[..], i);
    }

    /** operator-- */
    method Decrement()
      requires Valid()
      modifies pn
      ensures Val() == (old(Val()) + Modulus() - 1) % Modulus()
    {
      hide Value, Weight;
      ghost var x := pn[..];
      var i := 0;
      pn[0] := (pn[0] + BASE - 1) % BASE;
      while pn[i] == BASE - 1 && i < pn.Length - 1
        invariant 0 <= i < pn.Length
        invariant forall k :: 0 <= k < i ==> pn[k] == BASE - 1 && x[k] == 0
        invariant pn[i] == (x[i] + BASE - 1) % BASE
        invariant forall k :: i < k < pn.Length ==> pn[k] == x[k]
        decreases pn.Length - i
      {
        i := i + 1;
        pn[i] := (pn[i] + BASE - 1) % BASE;
      }
      Decremented(x, pn[..], i);
    }

    /** operator- */
    method Negate() returns (ret: BaseUint)
      requires Valid()
      ensures fresh(ret) && fresh(ret.pn) && ret.Valid() && ret.pn.Length == pn.Length
      ensures ret.Val() == (Modulus() - Val()) % Modulus()
    {
      hide Value, Weight;
      ret := new BaseUint.Zero(pn.Length);
      for i := 0 to pn.Length
        invariant forall k :: 0 <= k < i ==> ret.pn[k] == BASE - 1 - pn[k]
      {
        ret.pn[i] := BASE - 1 - pn[i];
      }
      Complement(pn[..], ret.pn[..]);
      ret.Increment();
    }

    /** operator~ */
    method Not() returns (ret: BaseUint)
      requires Valid()
      ensures fresh(ret) && fresh(ret.pn) && ret.Valid() && ret.pn.Length == pn.Length
      ensures ret.Val() == Modulus() - 1 - Val()
    {
      hide Value, Weight;
      ret := new BaseUint.Zero(pn.Length);
      for i := 0 to pn.Length
        invariant forall k :: 0 <= k < i ==> ret.pn[k] == BASE - 1 - pn[k]
      {
        ret.pn[i] := BASE - 1 - pn[i];
      }
      Complement(pn[..], ret.pn[..]);
    }

    /** operator-= */
    method SubAssign(b: BaseUint)
      requires Valid() && b.pn.Length == pn.Length
      modifies pn
      ensures Val() == (old(Val()) + Modulus() - old(b.Val())) % Modulus()
    {
      hide Value, Weight;
      ValueBound(b.pn[..]);
      var minus := b.Negate();
      ghost var x, y, p := Value(pn[..]), Value(b.pn[..]), Weight(pn.Length);
      AddAssign(minus);
      SumOfRemainder(x, p - y, p);
    }

    /** operator= on a 64-bit number */
    method Assign64(b: nat)
      requires pn.Length >= 2 && b < BASE * BASE
      modifies pn
      ensures Val() == b
    {
      pn[0] := b % BASE;
      pn[1] := b / BASE;
      for i := 2 to pn.Length
        invariant pn[0] == b % BASE && pn[1] == b / BASE
        invariant forall k :: 2 <= k < i ==> pn[k] == 0
      {
        pn[i] := 0;
      }
      TwoWords(pn[..]);
    }

    /** operator+= on a 64-bit number */
    method AddAssign64(b: nat)
      requires pn.Length >= 2 && b < BASE * BASE
      modifies pn
      ensures Val() == (old(Val()) + b) % Modulus()
    {
      var other := new BaseUint.Zero(pn.Length);
      other.Assign64(b);
      AddAssign(other);
    }

    /** operator-= on a 64-bit number */
    method SubAssign64(b: nat)
      requires pn.Length >= 2 && b < BASE * BASE
      modifies pn
      ensures b < Modulus() && Val() == (old(Val()) + Modulus() - b) % Modulus()
    {
      hide Value, Weight;
      var other := new BaseUint.Zero(pn.Length);
      other.Assign64(b);
      ValueBound(other.pn[..]);
      SubAssign(other);
    }

    /** operator++(int) */
    method PostIncrement() returns (ret: BaseUint)
      requires Valid()
      modifies pn
      ensures fresh(ret) && fresh(ret.pn) && ret.pn[..] == old(pn[..])
      ensures Val() == (old(Val()) + 1) % Modulus()
    {
      ret := new BaseUint.Copy(this);
      Increment();
    }

    /** operator--(int) */
    method PostDecrement() returns (ret: BaseUint)
      requires Valid()
      modifies pn
      ensures fresh(ret) && fresh(ret.pn) && ret.pn[..] == old(pn[..])
      ensures Val() == (old(Val()) + Modulus() - 1) % Modulus()
    {
      ret := new BaseUint.Copy(this);
      Decrement();
    }

    /** operator<<= */
    method ShiftLeft(shift: nat)
      requires Valid()
      modifies pn
      ensures Val() == Shl(old(Val()), shift) % Modulus()
    {
      hide Value, Weight, Bit, LeftWord, RightWord, OrWord, Shl, LeftSoFar;
      NothingShifted(pn[..], shift / 32, shift % 32);
      ghost var a := pn[..];
      var k, s := shift / 32, shift % 32;
      var was := new word[pn.Length](i requires 0 <= i < pn.Length reads pn => pn[i]);
      for i := 0 to pn.Length
        invariant was[..] == a
        invariant forall m :: 0 <= m < i ==> pn[m] == 0
      {
        pn[i] := 0;
      }
      for i := 0 to pn.Length
        invariant was[..] == a
        invariant forall m :: 0 <= m < pn.Length ==> pn[m] == LeftSoFar(a, k, s, i, m)
      {
        LeftSteps(a, k, s, i);
        if i + k + 1 < pn.Length && s != 0 {
          pn[i + k + 1] := OrWord(pn[i + k + 1], RightWord(was[i], 32 - s));
        }
        if i + k < pn.Length {
          pn[i + k] := OrWord(pn[i + k], LeftWord(was[i], s));
        }
      }
      ShiftedLeftWords(a, pn[..], shift);
    }

    /** operator>>= */
    method ShiftRight(shift: nat)
      requires Valid()
      modifies pn
      ensures Val() == Shr(old(Val()), shift)
    {
      hide Value, Weight, Bit, LeftWord, RightWord, OrWord, Shr, RightSoFar;
      NothingShifted(pn[..], shift / 32, shift % 32);
      ghost var a := pn[..];
      var k, s := shift / 32, shift % 32;
      var was := new word[pn.Length](i requires 0 <= i < pn.Length reads pn => pn[i]);
      for i := 0 to pn.Length
        invariant was[..] == a
        invariant forall m :: 0 <= m < i ==> pn[m] == 0
      {
        pn[i] := 0;
      }
      for i := 0 to pn.Length
        invariant was[..] == a
        invariant forall m :: 0 <= m < pn.Length ==> pn[m] == RightSoFar(a, k, s, i, m)
      {
        RightSteps(a, k, s, i);
        if i - k - 1 >= 0 && s != 0 {
          pn[i - k - 1] := OrWord(pn[i - k - 1], LeftWord(was[i], 32 - s));
        }
        if i - k >= 0 {
          pn[i - k] := OrWord(pn[i - k], RightWord(was[i], s));
        }
      }
      ShiftedRightWords(a, pn[..], shift);
    }

    /** operator< */
    method Less(b: BaseUint) returns (r: bool)
      requires b.pn.Length == pn.Length
      ensures r == (Val() < b.Val())
    {
      hide Value;
      var i := FirstDifference(pn, b.pn);
      r := i >= 0 && pn[i] < b.pn[i];
    }

    /** operator<= */
    method LessEqual(b: BaseUint) returns (r: bool)
      requires b.pn.Length == pn.Length
      ensures r == (Val() <= b.Val())
    {
      hide Value;
      var i := FirstDifference(pn, b.pn);
      r := i == -1 || pn[i] < b.pn[i];
    }

    /** operator> */
    method Greater(b: BaseUint) returns (r: bool)
      requires b.pn.Length == pn.Length
      ensures r == (Val() > b.Val())
    {
      hide Value;
      var i := FirstDifference(pn, b.pn);
      r := i >= 0 && pn[i] > b.pn[i];
    }

    /** operator>= */
    method GreaterEqual(b: BaseUint) returns (r: bool)
      requires b.pn.Length == pn.Length
      ensures r == (Val() >= b.Val())
    {
      hide Value;
      var i := FirstDifference(pn, b.pn);
      r := i == -1 || pn[i] > b.pn[i];
    }

    /** operator== */
    method Equal(b: BaseUint) returns (r: bool)
      requires b.pn.Length == pn.Length
      ensures r == (Val() == b.Val())
    {
      hide Value;
      var i := 0;
      while i < pn.Length && pn[i] == b.pn[i]
        invariant 0 <= i <= pn.Length && forall k :: 0 <= k < i ==> pn[k] == b.pn[k]
      {
        i := i + 1;
      }
      r := i == pn.Length;
      if Val() == b.Val() {
        ValueDetermines(pn[..], b.pn[..]);
      }
      assert r ==> pn[..] == b.pn[..];
    }

    /** operator== with a 64-bit number */
    method Equal64(b: nat) returns (r: bool)
      requires pn.Length >= 2 && b < BASE * BASE
      ensures r == (Val() == b)
    {
      hide Value;
      var words := [b % BASE, b / BASE] + seq(pn.Length - 2, _ => 0 as word);
      TwoWords(words);
      if Val() == b {
        ValueDetermines(pn[..], words);
      }
      if pn[0] != b % BASE {
        return false;
      }
      if pn[1] != b / BASE {
        return false;
      }
      var i := 2;
      while i < pn.Length && pn[i] == 0
        invariant 2 <= i <= pn.Length && forall k :: 2 <= k < i ==> pn[k] == 0
      {
        i := i + 1;
      }
      r := i == pn.Length;
      assert r ==> pn[..] == words;
    }

    /** operator! */
    method IsZero() returns (r: bool)
      ensures r == (Val() == 0)
    {
      hide Value;
      var zeros := seq(pn.Length, _ => 0 as word);
      var i := 0;
      while i < pn.Length && pn[i] == 0
        invariant 0 <= i <= pn.Length && forall k :: 0 <= k < i ==> pn[k] == 0
      {
        i := i + 1;
      }
      r := i == pn.Length;
      AllZero(zeros);
      if Val() == 0 {
        ValueDetermines(pn[..], zeros);
      }
      assert r ==> pn[..] == zeros;
    }

    /** GetHex: two characters for every byte, from the top byte down. */
    method GetHex() returns (s: string)
      requires Valid()
      ensures s == HexText(Val(), 8 * pn.Length)
    {
      hide Value, DigitAt, WordOf, HexChar, Nibble, HexText;
      s := "";
      var width := 8 * pn.Length;
      for i := 0 to 4 * pn.Length
        invariant |s| == 2 * i
        invariant forall p :: 0 <= p < 2 * i ==> s[p] == HexText(Val(), width)[p]
      {
        var m := 4 * pn.Length - i - 1;
        NibbleRoom(2 * m + 1, pn.Length);
        NibbleRoom(2 * m, pn.Length);
        NibbleOfWords(pn, 2 * m + 1);
        NibbleOfWords(pn, 2 * m);
        HexTextAt(Val(), width, 2 * i);
        HexTextAt(Val(), width, 2 * i + 1);
        s := s + [HexChar(DigitAt(pn, 2 * m + 1, 4)), HexChar(DigitAt(pn, 2 * m, 4))];
      }
    }

    /** SetHex: the digits are stored from the last one up, and those that do not fit are
        left out. */
    method SetHex(psz: string)
      requires Valid()
      modifies pn
      ensures Val() == HexValue(psz) % Modulus()
    {
      hide Value, Weight, DigitAt, WordOf, Number, HexDigit;
      for i := 0 to pn.Length
        invariant forall k :: 0 <= k < i ==> pn[k] == 0
      {
        pn[i] := 0;
      }
      var start := FindDigits(psz);
      ghost var run := HexRun(psz[start..]);
      var end := start;
      while end < |psz| && IsHexDigit(psz[end])
        invariant start <= end <= start + |run|
      {
        assert end < start + |run|;
        end := end + 1;
      }
      assert end == start + |run|;
      StoreDigits(psz, start, end, run);
      DigitsAreTheNumber(pn, run);
    }

    /** Past white space and an optional 0x. */
    static method FindDigits(psz: string) returns (start: nat)
      ensures start <= |psz| && psz[start..] == SkipPrefix(SkipSpaces(psz))
    {
      start := 0;
      while start < |psz| && IsSpace(psz[start])
        invariant start <= |psz| && SkipSpaces(psz) == SkipSpaces(psz[start..])
      {
        assert psz[start..][1..] == psz[start + 1..];
        start := start + 1;
      }
      if start + 1 < |psz| && psz[start] == '0' && (psz[start + 1] == 'x' || psz[start + 1] == 'X') {
        start := start + 2;
      }
    }

    /** The loop that runs from the last digit back and from the first byte up. */
    method StoreDigits(psz: string, start: nat, end: nat, ghost run: string)
      requires Valid() && start <= end <= |psz| && run == psz[start..end]
      requires forall k :: 0 <= k < pn.Length ==> pn[k] == 0
      modifies pn
      ensures forall j: nat :: WordOf(j, 4) < pn.Length ==>
        DigitAt(pn, j, 4) == if j < |run| then HexDigit(run[|run| - 1 - j]) else 0
    {
      hide DigitAt, WordOf, HexDigit, Pow2;
      ZeroDigits(pn);
      Pow2Values();
      var p, m := end - 1, 0;
      while p >= start && m < 4 * pn.Length
        invariant 0 <= m <= 4 * pn.Length && start - 1 <= p < end
        invariant end - 1 - p == 2 * m || (p < start && end - 1 - p == 2 * m + 1)
        invariant forall j: nat :: WordOf(j, 4) < pn.Length ==>
          DigitAt(pn, j, 4) == if j < end - 1 - p then HexDigit(psz[end - 1 - j]) else 0
        decreases p - start + 1
      {
        NibbleRoom(2 * m, pn.Length);
        PutDigit(pn, 2 * m, HexDigit(psz[p]), 4);
        p := p - 1;
        if p >= start {
          NibbleRoom(2 * m + 1, pn.Length);
          PutDigit(pn, 2 * m + 1, HexDigit(psz[p]), 4);
          p := p - 1;
          m := m + 1;
        }
      }
      forall j: nat | WordOf(j, 4) < pn.Length
        ensures DigitAt(pn, j, 4) == if j < |run| then HexDigit(run[|run| - 1 - j]) else 0
      {
        NibbleFits(j, pn.Length);
      }
    }
  }

  // ---------------------------------------------------------------------------
  // Why the operators are right
  // ---------------------------------------------------------------------------

  lemma NibbleRoom(j: nat, n: nat)
    requires j < 8 * n
    ensures WordOf(j, 4) < n
  {
  }

  lemma NibbleFits(j: nat, n: nat)
    requires WordOf(j, 4) < n
    ensures j < 8 * n
  {
  }

  lemma ZeroDigits(words: array<word>)
    requires forall k :: 0 <= k < words.Length ==> words[k] == 0
    ensures forall j: nat :: WordOf(j, 4) < words.Length ==> DigitAt(words, j, 4) == 0
  {
    hide Bit, WordOf;
    forall j: nat | WordOf(j, 4) < words.Length ensures DigitAt(words, j, 4) == 0 {
      ZeroDigit(ShiftOf(j, 4));
    }
  }

  lemma ZeroDigit(s: nat)
    ensures GetDigit(0, s, 4) == 0
  {
    hide Bit;
    Pow2Values();
    forall i: nat | i < 4 ensures Bit(GetDigit(0, s, 4), i) == Bit(0, i) {
      ZeroBit(s + i);
      ZeroBit(i);
    }
    SameBits(GetDigit(0, s, 4), 0, 4);
  }

  /** Words that hold the last digits of a text hold its number, reduced to the width. */
  lemma DigitsAreTheNumber(words: array<word>, run: string)
    requires forall j: nat :: WordOf(j, 4) < words.Length ==>
      DigitAt(words, j, 4) == if j < |run| then HexDigit(run[|run| - 1 - j]) else 0
    ensures Value(words[..]) == Number(HexDigits(run), 4) % Weight(words.Length)
  {
    hide Bit, Value, DigitAt, WordOf, Number, HexDigit, Pow2, WordBit;
    var n := words.Length;
    var x := Number(HexDigits(run), 4);
    ValueBound(words[..]);
    forall q: nat | q < 32 * n ensures Bit(Value(words[..]), q) == Bit(LowBits(x, 32 * n), q) {
      WordsBit(words, q);
      MaskedBit(x, 32 * n, q);
      BitOfDigits(words, run, q / 4, q % 4);
      assert q == 4 * (q / 4) + q % 4;
    }
    SameNumber(Value(words[..]), LowBits(x, 32 * n), n);
  }

  lemma BitOfDigits(words: array<word>, run: string, j: nat, i: nat)
    requires i < 4 && j < 8 * words.Length
    requires forall j: nat :: WordOf(j, 4) < words.Length ==>
      DigitAt(words, j, 4) == if j < |run| then HexDigit(run[|run| - 1 - j]) else 0
    ensures WordBit(words, 4 * j + i) == Bit(Number(HexDigits(run), 4), 4 * j + i)
  {
    hide Bit, DigitAt, WordOf, Number, HexDigit, WordBit;
    Pow2Values();
    assert Pow2(4) == 16;
    NibbleRoom(j, words.Length);
    DigitBit(words, j, 4, i);
    NumberBit(HexDigits(run), 4, j, i);
    ZeroBit(i);
  }

  lemma TwoWords(s: seq<word>)
    requires |s| >= 2 && forall k :: 2 <= k < |s| ==> s[k] == 0
    ensures Value(s) == s[0] + BASE * s[1]
    decreases |s|
  {
    var n := |s| - 1;
    if n > 1 {
      TwoWords(s[..n]);
    } else {
      hide Weight;
      WeightOfNothing();
      WeightStep(0);
      TopWord(s);
      TopWord(s[..1]);
      assert s[..1][..0] == [] && Value([]) == 0;
    }
  }

  /** Word m after the first i iterations of <<=: the top of one word and the bottom of
      the next one, as far as they have been reached. */
  function LeftSoFar(a: seq<word>, k: nat, s: nat, i: nat, m: nat): word
    requires i <= |a| && m < |a| && s < 32
  {
    var high := if s != 0 && m >= k + 1 && m - k - 1 < i then OrWord(0, RightWord(a[m - k - 1], 32 - s)) else 0;
    if m >= k && m - k < i then OrWord(high, LeftWord(a[m - k], s)) else high
  }

  /** Word m after the first i iterations of >>=. */
  function RightSoFar(a: seq<word>, k: nat, s: nat, i: nat, m: nat): word
    requires i <= |a| && m < |a| && s < 32
  {
    var low := if m + k < i then OrWord(0, RightWord(a[m + k], s)) else 0;
    if s != 0 && m + k + 1 < i then OrWord(low, LeftWord(a[m + k + 1], 32 - s)) else low
  }

  lemma NothingShifted(a: seq<word>, k: nat, s: nat)
    requires s < 32
    ensures forall m :: 0 <= m < |a| ==> LeftSoFar(a, k, s, 0, m) == 0 && RightSoFar(a, k, s, 0, m) == 0
  {
  }

  /** What iteration i adds to each word. */
  lemma LeftSteps(a: seq<word>, k: nat, s: nat, i: nat)
    requires i < |a| && s < 32
    ensures forall m: nat :: m < |a| ==>
      LeftSoFar(a, k, s, i + 1, m) ==
        if m == i + k + 1 && s != 0 then OrWord(LeftSoFar(a, k, s, i, m), RightWord(a[i], 32 - s))
        else if m == i + k then OrWord(LeftSoFar(a, k, s, i, m), LeftWord(a[i], s))
        else LeftSoFar(a, k, s, i, m)
  {
    hide OrWord, LeftWord, RightWord;
  }

  lemma RightSteps(a: seq<word>, k: nat, s: nat, i: nat)
    requires i < |a| && s < 32
    ensures forall m: nat :: m < |a| ==>
      RightSoFar(a, k, s, i + 1, m) ==
        if m == i - k - 1 && s != 0 then OrWord(RightSoFar(a, k, s, i, m), LeftWord(a[i], 32 - s))
        else if m == i - k then OrWord(RightSoFar(a, k, s, i, m), RightWord(a[i], s))
        else RightSoFar(a, k, s, i, m)
  {
    hide OrWord, LeftWord, RightWord;
  }

  /** Bits above a word are not there. */
  lemma WordBitBeyond(x: word, t: nat)
    requires t >= 32
    ensures !Bit(x, t)
  {
    Pow2Values();
    BitBeyond(x, 32, t);
  }

  /** Which bits of which words meet in bit t of word m. */
  lemma LeftWordParts(a: seq<word>, k: nat, s: nat, m: nat, t: nat)
    requires m < |a| && s < 32 && t < 32
    ensures Bit(LeftSoFar(a, k, s, |a|, m), t) <==>
      (s != 0 && m >= k + 1 && Bit(a[m - k - 1], 32 - s + t)) || (m >= k && t >= s && Bit(a[m - k], t - s))
  {
    hide Bit;
    ZeroBit(t);
  }

  lemma LeftWordBit(a: seq<word>, k: nat, s: nat, m: nat, t: nat)
    requires m < |a| && s < 32 && t < 32
    ensures Bit(LeftSoFar(a, k, s, |a|, m), t)
      == (32 * m + t >= 32 * k + s && Bit(Value(a), 32 * m + t - (32 * k + s)))
  {
    hide Bit, Value, LeftSoFar;
    LeftWordParts(a, k, s, m, t);
    if t >= s && m >= k {
      ValueBit(a, m - k, t - s);
      assert 32 * m + t - (32 * k + s) == 32 * (m - k) + (t - s);
      if m >= k + 1 {
        WordBitBeyond(a[m - k - 1], 32 - s + t);
      }
    } else if t < s && m >= k + 1 {
      ValueBit(a, m - k - 1, 32 - s + t);
      assert 32 * m + t - (32 * k + s) == 32 * (m - k - 1) + (32 - s + t);
    }
  }

  lemma ShiftedLeftWords(a: seq<word>, r: seq<word>, shift: nat)
    requires |r| == |a| && forall m :: 0 <= m < |a| ==> r[m] == LeftSoFar(a, shift / 32, shift % 32, |a|, m)
    ensures Value(r) == Shl(Value(a), shift) % Weight(|a|)
  {
    hide Bit, Value, LeftSoFar, Shl;
    var n, v := |a|, Value(a);
    var k, s := shift / 32, shift % 32;
    var wanted := LowBits(Shl(v, shift), 32 * n);
    ValueBound(r);
    forall j: nat | j < 32 * n ensures Bit(Value(r), j) == Bit(wanted, j) {
      var m, t := j / 32, j % 32;
      ValueBit(r, m, t);
      LeftWordBit(a, k, s, m, t);
      MaskedBit(Shl(v, shift), 32 * n, j);
      ShiftedLeft(v, shift, j);
      assert 32 * m + t == j && 32 * k + s == shift;
    }
    SameNumber(Value(r), wanted, n);
  }

  lemma RightWordParts(a: seq<word>, k: nat, s: nat, m: nat, t: nat)
    requires m < |a| && s < 32 && t < 32
    ensures Bit(RightSoFar(a, k, s, |a|, m), t) <==>
      (m + k < |a| && Bit(a[m + k], s + t))
      || (s != 0 && m + k + 1 < |a| && t >= 32 - s && Bit(a[m + k + 1], t - (32 - s)))
  {
    hide Bit;
    ZeroBit(t);
  }

  lemma RightWordBit(a: seq<word>, k: nat, s: nat, m: nat, t: nat)
    requires m < |a| && s < 32 && t < 32
    ensures Bit(RightSoFar(a, k, s, |a|, m), t) == Bit(Value(a), 32 * m + t + (32 * k + s))
  {
    hide Bit, Value, RightSoFar, Weight;
    RightWordParts(a, k, s, m, t);
    if m + k < |a| && t + s < 32 {
      ValueBit(a, m + k, t + s);
      assert 32 * m + t + (32 * k + s) == 32 * (m + k) + (t + s);
    } else if m + k + 1 < |a| {
      WordBitBeyond(a[m + k], s + t);
      ValueBit(a, m + k + 1, t + s - 32);
      assert 32 * m + t + (32 * k + s) == 32 * (m + k + 1) + (t + s - 32);
    } else {
      if m + k < |a| {
        WordBitBeyond(a[m + k], s + t);
      }
      ValueBitBeyond(a, 32 * m + t + (32 * k + s));
    }
  }

  lemma ValueBitBeyond(a: seq<word>, j: nat)
    requires j >= 32 * |a|
    ensures !Bit(Value(a), j)
  {
    hide Bit, Value;
    ValueBound(a);
    BitBeyond(Value(a), 32 * |a|, j);
  }

  lemma ShiftedRightWords(a: seq<word>, r: seq<word>, shift: nat)
    requires |r| == |a| && forall m :: 0 <= m < |a| ==> r[m] == RightSoFar(a, shift / 32, shift % 32, |a|, m)
    ensures Value(r) == Shr(Value(a), shift)
  {
    hide Bit, Value, RightSoFar, Shr;
    var n, v := |a|, Value(a);
    var k, s := shift / 32, shift % 32;
    ValueBound(r);
    ValueBound(a);
    ShrAtMost(v, shift);
    forall j: nat | j < 32 * n ensures Bit(Value(r), j) == Bit(Shr(v, shift), j) {
      var m, t := j / 32, j % 32;
      ValueBit(r, m, t);
      RightWordBit(a, k, s, m, t);
      ShiftedBit(v, shift, j);
      assert 32 * m + t == j && 32 * k + s == shift;
    }
    SameNumber(Value(r), Shr(v, shift), n);
  }

  lemma ShrAtMost(x: nat, n: nat)
    ensures Shr(x, n) <= x
  {
    DivisionRule(x, Pow2(n));
    MulMono(1, Pow2(n), x / Pow2(n));
  }

  lemma NothingSummed(x: seq<word>, y: seq<word>)
    ensures Value([]) == 0 && x[..0] == [] && y[..0] == []
  {
  }

  lemma SumOfRemainder(x: nat, y: nat, p: nat)
    requires p > 0
    ensures (x + y % p) % p == (x + y) % p
  {
    DivisionRule(y, p);
    var r := x + y % p;
    DivisionRule(r, p);
    MulDistributes(p, r / p, y / p);
    DivUnique(x + y, p, r / p + y / p, r % p);
  }

  lemma {:induction false} SameTops(a: seq<word>, b: seq<word>, i: nat)
    requires |a| == |b| && i <= |a| && forall k :: i <= k < |a| ==> a[k] == b[k]
    ensures Value(a) - Value(a[..i]) == Value(b) - Value(b[..i])
    decreases |a|
  {
    hide Value, Weight;
    if i == |a| {
      WholeSlice(a);
      WholeSlice(b);
    } else {
      var n := |a| - 1;
      TopWord(a);
      TopWord(b);
      SameTops(a[..n], b[..n], i);
      assert a[..n][..i] == a[..i] && b[..n][..i] == b[..i];
    }
  }

  lemma {:induction false} AllZero(s: seq<word>)
    requires forall k :: 0 <= k < |s| ==> s[k] == 0
    ensures Value(s) == 0
    decreases |s|
  {
    if s != [] {
      AllZero(s[..|s| - 1]);
    }
  }

  /** A run of full words turns to zeros and the word above it goes up by one. */
  lemma CarryUp(x: seq<word>, y: seq<word>, i: nat)
    requires |x| == |y| && i < |x| && y[i] == (x[i] + 1) % BASE
    requires forall k :: 0 <= k < i ==> y[k] == 0 && x[k] == BASE - 1
    ensures Value(x[..i + 1]) + 1 == Value(y[..i + 1]) + if y[i] == 0 then Weight(i + 1) else 0
  {
    hide Value, Weight;
    ValueUpTo(x, i);
    ValueUpTo(y, i);
    AllZero(y[..i]);
    Complement(y[..i], x[..i]);
    WeightStep(i);
    MulDistributes(Weight(i), x[i], 1);
    var carry := if y[i] == 0 then 1 else 0;
    var old0: int, new0: int := x[i], y[i];
    assert old0 + 1 == new0 + BASE * carry;
    MulDistributes(Weight(i), new0, BASE * carry);
  }

  lemma Incremented(x: seq<word>, y: seq<word>, i: nat)
    requires |x| == |y| && i < |x| && y[i] == (x[i] + 1) % BASE
    requires forall k :: 0 <= k < i ==> y[k] == 0 && x[k] == BASE - 1
    requires forall k :: i < k < |x| ==> y[k] == x[k]
    requires y[i] != 0 || i == |x| - 1
    ensures Value(y) == (Value(x) + 1) % Weight(|x|)
  {
    hide Value, Weight;
    CarryUp(x, y, i);
    SameTops(x, y, i + 1);
    ValueBound(y);
    WholeSlice(x);
    WholeSlice(y);
    Reduced(Value(y), if y[i] == 0 then 1 else 0, Weight(|x|), Value(x) + 1);
  }

  lemma Decremented(x: seq<word>, y: seq<word>, i: nat)
    requires |x| == |y| && i < |x| && y[i] == (x[i] + BASE - 1) % BASE
    requires forall k :: 0 <= k < i ==> y[k] == BASE - 1 && x[k] == 0
    requires forall k :: i < k < |x| ==> y[k] == x[k]
    requires y[i] != BASE - 1 || i == |x| - 1
    ensures Value(y) == (Value(x) + Weight(|x|) - 1) % Weight(|x|)
  {
    hide Value, Weight;
    Incremented(y, x, i);
    ValueBound(y);
    BackByOne(Value(x), Value(y), Weight(|x|));
  }

  lemma BackByOne(x: nat, y: nat, p: nat)
    requires y < p && x == (y + 1) % p
    ensures y == (x + p - 1) % p
  {
    if y + 1 < p {
      DivUnique(y + 1, p, 0, y + 1);
      DivUnique(x + p - 1, p, 1, y);
    } else {
      DivUnique(p, p, 1, 0);
      DivUnique(x + p - 1, p, 0, p - 1);
    }
  }
}
