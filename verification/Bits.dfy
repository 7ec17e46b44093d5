/** Machine words as the Jam player sees them: bytes and 32-bit words are bounded
    integers, and single bits are read and written by position, least significant
    first. Every recursion below halves the word, so each law is a short induction. */
module Bits {

  type byte = x: int | 0 <= x < 0x100
  type word = x: int | 0 <= x < 0x1_0000_0000
  type long = x: int | -0x8000_0000 <= x < 0x8000_0000

  /** What a 32-bit two's complement variable holds after a sum is stored in it. */
  function ToLong(x: int): (r: long)
    ensures -0x8000_0000 <= x < 0x8000_0000 ==> r == x
    ensures (r - x) % 0x1_0000_0000 == 0
  {
    (x + 0x8000_0000) % 0x1_0000_0000 - 0x8000_0000
  }

  function Pow2(n: nat): (p: nat)
    ensures p > 0
  {
    if n == 0 then 1 else 2 * Pow2(n - 1)
  }

  /** Bit `i` of `x`: the C test `x & (1 << i)`. */
  predicate Bit(x: nat, i: nat) {
    if i == 0 then x % 2 == 1 else Bit(x / 2, i - 1)
  }

  function BoolToNat(b: bool): (r: nat) {
    if b then 1 else 0
  }

  /** `x |= 1 << i` when `b` holds, `x &= ~(1 << i)` when it does not. */
  function SetBit(x: nat, i: nat, b: bool): nat {
    if i == 0 then 2 * (x / 2) + BoolToNat(b) else x % 2 + 2 * SetBit(x / 2, i - 1, b)
  }

  /** The C operator `|` on non-negative operands. */
  function Or(x: nat, y: nat): nat {
    if x == 0 then y
    else if y == 0 then x
    else (if x % 2 == 1 || y % 2 == 1 then 1 else 0) + 2 * Or(x / 2, y / 2)
  }

  /** The C shifts, before any truncation to a machine width. */
  function Shl(x: nat, k: nat): nat {
    x * Pow2(k)
  }

  function Shr(x: nat, k: nat): nat {
    DivNonNegative(x, Pow2(k));
    x / Pow2(k)
  }

  /** Masking with k one bits: `x & ((1 << k) - 1)`. */
  function LowBits(x: nat, k: nat): (r: nat)
    ensures r < Pow2(k) && r <= x
  {
    ModAtMost(x, Pow2(k));
    x % Pow2(k)
  }

  lemma DivNonNegative(x: nat, d: nat)
    requires d > 0
    ensures x / d >= 0
  {
    var q: int := x / d;
    assert q <= -1 ==> d * q + d <= 0;
    assert x == d * q + x % d;
  }

  lemma ModAtMost(x: nat, d: nat)
    requires d > 0
    ensures x % d <= x
  {
    MulMono(0, x / d, d);
    assert x == x / d * d + x % d;
  }

  lemma {:induction false} SetBitBits(x: nat, i: nat, b: bool, j: nat)
    ensures Bit(SetBit(x, i, b), j) == if i == j then b else Bit(x, j)
  {
    var y := SetBit(x, i, b);
    assert y / 2 == (if i == 0 then x / 2 else SetBit(x / 2, i - 1, b));
    assert (y % 2 == 1) == if i == 0 then b else x % 2 == 1;
    hide SetBit;
    if i != 0 && j != 0 {
      SetBitBits(x / 2, i - 1, b, j - 1);
    }
  }

  lemma {:induction false} SetBitBound(x: nat, i: nat, b: bool, n: nat)
    requires x < Pow2(n) && i < n
    ensures SetBit(x, i, b) < Pow2(n)
  {
    if i != 0 {
      SetBitBound(x / 2, i - 1, b, n - 1);
    }
  }

  lemma Pow2Values()
    ensures Pow2(3) == 8 && Pow2(4) == 16 && Pow2(5) == 32 && Pow2(6) == 64
    ensures Pow2(8) == 0x100 && Pow2(16) == 0x1_0000 && Pow2(32) == 0x1_0000_0000
  {
    assert Pow2(8) == 0x100;
    assert Pow2(16) == 0x100 * Pow2(8);
    assert Pow2(24) == 0x100 * Pow2(16);
    assert Pow2(32) == 0x100 * Pow2(24);
  }

  function SetByteBit(x: byte, i: nat, b: bool): (r: byte)
    requires i < 8
    ensures forall j: nat :: Bit(r, j) == if i == j then b else Bit(x, j)
  {
    Pow2Values();
    SetBitBound(x, i, b, 8);
    assert forall j: nat :: Bit(SetBit(x, i, b), j) == if i == j then b else Bit(x, j) by {
      forall j: nat { SetBitBits(x, i, b, j); }
    }
    SetBit(x, i, b)
  }

  function SetWordBit(x: word, i: nat, b: bool): (r: word)
    requires i < 32
    ensures forall j: nat :: Bit(r, j) == if i == j then b else Bit(x, j)
  {
    Pow2Values();
    SetBitBound(x, i, b, 32);
    assert forall j: nat :: Bit(SetBit(x, i, b), j) == if i == j then b else Bit(x, j) by {
      forall j: nat { SetBitBits(x, i, b, j); }
    }
    SetBit(x, i, b)
  }

  /** Two numbers below 2^n with the same n low bits are the same number. */
  lemma {:induction false} SameBits(x: nat, y: nat, n: nat)
    requires x < Pow2(n) && y < Pow2(n)
    requires forall i: nat :: i < n ==> Bit(x, i) == Bit(y, i)
    ensures x == y
  {
    if n != 0 {
      assert Bit(x, 0) == Bit(y, 0);
      forall i: nat | i < n - 1 ensures Bit(x / 2, i) == Bit(y / 2, i) {
        assert Bit(x, i + 1) == Bit(y, i + 1);
      }
      SameBits(x / 2, y / 2, n - 1);
    }
  }

  lemma {:induction false} Pow2Add(a: nat, b: nat)
    ensures Pow2(a + b) == Pow2(a) * Pow2(b)
  {
    if a != 0 {
      Pow2Add(a - 1, b);
      assert 2 * (Pow2(a - 1) * Pow2(b)) == (2 * Pow2(a - 1)) * Pow2(b);
    }
  }

  lemma {:induction false} Pow2Mono(a: nat, b: nat)
    requires a <= b
    ensures Pow2(a) <= Pow2(b)
  {
    if a != b {
      Pow2Mono(a, b - 1);
    }
  }

  /** Shifting `y` past the bits of `x` turns `|` into addition. */
  lemma {:induction false} OrDisjoint(x: nat, y: nat, k: nat)
    requires x < Pow2(k)
    ensures Or(x, y * Pow2(k)) == x + y * Pow2(k)
  {
    if k != 0 {
      var p := y * Pow2(k - 1);
      assert y * Pow2(k) == 2 * p;
      OrDisjoint(x / 2, y, k - 1);
    }
  }

  lemma {:induction false} DivBit(x: nat, k: nat)
    ensures Bit(x, k) == ((x / Pow2(k)) % 2 == 1)
    ensures x / Pow2(k + 1) == x / Pow2(k) / 2
  {
    if k != 0 {
      DivBit(x / 2, k - 1);
      DivDiv(x, 2, Pow2(k - 1));
      DivDiv(x, 2, Pow2(k));
    }
  }

  lemma MulMono(a: nat, b: nat, c: nat)
    ensures a <= b ==> a * c <= b * c
  {
  }

  lemma MulPow2(x: nat, a: nat)
    requires a > 0
    ensures x * Pow2(a) == 2 * (x * Pow2(a - 1))
  {
    assert Pow2(a) == 2 * Pow2(a - 1);
  }

  lemma DivDiv(x: nat, a: nat, b: nat)
    requires a > 0 && b > 0
    ensures a * b > 0 && x / (a * b) == x / a / b
  {
    var y := x / a;
    var q, r, rest := y / b, y % b, x % a;
    DivisionRule(x, a);
    DivisionRule(y, b);
    MulDistributes(a, b * q, r);
    MulAssociates(a, b, q);
    MulMono(r, b - 1, a);
    MulDistributes(a, b - 1, 1);
    MulPositive(a, b);
    DivUnique(x, a * b, q, a * r + rest);
  }

  lemma DivisionRule(x: nat, d: nat)
    requires d > 0
    ensures x == d * (x / d) + x % d && 0 <= x / d && x % d < d
  {
    DivNonNegative(x, d);
  }

  lemma MulAssociates(a: nat, b: nat, c: nat)
    ensures a * (b * c) == (a * b) * c
  {
  }

  lemma MulDistributes(a: int, b: int, c: int)
    ensures a * (b + c) == a * b + a * c
  {
  }

  lemma MulPositive(a: nat, b: nat)
    requires a > 0 && b > 0
    ensures a * b > 0
  {
  }

  lemma DivUnique(x: nat, d: nat, q: nat, r: nat)
    requires d > 0 && r < d && x == d * q + r
    ensures x / d == q && x % d == r
  {
    var e := x / d - q;
    assert x == d * (x / d) + x % d;
    MulDistributes(d, q, e);
    if e >= 1 {
      MulMono(1, e, d);
    } else if e <= -1 {
      MulMono(1, -e, d);
      MulDistributes(d, e, -e);
    }
  }

  lemma ModOfSum(x: nat, y: nat, d: nat)
    requires d > 0 && x < d
    ensures (x + y * d) % d == x && (x + y * d) / d == y
  {
    DivUnique(x + y * d, d, y, x);
  }

  lemma ModMultiple(x: nat, a: nat, d: nat)
    requires a > 0 && d > 0
    ensures a * d > 0 && (x % (a * d)) % d == x % d
  {
    var q, r := x / (a * d), x % (a * d);
    var t := a * q + r / d;
    calc {
      x;
      (a * d) * q + r;
      { assert (a * d) * q == d * (a * q); }
      d * (a * q) + r;
      { assert r == d * (r / d) + r % d; }
      d * (a * q) + d * (r / d) + r % d;
      d * t + r % d;
    }
    DivUnique(x, d, t, r % d);
  }

  /** Reducing modulo 2^m first does not change the low k <= m bits. */
  lemma ModPow2Mod(x: nat, m: nat, k: nat)
    requires k <= m
    ensures (x % Pow2(m)) % Pow2(k) == x % Pow2(k)
  {
    Pow2Add(m - k, k);
    ModMultiple(x, Pow2(m - k), Pow2(k));
  }

  /** Bits of a number put together from a low and a high part. */
  lemma {:induction false} BitOfParts(low: nat, high: nat, n: nat, i: nat)
    requires low < Pow2(n)
    ensures Bit(low + Pow2(n) * high, i) == if i < n then Bit(low, i) else Bit(high, i - n)
    decreases n
  {
    if n == 0 {
      assert low + Pow2(n) * high == high;
    } else {
      var x := low + Pow2(n) * high;
      MulAssociates(2, Pow2(n - 1), high);
      assert x % 2 == low % 2 && x / 2 == low / 2 + Pow2(n - 1) * high;
      if i != 0 {
        BitOfParts(low / 2, high, n - 1, i - 1);
      }
    }
  }

  lemma {:induction false} ZeroBit(i: nat)
    ensures !Bit(0, i)
  {
    if i != 0 {
      ZeroBit(i - 1);
    }
  }

  lemma {:induction false} ShiftedBit(x: nat, s: nat, i: nat)
    ensures Bit(Shr(x, s), i) == Bit(x, s + i)
  {
    if s != 0 {
      DivDiv(x, 2, Pow2(s - 1));
      ShiftedBit(x / 2, s - 1, i);
    }
  }

  lemma MaskedBit(x: nat, k: nat, i: nat)
    requires i < k
    ensures Bit(LowBits(x, k), i) == Bit(x, i)
  {
    hide Bit;
    DivisionRule(x, Pow2(k));
    BitOfParts(LowBits(x, k), x / Pow2(k), k, i);
  }
}
