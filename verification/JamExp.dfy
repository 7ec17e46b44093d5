/** Integer functions of Jam expressions: powers, square roots and logarithms, with the bounds
    within which no 32-bit number overflows on the way. */
module JamExp {
  import opened Bits
  import opened Options

  function Power(x: int, n: nat): int {
    if n == 0 then 1 else x * Power(x, n - 1)
  }

  function Abs(x: int): nat {
    if x < 0 then -x else x
  }

  lemma {:induction false} PowerSquare(x: int, n: nat)
    ensures Power(x * x, n) == Power(x, 2 * n)
  {
    if n != 0 {
      PowerSquare(x, n - 1);
      var p := Power(x, 2 * n - 2);
      assert Power(x, 2 * n) == x * (x * p);
      assert x * (x * p) == (x * x) * p;
    }
  }

  lemma {:induction false} PowerAbs(x: int, n: nat)
    ensures Abs(Power(x, n)) == Power(Abs(x), n)
  {
    if n != 0 {
      PowerAbs(x, n - 1);
      AbsProduct(x, Power(x, n - 1));
    }
  }

  lemma AbsProduct(x: int, y: int)
    ensures Abs(x * y) == Abs(x) * Abs(y)
  {
  }

  /** A power of a number that is not zero does not shrink with its exponent. */
  lemma {:induction false} PowerGrows(x: nat, a: nat, b: nat)
    requires x > 0 && a <= b
    ensures 0 < Power(x, a) <= Power(x, b)
  {
    if a == b {
      if a != 0 {
        PowerGrows(x, a - 1, a - 1);
        MulPositive(x, Power(x, a - 1));
      }
    } else {
      PowerGrows(x, a, b - 1);
      MulMono(1, x, Power(x, b - 1));
    }
  }

  /** jam_exponentiate; `peak` is the largest product it computes on the way, without sign. */
  method Exponentiate(x: int, y: int) returns (retval: int, ghost peak: nat)
    ensures y < 0 ==> retval == 1
    ensures y >= 0 ==> retval == Power(x, y)
    ensures y >= 0 && x != 0 ==> peak <= Power(Abs(x), y)
  {
    hide Power;
    retval, peak := 1, 0;
    var partial, exponent := x, y;
    PowerBasics(x);
    ghost var target := if y >= 0 then Power(x, y) else 1;
    while exponent > 0
      decreases exponent
      invariant exponent <= y && (exponent < 0 ==> y < 0)
      invariant exponent >= 0 ==> retval * Power(partial, exponent) == target
      invariant exponent <= 0 ==> retval == target
      invariant y >= 0 && x != 0 ==> retval != 0 && partial != 0 && peak <= Abs(target) && target != 0
    {
      ghost var before := exponent;
      while exponent % 2 == 0 && exponent != 0
        invariant 0 < exponent <= before && retval * Power(partial, exponent) == target
        invariant x != 0 ==> retval != 0 && partial != 0 && peak <= Abs(target) && target != 0
      {
        Squaring(partial, exponent, retval);
        partial := partial * partial;
        peak := if Abs(partial) > peak then Abs(partial) else peak;
        exponent := exponent / 2;
      }
      OneFactor(partial, exponent, retval);
      exponent := exponent - 1;
      retval := retval * partial;
      peak := if Abs(retval) > peak then Abs(retval) else peak;
    }
    if y >= 0 {
      PowerAbs(x, y);
    }
  }

  lemma PowerBasics(x: int)
    ensures Power(x, 0) == 1
    ensures forall n: nat :: x != 0 ==> Power(x, n) != 0
  {
    forall n: nat | x != 0 ensures Power(x, n) != 0 {
      PowerNotZero(x, n);
    }
  }

  lemma {:induction false} PowerNotZero(x: int, n: nat)
    requires x != 0
    ensures Power(x, n) != 0
  {
    if n != 0 {
      PowerNotZero(x, n - 1);
      ProductNotZero(x, Power(x, n - 1));
    }
  }

  lemma ProductNotZero(x: int, y: int)
    requires x != 0 && y != 0
    ensures x * y != 0
  {
    AbsProduct(x, y);
    MulPositive(Abs(x), Abs(y));
  }

  /** One squaring keeps the product, and the square is no larger than what is still to be
      multiplied in. */
  lemma Squaring(partial: int, exponent: nat, retval: int)
    requires exponent > 0 && exponent % 2 == 0
    ensures Power(partial * partial, exponent / 2) == Power(partial, exponent)
    ensures retval != 0 && partial != 0 ==>
      partial * partial != 0 && Abs(partial * partial) <= Abs(retval * Power(partial, exponent))
  {
    PowerSquare(partial, exponent / 2);
    if retval != 0 && partial != 0 {
      ProductNotZero(partial, partial);
      PowerGrows(Abs(partial), 2, exponent);
      PowerAbs(partial, exponent);
      AbsProduct(partial, partial);
      assert Power(Abs(partial), 1) == Abs(partial) * Power(Abs(partial), 0);
      assert Power(Abs(partial), 2) == Abs(partial) * Power(Abs(partial), 1);
      AbsProduct(retval, Power(partial, exponent));
      MulMono(1, Abs(retval), Abs(Power(partial, exponent)));
    }
  }

  lemma OneFactor(partial: int, exponent: nat, retval: int)
    requires exponent > 0
    ensures retval * partial * Power(partial, exponent - 1) == retval * Power(partial, exponent)
    ensures exponent == 1 ==> retval * partial == retval * Power(partial, exponent)
    ensures retval != 0 && partial != 0 ==>
      retval * partial != 0 && Abs(retval * partial) <= Abs(retval * Power(partial, exponent))
  {
    var rest := Power(partial, exponent - 1);
    assert retval * partial * rest == retval * (partial * rest);
    if retval != 0 && partial != 0 {
      ProductNotZero(retval, partial);
      PowerNotZero(partial, exponent - 1);
      AbsProduct(retval * partial, rest);
      MulMono(1, Abs(rest), Abs(retval * partial));
    }
  }

  // ---------------------------------------------------------------------------
  // Square roots, bit by bit
  // ---------------------------------------------------------------------------

  predicate IsRoot(r: int, n: nat) {
    0 <= r && r * r <= n < (r + 1) * (r + 1)
  }

  /** How often a number can be shifted right by two before it is zero. */
  function Orders(n: nat): nat {
    if n == 0 then 0 else 1 + Orders(n / 4)
  }

  lemma {:induction false} OrdersBound(n: nat)
    ensures n < Pow2(2 * Orders(n))
    ensures n > 0 ==> Pow2(2 * Orders(n)) <= 4 * n
  {
    if n == 0 {
      assert Pow2(0) == 1;
    } else {
      OrdersBound(n / 4);
      var k := Orders(n / 4);
      assert Pow2(2 * k + 2) == 2 * Pow2(2 * k + 1) && Pow2(2 * k + 1) == 2 * Pow2(2 * k);
      if n < 4 {
        assert Pow2(0) == 1 && k == 0;
      }
    }
  }

  lemma Below2To30(n: nat)
    ensures n < 0x4000_0000 <==> Orders(n) <= 15
    ensures n < 0x8000_0000 ==> Orders(n) <= 16
  {
    OrdersBound(n);
    Pow2Values();
    assert Pow2(30) == 0x4000_0000 by {
      Pow2Add(24, 6);
      assert Pow2(24) == 0x100 * Pow2(16);
    }
    if Orders(n) <= 15 {
      Pow2Mono(2 * Orders(n), 30);
    } else {
      Pow2Mono(32, 2 * Orders(n));
    }
    if Orders(n) > 16 {
      Pow2Mono(34, 2 * Orders(n));
      assert Pow2(34) == 4 * Pow2(32) by {
        assert Pow2(33) == 2 * Pow2(32);
      }
    }
  }

  /** What is stored when a long is shifted left: 32-bit ARM registers lose the high bits, and
      a shift by 32 leaves nothing. */
  function LongShl(x: int, n: nat): long {
    ToLong(x * Pow2(n))
  }

  predicate Multiple(s: nat, p: nat)
    requires p > 0
  {
    s / p * p == s
  }

  lemma MultipleIs(s: nat, m: nat, p: nat)
    requires p > 0 && s == m * p
    ensures Multiple(s, p)
  {
    DivUnique(s, p, m, 0);
  }

  /** The bits found so far: a multiple of 2^k whose square fits, and the next one's does not. */
  ghost predicate RootSoFar(s: nat, square: int, k: nat, n: nat) {
    && Multiple(s, Pow2(k))
    && square == s * s <= n < (s + Pow2(k)) * (s + Pow2(k))
  }

  lemma NoRootYet(n: nat)
    ensures RootSoFar(0, 0, Orders(n) + 1, n)
  {
    var k := Orders(n) + 1;
    OrdersBound(n);
    Pow2Add(k, k);
    Pow2Mono(2 * (k - 1), k + k);
    MultipleIs(0, 0, Pow2(k));
  }

  /** A bit that leaves room for itself in a root below 2^15. */
  lemma RoomForBit(s: nat, m: nat, order: nat, n: nat)
    requires order <= 15 && n < 0x4000_0000 && s * s <= n && s == (2 * m) * Pow2(order)
    ensures s + Pow2(order) <= 0x8000
  {
    SmallPowers();
    SmallRoot(s, n);
    Pow2Add(15 - order, order);
    hide Pow2;
    RoomArithmetic(m, Pow2(order), Pow2(15 - order), s);
  }

  lemma SmallRoot(s: nat, n: nat)
    requires n < 0x4000_0000 && s * s <= n
    ensures s < 0x8000
  {
    if s >= 0x8000 {
      MulMono(0x8000, s, 0x8000);
      MulMono(0x8000, s, s);
    }
  }

  lemma RoomArithmetic(m: nat, a: nat, q: nat, s: nat)
    requires a > 0 && s == (2 * m) * a && s < 0x8000 && q * a == 0x8000
    ensures s + a <= 0x8000
  {
    if q <= 2 * m {
      MulMono(q, 2 * m, a);
    }
    MulMono(2 * m + 1, q, a);
    MulDistributes(a, 2 * m, 1);
  }

  lemma SmallPowers()
    ensures Pow2(15) == 0x8000 && Pow2(30) == 0x4000_0000
  {
    Pow2Values();
    Pow2Add(8, 7);
    assert Pow2(7) == 128;
    Pow2Add(15, 15);
  }

  lemma SquareOfSum(s: int, a: int)
    ensures (s + a) * (s + a) == a * a + 2 * s * a + s * s
  {
  }

  /** One round of the loop, while nothing overflows. */
  lemma Test(s: nat, square: int, order: nat, n: nat)
    requires order <= 15 && n < 0x4000_0000 && RootSoFar(s, square, order + 1, n)
    ensures var a := Pow2(order);
      && ToLong(LongShl(1, 2 * order) + LongShl(s, order + 1) + square) == (s + a) * (s + a)
      && ((s + a) * (s + a) <= n ==> RootSoFar(Or(a, s), (s + a) * (s + a), order, n))
      && ((s + a) * (s + a) > n ==> RootSoFar(s, square, order, n))
  {
    var a := Pow2(order);
    DivNonNegative(s, Pow2(order + 1));
    var m: nat := s / Pow2(order + 1);
    assert Pow2(order + 1) == 2 * a;
    OrDisjoint(a, m, order + 1);
    hide Or, Pow2, Multiple;
    MulAssociates(m, 2, a);
    assert s == (2 * m) * a && Or(a, s) == s + a;
    RoomForBit(s, m, order, n);
    NothingOverflows(s, a, order);
    MulDistributes(a, 2 * m, 1);
    MultipleIs(s, 2 * m, a);
    MultipleIs(s + a, 2 * m + 1, a);
    assert (s + a) + a == s + 2 * a;
  }

  lemma NothingOverflows(s: nat, a: nat, order: nat)
    requires a == Pow2(order) && s + a <= 0x8000
    ensures ToLong(LongShl(1, 2 * order) + LongShl(s, order + 1) + s * s) == (s + a) * (s + a)
  {
    SquareOfSum(s, a);
    MulMono(s + a, 0x8000, s + a);
    MulMono(s + a, 0x8000, 0x8000);
    Pow2Add(order, order);
    NotNegative(s, a);
    assert Pow2(order + 1) == 2 * a && Pow2(2 * order) == a * a;
    MulAssociates(s, 2, a);
    hide Pow2, ToLong;
    LongIs(a * a);
    LongIs(2 * s * a);
    LongIs(s * Pow2(order + 1));
    LongIs((s + a) * (s + a));
  }

  lemma LongIs(x: int)
    ensures 0 <= x < 0x8000_0000 ==> ToLong(x) == x
  {
  }

  lemma NotNegative(s: nat, a: nat)
    ensures 0 <= 2 * s * a && 0 <= a * a && 0 <= s * s
  {
  }

  lemma {:induction false} OrAtLeast(x: nat, y: nat)
    ensures Or(x, y) >= y
  {
    if x != 0 && y != 0 {
      OrAtLeast(x / 2, y / 2);
    }
  }

  lemma ShiftedOut()
    ensures LongShl(1, 32) == 0 && LongShl(0, 17) == 0 && Or(Pow2(16), 0) == 0x1_0000
  {
    Pow2Values();
    assert ToLong(0x1_0000_0000) == 0;
  }

  lemma NothingToFind()
    ensures LongShl(1, 0) == 1 && LongShl(0, 1) == 0
  {
    assert Pow2(0) == 1;
  }

  method CountOrders(num: long) returns (order: nat)
    ensures order == Orders(if num < 0 then 0 else num)
  {
    var sqrt: int := if num < 0 then 0 else num;
    order := 0;
    while sqrt > 0
      invariant sqrt >= 0 && order + Orders(sqrt) == Orders(if num < 0 then 0 else num)
    {
      sqrt := sqrt / 4;
      order := order + 1;
    }
  }

  /** jam_square_root: the root of every number below 2^30. From there on the first bit tested
      is shifted out of the register, and what is found is no root. */
  method SquareRoot(num: long) returns (sqrt: nat)
    ensures num < 0 ==> sqrt == 0
    ensures 0 <= num ==> (IsRoot(sqrt, num) <==> num < 0x4000_0000)
    ensures num >= 0x4000_0000 ==> sqrt >= 0x1_0000
  {
    hide IsRoot, Pow2, Orders, RootSoFar, LongShl, Or;
    var bSquared: int := 0;
    var order: int := CountOrders(num);
    sqrt := 0;
    if num >= 0 {
      NoRootYet(num);
      Below2To30(num);
    } else {
      NoOrders();
    }
    while order >= 0
      invariant -1 <= order <= 16
      invariant num < 0 ==> order <= 0 && sqrt == 0 && bSquared == 0
      invariant 0 <= num < 0x4000_0000 ==> order <= 15 && RootSoFar(sqrt, bSquared, order + 1, num)
      invariant num >= 0x4000_0000 ==> (order == 16 && sqrt == 0 && bSquared == 0) || (order < 16 && sqrt >= 0x1_0000)
    {
      var square := ToLong(LongShl(1, 2 * order) + LongShl(sqrt, order + 1) + bSquared);
      if num < 0 {
        NothingToFind();
      } else if num < 0x4000_0000 {
        Test(sqrt, bSquared, order, num);
      } else if order == 16 {
        ShiftedOut();
      }
      if square <= num {
        OrAtLeast(Pow2(order), sqrt);
        sqrt := Or(Pow2(order), sqrt);
        bSquared := square;
      }
      order := order - 1;
    }
    if num >= 0 {
      RootFound(sqrt, bSquared, num);
    }
  }

  lemma NoOrders()
    ensures Orders(0) == 0
  {
  }

  lemma RootFound(s: nat, square: int, n: nat)
    ensures RootSoFar(s, square, 0, n) ==> IsRoot(s, n)
    ensures s >= 0x1_0000 && n < 0x8000_0000 ==> !IsRoot(s, n)
  {
    assert Pow2(0) == 1;
    if s >= 0x1_0000 {
      MulMono(0x1_0000, s, 0x1_0000);
      MulMono(0x1_0000, s, s);
    }
  }

  /** LOG2: the number of halvings, and one more when the number is no power of two. */
  method Log2(n: nat) returns (r: nat)
    requires n > 0
    ensures n <= Pow2(r) && (r > 0 ==> Pow2(r - 1) < n)
  {
    var tmp := n;
    r := 0;
    while tmp != 1
      invariant tmp > 0 && tmp * Pow2(r) <= n < (tmp + 1) * Pow2(r)
    {
      Halving(tmp, r, n);
      tmp := tmp / 2;
      r := r + 1;
    }
    var power, _ := Exponentiate(2, r);
    PowersOfTwo(r);
    if power != n {
      r := r + 1;
    } else if r > 0 {
      assert Pow2(r) == 2 * Pow2(r - 1);
    }
  }

  lemma Halving(t: nat, r: nat, n: nat)
    requires t > 1 && t * Pow2(r) <= n < (t + 1) * Pow2(r)
    ensures t / 2 * Pow2(r + 1) <= n < (t / 2 + 1) * Pow2(r + 1)
  {
    var p, h := Pow2(r), t / 2;
    assert h * (2 * p) == (2 * h) * p;
    MulMono(2 * h, t, p);
    assert (h + 1) * (2 * p) == (2 * h + 2) * p;
    MulMono(t + 1, 2 * h + 2, p);
  }

  lemma {:induction false} PowersOfTwo(n: nat)
    ensures Power(2, n) == Pow2(n)
  {
    if n != 0 {
      PowersOfTwo(n - 1);
    }
  }

  predicate IsCeilRoot(r: nat, n: int) {
    n <= r * r && (r > 0 ==> (r - 1) * (r - 1) < n)
  }

  /** The SQRT and CEIL cases of jam_exp_eval one after the other: the root rounded up, exactly
      for the numbers whose root is right. A negative number is an overflow. */
  method CeilOfSqrt(n: long) returns (r: Option<nat>)
    ensures n < 0 <==> r == None
    ensures n >= 0 ==> (IsCeilRoot(r.value, n) <==> n < 0x4000_0000)
  {
    if n < 0 {
      return None;
    }
    var val := SquareRoot(n);
    if ToLong(val * val) < n {
      r := Some(val + 1);
    } else {
      r := Some(val);
      Predecessor(val);
    }
    if n >= 0x4000_0000 {
      TooLarge(r.value, n);
    }
  }

  lemma TooLarge(r: nat, n: long)
    requires r >= 0x1_0000
    ensures !IsCeilRoot(r, n)
  {
    MulMono(0xFFFF, r - 1, 0xFFFF);
    MulMono(0xFFFF, r - 1, r - 1);
  }

  lemma Predecessor(x: nat)
    ensures x > 0 ==> (x - 1) * (x - 1) < x * x
  {
    if x > 0 {
      SquareOfSum(x, -1);
    }
  }
}
