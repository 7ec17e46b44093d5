/** The CRC of a Jam program: the shift register with what it detects, and the scanner that
    finds the CRC statement and checks the text in front of it. */
module JamCrc {
  import opened Options

  // ---------------------------------------------------------------------------
  // The shift register
  // ---------------------------------------------------------------------------

  const FIRST: bv16 := 0xffff
  const TAPS: bv16 := 0x8408
  const RESIDUE: bv16 := 0xF0B8

  predicate Odd(c: bv16) {
    c & 1 == 1
  }

  function Half(c: bv16): bv16 {
    c >> 1
  }

  function Xor(a: bv16, b: bv16): bv16 {
    a ^ b
  }

  /** One bit: the feedback is the difference between the data and the register. */
  function Shift(c: bv16, d: bool): bv16 {
    if Odd(c) != d then Xor(Half(c), TAPS) else Half(c)
  }

  function Low(data: bv8): bool {
    data & 1 == 1
  }

  /** The n low bits of a data byte, lowest first. */
  function ShiftByte(c: bv16, data: bv8, n: nat): bv16
    decreases n, c
  {
    if n == 0 then c else ShiftByte(Shift(c, Low(data)), data >> 1, n - 1)
  }

  function Update(c: bv16, data: bv8): bv16 {
    ShiftByte(c, data, 8)
  }

  function Feed(c: bv16, message: seq<bv8>): bv16
    decreases |message|
  {
    if message == [] then c else Feed(Update(c, message[0]), message[1..])
  }

  /** jam_crc_update */
  method CrcUpdate(register: bv16, data: bv8) returns (r: bv16)
    ensures r == Update(register, data)
  {
    hide Shift, Low;
    var rest := data;
    r := register;
    for bit := 0 to 8
      invariant ShiftByte(register, data, 8) == ShiftByte(r, rest, 8 - bit)
    {
      var feedback := (rest as bv16 ^ r) & 1;
      FeedbackIsShift(r, rest);
      r := r >> 1;
      if feedback != 0 {
        r := r ^ 0x8408;
      }
      rest := rest >> 1;
    }
  }

  lemma FeedbackIsShift(r: bv16, rest: bv8)
    ensures Shift(r, Low(rest)) == if (rest as bv16 ^ r) & 1 != 0 then (r >> 1) ^ 0x8408 else r >> 1
  {
    assert ((rest as bv16 ^ r) & 1 != 0) == (Odd(r) != Low(rest));
  }

  // ---------------------------------------------------------------------------
  // What the register detects
  // ---------------------------------------------------------------------------

  function FeedBits(c: bv16, bits: seq<bool>): bv16
    decreases |bits|
  {
    if bits == [] then c else FeedBits(Shift(c, bits[0]), bits[1..])
  }

  /** The bits of a byte, lowest first. */
  function ByteBits(data: bv8, n: nat): (bits: seq<bool>)
    ensures |bits| == n
    decreases n, data
  {
    if n == 0 then [] else [Low(data)] + ByteBits(data >> 1, n - 1)
  }

  function MessageBits(message: seq<bv8>): (bits: seq<bool>)
    ensures |bits| == 8 * |message|
  {
    if message == [] then [] else ByteBits(message[0], 8) + MessageBits(message[1..])
  }

  lemma {:induction false} FeedBitsJoin(c: bv16, a: seq<bool>, b: seq<bool>)
    ensures FeedBits(c, a + b) == FeedBits(FeedBits(c, a), b)
    decreases |a|
  {
    hide Shift;
    if a == [] {
      assert a + b == b;
    } else {
      assert (a + b)[1..] == a[1..] + b;
      FeedBitsJoin(Shift(c, a[0]), a[1..], b);
    }
  }

  lemma {:induction false} ByteIsItsBits(c: bv16, data: bv8, n: nat)
    ensures ShiftByte(c, data, n) == FeedBits(c, ByteBits(data, n))
    decreases n
  {
    hide Shift, Low;
    if n != 0 {
      ByteIsItsBits(Shift(c, Low(data)), data >> 1, n - 1);
      assert ByteBits(data, n)[1..] == ByteBits(data >> 1, n - 1);
    }
  }

  lemma {:induction false} MessageIsItsBits(c: bv16, message: seq<bv8>)
    ensures Feed(c, message) == FeedBits(c, MessageBits(message))
    decreases |message|
  {
    hide Shift, ByteBits, ShiftByte;
    if message != [] {
      ByteIsItsBits(c, message[0], 8);
      MessageIsItsBits(Update(c, message[0]), message[1..]);
      FeedBitsJoin(c, ByteBits(message[0], 8), MessageBits(message[1..]));
    }
  }

  /** The register is linear in what it holds and what it is fed. */
  lemma ShiftIsLinear(c: bv16, c': bv16, d: bool, d': bool)
    ensures Xor(Shift(c, d), Shift(c', d')) == Shift(Xor(c, c'), d != d')
  {
    LowOfXor(c, c');
    HalfOfXor(c, c');
    XorCancels(Half(c), Half(c'));
    hide Odd, Half, Xor;
  }

  lemma LowOfXor(c: bv16, c': bv16)
    ensures Odd(Xor(c, c')) == (Odd(c) != Odd(c'))
  {
  }

  lemma HalfOfXor(c: bv16, c': bv16)
    ensures Half(Xor(c, c')) == Xor(Half(c), Half(c'))
  {
  }

  lemma XorCancels(a: bv16, b: bv16)
    ensures Xor(Xor(a, TAPS), Xor(b, TAPS)) == Xor(a, b)
    ensures Xor(Xor(a, TAPS), b) == Xor(Xor(a, b), TAPS) && Xor(a, Xor(b, TAPS)) == Xor(Xor(a, b), TAPS)
  {
    XorBoth(a, b);
    XorLeft(a, b);
    XorRight(a, b);
    hide Xor;
  }

  lemma XorBoth(a: bv16, b: bv16)
    ensures Xor(Xor(a, TAPS), Xor(b, TAPS)) == Xor(a, b)
  {
  }

  lemma XorLeft(a: bv16, b: bv16)
    ensures Xor(Xor(a, TAPS), b) == Xor(Xor(a, b), TAPS)
  {
  }

  lemma XorRight(a: bv16, b: bv16)
    ensures Xor(a, Xor(b, TAPS)) == Xor(Xor(a, b), TAPS)
  {
  }

  lemma ShiftIsInjective(c: bv16, c': bv16, d: bool)
    requires Shift(c, d) == Shift(c', d)
    ensures c == c'
  {
  }

  /** A register below 2^k. */
  predicate Small(x: bv16, k: nat)
    decreases k, x
  {
    if k == 0 then x == 0 else Small(Half(x), k - 1)
  }

  function Halved(m: bv16, k: nat): bv16
    decreases k
  {
    if k == 0 then m else Halved(Half(m), k - 1)
  }

  lemma {:induction false} SmallHasNoBit(x: bv16, k: nat, m: bv16)
    requires Small(x, k) && Halved(m, k) != 0
    ensures x & m != m
    decreases k
  {
    if k == 0 {
      ZeroHasNoBit(m);
    } else {
      SmallHasNoBit(Half(x), k - 1, Half(m));
      HalfKeepsBit(x, m);
    }
  }

  lemma ZeroHasNoBit(m: bv16)
    requires m != 0
    ensures 0 & m != m
  {
  }

  lemma HalfKeepsBit(x: bv16, m: bv16)
    ensures x & m == m ==> Half(x) & Half(m) == Half(m)
  {
  }

  lemma {:induction false} HalvedZero(k: nat)
    ensures Halved(0, k) == 0
    decreases k
  {
    if k != 0 {
      assert Half(0) == 0;
      HalvedZero(k - 1);
    }
  }

  lemma {:induction false} HalvedStays(m: bv16, k: nat, n: nat)
    requires k <= n && Halved(m, n) != 0
    ensures Halved(m, k) != 0
    decreases k
  {
    if k == 0 {
      if m == 0 {
        HalvedZero(n);
      }
    } else {
      HalvedStays(Half(m), k - 1, n - 1);
    }
  }

  lemma TopBitFalls()
    ensures Halved(0x8000, 15) == 1
  {
    assert Halved(0x8000, 5) == 0x400;
    HalvedJoin(0x8000, 5, 5);
    assert Halved(0x400, 5) == 0x20;
    HalvedJoin(0x8000, 10, 5);
    assert Halved(0x20, 5) == 1;
  }

  lemma {:induction false} HalvedJoin(m: bv16, a: nat, b: nat)
    ensures Halved(m, a + b) == Halved(Halved(m, a), b)
    decreases a
  {
    if a != 0 {
      HalvedJoin(Half(m), a - 1, b);
    }
  }

  /** Going back one shift from a register below 2^k: there was no feedback. */
  lemma ShiftBack(x: bv16, e: bool, k: nat)
    requires k <= 15 && Small(Shift(x, e), k)
    ensures Small(x, k + 1) && Odd(x) == e && Shift(x, e) == Half(x)
  {
    hide Small;
    TopBitFalls();
    HalvedStays(0x8000, k, 15);
    SmallHasNoBit(Shift(x, e), k, 0x8000);
    FeedbackSetsTop(x);
    SmallHalf(x, k);
  }

  lemma SmallHalf(x: bv16, k: nat)
    ensures Small(x, k + 1) == Small(Half(x), k)
  {
  }

  lemma FeedbackSetsTop(x: bv16)
    ensures Xor(Half(x), TAPS) & 0x8000 == 0x8000
  {
  }

  /** The same for up to 16 bits. */
  lemma {:induction false} FeedBack(x: bv16, bits: seq<bool>, k: nat)
    requires |bits| + k <= 16 && Small(FeedBits(x, bits), k)
    ensures Small(x, k + |bits|)
    ensures bits != [] ==> Odd(x) == bits[0] && Shift(x, bits[0]) == Half(x)
    decreases |bits|
  {
    hide Shift, Small, Half, Odd;
    if bits != [] {
      FeedBack(Shift(x, bits[0]), bits[1..], k);
      ShiftBack(x, bits[0], k + |bits| - 1);
    }
  }

  /** Up to 16 bits that lead from an empty register to an empty register are all zero. */
  lemma {:induction false} OnlyZeros(bits: seq<bool>)
    requires |bits| <= 16 && FeedBits(0, bits) == 0
    ensures forall i :: 0 <= i < |bits| ==> !bits[i]
    decreases |bits|
  {
    hide Shift;
    if bits != [] {
      assert Small(0, 0) && !Odd(0) && Half(0) == 0;
      FeedBack(0, bits, 0);
      OnlyZeros(bits[1..]);
      assert forall i :: 1 <= i < |bits| ==> bits[i] == bits[1..][i - 1];
    }
  }

  function Difference(a: seq<bool>, b: seq<bool>): (r: seq<bool>)
    requires |a| == |b|
    ensures |r| == |a| && forall i :: 0 <= i < |r| ==> r[i] == (a[i] != b[i])
  {
    seq(|a|, i requires 0 <= i < |a| => a[i] != b[i])
  }

  lemma {:induction false} FeedIsLinear(c: bv16, c': bv16, a: seq<bool>, b: seq<bool>)
    requires |a| == |b|
    ensures Xor(FeedBits(c, a), FeedBits(c', b)) == FeedBits(Xor(c, c'), Difference(a, b))
    decreases |a|
  {
    hide Shift, Xor;
    if a != [] {
      FeedIsLinear(Shift(c, a[0]), Shift(c', b[0]), a[1..], b[1..]);
      ShiftIsLinear(c, c', a[0], b[0]);
      assert Difference(a, b)[1..] == Difference(a[1..], b[1..]);
    }
  }

  lemma {:induction false} FeedIsInjective(c: bv16, c': bv16, bits: seq<bool>)
    requires FeedBits(c, bits) == FeedBits(c', bits)
    ensures c == c'
    decreases |bits|
  {
    hide Shift;
    if bits != [] {
      FeedIsInjective(Shift(c, bits[0]), Shift(c', bits[0]), bits[1..]);
      ShiftIsInjective(c, c', bits[0]);
    }
  }

  lemma XorSelf(c: bv16)
    ensures Xor(c, c) == 0
  {
  }

  lemma WindowDetected(c: bv16, before: seq<bool>, x: seq<bool>, y: seq<bool>, after: seq<bool>)
    requires |x| == |y| <= 16
    requires FeedBits(c, before + x + after) == FeedBits(c, before + y + after)
    ensures x == y
  {
    FeedBitsJoin(c, before + x, after);
    FeedBitsJoin(c, before, x);
    FeedBitsJoin(c, before + y, after);
    FeedBitsJoin(c, before, y);
    var d := FeedBits(c, before);
    FeedIsInjective(FeedBits(d, x), FeedBits(d, y), after);
    FeedIsLinear(d, d, x, y);
    XorSelf(FeedBits(d, x));
    XorSelf(d);
    OnlyZeros(Difference(x, y));
    assert forall i :: 0 <= i < |x| ==> x[i] == y[i] by {
      forall i | 0 <= i < |x| ensures x[i] == y[i] {
        assert !Difference(x, y)[i];
      }
    }
  }

  /** Two messages that differ, but only within 16 neighbouring bits, have different CRCs. */
  lemma BurstDetected(m: seq<bv8>, m': seq<bv8>, at: nat)
    requires |m| == |m'| && m != m'
    requires forall i :: 0 <= i < 8 * |m| && !(at <= i < at + 16) ==> MessageBits(m)[i] == MessageBits(m')[i]
    ensures Feed(FIRST, m) != Feed(FIRST, m')
  {
    hide FeedBits, Shift, MessageBits, Feed;
    var a, b := MessageBits(m), MessageBits(m');
    MessageIsItsBits(FIRST, m);
    MessageIsItsBits(FIRST, m');
    if Feed(FIRST, m) == Feed(FIRST, m') {
      BitsDetected(FIRST, a, b, at);
      BitsDetermineMessage(m, m');
    }
  }

  lemma BitsDetected(c: bv16, a: seq<bool>, b: seq<bool>, at: nat)
    requires |a| == |b| && FeedBits(c, a) == FeedBits(c, b)
    requires forall i :: 0 <= i < |a| && !(at <= i < at + 16) ==> a[i] == b[i]
    ensures a == b
  {
    hide FeedBits;
    var lo := if at <= |a| then at else |a|;
    var hi := if at + 16 <= |a| then at + 16 else |a|;
    assert a == a[..lo] + a[lo..hi] + a[hi..];
    assert b == b[..lo] + b[lo..hi] + b[hi..];
    assert a[..lo] == b[..lo] && a[hi..] == b[hi..];
    WindowDetected(c, a[..lo], a[lo..hi], b[lo..hi], a[hi..]);
  }

  lemma {:induction false} BitsDetermineMessage(m: seq<bv8>, m': seq<bv8>)
    requires |m| == |m'| && MessageBits(m) == MessageBits(m')
    ensures m == m'
    decreases |m|
  {
    hide ByteBits;
    if m != [] {
      var a, b := ByteBits(m[0], 8), ByteBits(m'[0], 8);
      assert a == MessageBits(m)[..8] && b == MessageBits(m')[..8];
      assert MessageBits(m[1..]) == MessageBits(m)[8..];
      assert MessageBits(m'[1..]) == MessageBits(m')[8..];
      BitsDetermineByte(m[0], m'[0]);
      BitsDetermineMessage(m[1..], m'[1..]);
      assert m == [m[0]] + m[1..] && m' == [m'[0]] + m'[1..];
    }
  }

  predicate Fits(x: bv8, n: nat)
    decreases n
  {
    if n == 0 then x == 0 else Fits(x >> 1, n - 1)
  }

  lemma BitsDetermineByte(x: bv8, y: bv8)
    requires ByteBits(x, 8) == ByteBits(y, 8)
    ensures x == y
  {
    assert Fits(x, 8) && Fits(y, 8) by {
      EveryByteFits(x);
      EveryByteFits(y);
    }
    LowBitsDetermine(x, y, 8);
  }

  lemma EveryByteFits(x: bv8)
    ensures Fits(x, 8)
  {
  }

  lemma {:induction false} LowBitsDetermine(x: bv8, y: bv8, n: nat)
    requires Fits(x, n) && Fits(y, n) && ByteBits(x, n) == ByteBits(y, n)
    ensures x == y
    decreases n
  {
    if n != 0 {
      assert ByteBits(x, n)[0] == ByteBits(y, n)[0];
      assert ByteBits(x, n)[1..] == ByteBits(x >> 1, n - 1) && ByteBits(y, n)[1..] == ByteBits(y >> 1, n - 1);
      LowBitsDetermine(x >> 1, y >> 1, n - 1);
      HalfAndLow(x, y);
    }
  }

  lemma HalfAndLow(x: bv8, y: bv8)
    requires x >> 1 == y >> 1 && Low(x) == Low(y)
    ensures x == y
  {
  }

  // ---------------------------------------------------------------------------
  // The residue
  // ---------------------------------------------------------------------------

  /** The n low bits of a register, complemented, lowest first. */
  function Complement(c: bv16, n: nat): (bits: seq<bool>)
    ensures |bits| == n
    decreases n, c
  {
    if n == 0 then [] else [!Odd(c)] + Complement(Half(c), n - 1)
  }

  function Ones(n: nat): (bits: seq<bool>)
    ensures |bits| == n
  {
    if n == 0 then [] else [true] + Ones(n - 1)
  }

  /** Feeding a register its own complement is feeding ones to what is left of it. */
  lemma {:induction false} FeedComplement(a: bv16, b: bv16, n: nat)
    ensures FeedBits(Xor(a, b), Complement(a, n)) == Xor(Halved(a, n), FeedBits(b, Ones(n)))
    decreases n
  {
    hide Odd, Half, Xor;
    if n != 0 {
      ShiftIsLinear(a, b, Odd(a), true);
      assert Shift(a, Odd(a)) == Half(a);
      FeedComplement(Half(a), Shift(b, true), n - 1);
      assert Complement(a, n)[1..] == Complement(Half(a), n - 1) && Ones(n)[1..] == Ones(n - 1);
    }
  }

  /** The n low bits of a byte are the complement of those of a register. */
  predicate Opposite(x: bv8, c: bv16, n: nat)
    decreases n
  {
    n == 0 || (Low(x) == !Odd(c) && Opposite(x >> 1, Half(c), n - 1))
  }

  lemma {:induction false} OppositeBits(x: bv8, c: bv16, n: nat)
    requires Opposite(x, c, n)
    ensures ByteBits(x, n) == Complement(c, n)
    decreases n
  {
    hide Low, Odd, Half;
    if n != 0 {
      OppositeBits(x >> 1, Half(c), n - 1);
    }
  }

  lemma LowByteOpposite(c: bv16)
    ensures Opposite((!c & 0xff) as bv8, c, 8)
  {
  }

  lemma HighByteOpposite(c: bv16)
    ensures Opposite((!c >> 8) as bv8, Halved(c, 8), 8)
  {
  }

  lemma {:induction false} ComplementJoin(c: bv16, a: nat, b: nat)
    ensures Complement(c, a + b) == Complement(c, a) + Complement(Halved(c, a), b)
    decreases a
  {
    if a != 0 {
      ComplementJoin(Half(c), a - 1, b);
    }
  }

  lemma NothingLeft(c: bv16)
    ensures Halved(c, 16) == 0
  {
    HalvedJoin(c, 8, 8);
  }

  lemma SixteenOnes()
    ensures FeedBits(0, Ones(16)) == RESIDUE
  {
    hide Shift;
    FeedOnesIsFeed(0, 16);
    FirstOnes();
    SecondOnes();
    ThirdOnes();
    LastOnes();
  }

  lemma FirstOnes()
    ensures FeedOnes(0, 16) == FeedOnes(0xf78f, 12)
  {
  }

  lemma SecondOnes()
    ensures FeedOnes(0xf78f, 12) == FeedOnes(0xf78, 8)
  {
  }

  lemma ThirdOnes()
    ensures FeedOnes(0xf78, 8) == FeedOnes(0x7370, 4)
  {
  }

  lemma LastOnes()
    ensures FeedOnes(0x7370, 4) == RESIDUE
  {
  }

  function FeedOnes(c: bv16, n: nat): bv16
    decreases n
  {
    if n == 0 then c else FeedOnes(Shift(c, true), n - 1)
  }

  lemma {:induction false} FeedOnesIsFeed(c: bv16, n: nat)
    ensures FeedBits(c, Ones(n)) == FeedOnes(c, n)
    decreases n
  {
    hide Shift;
    if n != 0 {
      FeedOnesIsFeed(Shift(c, true), n - 1);
      assert Ones(n)[1..] == Ones(n - 1);
    }
  }

  /** A message followed by its complemented CRC, low byte first, always leaves the same
      register (appendix C.2 of RFC 1662). */
  lemma ResidueIsConstant(message: seq<bv8>)
    ensures var crc := !Feed(FIRST, message);
      Feed(FIRST, message + [(crc & 0xff) as bv8, (crc >> 8) as bv8]) == RESIDUE
  {
    hide FeedBits, Complement, Halved, ByteBits, Shift, Xor;
    var c := Feed(FIRST, message);
    var tail := [(!c & 0xff) as bv8, (!c >> 8) as bv8];
    FeedJoin(FIRST, message, tail);
    MessageIsItsBits(c, tail);
    LowByteOpposite(c);
    HighByteOpposite(c);
    OppositeBits(tail[0], c, 8);
    OppositeBits(tail[1], Halved(c, 8), 8);
    ComplementJoin(c, 8, 8);
    assert MessageBits(tail) == ByteBits(tail[0], 8) + ByteBits(tail[1], 8) by {
      assert tail[1..] == [tail[1]] && tail[1..][1..] == [];
    }
    FeedComplement(c, 0, 16);
    NothingLeft(c);
    SixteenOnes();
    XorZero(c);
    XorZero(RESIDUE);
  }

  lemma XorZero(c: bv16)
    ensures Xor(c, 0) == c && Xor(0, c) == c
  {
  }

  lemma {:induction false} FeedJoin(c: bv16, a: seq<bv8>, b: seq<bv8>)
    ensures Feed(c, a + b) == Feed(Feed(c, a), b)
    decreases |a|
  {
    hide Update;
    if a == [] {
      assert a + b == b;
    } else {
      assert (a + b)[1..] == a[1..] + b;
      FeedJoin(Update(c, a[0]), a[1..], b);
    }
  }
}
