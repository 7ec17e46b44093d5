/** Numbers written in digits of one or four bits, and words that hold such digits. */
module DigitArrays {
  import opened Bits
  import opened BitArrays

  /** Bits per digit: 1 for BIN, 4 for HEX. */
  type Width = k: nat | k == 1 || k == 4 witness 1

  /** The number written with these digits, first digit highest. */
  function Number(ds: seq<nat>, k: Width): nat {
    if ds == [] then 0 else ds[|ds| - 1] + Pow2(k) * Number(ds[..|ds| - 1], k)
  }

  /** Where to find a bit of that number: bit i of digit j, counted from the last digit. */
  lemma {:induction false} NumberBit(ds: seq<nat>, k: Width, j: nat, i: nat)
    requires i < k && forall d :: 0 <= d < |ds| ==> ds[d] < Pow2(k)
    ensures Bit(Number(ds, k), k * j + i) == (j < |ds| && Bit(ds[|ds| - 1 - j], i))
    decreases |ds|
  {
    hide Bit;
    if ds == [] {
      ZeroBit(k * j + i);
    } else {
      var init := ds[..|ds| - 1];
      BitOfParts(ds[|ds| - 1], Number(init, k), k, k * j + i);
      if j > 0 {
        NumberBit(init, k, j - 1, i);
        MulDistributes(k, j - 1, 1);
      }
    }
  }

  function Reversed(ds: seq<nat>): (r: seq<nat>)
    ensures |r| == |ds| && forall j :: 0 <= j < |r| ==> r[j] == ds[|ds| - 1 - j]
  {
    seq(|ds|, j requires 0 <= j < |ds| => ds[|ds| - 1 - j])
  }

  lemma {:induction false} LeadingZero(ds: seq<nat>, k: Width)
    ensures Number([0] + ds, k) == Number(ds, k)
    decreases |ds|
  {
    if ds == [] {
      assert [0] + ds == [0] && [0][..0] == [];
      assert Number([], k) == 0;
      assert Number([0], k) == 0 + Pow2(k) * Number([], k);
    } else {
      assert ([0] + ds)[..|ds|] == [0] + ds[..|ds| - 1];
      LeadingZero(ds[..|ds| - 1], k);
    }
  }

  // ---------------------------------------------------------------------------
  // Digits inside words
  // ---------------------------------------------------------------------------

  /** The k bits from position s on: a shift and a mask. */
  function GetDigit(x: word, s: nat, k: Width): (d: nat)
    ensures d < Pow2(k)
    ensures forall i: nat :: i < k ==> Bit(d, i) == Bit(x, s + i)
  {
    assert forall i: nat :: i < k ==> Bit(LowBits(Shr(x, s), k), i) == Bit(x, s + i) by {
      forall i: nat | i < k ensures Bit(LowBits(Shr(x, s), k), i) == Bit(x, s + i) {
        MaskedBit(Shr(x, s), k, i);
        ShiftedBit(x, s, i);
      }
    }
    LowBits(Shr(x, s), k)
  }

  /** Replaces those bits: a set or a clear for one bit, a mask and an or for four. */
  function SetDigit(x: word, s: nat, v: nat, k: Width): (r: word)
    requires s + k <= 32
    ensures forall q: nat :: Bit(r, q) == if s <= q < s + k then Bit(v, q - s) else Bit(x, q)
  {
    var x0 := SetWordBit(x, s, Bit(v, 0));
    if k == 1 then x0
    else SetWordBit(SetWordBit(SetWordBit(x0, s + 1, Bit(v, 1)), s + 2, Bit(v, 2)), s + 3, Bit(v, 3))
  }

  lemma GetSetDigit(x: word, s: nat, v: nat, k: Width, t: nat)
    requires s + k <= 32 && v < Pow2(k) && (t + k <= s || t == s || s + k <= t)
    ensures GetDigit(SetDigit(x, s, v, k), t, k) == if t == s then v else GetDigit(x, t, k)
  {
    hide Bit, GetDigit, SetDigit;
    var got, wanted := GetDigit(SetDigit(x, s, v, k), t, k), if t == s then v else GetDigit(x, t, k);
    forall i: nat | i < k ensures Bit(got, i) == Bit(wanted, i) {
      assert Bit(got, i) == Bit(SetDigit(x, s, v, k), t + i);
    }
    SameBits(got, wanted, k);
  }

  /** Word and position of digit j: j >> 5 and j & 0x1f, or j >> 3 and (j & 7) << 2. */
  function WordOf(j: nat, k: Width): nat {
    if k == 1 then j / 32 else j / 8
  }

  function ShiftOf(j: nat, k: Width): (s: nat)
    ensures s + k <= 32
    ensures k * j == 32 * WordOf(j, k) + s
  {
    if k == 1 then j % 32 else 4 * (j % 8)
  }

  function DigitAt(heap: array<word>, j: nat, k: Width): (d: nat)
    requires WordOf(j, k) < heap.Length
    reads heap
    ensures d < Pow2(k)
  {
    GetDigit(heap[WordOf(j, k)], ShiftOf(j, k), k)
  }

  lemma DigitBit(heap: array<word>, j: nat, k: Width, i: nat)
    requires WordOf(j, k) < heap.Length && i < k
    ensures k * j + i < 32 * heap.Length
    ensures WordBit(heap, k * j + i) == Bit(DigitAt(heap, j, k), i)
  {
    hide Bit, GetDigit, WordOf, ShiftOf;
    var w, s := WordOf(j, k), ShiftOf(j, k);
    WordAndBit(k * j + i, w, s + i);
  }

  lemma WordAndBit(q: nat, w: nat, s: nat)
    requires q == 32 * w + s && s < 32
    ensures q / 32 == w && q % 32 == s
  {
  }

  lemma OtherDigit(j: nat, d: nat, k: Width)
    requires WordOf(d, k) == WordOf(j, k)
    ensures d == j || ShiftOf(d, k) + k <= ShiftOf(j, k) || ShiftOf(j, k) + k <= ShiftOf(d, k)
    ensures ShiftOf(d, k) == ShiftOf(j, k) ==> d == j
  {
  }

  /** The array holds these digits, digit 0 lowest. */
  ghost predicate HoldsDigits(heap: array<word>, ds: seq<nat>, k: Width)
    reads heap
  {
    forall j: nat :: j < |ds| ==> WordOf(j, k) < heap.Length && DigitAt(heap, j, k) == ds[j]
  }

  method PutDigit(heap: array<word>, j: nat, v: nat, k: Width)
    requires WordOf(j, k) < heap.Length && v < Pow2(k)
    modifies heap
    ensures forall d: nat :: WordOf(d, k) < heap.Length ==>
      DigitAt(heap, d, k) == if d == j then v else old(DigitAt(heap, d, k))
  {
    hide Bit, GetDigit, SetDigit, WordOf, ShiftOf;
    ghost var was := heap[..];
    var w, s := WordOf(j, k), ShiftOf(j, k);
    heap[w] := SetDigit(heap[w], s, v, k);
    forall d: nat | WordOf(d, k) < heap.Length
      ensures DigitAt(heap, d, k) == if d == j then v else GetDigit(was[WordOf(d, k)], ShiftOf(d, k), k)
    {
      if WordOf(d, k) == w {
        OtherDigit(j, d, k);
        GetSetDigit(was[w], s, v, k, ShiftOf(d, k));
      }
    }
  }
}
