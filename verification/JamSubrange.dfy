/** Parts of Boolean arrays: copied bit by bit into another array or into the same one, and
    read as an integer in either direction. */
module JamSubrange {
  import opened Bits
  import opened BitArrays

  datatype Status = Success | BoundsError

  function Least(a: int, b: int): int {
    if a < b then a else b
  }

  /** How many bits a copy between two subranges moves, zero or less when one is empty. */
  function CopyLength(sourceBegin: int, sourceEnd: int, destBegin: int, destEnd: int): int {
    Least(1 + sourceEnd - sourceBegin, 1 + destEnd - destBegin)
  }

  /** Where bit i of a copy within one array really comes from: a copy that runs into its own
      output repeats what lies between the two beginnings. */
  function Origin(i: nat, sourceBegin: nat, destBegin: nat, length: nat): (o: int)
    requires i < length
    ensures sourceBegin <= o < sourceBegin + length
  {
    if sourceBegin < destBegin < sourceBegin + length then sourceBegin + i % (destBegin - sourceBegin)
    else sourceBegin + i
  }

  /** jam_copy_array_subrange; `source` and `dest` may be the same array. */
  method CopySubrange(source: array<word>, sourceBegin: nat, sourceEnd: int,
      dest: array<word>, destBegin: nat, destEnd: int)
    returns (status: Status)
    requires sourceEnd < 32 * source.Length && destEnd < 32 * dest.Length
    modifies dest
    ensures var length := CopyLength(sourceBegin, sourceEnd, destBegin, destEnd);
      && status == (if length <= 0 then BoundsError else Success)
      && forall q: nat :: q < 32 * dest.Length ==>
        WordBit(dest, q) ==
          if destBegin <= q < destBegin + length then
            old(WordBit(source, if source == dest then Origin(q - destBegin, sourceBegin, destBegin, length)
                                else sourceBegin + q - destBegin))
          else old(WordBit(dest, q))
    ensures status == Success <==> sourceBegin <= sourceEnd && destBegin <= destEnd
    ensures status == Success && source != dest ==>
      forall q: nat :: q < 32 * dest.Length ==>
        WordBit(dest, q) ==
          if destBegin <= q <= destEnd && sourceBegin + q - destBegin <= sourceEnd
          then old(WordBit(source, sourceBegin + q - destBegin))
          else old(WordBit(dest, q))
  {
    hide WordBit;
    var sourceLength, destLength := 1 + sourceEnd - sourceBegin, 1 + destEnd - destBegin;
    var length := sourceLength;
    if length > destLength {
      length := destLength;
    }
    if length <= 0 {
      return BoundsError;
    }
    for index := 0 to length
      invariant source != dest ==> forall q: nat :: q < 32 * source.Length ==> WordBit(source, q) == old(WordBit(source, q))
      invariant forall q: nat :: q < 32 * dest.Length ==>
        WordBit(dest, q) ==
          if destBegin <= q < destBegin + index then
            old(WordBit(source, if source == dest then Origin(q - destBegin, sourceBegin, destBegin, length)
                                else sourceBegin + q - destBegin))
          else old(WordBit(dest, q))
    {
      if source == dest {
        NextOrigin(index, sourceBegin, destBegin, length);
      }
      PutWordBit(dest, destBegin + index, WordBit(source, sourceBegin + index));
    }
    status := Success;
  }

  /** Reading from the part already written finds what was put there one period before. */
  lemma NextOrigin(i: nat, sourceBegin: nat, destBegin: nat, length: nat)
    requires i < length
    ensures destBegin <= sourceBegin + i < destBegin + i ==>
      Origin(i, sourceBegin, destBegin, length) == Origin(sourceBegin + i - destBegin, sourceBegin, destBegin, length)
    ensures !(destBegin <= sourceBegin + i < destBegin + i) ==>
      Origin(i, sourceBegin, destBegin, length) == sourceBegin + i
  {
    var d := destBegin - sourceBegin;
    if 0 < d < length {
      if i >= d {
        DivisionRule(i - d, d);
        var q, r := (i - d) / d, (i - d) % d;
        MulDistributes(d, q, 1);
        DivUnique(i, d, q + 1, r);
      } else {
        DivUnique(i, d, 0, i);
      }
    }
  }

  /** Within one array every bit comes from where the copy says exactly when the copy does not
      run forward into its own source. */
  lemma CopyWithinIff(sourceBegin: nat, destBegin: nat, length: nat)
    ensures (forall i: nat :: i < length ==> Origin(i, sourceBegin, destBegin, length) == sourceBegin + i)
      <==> !(sourceBegin < destBegin < sourceBegin + length)
  {
    var d := destBegin - sourceBegin;
    if 0 < d < length {
      DivUnique(d, d, 1, 0);
      assert Origin(d, sourceBegin, destBegin, length) == sourceBegin;
    }
  }

  // ---------------------------------------------------------------------------
  // Bits as an integer
  // ---------------------------------------------------------------------------

  /** The array index of bit k of the number. */
  function IndexOf(k: nat, msb: nat, lsb: nat): int {
    if msb > lsb then lsb + k else lsb - k
  }

  function BitCount(msb: nat, lsb: nat): nat {
    if msb > lsb then msb - lsb + 1 else lsb - msb + 1
  }

  /** jam_convert_bool_to_int, as the 32 bits of its result: bits past the 32nd are shifted out
      of the mask. */
  method BoolToInt(data: array<word>, msb: nat, lsb: nat) returns (result: word)
    requires msb < 32 * data.Length && lsb < 32 * data.Length
    ensures forall k: nat :: Bit(result, k) <==>
      k < 32 && k < BitCount(msb, lsb) && WordBit(data, IndexOf(k, msb, lsb))
    ensures msb >= lsb ==> forall k: nat :: lsb + k <= msb && k < 32 ==> Bit(result, k) == WordBit(data, lsb + k)
    ensures msb <= lsb ==> forall k: nat :: msb + k <= lsb && k < 32 ==> Bit(result, k) == WordBit(data, lsb - k)
  {
    hide Bit, WordBit;
    var increment := if msb > lsb then 1 else -1;
    var end := msb + increment;
    var i: int := lsb;
    var mask: nat := 0;
    result := 0;
    forall k: nat ensures !Bit(0, k) {
      ZeroBit(k);
    }
    while i != end
      invariant mask <= BitCount(msb, lsb) && i == IndexOf(mask, msb, lsb)
      invariant forall k: nat :: Bit(result, k) <==> k < 32 && k < mask && WordBit(data, IndexOf(k, msb, lsb))
      decreases BitCount(msb, lsb) - mask
    {
      if WordBit(data, i) && mask < 32 {
        result := SetWordBit(result, mask, true);
      }
      mask := mask + 1;
      i := i + increment;
    }
  }
}
