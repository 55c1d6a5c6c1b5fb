/** The loops of `source/utils/binary.h` and what they compute. */
module BinaryUtils {
  import opened Bits

  /** Positions of the set bits of `x` at or above `i`, in increasing order. */
  function SetPositions(x: Bits, i: nat): seq<nat>
    requires i <= |x|
    decreases |x| - i
  {
    if i == |x| then [] else (if x[i] then [i] else []) + SetPositions(x, i + 1)
  }

  /** The highest set bit, or 0 when there is none. */
  function HighBit(x: Bits): nat {
    if x == [] then 0
    else if x[|x| - 1] then |x| - 1
    else HighBit(x[..|x| - 1])
  }

  lemma {:induction false} HighBitMeaning(x: Bits)
    ensures !IsZero(x) ==> HighBit(x) < |x| && x[HighBit(x)] && forall i :: HighBit(x) < i < |x| ==> !x[i]
    ensures IsZero(x) ==> HighBit(x) == 0
  {
    if x != [] {
      var n := |x| - 1;
      HighBitMeaning(x[..n]);
      if !x[n] {
        assert IsZero(x) <==> IsZero(x[..n]) by {
          forall i | 0 <= i < n
            ensures x[i] == x[..n][i]
          {
          }
        }
      }
    }
  }

  lemma ShrShr(x: Bits, i: nat)
    ensures Shr(Shr(x, i), 1) == Shr(x, i + 1)
  {
  }

  lemma {:induction false} HighBitRest(x: Bits, i: nat)
    requires i <= |x| && forall j :: i <= j < |x| ==> !x[j]
    ensures HighBit(x) == HighBit(x[..i])
    decreases |x|
  {
    if i < |x| {
      HighBitRest(x[..|x| - 1], i);
      assert x[..|x| - 1][..i] == x[..i];
    } else {
      assert x[..i] == x;
    }
  }

  /** `get_hi_bit_pos`. */
  method GetHiBitPos(x: Bits) returns (result: nat)
    ensures result == HighBit(x)
  {
    hide Shr;
    var value := x;
    result := 0;
    var i := 0;
    ShrNothing(x);
    while !IsZero(value)
      invariant i <= |x| && value == Shr(x, i) && result == HighBit(x[..i])
      decreases |x| - i
    {
      assert i < |x| && value[0] == x[i];
      assert x[..i + 1][..i] == x[..i];
      if value[0] {
        result := i;
      }
      ShrShr(x, i);
      i := i + 1;
      value := Shr(value, 1);
    }
    forall j | i <= j < |x|
      ensures !x[j]
    {
      assert value[j - i] == x[j];
    }
    HighBitRest(x, i);
  }

  /** The C `get_bit_count`, which answers 0 for 0. */
  method CountBits(x: Bits) returns (result: nat)
    ensures result == Popcount(x)
  {
    var value := x;
    result := 0;
    ghost var i := 0;
    assert Shr(x, 0) == x && x[0..] == x;
    while !IsZero(value)
      invariant i <= |x| && value == Shr(x, i)
      invariant result + Popcount(x[i..]) == Popcount(x)
      decreases |x| - i
    {
      if value[0] {
        result := result + 1;
      }
      assert x[i..][1..] == x[i + 1..];
      ShrShr(x, i);
      i := i + 1;
      value := Shr(value, 1);
    }
    RestIsZero(x, i);
  }

  lemma RestIsZero(x: Bits, i: nat)
    requires i <= |x| && IsZero(Shr(x, i))
    ensures IsZero(x[i..]) && Popcount(x[i..]) == 0
  {
    forall j | 0 <= j < |x| - i
      ensures !x[i..][j]
    {
      assert !Shr(x, i)[j];
    }
    PopcountZero(x[i..]);
  }

  /** The bits of `value` under `mask`, packed together. */
  function Gather(value: Bits, mask: Bits): (r: Bits)
    requires |value| == |mask|
    ensures |r| <= |mask|
  {
    if mask == [] then []
    else (if mask[0] then [value[0]] else []) + Gather(value[1..], mask[1..])
  }

  lemma {:induction false} GatherLength(value: Bits, mask: Bits)
    requires |value| == |mask|
    ensures |Gather(value, mask)| == Popcount(mask)
  {
    if mask != [] {
      GatherLength(value[1..], mask[1..]);
    }
  }

  lemma {:induction false} GatherAppend(v: Bits, m: Bits, w: Bits, n: Bits)
    requires |v| == |m| && |w| == |n|
    ensures Gather(v + w, m + n) == Gather(v, m) + Gather(w, n)
  {
    if m == [] {
      assert v + w == w && m + n == n;
    } else {
      GatherAppend(v[1..], m[1..], w, n);
      assert (v + w)[1..] == v[1..] + w && (m + n)[1..] == m[1..] + n;
      var head := if m[0] then [v[0]] else [];
      assert Gather(v, m) == head + Gather(v[1..], m[1..]);
      assert Gather(v + w, m + n) == head + (Gather(v[1..], m[1..]) + Gather(w, n));
    }
  }

  lemma {:induction false} GatherZero(value: Bits, mask: Bits)
    requires |value| == |mask| && IsZero(mask)
    ensures Gather(value, mask) == []
  {
    if mask != [] {
      ZeroTail(mask);
      GatherZero(value[1..], mask[1..]);
    }
  }

  /** Clearing what the mask hides changes nothing. */
  lemma {:induction false} GatherMasked(value: Bits, mask: Bits)
    requires |value| == |mask|
    ensures Gather(And(value, mask), mask) == Gather(value, mask)
  {
    if mask != [] {
      GatherMasked(value[1..], mask[1..]);
      assert And(value, mask)[1..] == And(value[1..], mask[1..]);
    }
  }

  lemma {:induction false} GatherOfZero(value: Bits, mask: Bits)
    requires |value| == |mask| && IsZero(value)
    ensures IsZero(Gather(value, mask))
  {
    if mask != [] {
      ZeroTail(value);
      GatherOfZero(value[1..], mask[1..]);
    }
  }

  /** `bits` as a word of `width` bits. */
  function Pad(bits: Bits, width: nat): (r: Bits)
    requires |bits| <= width
    ensures |r| == width
  {
    bits + Zeros(width - |bits|)
  }

  /** `1 & value`. */
  function LowBit(value: Bits): Bits
    requires value != []
  {
    [value[0]] + Zeros(|value| - 1)
  }

  /** `result |= (1 & value) << pos` writes the next bit of the packed value. */
  lemma OrBit(bits: Bits, value: Bits)
    requires value != [] && |bits| < |value|
    ensures Or(Pad(bits, |value|), Shl(LowBit(value), |bits|)) == Pad(bits + [value[0]], |value|)
  {
  }

  /** What the positions below `i` contribute. */
  function Packed(value: Bits, mask: Bits, i: nat): (r: Bits)
    requires |value| == |mask| && i <= |mask|
    ensures |r| <= i
  {
    Gather(value[..i], mask[..i])
  }

  /** `get_masked_value`: packs the bits under the mask into the low end of the result. */
  method GetMaskedValue(opcode: Bits, mask: Bits) returns (result: Bits)
    requires |opcode| == |mask|
    ensures result == Pad(Gather(opcode, mask), |mask|)
  {
    hide Gather, Packed, Shr, Shl, Or, Pad, And, IsZero;
    var pos := 0;
    var value, m := And(opcode, mask), mask;
    ghost var masked, i := value, 0;
    GatherMasked(opcode, mask);
    NothingPacked(masked, mask);
    result := Zeros(|mask|);
    while !IsZero(m) && !IsZero(value)
      invariant i <= |mask| && value == Shr(masked, i) && m == Shr(mask, i)
      invariant pos == |Packed(masked, mask, i)| && result == Pad(Packed(masked, mask, i), |mask|)
      decreases |mask| - i
    {
      PackNext(masked, mask, i);
      if m[0] {
        result := Or(result, Shl(LowBit(value), pos));
        pos := pos + 1;
      }
      value := Shr(value, 1);
      m := Shr(m, 1);
      i := i + 1;
    }
    AllPacked(masked, mask, i);
  }

  lemma NothingPacked(value: Bits, mask: Bits)
    requires |value| == |mask|
    ensures Shr(value, 0) == value && Shr(mask, 0) == mask
    ensures Packed(value, mask, 0) == [] && Pad([], |mask|) == Zeros(|mask|)
  {
    ShrNothing(value);
    ShrNothing(mask);
    NothingGathered(value, mask);
  }

  lemma PackNext(value: Bits, mask: Bits, i: nat)
    requires |value| == |mask| && i <= |mask| && !IsZero(Shr(value, i)) && !IsZero(Shr(mask, i))
    ensures i < |mask| && Shr(Shr(value, i), 1) == Shr(value, i + 1) && Shr(Shr(mask, i), 1) == Shr(mask, i + 1)
    ensures var before, after := Packed(value, mask, i), Packed(value, mask, i + 1);
      if Shr(mask, i)[0] then
        |after| == |before| + 1
        && Or(Pad(before, |mask|), Shl(LowBit(Shr(value, i)), |before|)) == Pad(after, |mask|)
      else
        after == before
  {
    hide Gather, Shl, Or, Pad;
    NextBit(value, mask, i);
    GatherStep(value, mask, i);
    ShrShr(value, i);
    ShrShr(mask, i);
    if mask[i] {
      OrBit(Packed(value, mask, i), Shr(value, i));
    }
  }

  lemma AllPacked(value: Bits, mask: Bits, i: nat)
    requires |value| == |mask| && i <= |mask| && (IsZero(Shr(value, i)) || IsZero(Shr(mask, i)))
    ensures Pad(Packed(value, mask, i), |mask|) == Pad(Gather(value, mask), |mask|)
  {
    hide Gather, Pad, Shr, IsZero;
    GatherRest(value, mask, i);
  }

  /** While bits are left, the low ones are those at position `i`. */
  lemma NextBit(value: Bits, mask: Bits, i: nat)
    requires |value| == |mask| && i <= |mask| && !IsZero(Shr(value, i)) && !IsZero(Shr(mask, i))
    ensures i < |mask| && Shr(value, i)[0] == value[i] && Shr(mask, i)[0] == mask[i]
  {
  }

  lemma ShrNothing(x: Bits)
    ensures Shr(x, 0) == x
  {
  }

  lemma NothingGathered(value: Bits, mask: Bits)
    requires |value| == |mask|
    ensures Gather(value[..0], mask[..0]) == [] && Pad([], |mask|) == Zeros(|mask|)
  {
  }

  lemma GatherStep(value: Bits, mask: Bits, i: nat)
    requires |value| == |mask| && i < |mask|
    ensures Gather(value[..i + 1], mask[..i + 1])
      == Gather(value[..i], mask[..i]) + (if mask[i] then [value[i]] else [])
  {
    GatherAppend(value[..i], mask[..i], [value[i]], [mask[i]]);
    assert value[..i + 1] == value[..i] + [value[i]] && mask[..i + 1] == mask[..i] + [mask[i]];
    assert Gather([value[i]], [mask[i]]) == (if mask[i] then [value[i]] else []) + Gather([], []);
  }

  /** What is left above position `i` contributes zeros only. */
  lemma GatherRest(value: Bits, mask: Bits, i: nat)
    requires |value| == |mask| && i <= |mask|
    requires IsZero(Shr(value, i)) || IsZero(Shr(mask, i))
    ensures Pad(Gather(value[..i], mask[..i]), |mask|) == Pad(Gather(value, mask), |mask|)
  {
    hide Gather, Pad, Shr;
    var b := Gather(value[i..], mask[i..]);
    GatherAppend(value[..i], mask[..i], value[i..], mask[i..]);
    assert value == value[..i] + value[i..] && mask == mask[..i] + mask[i..];
    assert IsZero(b) by {
      if IsZero(Shr(value, i)) {
        RestIsZero(value, i);
        GatherOfZero(value[i..], mask[i..]);
      } else {
        RestIsZero(mask, i);
        GatherZero(value[i..], mask[i..]);
      }
    }
    PadZero(Gather(value[..i], mask[..i]), b, |mask|);
  }

  lemma PadZero(a: Bits, b: Bits, width: nat)
    requires IsZero(b) && |a + b| <= width
    ensures Pad(a, width) == Pad(a + b, width)
  {
  }
}
