/** AArch64 logical immediates: `decode_logimm`, its closed bit formula, and the
    patterns it can produce. */
module BitmaskImmediate {
  import opened Bits
  import opened Wrappers
  import opened BinaryUtils

  // ----- what the encoding N:imms:immr means -----

  /** `(x >> low) & ((1 << len) - 1)`. */
  function Field(x: Bits, low: nat, len: nat): (r: Bits)
    requires low + len <= |x|
    ensures |r| == |x|
  {
    And(Shr(x, low), LowMask(|x|, len))
  }

  function LowMask(width: nat, len: nat): (r: Bits)
    requires len <= width
    ensures |r| == width
  {
    Ones(len) + Zeros(width - len)
  }

  lemma FieldNat(x: Bits, low: nat, len: nat)
    requires low + len <= |x|
    ensures Nat(Field(x, low, len)) == Nat(x[low..low + len]) < Pow2(len)
  {
    var f := Field(x, low, len);
    assert f == x[low..low + len] + Zeros(|x| - len);
    NatTrailingZeros(x[low..low + len], Zeros(|x| - len));
    NatBound(x[low..low + len]);
  }

  /** N:NOT(imms), the number whose highest bit gives the element size. */
  function SizeField(x: Bits): Bits
    requires |x| == 32
  {
    Or(Shl(Field(x, 12, 1), 6), And(Not(Field(x, 6, 6)), LowMask(32, 6)))
  }

  lemma SizeFieldMeaning(x: Bits)
    requires |x| == 32
    ensures HighBit(SizeField(x)) <= 6
    ensures HighBit(SizeField(x)) < 1 <==> !x[12] && forall i :: 7 <= i < 12 ==> x[i]
  {
    var h := SizeField(x);
    HighBitMeaning(h);
    assert h[6] == x[12];
    assert forall i :: 0 <= i < 6 ==> h[i] == !x[6 + i];
    assert forall i :: 7 <= i < 32 ==> !h[i];
    assert h[1] == !x[7] && h[2] == !x[8] && h[3] == !x[9] && h[4] == !x[10] && h[5] == !x[11];
  }

  /** The element width is two to this power. */
  function Len(x: Bits): (len: nat)
    requires |x| == 32
    ensures len <= 6
    ensures len < 1 <==> !x[12] && forall i :: 7 <= i < 12 ==> x[i]
  {
    SizeFieldMeaning(x);
    HighBit(SizeField(x))
  }

  /** The run length less one and the rotation, within the element. */
  function S(x: Bits): (s: nat)
    requires |x| == 32
    ensures s < Pow2(Len(x))
  {
    NatBound(x[6..6 + Len(x)]);
    Nat(x[6..6 + Len(x)])
  }

  function R(x: Bits): (r: nat)
    requires |x| == 32
    ensures r < Pow2(Len(x))
  {
    NatBound(x[..Len(x)]);
    Nat(x[..Len(x)])
  }

  // ----- the closed formula -----

  /** Bit `i`: a run of `s + 1` ones rotated right by `r` in every element of `e` bits,
      as far as whole elements fit `datasize`. */
  predicate PatternBit(e: nat, s: nat, r: nat, datasize: nat, i: nat)
    requires e > 0
  {
    i < datasize / e * e && (i % e + r) % e <= s
  }

  function Pattern(e: nat, s: nat, r: nat, datasize: nat): (p: Bits)
    requires e > 0
    ensures |p| == 64 && forall i :: 0 <= i < 64 ==> p[i] == PatternBit(e, s, r, datasize, i)
  {
    seq(64, i requires 0 <= i < 64 => PatternBit(e, s, r, datasize, i))
  }

  // ----- the shifting helpers -----

  /** `replicate64(1, count)`. */
  function Replicate64(count: nat): (r: Bits)
    requires 1 <= count <= 64
    ensures |r| == 64 && forall i :: 0 <= i < 64 ==> r[i] == (i < count)
  {
    Shr(Ones(64), 64 - count)
  }

  /** `ror64`; no shift is by the width or more. */
  function Ror64(value: Bits, rotation: nat, datasize: nat): (r: Bits)
    requires |value| == 64 && rotation < datasize <= 64
    ensures |r| == 64
  {
    if rotation == 0 then value
    else And(Or(Shr(value, rotation), Shl(value, datasize - rotation)), Replicate64(datasize))
  }

  /** One element: a rotated run below bit `e`, zeros above. */
  predicate IsElement(v: Bits, e: nat, s: nat, r: nat)
    requires e > 0
  {
    |v| == 64 && forall i :: 0 <= i < 64 ==> (v[i] <==> i < e && (i + r) % e <= s)
  }

  lemma RotatedRun(e: nat, s: nat, r: nat)
    requires s < e <= 64 && r < e
    ensures IsElement(Ror64(Replicate64(s + 1), r, e), e, s, r)
  {
    var v := Replicate64(s + 1);
    forall i | 0 <= i < 64
      ensures Ror64(v, r, e)[i] <==> i < e && (i + r) % e <= s
    {
      if i < e {
        Wrap(i + r, e);
      }
    }
  }

  lemma Wrap(n: nat, e: nat)
    requires 0 < e && n < 2 * e
    ensures n % e == (if n < e then n else n - e)
  {
    if n >= e {
      assert n == e + (n - e);
    }
  }

  // ----- filling the lanes -----

  predicate IsElementSize(e: nat) {
    e == 2 || e == 4 || e == 8 || e == 16 || e == 32 || e == 64
  }

  lemma ElementSizes(len: nat)
    requires 1 <= len <= 6
    ensures IsElementSize(Pow2(len)) && Pow2(len) <= 64
  {
    assert Pow2(1) == 2 && Pow2(2) == 4 && Pow2(3) == 8;
    assert Pow2(4) == 16 && Pow2(5) == 32 && Pow2(6) == 64;
  }

  /** A store to lane `i` of width `e`: it replaces these bits and no others. */
  function SetLane(data: Bits, e: nat, i: nat, value: Bits): (r: Bits)
    requires |data| == |value| == 64 && e <= 64 && i * e + e <= 64
    ensures |r| == 64
  {
    data[..i * e] + value[..e] + data[i * e + e..]
  }

  /** Lanes below `n` hold the element, the rest is zero. */
  ghost predicate Filled(data: Bits, eimm: Bits, e: nat, n: nat)
    requires |eimm| == 64 && IsElementSize(e)
  {
    |data| == 64 && forall i :: 0 <= i < 64 ==> (data[i] <==> i < n * e && eimm[i % e])
  }

  lemma LaneOffset(e: nat, n: nat, i: nat)
    requires IsElementSize(e) && n * e <= i < n * e + e
    ensures i % e == i - n * e
  {
    Quotient(e, n, i - n * e, i);
  }

  lemma FillNext(data: Bits, eimm: Bits, e: nat, n: nat)
    requires IsElementSize(e) && n * e + e <= 64 && |eimm| == 64 && Filled(data, eimm, e, n)
    requires forall i :: e <= i < 64 ==> !eimm[i]
    ensures Filled(SetLane(data, e, n, eimm), eimm, e, n + 1)
    ensures Filled(Or(data, Shl(eimm, n * e)), eimm, e, n + 1)
  {
    var a, b := SetLane(data, e, n, eimm), Or(data, Shl(eimm, n * e));
    assert (n + 1) * e == n * e + e;
    forall i | 0 <= i < 64
      ensures a[i] <==> i < (n + 1) * e && eimm[i % e]
      ensures b[i] <==> i < (n + 1) * e && eimm[i % e]
    {
      if n * e <= i < n * e + e {
        LaneOffset(e, n, i);
      }
    }
  }

  lemma LanesFit(e: nat, datasize: nat, n: nat)
    requires IsElementSize(e) && datasize <= 64 && n < datasize / e
    ensures n * e + e <= datasize
  {
  }

  /** The `switch (esize)` that copies the element into every lane. */
  method FillLanes(eimm: Bits, e: nat, datasize: nat) returns (data: Bits)
    requires |eimm| == 64 && IsElementSize(e) && datasize <= 64 && forall i :: e <= i < 64 ==> !eimm[i]
    ensures Filled(data, eimm, e, datasize / e)
  {
    hide Filled;
    var number := datasize / e;
    data := Zeros(64);
    var i := 0;
    assert Filled(data, eimm, e, 0) by {
      NothingFilled(eimm, e);
    }
    if e == 2 || e == 4 {
      while i < number
        invariant i <= number && |data| == 64 && Filled(data, eimm, e, i)
      {
        LanesFit(e, datasize, i);
        FillNext(data, eimm, e, i);
        data := Or(data, Shl(eimm, i * e));
        i := i + 1;
      }
    } else {
      while i < number
        invariant i <= number && |data| == 64 && Filled(data, eimm, e, i)
      {
        LanesFit(e, datasize, i);
        FillNext(data, eimm, e, i);
        data := SetLane(data, e, i, eimm);
        i := i + 1;
      }
    }
  }

  lemma NothingFilled(eimm: Bits, e: nat)
    requires |eimm| == 64 && IsElementSize(e)
    ensures Filled(Zeros(64), eimm, e, 0)
  {
  }

  lemma FilledIsPattern(data: Bits, eimm: Bits, e: nat, s: nat, r: nat, datasize: nat)
    requires IsElementSize(e) && r < e && IsElement(eimm, e, s, r) && Filled(data, eimm, e, datasize / e)
    ensures data == Pattern(e, s, r, datasize)
  {
    var p := Pattern(e, s, r, datasize);
    forall i | 0 <= i < 64
      ensures data[i] == p[i]
    {
      assert 0 <= i % e < e;
    }
  }

  /** What `decode_logimm` computes; a `datasize` of 0 means the encoding's own. */
  function LogimmValue(x: Bits, datasize: nat): Option<Bits>
    requires |x| == 32
  {
    if Len(x) < 1 then None
    else Some(Pattern(Pow2(Len(x)), S(x), R(x), if datasize != 0 then datasize else if x[12] then 64 else 32))
  }

  /** `decode_logimm`; `None` is its failure. */
  method DecodeLogimm(x: Bits, datasize: nat) returns (imm: Option<Bits>)
    requires |x| == 32 && datasize <= 64
    ensures imm == LogimmValue(x, datasize)
    ensures datasize == 0 ==> IsImmediateOf(imm, x, if x[12] then 64 else 32)
    ensures 0 < datasize && datasize % Pow2(Len(x)) == 0 ==> IsImmediateOf(imm, x, datasize)
  {
    hide IsImmediateOf;
    DefaultImmediate(x);
    if 0 < datasize && datasize % Pow2(Len(x)) == 0 {
      GivenImmediate(x, datasize);
    }
    var n := Field(x, 12, 1);
    var s := Field(x, 6, 6);
    var r := Field(x, 0, 6);
    BitTwelve(x);
    var ds := if Nat(n) == 1 then 64 else 32;
    var size := if datasize == 0 then ds else datasize;
    var len := GetHiBitPos(Or(Shl(n, 6), And(Not(s), LowMask(32, 6))));
    if len < 1 {
      return None;
    }
    var data := LogimmElements(x, s, r, len, size);
    imm := Some(data);
  }

  lemma BitTwelve(x: Bits)
    requires |x| == 32
    ensures (Nat(Field(x, 12, 1)) == 1) == x[12]
  {
    FieldNat(x, 12, 1);
    assert x[12..13] == [x[12]] && x[12..13][1..] == [];
  }

  /** The second half of `decode_logimm`: build one element and repeat it. */
  method LogimmElements(ghost x: Bits, s: Bits, r: Bits, len: nat, datasize: nat) returns (data: Bits)
    requires |x| == 32 && s == Field(x, 6, 6) && r == Field(x, 0, 6) && 1 <= len == Len(x) && datasize <= 64
    ensures data == Pattern(Pow2(len), S(x), R(x), datasize)
  {
    hide Pattern, Ror64, Field, Filled, IsElement;
    var esize := Pow2(len);
    ElementSizes(len);
    var emask := Replicate64(len)[..32];
    Narrow(x, len);
    var run, rotation := Nat(And(s, emask)), Nat(And(r, emask));
    var eimm := Ror64(Replicate64(run + 1), rotation, esize);
    RotatedRun(esize, run, rotation);
    EndsAtElement(eimm, esize, run, rotation);
    data := FillLanes(eimm, esize, datasize);
    FilledIsPattern(data, eimm, esize, run, rotation, datasize);
  }

  lemma EndsAtElement(v: Bits, e: nat, s: nat, r: nat)
    requires e > 0 && IsElement(v, e, s, r)
    ensures |v| == 64 && forall i :: e <= i < 64 ==> !v[i]
  {
  }

  /** `s &= emask; r &= emask;` keep the low `len` bits. */
  lemma Narrow(x: Bits, len: nat)
    requires |x| == 32 && 1 <= len <= 6
    ensures var emask := Replicate64(len)[..32];
      Nat(And(Field(x, 6, 6), emask)) == Nat(x[6..6 + len]) < Pow2(len)
      && Nat(And(Field(x, 0, 6), emask)) == Nat(x[..len]) < Pow2(len)
  {
    var emask := Replicate64(len)[..32];
    assert And(Field(x, 6, 6), emask) == x[6..6 + len] + Zeros(32 - len);
    assert And(Field(x, 0, 6), emask) == x[..len] + Zeros(32 - len);
    NatTrailingZeros(x[6..6 + len], Zeros(32 - len));
    NatTrailingZeros(x[..len], Zeros(32 - len));
    NatBound(x[6..6 + len]);
    NatBound(x[..len]);
  }

  // ----- agreement with DecodeBitMasks -----

  function HighestSetBit(x: Bits): int {
    if x == [] then -1 else if x[|x| - 1] then |x| - 1 else HighestSetBit(x[..|x| - 1])
  }

  function RotateRight(v: Bits, r: nat): (w: Bits)
    requires r <= |v|
    ensures |w| == |v|
  {
    v[r..] + v[..r]
  }

  function Repeat(v: Bits, n: nat): Bits {
    if n == 0 then [] else v + Repeat(v, n - 1)
  }

  /** The element of DecodeBitMasks: `ROR(ZeroExtend(Ones(S + 1), esize), R)`. */
  function Element(len: nat, imms: Bits, immr: Bits): (v: Bits)
    requires len <= |imms| && len <= |immr|
    ensures |v| == Pow2(len)
  {
    NatBound(imms[..len]);
    NatBound(immr[..len]);
    var run := Nat(imms[..len]) + 1;
    RotateRight(Ones(run) + Zeros(Pow2(len) - run), Nat(immr[..len]))
  }

  /** How many elements of `e` bits. */
  function Elements(datasize: nat, e: nat): nat
    requires e > 0
  {
    datasize / e
  }

  /** DecodeBitMasks of Arm DDI 0487, chapter J1, for an immediate of `datasize` bits:
      undefined without an element size and for a run that fills the element. */
  function DecodeBitMasks(x: Bits, datasize: nat): Option<Bits>
    requires |x| == 32
  {
    var immr, imms, immN := x[..6], x[6..12], x[12];
    var len := HighestSetBit(Not(imms) + [immN]);
    if !(1 <= len <= 6) then None
    else if imms[..len] == Ones(len) then None
    else Some(Repeat(Element(len, imms, immr), Elements(datasize, Pow2(len))))
  }

  /** Within an immediate of `datasize` bits. */
  function LowBits(imm: Option<Bits>, datasize: nat): Option<Bits>
    requires imm.Some? ==> |imm.value| >= datasize
  {
    match imm
    case None => None
    case Some(v) => Some(v[..datasize])
  }

  lemma {:induction false} HighestIsHigh(x: Bits)
    ensures HighestSetBit(x) == if IsZero(x) then -1 else HighBit(x)
  {
    if x != [] && !x[|x| - 1] {
      var y := x[..|x| - 1];
      HighestIsHigh(y);
      assert x == y + [false];
      assert IsZero(x) <==> IsZero(y) by {
        forall i | 0 <= i < |y|
          ensures x[i] == y[i]
        {
        }
      }
    }
  }

  lemma LenIsHighest(x: Bits)
    requires |x| == 32
    ensures HighestSetBit(Not(x[6..12]) + [x[12]]) <= 6
    ensures Len(x) == if HighestSetBit(Not(x[6..12]) + [x[12]]) < 0 then 0 else HighestSetBit(Not(x[6..12]) + [x[12]])
  {
    var h, f := Not(x[6..12]) + [x[12]], SizeField(x);
    HighestIsHigh(h);
    HighBitMeaning(h);
    assert f == h + Zeros(25);
    assert f[..7] == h;
    HighBitRest(f, 7);
  }

  lemma {:induction false} OnesOrNot(v: Bits)
    ensures Nat(v) == Pow2(|v|) - 1 <==> v == Ones(|v|)
  {
    if v != [] {
      OnesOrNot(v[1..]);
      NatBound(v[1..]);
      assert v == [v[0]] + v[1..];
      assert Ones(|v|) == [true] + Ones(|v| - 1);
      assert v == Ones(|v|) ==> v[1..] == Ones(|v| - 1);
    }
  }

  lemma ElementBit(len: nat, imms: Bits, immr: Bits, i: nat)
    requires len <= |imms| && len <= |immr| && i < Pow2(len)
    ensures Element(len, imms, immr)[i] == ((i + Nat(immr[..len])) % Pow2(len) <= Nat(imms[..len]))
  {
    NatBound(imms[..len]);
    NatBound(immr[..len]);
    Wrap(i + Nat(immr[..len]), Pow2(len));
  }

  lemma {:induction false} RepeatBit(v: Bits, n: nat, i: nat)
    requires 0 < |v| && i < |Repeat(v, n)|
    ensures Repeat(v, n)[i] == v[i % |v|]
  {
    if i < |v| {
      Wrap(i, |v|);
    } else {
      RepeatBit(v, n - 1, i - |v|);
      AddOne(|v|, i - |v|);
    }
  }

  lemma {:induction false} RepeatLength(v: Bits, n: nat)
    ensures |Repeat(v, n)| == n * |v|
  {
    if n > 0 {
      RepeatLength(v, n - 1);
      assert n * |v| == |v| + (n - 1) * |v|;
    }
  }

  /** The closed formula is what the architecture builds by rotating and repeating. */
  lemma PatternIsRepeated(len: nat, imms: Bits, immr: Bits, datasize: nat)
    requires 1 <= len <= 6 && len <= |imms| && len <= |immr| && datasize <= 64 && datasize % Pow2(len) == 0
    ensures Pattern(Pow2(len), Nat(imms[..len]), Nat(immr[..len]), datasize)[..datasize]
      == Repeat(Element(len, imms, immr), datasize / Pow2(len))
  {
    hide Element;
    var e, v, n := Pow2(len), Element(len, imms, immr), datasize / Pow2(len);
    var p := Pattern(e, Nat(imms[..len]), Nat(immr[..len]), datasize);
    assert n * e == datasize;
    RepeatLength(v, n);
    forall i | 0 <= i < datasize
      ensures p[..datasize][i] == Repeat(v, n)[i]
    {
      RepeatBit(v, n, i);
      ElementBit(len, imms, immr, i % e);
    }
  }

  /** The decoder accepts one reserved family that the architecture leaves undefined:
      elements of ones only.  On everything else, and for every data size made of whole
      elements, the two agree. */
  lemma ConformsExceptAllOnes(x: Bits, datasize: nat)
    requires |x| == 32 && 0 < datasize <= 64 && datasize % Pow2(Len(x)) == 0
    ensures LogimmValue(x, datasize).Some? ==> |LogimmValue(x, datasize).value| >= datasize
    ensures LowBits(LogimmValue(x, datasize), datasize) == DecodeBitMasks(x, datasize)
      <==> !(Len(x) >= 1 && S(x) == Pow2(Len(x)) - 1)
  {
    hide Element, Pattern, Repeat, SizeField, HighestSetBit;
    LenIsHighest(x);
    var len := Len(x);
    if len >= 1 {
      PatternIsRepeated(len, x[6..12], x[..6], datasize);
      OnesOrNot(x[6..12][..len]);
      assert x[6..12][..len] == x[6..6 + len] && x[..6][..len] == x[..len];
    }
  }

  /** What the architecture makes of the field in its low `n` bits, and zeros above.  A run
      that fills its element, which the architecture leaves undefined, gives ones. */
  ghost predicate IsImmediateOf(imm: Option<Bits>, x: Bits, n: nat)
    requires |x| == 32 && n <= 64
  {
    var len := HighestSetBit(Not(x[6..12]) + [x[12]]);
    if len < 1 then imm.None?
    else
      && len <= 6 && imm.Some? && |imm.value| == 64 && IsZero(imm.value[n..])
      && if x[6..6 + len] == Ones(len) then imm.value[..n] == Ones(n) else Some(imm.value[..n]) == DecodeBitMasks(x, n)
  }

  lemma GivenImmediate(x: Bits, n: nat)
    requires |x| == 32 && 0 < n <= 64 && n % Pow2(Len(x)) == 0
    ensures IsImmediateOf(LogimmValue(x, n), x, n)
  {
    hide Element, Repeat, SizeField, HighestSetBit;
    LenIsHighest(x);
    var len := Len(x);
    if len >= 1 {
      ConformsExceptAllOnes(x, n);
      OnesOrNot(x[6..6 + len]);
      FullOrNot(x, n);
    }
  }

  lemma FullOrNot(x: Bits, n: nat)
    requires |x| == 32 && 0 < n <= 64 && Len(x) >= 1 && n % Pow2(Len(x)) == 0
    ensures var p := Pattern(Pow2(Len(x)), S(x), R(x), n);
      IsZero(p[n..]) && (S(x) == Pow2(Len(x)) - 1 ==> p[..n] == Ones(n))
  {
    hide SizeField, Nat, Pow2;
    var e := Pow2(Len(x));
    WholeElements(n, e);
  }

  lemma WholeElements(n: nat, e: nat)
    requires e > 0 && n % e == 0
    ensures n / e * e == n
  {
  }

  /** Without a data size N says which: 64 bits with it, 32 without. */
  lemma DefaultImmediate(x: Bits)
    requires |x| == 32
    ensures IsImmediateOf(LogimmValue(x, 0), x, if x[12] then 64 else 32)
  {
    hide IsImmediateOf;
    LenIsHighest(x);
    DefaultFits(x);
    GivenImmediate(x, if x[12] then 64 else 32);
  }

  lemma DefaultFits(x: Bits)
    requires |x| == 32
    ensures (if x[12] then 64 else 32) % Pow2(Len(x)) == 0
  {
    HighBitMeaning(SizeField(x));
    assert SizeField(x)[6] == x[12];
    assert Pow2(0) == 1 && Pow2(1) == 2 && Pow2(2) == 4 && Pow2(3) == 8;
    assert Pow2(4) == 16 && Pow2(5) == 32 && Pow2(6) == 64;
    hide Pow2, SizeField;
  }

  // ----- the patterns are all different -----

  /** A canonical triple: a proper run in an element of a legal width. */
  predicate Canonical(e: nat, s: nat, r: nat) {
    IsElementSize(e) && s < e - 1 && r < e
  }

  lemma FullBit(e: nat, s: nat, r: nat, i: nat)
    requires IsElementSize(e) && r < e && i < 64
    ensures Pattern(e, s, r, 64)[i] == ((i % e + r) % e <= s)
  {
    assert 64 / e * e == 64;
  }

  /** How far position `i` of an element is from the start of the run. */
  function Distance(e: nat, r: nat, i: nat): nat
    requires r < e && i < e
  {
    if i + r < e then i + r else i + r - e
  }

  /** The position at distance `k`. */
  function Offset(e: nat, r: nat, k: nat): (i: nat)
    requires r < e && k < e
    ensures i < e && Distance(e, r, i) == k
  {
    if k >= r then k - r else k + e - r
  }

  lemma FirstElementBit(e: nat, s: nat, r: nat, i: nat)
    requires IsElementSize(e) && r < e && i < e
    ensures i < 64 && Pattern(e, s, r, 64)[i] == (Distance(e, r, i) <= s)
  {
    hide Pattern;
    FullBit(e, s, r, i);
    Wrap(i, e);
    Wrap(i + r, e);
  }

  /** With one element width, the start of the run gives the rotation and its end the length. */
  lemma SameWidthInjective(e: nat, s: nat, r: nat, s': nat, r': nat)
    requires Canonical(e, s, r) && Canonical(e, s', r') && Pattern(e, s, r, 64) == Pattern(e, s', r', 64)
    ensures s == s' && r == r'
  {
    hide Pattern;
    var first, last := Offset(e, r, 0), Offset(e, r, e - 1);
    FirstElementBit(e, s, r, first);
    FirstElementBit(e, s', r', first);
    FirstElementBit(e, s, r, last);
    FirstElementBit(e, s', r', last);
    assert r == r';
    var end, after := Offset(e, r, s), Offset(e, r, s + 1);
    FirstElementBit(e, s, r, end);
    FirstElementBit(e, s', r, end);
    FirstElementBit(e, s, r, after);
    FirstElementBit(e, s', r, after);
  }

  /** A pattern of width `e` repeats after `e` bits, one of width `f > e` does not
      repeat after `f / 2`. */
  lemma WidthsDiffer(e: nat, s: nat, r: nat, f: nat, s': nat, r': nat)
    requires Canonical(e, s, r) && Canonical(f, s', r') && e < f
    ensures Pattern(e, s, r, 64) != Pattern(f, s', r', 64)
  {
    hide Pattern;
    var p, q := Pattern(e, s, r, 64), Pattern(f, s', r', 64);
    Halves(e, f);
    var half := f / 2;
    var a, b, c, d := Offset(f, r', 0), Offset(f, r', half), Offset(f, r', half - 1), Offset(f, r', f - 1);
    FirstElementBit(f, s', r', a);
    FirstElementBit(f, s', r', b);
    FirstElementBit(f, s', r', c);
    FirstElementBit(f, s', r', d);
    assert p[a] == p[b] by {
      Repeats(e, s, r, f, a, b);
    }
    assert p[c] == p[d] by {
      Repeats(e, s, r, f, c, d);
    }
    assert q[a] && !q[d];
    assert q[b] ==> q[c];
  }

  lemma Halves(e: nat, f: nat)
    requires IsElementSize(e) && IsElementSize(f) && e < f
    ensures f == f / 2 * 2 && (f / 2) % e == 0
  {
  }

  lemma Repeats(e: nat, s: nat, r: nat, f: nat, i: nat, j: nat)
    requires Canonical(e, s, r) && IsElementSize(f) && e < f && i < 64 && j < 64
    requires i == j + f / 2 || j == i + f / 2
    ensures Pattern(e, s, r, 64)[i] == Pattern(e, s, r, 64)[j]
  {
    Halves(e, f);
    FullBit(e, s, r, i);
    FullBit(e, s, r, j);
    assert i % e == j % e by {
      SameRemainder(e, f / 2, i, j);
    }
  }

  lemma {:induction false} AddMultiple(e: nat, j: nat, k: nat)
    requires e > 0
    ensures (j + e * k) % e == j % e
  {
    if k > 0 {
      AddMultiple(e, j, k - 1);
      AddOne(e, j + e * (k - 1));
      assert j + e * k == j + e * (k - 1) + e;
    }
  }

  lemma AddOne(e: nat, n: nat)
    requires e > 0
    ensures (n + e) % e == n % e
  {
    var q, m := n / e, n % e;
    assert n + e == e * (q + 1) + m;
    Quotient(e, q + 1, m, n + e);
  }

  lemma Quotient(e: nat, q: nat, m: nat, n: nat)
    requires m < e && n == e * q + m
    ensures n % e == m
  {
    var d := n / e - q;
    assert e * d == m - n % e;
    MultipleIsFar(e, d);
  }

  lemma MultipleIsFar(e: int, d: int)
    requires e > 0
    ensures d >= 1 ==> e * d >= e
    ensures d <= -1 ==> e * d <= -e
  {
  }

  lemma SameRemainder(e: nat, h: nat, i: nat, j: nat)
    requires e > 0 && h % e == 0 && (i == j + h || j == i + h)
    ensures i % e == j % e
  {
    assert h == e * (h / e);
    AddMultiple(e, j, h / e);
    AddMultiple(e, i, h / e);
  }

  /** Distinct canonical encodings give distinct immediates. */
  lemma PatternInjective(e: nat, s: nat, r: nat, f: nat, s': nat, r': nat)
    requires Canonical(e, s, r) && Canonical(f, s', r') && Pattern(e, s, r, 64) == Pattern(f, s', r', 64)
    ensures e == f && s == s' && r == r'
  {
    if e < f {
      WidthsDiffer(e, s, r, f, s', r');
    } else if f < e {
      WidthsDiffer(f, s', r', e, s, r);
    } else {
      SameWidthInjective(e, s, r, s', r');
    }
  }

  /** The inverse of a pattern is the pattern of the complementary run. */
  lemma InversePattern(e: nat, s: nat, r: nat)
    requires Canonical(e, s, r)
    ensures var r' := (r + e - s - 1) % e;
      Canonical(e, e - 2 - s, r') && Not(Pattern(e, s, r, 64)) == Pattern(e, e - 2 - s, r', 64)
  {
    var r' := (r + e - s - 1) % e;
    Wrap(r + e - s - 1, e);
    var a, b := Not(Pattern(e, s, r, 64)), Pattern(e, e - 2 - s, r', 64);
    forall i | 0 <= i < 64
      ensures a[i] == b[i]
    {
      FullBit(e, s, r, i);
      FullBit(e, e - 2 - s, r', i);
      Wrap(i % e + r, e);
      Wrap(i % e + r', e);
    }
  }

  // ----- how many there are -----

  ghost predicate IsRotation(p: Bits, e: nat, s: nat, n: nat)
    requires e > 0
  {
    exists r: nat :: r < n && p == Pattern(e, s, r, 64)
  }

  /** The patterns of one width and run length with rotations below `n`. */
  function Rotations(e: nat, s: nat, n: nat): set<Bits>
    requires e > 0
  {
    if n == 0 then {} else Rotations(e, s, n - 1) + {Pattern(e, s, n - 1, 64)}
  }

  lemma {:induction false} RotationsCount(e: nat, s: nat, n: nat)
    requires IsElementSize(e) && s < e - 1 && n <= e
    ensures forall p :: p in Rotations(e, s, n) <==> IsRotation(p, e, s, n)
    ensures |Rotations(e, s, n)| == n
  {
    hide Pattern, IsRotation;
    if n == 0 {
      forall p: Bits
        ensures !IsRotation(p, e, s, 0)
      {
        NoRotation(p, e, s);
      }
    } else {
      var before, last := Rotations(e, s, n - 1), Pattern(e, s, n - 1, 64);
      RotationsCount(e, s, n - 1);
      NewRotation(e, s, n);
      assert last !in before;
      forall p: Bits
        ensures IsRotation(p, e, s, n) <==> IsRotation(p, e, s, n - 1) || p == last
      {
        OneMoreRotation(p, e, s, n);
      }
      assert |before + {last}| == |before| + 1;
    }
  }

  lemma NoRotation(p: Bits, e: nat, s: nat)
    requires e > 0
    ensures !IsRotation(p, e, s, 0)
  {
  }

  lemma NewRotation(e: nat, s: nat, n: nat)
    requires IsElementSize(e) && s < e - 1 && 0 < n <= e
    ensures !IsRotation(Pattern(e, s, n - 1, 64), e, s, n - 1)
  {
    hide Pattern;
    forall r: nat | r < n - 1
      ensures Pattern(e, s, r, 64) != Pattern(e, s, n - 1, 64)
    {
      if Pattern(e, s, r, 64) == Pattern(e, s, n - 1, 64) {
        PatternInjective(e, s, r, e, s, n - 1);
      }
    }
  }

  lemma OneMoreRotation(p: Bits, e: nat, s: nat, n: nat)
    requires 0 < n <= e
    ensures IsRotation(p, e, s, n) <==> IsRotation(p, e, s, n - 1) || p == Pattern(e, s, n - 1, 64)
  {
    hide Pattern;
  }

  ghost predicate IsRun(p: Bits, e: nat, m: nat)
    requires e > 0
  {
    exists s: nat :: s < m && IsRotation(p, e, s, e)
  }

  /** The patterns of one width with runs of at most `m` ones. */
  function Runs(e: nat, m: nat): set<Bits>
    requires e > 0
  {
    if m == 0 then {} else Runs(e, m - 1) + Rotations(e, m - 1, e)
  }

  lemma RunsApart(p: Bits, e: nat, s: nat, f: nat, s': nat)
    requires IsElementSize(e) && IsElementSize(f) && s < e - 1 && s' < f - 1
    requires IsRotation(p, e, s, e) && IsRotation(p, f, s', f)
    ensures e == f && s == s'
  {
    hide Pattern;
    var r: nat :| r < e && p == Pattern(e, s, r, 64);
    var r': nat :| r' < f && p == Pattern(f, s', r', 64);
    PatternInjective(e, s, r, f, s', r');
  }

  /** `m` times `e`. */
  function Times(m: nat, e: nat): nat {
    if m == 0 then 0 else Times(m - 1, e) + e
  }

  lemma {:induction false} TimesIs(m: nat, e: nat)
    ensures Times(m, e) == m * e
  {
    if m > 0 {
      TimesIs(m - 1, e);
    }
  }

  lemma {:induction false} RunsCount(e: nat, m: nat)
    requires IsElementSize(e) && m <= e - 1
    ensures forall p :: p in Runs(e, m) <==> IsRun(p, e, m)
    ensures |Runs(e, m)| == Times(m, e)
  {
    if m == 0 {
      assert forall p :: !IsRun(p, e, 0);
    } else {
      hide IsRotation, Rotations, IsRun, IsElementSize;
      RunsCount(e, m - 1);
      RotationsCount(e, m - 1, e);
      RunsStep(e, m, Runs(e, m - 1), Rotations(e, m - 1, e));
    }
  }

  lemma RunsStep(e: nat, m: nat, before: set<Bits>, now: set<Bits>)
    requires IsElementSize(e) && 0 < m <= e - 1
    requires forall p :: p in before <==> IsRun(p, e, m - 1)
    requires forall p :: p in now <==> IsRotation(p, e, m - 1, e)
    ensures forall p :: p in before + now <==> IsRun(p, e, m)
    ensures |before + now| == |before| + |now|
  {
    hide IsRotation, IsRun, IsElementSize;
    forall p: Bits
      ensures p in before + now <==> IsRun(p, e, m)
      ensures !(p in before && p in now)
    {
      OneMoreRun(p, e, m);
    }
    Together(before, now);
  }

  lemma OneMoreRun(p: Bits, e: nat, m: nat)
    requires IsElementSize(e) && 0 < m <= e - 1
    ensures IsRun(p, e, m) <==> IsRun(p, e, m - 1) || IsRotation(p, e, m - 1, e)
    ensures !(IsRun(p, e, m - 1) && IsRotation(p, e, m - 1, e))
  {
    hide IsRotation;
    if IsRun(p, e, m - 1) && IsRotation(p, e, m - 1, e) {
      var s: nat :| s < m - 1 && IsRotation(p, e, s, e);
      RunsApart(p, e, s, e, m - 1);
    }
  }

  lemma Together<T>(x: set<T>, y: set<T>)
    requires forall p :: !(p in x && p in y)
    ensures |x + y| == |x| + |y|
  {
    assert x !! y;
  }

  /** The widths, as powers of two, and the immediates of at most that width. */
  function Widths(len: nat): set<Bits> {
    if len == 0 then {} else Widths(len - 1) + Runs(Pow2(len), Pow2(len) - 1)
  }

  ghost predicate IsImmediate(p: Bits, len: nat) {
    exists k: nat :: 1 <= k <= len && IsRun(p, Pow2(k), Pow2(k) - 1)
  }

  function CountUpTo(len: nat): nat {
    if len == 0 then 0 else CountUpTo(len - 1) + Times(Pow2(len) - 1, Pow2(len))
  }

  lemma PowersDiffer(k: nat, len: nat)
    requires k < len <= 6
    ensures Pow2(k) != Pow2(len)
  {
    assert Pow2(0) == 1 && Pow2(1) == 2 && Pow2(2) == 4 && Pow2(3) == 8;
    assert Pow2(4) == 16 && Pow2(5) == 32 && Pow2(6) == 64;
  }

  lemma {:induction false} WidthsCount(len: nat)
    requires len <= 6
    ensures forall p :: p in Widths(len) <==> IsImmediate(p, len)
    ensures |Widths(len)| == CountUpTo(len)
  {
    hide IsRun, IsImmediate, Runs, Pow2, Times, IsElementSize;
    if len == 0 {
      forall p: Bits
        ensures !IsImmediate(p, 0)
      {
        NoImmediate(p);
      }
    } else {
      var e := Pow2(len);
      ElementSizes(len);
      WidthsCount(len - 1);
      RunsCount(e, e - 1);
      WidthsStep(len, Widths(len - 1), Runs(e, e - 1));
    }
  }

  lemma WidthsStep(len: nat, before: set<Bits>, now: set<Bits>)
    requires 1 <= len <= 6
    requires forall p :: p in before <==> IsImmediate(p, len - 1)
    requires forall p :: p in now <==> IsRun(p, Pow2(len), Pow2(len) - 1)
    ensures forall p :: p in before + now <==> IsImmediate(p, len)
    ensures |before + now| == |before| + |now|
  {
    hide IsRun, IsImmediate, Pow2;
    forall p: Bits
      ensures p in before + now <==> IsImmediate(p, len)
      ensures !(p in before && p in now)
    {
      OneMoreWidth(p, len);
    }
    Together(before, now);
  }

  lemma NoImmediate(p: Bits)
    ensures !IsImmediate(p, 0)
  {
  }

  lemma OneMoreWidth(p: Bits, len: nat)
    requires 1 <= len <= 6
    ensures IsImmediate(p, len) <==> IsImmediate(p, len - 1) || IsRun(p, Pow2(len), Pow2(len) - 1)
    ensures !(IsImmediate(p, len - 1) && IsRun(p, Pow2(len), Pow2(len) - 1))
  {
    hide IsRun, Pow2;
    if IsImmediate(p, len - 1) {
      var k: nat :| 1 <= k <= len - 1 && IsRun(p, Pow2(k), Pow2(k) - 1);
      WidthsApart(p, k, len);
    }
  }

  lemma WidthsApart(p: Bits, k: nat, len: nat)
    requires 1 <= k < len <= 6
    requires IsRun(p, Pow2(k), Pow2(k) - 1)
    ensures !IsRun(p, Pow2(len), Pow2(len) - 1)
  {
    hide IsRotation, Pow2;
    var e, f := Pow2(k), Pow2(len);
    ElementSizes(k);
    ElementSizes(len);
    PowersDiffer(k, len);
    var s: nat :| s < e - 1 && IsRotation(p, e, s, e);
    forall s': nat | s' < f - 1
      ensures !IsRotation(p, f, s', f)
    {
      if IsRotation(p, f, s', f) {
        RunsApart(p, e, s, f, s');
      }
    }
  }

  lemma Counted()
    ensures CountUpTo(6) == 5334
  {
    assert Pow2(0) == 1 && Pow2(1) == 2 && Pow2(2) == 4 && Pow2(3) == 8;
    assert Pow2(4) == 16 && Pow2(5) == 32 && Pow2(6) == 64;
    hide Pow2, Times;
    TimesIs(1, 2);
    TimesIs(3, 4);
    TimesIs(7, 8);
    TimesIs(15, 16);
    TimesIs(31, 32);
    TimesIs(63, 64);
    assert CountUpTo(2) == 14;
    assert CountUpTo(4) == CountUpTo(2) + 56 + 240;
    assert CountUpTo(6) == CountUpTo(4) + 992 + 4032;
  }

  ghost predicate IsCanonicalPattern(p: Bits) {
    exists e: nat, s: nat, r: nat :: Canonical(e, s, r) && p == Pattern(e, s, r, 64)
  }

  lemma ImmediateIsCanonical(p: Bits)
    ensures IsImmediate(p, 6) <==> IsCanonicalPattern(p)
  {
    hide Pattern, Pow2;
    if IsImmediate(p, 6) {
      var k: nat :| 1 <= k <= 6 && IsRun(p, Pow2(k), Pow2(k) - 1);
      var e := Pow2(k);
      ElementSizes(k);
      var s: nat :| s < e - 1 && IsRotation(p, e, s, e);
      var r: nat :| r < e && p == Pattern(e, s, r, 64);
      assert Canonical(e, s, r);
    }
    if IsCanonicalPattern(p) {
      var e: nat, s: nat, r: nat :| Canonical(e, s, r) && p == Pattern(e, s, r, 64);
      var k := LogOf(e);
      assert IsRotation(p, e, s, e);
      assert IsRun(p, Pow2(k), Pow2(k) - 1);
    }
  }

  lemma LogOf(e: nat) returns (k: nat)
    requires IsElementSize(e)
    ensures 1 <= k <= 6 && Pow2(k) == e
  {
    assert Pow2(0) == 1 && Pow2(1) == 2 && Pow2(2) == 4 && Pow2(3) == 8;
    assert Pow2(4) == 16 && Pow2(5) == 32 && Pow2(6) == 64;
    k := if e == 2 then 1 else if e == 4 then 2 else if e == 8 then 3 else if e == 16 then 4 else if e == 32 then 5 else 6;
  }

  /** The mechanism generates 5334 different 64-bit patterns. */
  lemma PatternCount()
    ensures |Widths(6)| == 5334
    ensures forall p :: p in Widths(6) <==> IsCanonicalPattern(p)
  {
    hide IsImmediate, IsCanonicalPattern, Widths, CountUpTo;
    WidthsCount(6);
    Counted();
    forall p: Bits
      ensures p in Widths(6) <==> IsCanonicalPattern(p)
    {
      ImmediateIsCanonical(p);
    }
  }

  // ----- every pattern is the value of some field -----

  /** N:imms:immr for an element of two to the `len` bits. */
  function Encoded(len: nat, s: nat, r: nat): (x: Bits)
    requires 1 <= len <= 6
    ensures |x| == 32
  {
    (ToBits(r, len) + Zeros(6 - len)) + Imms(len, s) + [len == 6] + Zeros(19)
  }

  /** A zero above the run length ends the element size, except for 64 bits. */
  function Imms(len: nat, s: nat): (imms: Bits)
    requires 1 <= len <= 6
    ensures |imms| == 6
  {
    ToBits(s, len) + (if len == 6 then [] else [false] + Ones(5 - len))
  }

  lemma EncodedLen(len: nat, s: nat, r: nat)
    requires 1 <= len <= 6
    ensures Len(Encoded(len, s, r)) == len
  {
    hide ToBits;
    var x := Encoded(len, s, r);
    var h := SizeField(x);
    assert x[12] == (len == 6) && forall i :: 0 <= i < 6 ==> x[6 + i] == Imms(len, s)[i];
    HighBitMeaning(h);
    assert h[6] == x[12];
    assert forall i :: 0 <= i < 6 ==> h[i] == !x[6 + i];
    assert forall i :: 7 <= i < 32 ==> !h[i];
    assert h[len];
  }

  /** The fields come back. */
  lemma EncodedFields(len: nat, s: nat, r: nat)
    requires 1 <= len <= 6 && s < Pow2(len) && r < Pow2(len)
    ensures Len(Encoded(len, s, r)) == len && S(Encoded(len, s, r)) == s && R(Encoded(len, s, r)) == r
  {
    hide ToBits, SizeField, Pow2, Nat;
    EncodedLen(len, s, r);
    var x := Encoded(len, s, r);
    assert x[6..6 + len] == ToBits(s, len) && x[..len] == ToBits(r, len);
    NatOfToBits(s, len);
    NatOfToBits(r, len);
  }

  /** A field that decodes to `p` with a run that does not fill its element. */
  ghost predicate Encodes(x: Bits, p: Bits) {
    |x| == 32 && S(x) != Pow2(Len(x)) - 1 && LogimmValue(x, 64) == Some(p)
  }

  lemma EncodedIsCanonical(x: Bits, p: Bits)
    requires Encodes(x, p)
    ensures IsCanonicalPattern(p)
  {
    hide Pattern, Pow2;
    ElementSizes(Len(x));
    assert Canonical(Pow2(Len(x)), S(x), R(x));
  }

  /** The 5334 patterns are the immediates of 64 bits that `decode_logimm` returns for the
      fields the architecture defines. */
  lemma PatternsAreImmediates(p: Bits)
    ensures p in Widths(6) <==> exists x :: Encodes(x, p)
  {
    hide Widths, Pattern, Pow2, Len, S, R, Encoded;
    PatternCount();
    if p in Widths(6) {
      var e: nat, s: nat, r: nat :| Canonical(e, s, r) && p == Pattern(e, s, r, 64);
      var k := LogOf(e);
      EncodedFields(k, s, r);
      assert Encodes(Encoded(k, s, r), p);
    }
    if x :| Encodes(x, p) {
      EncodedIsCanonical(x, p);
    }
  }
}
