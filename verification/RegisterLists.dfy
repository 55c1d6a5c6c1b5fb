/** Register lists of AArch32 and AArch64 and the bit-field aliases of AArch64. */
module RegisterLists {
  import opened Bits
  import opened BinaryUtils

  // ----- general register lists (source/aarch32/decoder.c) -----

  /** The registers a raw mask stands for. */
  function Registers(raw: Bits, r0: nat): seq<nat> {
    Offsets(SetPositions(raw, 0), r0)
  }

  function Offsets(positions: seq<nat>, r0: nat): (rs: seq<nat>)
    ensures |rs| == |positions|
    ensures forall k :: 0 <= k < |rs| ==> rs[k] == positions[k] + r0
  {
    seq(|positions|, k requires 0 <= k < |positions| => positions[k] + r0)
  }

  lemma {:induction false} PositionsMeaning(x: Bits, i: nat)
    requires i <= |x|
    ensures |SetPositions(x, i)| == Popcount(x[i..])
    ensures forall j :: j in SetPositions(x, i) <==> i <= j < |x| && x[j]
    ensures forall k, l :: 0 <= k < l < |SetPositions(x, i)| ==> SetPositions(x, i)[k] < SetPositions(x, i)[l]
    decreases |x| - i
  {
    if i < |x| {
      PositionsMeaning(x, i + 1);
      assert x[i..][1..] == x[i + 1..];
      var first, rest := (if x[i] then [i] else []), SetPositions(x, i + 1);
      assert SetPositions(x, i) == first + rest;
      assert forall k :: 0 <= k < |rest| ==> rest[k] in rest;
    }
  }

  /** A list holds exactly the registers whose bits are set, once each and in increasing
      order, and as many as the mask has set bits. */
  lemma ListIsTheMask(raw: Bits, r0: nat)
    ensures forall r :: r in Registers(raw, r0) <==> r0 <= r < r0 + |raw| && raw[r - r0]
    ensures forall k, l :: 0 <= k < l < |Registers(raw, r0)| ==> Registers(raw, r0)[k] < Registers(raw, r0)[l]
    ensures |Registers(raw, r0)| == Popcount(raw)
  {
    hide SetPositions, Popcount;
    PositionsMeaning(raw, 0);
    assert raw[0..] == raw;
    var ps, rs := SetPositions(raw, 0), Registers(raw, r0);
    forall r: nat
      ensures r in rs <==> r0 <= r < r0 + |raw| && raw[r - r0]
    {
      if r in rs {
        var k :| 0 <= k < |rs| && rs[k] == r;
        assert ps[k] in ps;
      }
      if r0 <= r < r0 + |raw| && raw[r - r0] {
        assert r - r0 in ps;
        var k :| 0 <= k < |ps| && ps[k] == r - r0;
        assert rs[k] == r;
      }
    }
  }

  lemma {:induction false} PopcountLength(x: Bits)
    ensures Popcount(x) <= |x|
  {
    if x != [] {
      PopcountLength(x[1..]);
    }
  }

  lemma {:induction false} PositionsSplit(x: Bits, i: nat, j: nat)
    requires i <= j <= |x|
    ensures SetPositions(x, i) == SetPositions(x[..j], i) + SetPositions(x, j)
    decreases j - i
  {
    if i < j {
      PositionsSplit(x, i + 1, j);
    } else {
      assert SetPositions(x[..j], i) == [];
    }
  }

  /** The loop of `decode_arg_glist` over a 32-bit mask; the program counter in a written
      list makes the instruction a branch. */
  method DecodeGlist(opcodeMask: Bits, r0: nat, write: bool, registers: array<nat>) returns (count: nat, branches: bool)
    requires |opcodeMask| == 32 && registers.Length == 32
    modifies registers
    ensures count == |Registers(opcodeMask, r0)| <= 32
    ensures registers[..count] == Registers(opcodeMask, r0)
    ensures registers[count..] == old(registers[..])[count..]
    ensures branches <==> write && r0 + 15 in registers[..count]
  {
    hide SetPositions, Offsets, Shr, IsZero, Popcount;
    var raw := opcodeMask;
    var pcInList := raw[15];
    var n, i := 0, 0;
    ghost var before := registers[..];
    ShrNothing(opcodeMask);
    NoPositions(opcodeMask, r0);
    PopcountLength(opcodeMask);
    ListIsTheMask(opcodeMask, r0);
    while !IsZero(raw)
      invariant i <= 32 && raw == Shr(opcodeMask, i)
      invariant n <= i && registers[..n] == Offsets(SetPositions(opcodeMask[..i], 0), r0)
      invariant registers[n..] == before[n..]
      decreases 32 - i
    {
      NextBit(opcodeMask, opcodeMask, i);
      NextPosition(opcodeMask, i, r0);
      if raw[0] {
        registers[n] := i + r0;
        n := n + 1;
      }
      ShrShr(opcodeMask, i);
      raw := Shr(raw, 1);
      i := i + 1;
    }
    NoMorePositions(opcodeMask, i);
    count := n;
    branches := pcInList && write;
  }

  lemma NoPositions(x: Bits, r0: nat)
    ensures Offsets(SetPositions(x[..0], 0), r0) == []
  {
  }

  lemma NextPosition(x: Bits, i: nat, r0: nat)
    requires i < |x|
    ensures Offsets(SetPositions(x[..i + 1], 0), r0)
      == Offsets(SetPositions(x[..i], 0), r0) + if x[i] then [i + r0] else []
  {
    PositionsSplit(x[..i + 1], 0, i);
    assert x[..i + 1][..i] == x[..i];
    assert SetPositions(x[..i + 1], i + 1) == [];
  }

  lemma {:induction false} NoMorePositions(x: Bits, i: nat)
    requires i <= |x| && IsZero(Shr(x, i))
    ensures SetPositions(x, 0) == SetPositions(x[..i], 0)
  {
    forall j | i <= j < |x|
      ensures !x[j]
    {
      assert !Shr(x, i)[j - i];
    }
    PositionsSplit(x, 0, i);
    ZeroPositions(x, i);
  }

  lemma {:induction false} ZeroPositions(x: Bits, i: nat)
    requires i <= |x| && forall j :: i <= j < |x| ==> !x[j]
    ensures SetPositions(x, i) == []
    decreases |x| - i
  {
    if i < |x| {
      ZeroPositions(x, i + 1);
    }
  }

  // ----- vector lists (source/aarch64/decoder.c) -----

  /** Consecutive vector registers, wrapping from 31 to 0 of the same file. */
  method DecodeVlist(base: nat, first: nat, count: nat, registers: array<nat>)
    requires first <= base < first + 32 && count <= registers.Length == 32
    modifies registers
    ensures forall k :: 0 <= k < count ==> registers[k] == first + (base - first + k) % 32
    ensures registers[count..] == old(registers[..])[count..]
  {
    var last := first + 31;
    var next := base;
    var i := 0;
    while i < count
      invariant i <= count
      invariant next == first + (base - first + i) % 32
      invariant forall k :: 0 <= k < i ==> registers[k] == first + (base - first + k) % 32
      invariant registers[i..] == old(registers[..])[i..]
    {
      registers[i] := next;
      next := next + 1;
      if next == 1 + last {
        next := first;
      }
      i := i + 1;
    }
  }

  // ----- bit-field aliases (source/aarch64/decoder.c) -----

  /** Mnemonics that put a field into zeros, and those that take one out. */
  datatype Alias = Insert | Extract

  /** The raw `immr` and `imms` of an alias on a field of `width` bits from bit `lsb`, in
      the terms of the equivalent SBFM, UBFM or BFM instruction. */
  function Encode(alias: Alias, datasize: nat, lsb: nat, width: nat): (nat, nat)
    requires lsb < datasize && 0 < width
  {
    match alias
    case Insert => ((datasize - lsb) % datasize, width - 1)
    case Extract => (lsb, lsb + width - 1)
  }

  /** `decode_imm_lsb`; for a power of two the mask is the remainder. */
  function DecodeImmLsb(alias: Alias, datasize: nat, immr: nat): nat
    requires immr < datasize
  {
    match alias
    case Insert => (datasize - immr) % datasize
    case Extract => immr
  }

  /** `decode_imm_width`, on unsigned 32-bit numbers. */
  function DecodeImmWidth(alias: Alias, imms: nat, lsb: nat): nat
    requires imms < 64 && lsb < 64
  {
    match alias
    case Insert => imms + 1
    case Extract => (imms + 1 - lsb) % 0x1_0000_0000
  }

  lemma Modulo(datasize: nat, n: nat)
    requires n < datasize
    ensures (datasize - n) % datasize == if n == 0 then 0 else datasize - n
  {
  }

  /** Every legal field comes back from its encoding. */
  lemma BitfieldRoundTrip(alias: Alias, datasize: nat, lsb: nat, width: nat)
    requires datasize == 32 || datasize == 64
    requires lsb < datasize && 0 < width && lsb + width <= datasize
    ensures var (immr, imms) := Encode(alias, datasize, lsb, width);
      && immr < datasize && imms < datasize
      && DecodeImmLsb(alias, datasize, immr) == lsb
      && DecodeImmWidth(alias, imms, lsb) == width
  {
    match alias
    case Insert =>
      Modulo(datasize, lsb);
      Modulo(datasize, (datasize - lsb) % datasize);
    case Extract =>
      assert (width) % 0x1_0000_0000 == width;
  }

  /** The instruction UBFM of Arm DDI 0487, chapter C6: with imms not below immr it takes
      bits immr to imms out to the bottom, else it puts the low imms + 1 bits at the
      position datasize - immr, zeros everywhere else. */
  predicate UbfmBit(x: Bits, immr: nat, imms: nat, i: nat)
    requires immr < |x| && imms < |x| && i < |x|
  {
    if imms >= immr then i + immr <= imms && x[i + immr]
    else |x| - immr <= i <= |x| - immr + imms && x[i - (|x| - immr)]
  }

  /** The raw fields do what the alias says: put the low bits in at the position, or take the
      field out to the bottom. */
  lemma AliasMoves(alias: Alias, x: Bits, lsb: nat, width: nat, i: nat)
    requires |x| == 32 || |x| == 64
    requires lsb < |x| && 0 < width && lsb + width <= |x| && i < |x|
    ensures var (immr, imms) := Encode(alias, |x|, lsb, width);
      && immr < |x| && imms < |x|
      && UbfmBit(x, immr, imms, i) == match alias
           case Insert => lsb <= i < lsb + width && x[i - lsb]
           case Extract => i < width && x[lsb + i]
  {
    Modulo(|x|, lsb);
  }
}
