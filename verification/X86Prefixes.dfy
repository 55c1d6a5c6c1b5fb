/** The x86 decoder's prefix bytes as functions on its state (`source/x86/decoder.c`). */
module X86Prefixes {
  import opened Wrappers

  type Byte = bv8

  datatype Mode = Mode16 | Mode32 | Mode64

  datatype Encoding = Legacy | Vex | Evex | Mvex | Xop

  datatype Segment = NoSegment | ES | CS | SS | DS | FS | GS

  datatype LastF = NoF | F2 | F3

  /** The opcode maps; `Map0F` and so on are the offsets into the lookup table. */
  datatype OpcodeMap = Primary | Map0F | Map0F0F | Map0F38 | Map0F3A | MapXop8 | MapXop9 | MapXopA

  // The fields of `x86_diagram` that the prefixes write, by what they are about.

  datatype Sizes = Sizes(osz: nat, asz: nat, w: bool)

  datatype Flags = Flags(p66: bool, f0: bool, f2: bool, f3: bool)

  datatype Rex = Rex(hasRex: bool, r: bool, x: bool, b: bool, fb: bool, rp: bool, vp: bool, bp: bool)

  datatype Vector = Vector(
    enc: Encoding, vl: nat, ll: Byte, vvvv: Byte, aaa: Byte, e: bool, z: bool, sss: Byte)

  /** What the prefixes decide. */
  datatype State = State(
    longMode: bool, sizes: Sizes, flags: Flags, rex: Rex, vector: Vector,
    vfpc: nat, map_: OpcodeMap, segment: Segment, lastF: LastF, isUgly: bool)

  // ----- the initial state -----

  function DefaultOperandSize(mode: Mode): nat {
    if mode == Mode16 then 0 else 1
  }

  function DefaultAddressSize(mode: Mode): nat {
    match mode
    case Mode16 => 0
    case Mode32 => 1
    case Mode64 => 2
  }

  function InitialState(mode: Mode): State {
    State(mode == Mode64, Sizes(DefaultOperandSize(mode), DefaultAddressSize(mode), false),
          Flags(false, false, false, false),
          Rex(false, false, false, false, false, false, false, false),
          Vector(Legacy, 0, 0, 0, 0, false, false, 0),
          0, Primary, NoSegment, NoF, false)
  }

  // ----- one prefix -----

  predicate IsRexByte(op: Byte) {
    op & 0xf0 == 0x40
  }

  function SegmentOf(op: Byte): Segment {
    if op == 0x26 then ES
    else if op == 0x2e then CS
    else if op == 0x36 then SS
    else if op == 0x3e then DS
    else if op == 0x64 then FS
    else if op == 0x65 then GS
    else NoSegment
  }

  /** A byte after which the decoder looks for another prefix. */
  predicate IsPrefix(mode: Mode, op: Byte) {
    || (mode == Mode64 && IsRexByte(op))
    || op == 0x66 || op == 0x67 || op == 0xf0 || op == 0xf2 || op == 0xf3
    || SegmentOf(op) != NoSegment
  }

  predicate Has(byte: Byte, mask: Byte) {
    byte & mask != 0
  }

  function WithW(sizes: Sizes, w: bool): Sizes {
    sizes.(w := w, osz := if w then 2 else sizes.osz)
  }

  function WithRex(rex: Rex, op: Byte): Rex {
    rex.(hasRex := true, r := Has(op, 4), x := Has(op, 2), b := Has(op, 1), fb := Has(op, 1))
  }

  /** The effect of one prefix. */
  function Step(mode: Mode, s: State, op: Byte): State {
    if IsRexByte(op) then
      s.(rex := WithRex(s.rex, op), sizes := WithW(s.sizes, Has(op, 8)), vfpc := s.vfpc + 1)
    else if op == 0x66 then
      s.(flags := s.flags.(p66 := true), sizes := s.sizes.(osz := DefaultOperandSize(mode) / 2), vfpc := s.vfpc + 1)
    else if op == 0x67 then
      s.(sizes := s.sizes.(asz := DefaultAddressSize(mode) / 2))
    else if op == 0xf0 then
      s.(flags := s.flags.(f0 := true), vfpc := s.vfpc + 1)
    else if op == 0xf2 then
      s.(flags := s.flags.(f2 := true), lastF := F2, vfpc := s.vfpc + 1)
    else if op == 0xf3 then
      s.(flags := s.flags.(f3 := true), lastF := F3, vfpc := s.vfpc + 1)
    else
      s.(segment := SegmentOf(op), isUgly := s.isUgly || s.segment != NoSegment)
  }

  lemma StepOfSegment(mode: Mode, s: State, op: Byte)
    requires SegmentOf(op) != NoSegment
    ensures Step(mode, s, op) == s.(segment := SegmentOf(op), isUgly := s.isUgly || s.segment != NoSegment)
  {
  }

  lemma StepKeepsMode(mode: Mode, s: State, op: Byte)
    ensures Step(mode, s, op).longMode == s.longMode
  {
  }

  lemma StepOfRex(mode: Mode, s: State, op: Byte)
    requires IsRexByte(op)
    ensures Step(mode, s, op)
      == s.(rex := WithRex(s.rex, op), sizes := WithW(s.sizes, Has(op, 8)), vfpc := s.vfpc + 1)
  {
  }

  /** The effect of a run of prefixes. */
  function Steps(mode: Mode, s: State, ops: seq<Byte>): State
    decreases |ops|
  {
    if ops == [] then s else Step(mode, Steps(mode, s, ops[..|ops| - 1]), ops[|ops| - 1])
  }

  /** How many prefixes `bytes` starts with. */
  function RunLength(mode: Mode, bytes: seq<Byte>): (n: nat)
    ensures n <= |bytes|
    ensures forall i :: 0 <= i < n ==> IsPrefix(mode, bytes[i])
    ensures n < |bytes| ==> !IsPrefix(mode, bytes[n])
  {
    if bytes == [] || !IsPrefix(mode, bytes[0]) then 0 else 1 + RunLength(mode, bytes[1..])
  }

  // ----- vector prefixes -----

  function WithPp(flags: Flags, pp: Byte): Flags {
    if pp == 1 then flags.(p66 := true)
    else if pp == 2 then flags.(f3 := true)
    else if pp == 3 then flags.(f2 := true)
    else flags
  }

  function WithLl(vector: Vector, ll: Byte): Vector {
    vector.(ll := ll, vl := if ll == 0 then 0 else if ll == 1 then 1 else 2)
  }

  function MapOf(mmmmm: Byte): Option<OpcodeMap> {
    if mmmmm == 1 then Some(Map0F)
    else if mmmmm == 2 then Some(Map0F38)
    else if mmmmm == 3 then Some(Map0F3A)
    else None
  }

  function XopMapOf(mmmmm: Byte): Option<OpcodeMap> {
    if mmmmm == 8 then Some(MapXop8)
    else if mmmmm == 9 then Some(MapXop9)
    else if mmmmm == 10 then Some(MapXopA)
    else None
  }

  function MvexMapOf(mmmm: Byte): Option<OpcodeMap> {
    if mmmm == 0 then Some(Map0F) else MapOf(mmmm)
  }

  function Inverted4(field: Byte): Byte {
    0x0f & !field
  }

  /** Bits 7 to 5 of the second byte, the inverted R, X and B, as one test. */
  predicate AllSet(byte: Byte) {
    Has(byte, 0x80) && Has(byte, 0x40) && Has(byte, 0x20)
  }

  /** R, X and B of a prefix of three or four bytes. */
  function WithRxb(rex: Rex, byte: Byte): Rex {
    rex.(hasRex := true, r := !Has(byte, 0x80), x := !Has(byte, 0x40), b := !Has(byte, 0x20))
  }

  /** Outside 64-bit mode C5 is LDS unless bit 7 follows. */
  function Vex2(s: State, p: seq<Byte>): Option<State>
    requires |p| == 2
  {
    if !s.longMode && !Has(p[1], 0x80) then None
    else
      Some(s.(map_ := Map0F, flags := WithPp(s.flags, p[1] & 3),
              rex := s.rex.(hasRex := true, r := !Has(p[1], 0x80)),
              vector := WithLl(s.vector, if Has(p[1], 4) then 1 else 0).(
                enc := Vex, vvvv := Inverted4((p[1] >> 3) & 0xf))))
  }

  function Vex3(s: State, p: seq<Byte>): Option<State>
    requires |p| == 3
  {
    if !s.longMode && !AllSet(p[1]) then None
    else if MapOf(p[1] & 0x1f).None? then None
    else
      Some(s.(map_ := MapOf(p[1] & 0x1f).value, flags := WithPp(s.flags, p[2] & 3),
              sizes := WithW(s.sizes, Has(p[2], 0x80)), rex := WithRxb(s.rex, p[1]),
              vector := WithLl(s.vector, if Has(p[2], 4) then 1 else 0).(
                enc := Vex, vvvv := Inverted4((p[2] >> 3) & 0xf))))
  }

  function XopPrefix(s: State, p: seq<Byte>): Option<State>
    requires |p| == 3
  {
    if !s.longMode && !AllSet(p[1]) then None
    else if XopMapOf(p[1] & 0x1f).None? then None
    else
      Some(s.(map_ := XopMapOf(p[1] & 0x1f).value,
              sizes := WithW(s.sizes, Has(p[2], 0x80)), rex := WithRxb(s.rex, p[1]),
              vector := WithLl(s.vector, if Has(p[2], 4) then 1 else 0).(
                enc := Xop, vvvv := Inverted4((p[2] >> 3) & 0xf))))
  }

  /** EVEX has bits 3 and 2 of its second byte clear and bit 2 of its third set. */
  predicate IsEvex(p: seq<Byte>)
    requires |p| == 4
  {
    (p[1] >> 2) & 3 == 0 && Has(p[2], 4)
  }

  function EvexPrefix(s: State, p: seq<Byte>): Option<State>
    requires |p| == 4
  {
    if !s.longMode && !AllSet(p[1]) then None
    else if MapOf(p[1] & 3).None? then None
    else
      Some(s.(map_ := MapOf(p[1] & 3).value, flags := WithPp(s.flags, p[2] & 3),
              sizes := WithW(s.sizes, Has(p[2], 0x80)),
              rex := WithRxb(s.rex, p[1]).(
                rp := !Has(p[1], 0x10), vp := !Has(p[3], 8), bp := Has(p[3], 0x10), fb := Has(p[3], 0x10)),
              vector := WithLl(s.vector, (p[3] >> 5) & 3).(
                enc := Evex, aaa := p[3] & 7, vvvv := Inverted4((p[2] >> 3) & 0xf), z := Has(p[3], 0x80))))
  }

  /** MVEX exists in 64-bit mode only. */
  function MvexPrefix(s: State, p: seq<Byte>): Option<State>
    requires |p| == 4
  {
    if MvexMapOf(p[1] & 0xf).None? then None
    else
      Some(s.(map_ := MvexMapOf(p[1] & 0xf).value, flags := WithPp(s.flags, p[2] & 3),
              sizes := WithW(s.sizes, Has(p[2], 0x80)),
              rex := WithRxb(s.rex, p[1]).(rp := !Has(p[1], 0x10), vp := !Has(p[3], 8)),
              vector := s.vector.(
                enc := Mvex, e := Has(p[3], 0x80), aaa := p[3] & 7, vvvv := Inverted4((p[2] >> 3) & 0xf),
                z := false, sss := (p[3] >> 4) & 7)))
  }

  function MevexPrefix(s: State, p: seq<Byte>): Option<State>
    requires |p| == 4
  {
    if IsEvex(p) then EvexPrefix(s, p)
    else if s.longMode then MvexPrefix(s, p)
    else None
  }

  /** How many bytes a vector prefix that starts with `op` has. */
  function VectorLength(op: Byte): nat {
    if op == 0xc5 then 2 else if op == 0xc4 || op == 0x8f then 3 else if op == 0x62 then 4 else 0
  }

  function VectorPrefix(s: State, rest: seq<Byte>): Option<State> {
    if rest == [] || VectorLength(rest[0]) == 0 || |rest| < VectorLength(rest[0]) then None
    else
      var p := rest[..VectorLength(rest[0])];
      if p[0] == 0xc5 then Vex2(s, p)
      else if p[0] == 0xc4 then Vex3(s, p)
      else if p[0] == 0x8f then XopPrefix(s, p)
      else MevexPrefix(s, p)
  }

  /** The map bytes: 0F, and 0F, 38 or 3A after it. */
  function EscapeLength(rest: seq<Byte>): nat {
    if rest == [] || rest[0] != 0x0f then 0
    else if |rest| > 1 && (rest[1] == 0x0f || rest[1] == 0x38 || rest[1] == 0x3a) then 2
    else 1
  }

  function EscapeMap(rest: seq<Byte>): OpcodeMap
    requires EscapeLength(rest) > 0
  {
    if EscapeLength(rest) == 1 then Map0F
    else if rest[1] == 0x0f then Map0F0F
    else if rest[1] == 0x38 then Map0F38
    else Map0F3A
  }

  /** After the run of prefixes: an escape, a vector prefix or neither. */
  function AfterRun(s: State, rest: seq<Byte>): State {
    if EscapeLength(rest) > 0 then s.(map_ := EscapeMap(rest))
    else if VectorPrefix(s, rest).Some? then VectorPrefix(s, rest).value
    else s
  }

  function AfterRunLength(s: State, rest: seq<Byte>): (n: nat)
    ensures n <= |rest|
  {
    if EscapeLength(rest) > 0 then EscapeLength(rest)
    else if VectorPrefix(s, rest).Some? then VectorLength(rest[0])
    else 0
  }

  /** The state after the prefix loop. */
  function AtDispatch(mode: Mode, bytes: seq<Byte>): State {
    var n := RunLength(mode, bytes);
    AfterRun(Steps(mode, InitialState(mode), bytes[..n]), bytes[n..])
  }

  /** Where the opcode, or for 3DNow! the ModRM byte, starts. */
  function DispatchAt(mode: Mode, bytes: seq<Byte>): (pc: nat)
    ensures pc <= |bytes|
  {
    var n := RunLength(mode, bytes);
    n + AfterRunLength(Steps(mode, InitialState(mode), bytes[..n]), bytes[n..])
  }

  lemma {:induction false} RunLengthIs(mode: Mode, bytes: seq<Byte>, n: nat)
    requires n <= |bytes| && forall i :: 0 <= i < n ==> IsPrefix(mode, bytes[i])
    requires n < |bytes| ==> !IsPrefix(mode, bytes[n])
    ensures RunLength(mode, bytes) == n
  {
    if n > 0 {
      RunLengthIs(mode, bytes[1..], n - 1);
    }
  }

  /** Nothing else starts like an escape or a vector prefix. */
  lemma NoEscape(s: State, rest: seq<Byte>)
    requires rest == [] || rest[0] !in {0x0f, 0x8f, 0x62, 0xc4, 0xc5}
    ensures AfterRun(s, rest) == s && AfterRunLength(s, rest) == 0
  {
  }

  /** The size prefixes and the flag prefixes, one by one. */
  lemma StepOfSize(mode: Mode, s: State, op: Byte)
    requires op == 0x66 || op == 0x67
    ensures Step(mode, s, op) ==
      if op == 0x66 then
        s.(flags := s.flags.(p66 := true), sizes := s.sizes.(osz := DefaultOperandSize(mode) / 2), vfpc := s.vfpc + 1)
      else
        s.(sizes := s.sizes.(asz := DefaultAddressSize(mode) / 2))
  {
  }

  lemma StepOfFlag(mode: Mode, s: State, op: Byte)
    requires op == 0xf0 || op == 0xf2 || op == 0xf3
    ensures Step(mode, s, op) ==
      if op == 0xf0 then s.(flags := s.flags.(f0 := true), vfpc := s.vfpc + 1)
      else if op == 0xf2 then s.(flags := s.flags.(f2 := true), lastF := F2, vfpc := s.vfpc + 1)
      else s.(flags := s.flags.(f3 := true), lastF := F3, vfpc := s.vfpc + 1)
  {
  }
}
