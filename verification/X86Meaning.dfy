/** The x86 decoder's codes in plain terms: sizes in bits, prefixes and fields as numbers,
    maps by their escape bytes, and what follows for lengths and for the lookup. */
module X86Meaning {
  import opened Wrappers
  import opened X86Prefixes
  import opened X86PrefixOrder
  import opened X86Length
  import opened X86VectorEncoding

  // ----- bytes as numbers -----

  /** Bit `i` of a byte. */
  predicate BitOf(byte: Byte, i: nat)
    requires i < 8
  {
    (byte >> i) & 1 == 1
  }

  lemma HasBits(byte: Byte)
    ensures Has(byte, 1) == BitOf(byte, 0) && Has(byte, 2) == BitOf(byte, 1)
    ensures Has(byte, 4) == BitOf(byte, 2) && Has(byte, 8) == BitOf(byte, 3)
  {
  }

  /** mod, reg and rm are the digits of the byte in octal. */
  lemma ModrmNumber(byte: Byte)
    ensures byte as int == 64 * ModOf(byte) as int + 8 * RegOf(byte) as int + RmOf(byte) as int
    ensures ModOf(byte) < 4 && RegOf(byte) < 8 && RmOf(byte) < 8
  {
  }

  /** The scale is two to the number in the two highest bits. */
  lemma ScaleNumber(sib: Byte)
    ensures ScaleOf(sib) == if sib < 64 then 1 else if sib < 128 then 2 else if sib < 192 then 4 else 8
  {
  }

  // ----- which bytes are prefixes -----

  predicate IsRexCode(op: Byte) {
    0x40 <= op <= 0x4f
  }

  /** A REX byte with W, or an operand-size prefix. */
  predicate IsSizeCode(op: Byte) {
    op == 0x66 || 0x48 <= op <= 0x4f
  }

  predicate IsRepeatCode(op: Byte) {
    op == 0xf2 || op == 0xf3
  }

  /** The override prefix of a segment register. */
  function SegmentByte(s: Segment): Byte
    requires s != NoSegment
  {
    match s
    case ES => 0x26
    case CS => 0x2e
    case SS => 0x36
    case DS => 0x3e
    case FS => 0x64
    case GS => 0x65
  }

  predicate IsSegmentCode(op: Byte) {
    op in {0x26, 0x2e, 0x36, 0x3e, 0x64, 0x65}
  }

  predicate IsForbiddenCode(op: Byte) {
    IsRexCode(op) || op in {0x66, 0xf0, 0xf2, 0xf3}
  }

  lemma Codes(op: Byte)
    ensures IsRexByte(op) == IsRexCode(op) && SetsOperandSize(op) == IsSizeCode(op)
    ensures IsSegment(op) == IsSegmentCode(op) && IsF(op) == IsRepeatCode(op) && IsForbidden(op) == IsForbiddenCode(op)
  {
  }

  lemma SegmentCodes(op: Byte, s: Segment)
    requires s != NoSegment
    ensures SegmentOf(op) == s <==> op == SegmentByte(s)
  {
  }

  /** The prefixes of a mode: REX in 64-bit mode, the segments, 66, 67, F0, F2 and F3. */
  lemma PrefixCodes(mode: Mode, op: Byte)
    ensures IsPrefix(mode, op) <==>
      (mode == Mode64 && IsRexCode(op)) || IsSegmentCode(op) || op in {0x66, 0x67, 0xf0, 0xf2, 0xf3}
  {
    Codes(op);
  }

  // ----- the run of prefixes -----

  /** The last byte of a kind stands at `k`. */
  ghost predicate Latest(ops: seq<Byte>, k: int, kind: Byte -> bool) {
    0 <= k < |ops| && kind(ops[k]) && forall j :: k < j < |ops| ==> !kind(ops[j])
  }

  predicate NoneOf(ops: seq<Byte>, kind: Byte -> bool) {
    forall j :: 0 <= j < |ops| ==> !kind(ops[j])
  }

  lemma {:induction false} LastOfMeaning(kind: Byte -> bool, ops: seq<Byte>, k: int)
    ensures NoneOf(ops, kind) ==> LastOf(kind, ops) == None
    ensures Latest(ops, k, kind) ==> LastOf(kind, ops) == Some(ops[k])
    decreases |ops|
  {
    if ops != [] {
      LastOfMeaning(kind, ops[..|ops| - 1], k);
    }
  }

  lemma {:induction false} LastOfSame(kind: Byte -> bool, code: Byte -> bool, ops: seq<Byte>)
    requires forall op :: kind(op) == code(op)
    ensures LastOf(kind, ops) == LastOf(code, ops) && Count(kind, ops) == Count(code, ops)
    decreases |ops|
  {
    if ops != [] {
      LastOfSame(kind, code, ops[..|ops| - 1]);
    }
  }

  /** The positions of a kind. */
  function Places(ops: seq<Byte>, kind: Byte -> bool): set<nat> {
    set i | 0 <= i < |ops| && kind(ops[i])
  }

  lemma {:induction false} CountsPlaces(kind: Byte -> bool, ops: seq<Byte>)
    ensures Count(kind, ops) == |Places(ops, kind)|
    decreases |ops|
  {
    if ops != [] {
      var n := |ops| - 1;
      CountsPlaces(kind, ops[..n]);
      assert Places(ops, kind) == if kind(ops[n]) then Places(ops[..n], kind) + {n} else Places(ops[..n], kind);
    }
  }

  /** 0, 1 and 2 stand for 16, 32 and 64 bits. */
  function SizeBits(code: nat): nat {
    if code == 0 then 16 else if code == 1 then 32 else if code == 2 then 64 else 0
  }

  /** The width of an address by mode, with and without a 67. */
  function AddressBits(mode: Mode, halved: bool): nat {
    match mode
    case Mode16 => 16
    case Mode32 => if halved then 16 else 32
    case Mode64 => if halved then 32 else 64
  }

  /** What the bits of the last REX mean. */
  predicate RexSays(s: State, rex: Byte) {
    && s.rex.hasRex && s.sizes.w == BitOf(rex, 3)
    && s.rex.r == BitOf(rex, 2) && s.rex.x == BitOf(rex, 1) && s.rex.b == s.rex.fb == BitOf(rex, 0)
  }

  predicate NoRexSeen(s: State) {
    && !s.rex.hasRex && !s.rex.r && !s.rex.x && !s.rex.b && !s.rex.fb && !s.sizes.w
  }

  ghost predicate SaysSizes(s: State, mode: Mode, ops: seq<Byte>) {
    && SizeBits(s.sizes.asz) == AddressBits(mode, 0x67 in ops)
    && (NoneOf(ops, IsSizeCode) ==> SizeBits(s.sizes.osz) == if mode == Mode16 then 16 else 32)
    && (forall k :: Latest(ops, k, IsSizeCode) ==> SizeBits(s.sizes.osz) == if ops[k] == 0x66 then 16 else 64)
  }

  ghost predicate SaysRex(s: State, ops: seq<Byte>) {
    && (NoneOf(ops, IsRexCode) ==> NoRexSeen(s))
    && (forall k :: Latest(ops, k, IsRexCode) ==> RexSays(s, ops[k]))
  }

  ghost predicate SaysSegment(s: State, ops: seq<Byte>) {
    && (NoneOf(ops, IsSegmentCode) ==> s.segment == NoSegment)
    && (forall k :: Latest(ops, k, IsSegmentCode) ==> s.segment != NoSegment && SegmentByte(s.segment) == ops[k])
    && (s.isUgly <==> |Places(ops, IsSegmentCode)| >= 2)
  }

  ghost predicate SaysRepeat(s: State, ops: seq<Byte>) {
    && (NoneOf(ops, IsRepeatCode) ==> s.lastF == NoF)
    && (forall k :: Latest(ops, k, IsRepeatCode) ==> s.lastF == if ops[k] == 0xf2 then F2 else F3)
  }

  /** The state after a run of prefixes, by the positions of the bytes. */
  ghost predicate SaysRun(s: State, mode: Mode, ops: seq<Byte>) {
    && (s.longMode <==> mode == Mode64) && s.map_ == Primary && s.vector.enc == Legacy
    && s.flags == Flags(0x66 in ops, 0xf0 in ops, 0xf2 in ops, 0xf3 in ops)
    && s.vfpc == |Places(ops, IsForbiddenCode)|
    && SaysSizes(s, mode, ops) && SaysRex(s, ops) && SaysSegment(s, ops) && SaysRepeat(s, ops)
  }

  lemma SizesSaid(mode: Mode, ops: seq<Byte>)
    ensures SaysSizes(Summary(mode, ops), mode, ops)
  {
    hide LastOf, Count, IsRexByte, Has, SetsOperandSize, IsSizeCode, RexBit, LastSegment, LastRepeat;
    SameSizeCodes(ops);
    if NoneOf(ops, IsSizeCode) {
      LastOfMeaning(IsSizeCode, ops, 0);
    }
    forall k | Latest(ops, k, IsSizeCode)
      ensures LastOf(IsSizeCode, ops) == Some(ops[k])
    {
      LastOfMeaning(IsSizeCode, ops, k);
    }
  }

  lemma SameSizeCodes(ops: seq<Byte>)
    ensures LastOf(SetsOperandSize, ops) == LastOf(IsSizeCode, ops)
  {
    forall op: Byte
      ensures SetsOperandSize(op) == IsSizeCode(op)
    {
      Codes(op);
    }
    LastOfSame(SetsOperandSize, IsSizeCode, ops);
  }

  lemma RexSaid(mode: Mode, ops: seq<Byte>)
    ensures SaysRex(Summary(mode, ops), ops)
  {
    hide LastOf, Count, IsRexByte, Has, IsRexCode, BitOf, OperandSize, LastSegment, LastRepeat;
    SameRexCodes(ops);
    if NoneOf(ops, IsRexCode) {
      LastOfMeaning(IsRexCode, ops, 0);
    }
    forall k | Latest(ops, k, IsRexCode)
      ensures RexSays(Summary(mode, ops), ops[k])
    {
      LastOfMeaning(IsRexCode, ops, k);
      HasBits(ops[k]);
    }
  }

  lemma SameRexCodes(ops: seq<Byte>)
    ensures LastOf(IsRexByte, ops) == LastOf(IsRexCode, ops)
  {
    forall op: Byte
      ensures IsRexByte(op) == IsRexCode(op)
    {
      Codes(op);
    }
    LastOfSame(IsRexByte, IsRexCode, ops);
  }

  lemma SegmentSaid(mode: Mode, ops: seq<Byte>)
    ensures SaysSegment(Summary(mode, ops), ops)
  {
    hide LastOf, Count, IsSegmentCode, IsSegment, SegmentOf, OperandSize, RexBit, LastRepeat, SegmentByte, Places;
    SameSegmentCodes(ops);
    CountsPlaces(IsSegmentCode, ops);
    if NoneOf(ops, IsSegmentCode) {
      LastOfMeaning(IsSegmentCode, ops, 0);
    }
    forall k | Latest(ops, k, IsSegmentCode)
      ensures SegmentOf(ops[k]) != NoSegment && LastOf(IsSegmentCode, ops) == Some(ops[k])
      ensures SegmentByte(SegmentOf(ops[k])) == ops[k]
    {
      LastOfMeaning(IsSegmentCode, ops, k);
      SegmentRead(ops[k]);
    }
  }

  lemma SegmentRead(op: Byte)
    requires IsSegmentCode(op)
    ensures SegmentOf(op) != NoSegment && SegmentByte(SegmentOf(op)) == op
  {
  }

  lemma SameSegmentCodes(ops: seq<Byte>)
    ensures LastOf(IsSegment, ops) == LastOf(IsSegmentCode, ops) && Count(IsSegment, ops) == Count(IsSegmentCode, ops)
  {
    forall op: Byte
      ensures IsSegment(op) == IsSegmentCode(op)
    {
      Codes(op);
    }
    LastOfSame(IsSegment, IsSegmentCode, ops);
  }

  lemma RepeatSaid(mode: Mode, ops: seq<Byte>)
    ensures SaysRepeat(Summary(mode, ops), ops)
  {
    hide LastOf, Count, IsRepeatCode, IsF, OperandSize, RexBit, LastSegment;
    forall op: Byte
      ensures IsF(op) == IsRepeatCode(op)
    {
      Codes(op);
    }
    LastOfSame(IsF, IsRepeatCode, ops);
    if NoneOf(ops, IsRepeatCode) {
      LastOfMeaning(IsRepeatCode, ops, 0);
    }
    forall k | Latest(ops, k, IsRepeatCode)
      ensures LastOf(IsRepeatCode, ops) == Some(ops[k])
    {
      LastOfMeaning(IsRepeatCode, ops, k);
    }
  }

  lemma ForbiddenCounted(ops: seq<Byte>)
    ensures Count(IsForbidden, ops) == |Places(ops, IsForbiddenCode)|
  {
    forall op: Byte
      ensures IsForbidden(op) == IsForbiddenCode(op)
    {
      Codes(op);
    }
    LastOfSame(IsForbidden, IsForbiddenCode, ops);
    CountsPlaces(IsForbiddenCode, ops);
  }

  lemma RunMeaning(mode: Mode, ops: seq<Byte>)
    requires AllPrefixes(mode, ops)
    ensures SaysRun(Steps(mode, InitialState(mode), ops), mode, ops)
  {
    hide SaysSizes, SaysRex, SaysSegment, SaysRepeat, Count, Places, LastSegment, LastRepeat, OperandSize, RexBit;
    RunIsSummary(mode, ops);
    SizesSaid(mode, ops);
    RexSaid(mode, ops);
    SegmentSaid(mode, ops);
    RepeatSaid(mode, ops);
    ForbiddenCounted(ops);
  }

  // ----- the run in front of anything -----

  /** Prefixes in front of a byte that is none are the whole run. */
  lemma RunInFront(mode: Mode, ops: seq<Byte>, rest: seq<Byte>)
    requires AllPrefixes(mode, ops) && (rest != [] ==> !IsPrefix(mode, rest[0]))
    ensures var bytes := ops + rest;
      RunLength(mode, bytes) == |ops| && bytes[..|ops|] == ops && bytes[|ops|..] == rest
  {
    var bytes := ops + rest;
    assert bytes[..|ops|] == ops && bytes[|ops|..] == rest;
    RunLengthIs(mode, bytes, |ops|);
  }

  // ----- maps by their escape bytes -----

  /** The bytes in front of an opcode of a map; the others are reached by vector prefixes
      only. */
  function EscapeBytes(m: OpcodeMap): Option<seq<Byte>> {
    match m
    case Primary => Some([])
    case Map0F => Some([0x0f])
    case Map0F0F => Some([0x0f, 0x0f])
    case Map0F38 => Some([0x0f, 0x38])
    case Map0F3A => Some([0x0f, 0x3a])
    case MapXop8 => None
    case MapXop9 => None
    case MapXopA => None
  }

  /** What may follow the escape bytes of a map and the prefixes, not to be taken for more
      of them. */
  predicate Ends(mode: Mode, m: OpcodeMap, rest: seq<Byte>) {
    rest == [] ||
    match m
    case Primary => !IsPrefix(mode, rest[0]) && rest[0] !in {0x0f, 0x8f, 0x62, 0xc4, 0xc5}
    case Map0F => rest[0] !in {0x0f, 0x38, 0x3a}
    case _ => true
  }

  /** Prefixes and the escape bytes of a map dispatch behind them at that map, and change
      nothing else. */
  lemma EscapeDispatches(mode: Mode, ops: seq<Byte>, m: OpcodeMap, rest: seq<Byte>)
    requires AllPrefixes(mode, ops) && EscapeBytes(m).Some? && Ends(mode, m, rest)
    ensures var bytes := ops + (EscapeBytes(m).value + rest);
      && RunLength(mode, bytes) == |ops| && bytes[..|ops|] == ops
      && DispatchAt(mode, bytes) == |ops| + |EscapeBytes(m).value|
      && AtDispatch(mode, bytes).map_ == m
      && SaysRun(AtDispatch(mode, bytes).(map_ := Primary), mode, ops)
  {
    hide Steps, SaysRun, SegmentOf, VectorPrefix;
    var escape := EscapeBytes(m).value;
    var after := escape + rest;
    NoPrefixStarts(mode, 0x0f);
    assert m == Primary ==> after == rest;
    assert m != Primary ==> after[0] == 0x0f;
    hide IsPrefix;
    RunInFront(mode, ops, after);
    RunMeaning(mode, ops);
    var s := Steps(mode, InitialState(mode), ops);
    PrimaryAfterRun(mode, ops);
    if m == Primary {
      NoEscape(s, rest);
    } else {
      Escapes(m, rest);
    }
  }

  lemma PrimaryAfterRun(mode: Mode, ops: seq<Byte>)
    requires AllPrefixes(mode, ops)
    ensures Steps(mode, InitialState(mode), ops).map_ == Primary
  {
    hide Steps;
    RunMeaning(mode, ops);
  }

  lemma Escapes(m: OpcodeMap, rest: seq<Byte>)
    requires EscapeBytes(m).Some? && m != Primary
    requires m == Map0F && rest != [] ==> rest[0] !in {0x0f, 0x38, 0x3a}
    ensures var after := EscapeBytes(m).value + rest;
      EscapeLength(after) == |EscapeBytes(m).value| && EscapeMap(after) == m
  {
  }

  /** Conversely: without a vector prefix, the bytes passed over after the prefixes are the
      escape bytes of the map that is reached. */
  lemma EscapeIsOfMap(mode: Mode, bytes: seq<Byte>)
    requires !HasVectorPrefix(mode, bytes)
    ensures var m := AtDispatch(mode, bytes).map_;
      EscapeBytes(m) == Some(bytes[RunLength(mode, bytes)..DispatchAt(mode, bytes)])
  {
    hide Steps, VectorPrefix, RunLength;
    var n := RunLength(mode, bytes);
    PrimaryAfterRun(mode, bytes[..n]);
    var rest := bytes[n..];
    assert bytes[n..n + EscapeLength(rest)] == rest[..EscapeLength(rest)];
    if EscapeLength(rest) > 0 {
      EscapeRead(rest);
    }
  }

  lemma EscapeRead(rest: seq<Byte>)
    requires EscapeLength(rest) > 0
    ensures EscapeLength(rest) <= |rest| && EscapeBytes(EscapeMap(rest)) == Some(rest[..EscapeLength(rest)])
  {
    assert rest[..1] == [0x0f];
    if EscapeLength(rest) == 2 {
      assert rest[..2] == [0x0f, rest[1]];
    }
  }

  /** The table index says which map and which opcode. */
  lemma IndexInjective(m: OpcodeMap, op: Byte, n: OpcodeMap, oq: Byte)
    ensures MapIndex(m) + op as int == MapIndex(n) + oq as int <==> m == n && op == oq
  {
  }

  /** 256 entries a map: no escape, 0F, 0F 38 and 0F 3A from entries 0, 256, 768 and 1024. */
  lemma EscapeIndex(mode: Mode, ops: seq<Byte>, m: OpcodeMap, op: Byte, rest: seq<Byte>)
    requires AllPrefixes(mode, ops) && EscapeBytes(m).Some? && m != Map0F0F && Ends(mode, m, [op] + rest)
    ensures var escape := EscapeBytes(m).value;
      var bytes := ops + (escape + ([op] + rest));
      && OpcodeAt(mode, bytes) == Cursor(true, |ops| + |escape|)
      && KeyAt(mode, bytes).hash.opcode == op
      && KeyAt(mode, bytes).index == op as int +
           (if escape == [] then 0 else if escape == [0x0f] then 256 else if escape == [0x0f, 0x38] then 768 else 1024)
  {
    hide AtDispatch, DispatchAt, Ends, IsPrefix, RunLength;
    EscapeDispatches(mode, ops, m, [op] + rest);
  }

  // ----- maps by their number in a vector prefix -----

  /** Numbers 1 to 3 are the escapes 0F, 0F 38 and 0F 3A; 8 to 10 are those of XOP. */
  function MapNumber(m: OpcodeMap): nat {
    match m
    case Map0F => 1
    case Map0F38 => 2
    case Map0F3A => 3
    case MapXop8 => 8
    case MapXop9 => 9
    case MapXopA => 10
    case _ => 0
  }

  lemma MapNumbers(number: Byte, m: OpcodeMap)
    ensures MapOf(number) == Some(m) <==> number <= 3 && MapNumber(m) == number as int != 0
    ensures XopMapOf(number) == Some(m) <==> number >= 8 && MapNumber(m) == number as int
    ensures MvexMapOf(number) == Some(m) <==> number <= 3 && MapNumber(m) == if number == 0 then 1 else number as int
  {
  }

  /** The tables of maps 1 to 3 are those of their escapes, the tables of 8 to 10 follow. */
  lemma NumberIndex(m: OpcodeMap)
    ensures MapNumber(m) == 1 ==> MapIndex(m) == 256
    ensures 2 <= MapNumber(m) <= 3 ==> MapIndex(m) == 256 * (MapNumber(m) + 1)
    ensures 8 <= MapNumber(m) ==> MapIndex(m) == 256 * (MapNumber(m) - 3)
  {
  }

  /** An accepted vector prefix after other prefixes decides the state, and the opcode
      follows it. */
  lemma VectorDispatches(mode: Mode, ops: seq<Byte>, p: seq<Byte>, rest: seq<Byte>)
    requires AllPrefixes(mode, ops) && p != [] && |p| == VectorLength(p[0])
    requires VectorPrefix(Steps(mode, InitialState(mode), ops), p).Some?
    ensures var bytes := ops + (p + rest);
      && RunLength(mode, bytes) == |ops| && DispatchAt(mode, bytes) == |ops| + |p|
      && Some(AtDispatch(mode, bytes)) == VectorPrefix(Steps(mode, InitialState(mode), ops), p)
  {
    hide Steps, IsPrefix, RunLength, VectorPrefix;
    var s, bytes := Steps(mode, InitialState(mode), ops), ops + (p + rest);
    assert p[0] in {0xc5, 0xc4, 0x8f, 0x62};
    NoPrefixStarts(mode, p[0]);
    RunInFront(mode, ops, p + rest);
    VectorInFront(s, p, rest);
  }

  lemma VectorInFront(s: State, p: seq<Byte>, rest: seq<Byte>)
    requires p != [] && |p| == VectorLength(p[0]) && VectorPrefix(s, p).Some?
    ensures VectorPrefix(s, p + rest) == VectorPrefix(s, p)
    ensures AfterRunLength(s, p + rest) == |p| && Some(AfterRun(s, p + rest)) == VectorPrefix(s, p)
  {
    hide Vex2, Vex3, XopPrefix, MevexPrefix;
    assert (p + rest)[..|p|] == p && p[..|p|] == p && (p + rest)[0] == p[0];
  }

  lemma NoPrefixStarts(mode: Mode, op: Byte)
    requires op in {0xc5, 0xc4, 0x8f, 0x62, 0x0f}
    ensures !IsPrefix(mode, op)
  {
  }

  /** Dispatch behind `at` bytes, at the map with a number. */
  ghost predicate Reaches(mode: Mode, bytes: seq<Byte>, at: nat, enc: Encoding, number: nat) {
    DispatchAt(mode, bytes) == at && AtDispatch(mode, bytes).vector.enc == enc
    && MapNumber(AtDispatch(mode, bytes).map_) == number
  }

  lemma VectorReaches(mode: Mode, ops: seq<Byte>, p: seq<Byte>, rest: seq<Byte>, enc: Encoding, number: nat)
    requires AllPrefixes(mode, ops) && p != [] && |p| == VectorLength(p[0])
    requires var t := VectorPrefix(Steps(mode, InitialState(mode), ops), p);
      t.Some? && t.value.vector.enc == enc && MapNumber(t.value.map_) == number
    ensures Reaches(mode, ops + (p + rest), |ops| + |p|, enc, number)
  {
    hide Steps, VectorPrefix, AtDispatch, DispatchAt, MapNumber, RunLength;
    VectorDispatches(mode, ops, p, rest);
  }

  /** Two bytes of VEX reach map 1. */
  lemma Vex2Reaches(mode: Mode, ops: seq<Byte>, f: Fields, rest: seq<Byte>)
    requires AllPrefixes(mode, ops) && FieldsOk(f) && f.ll <= 1 && (mode == Mode64 || !f.r)
    ensures Reaches(mode, ops + (Vex2Bytes(f) + rest), |ops| + 2, Vex, 1)
  {
    hide Steps, Vex2, Reaches, Length, Compressed, IsPrefix, MapNumber;
    var s := Steps(mode, InitialState(mode), ops);
    LongModeAfterRun(mode, ops);
    Vex2RoundTrip(s, f);
    Starts(s, f);
    MapNumbers(1, Map0F);
    VectorReaches(mode, ops, Vex2Bytes(f), rest, Vex, 1);
  }

  /** The map of a longer prefix is the one with its number; MVEX has 0 for 1 as well. */
  lemma VectorMaps(mode: Mode, ops: seq<Byte>, f: Fields, rest: seq<Byte>)
    requires AllPrefixes(mode, ops) && FieldsOk(f) && (mode == Mode64 || !(f.r || f.x || f.b))
    ensures f.ll <= 1 && 1 <= f.map_ <= 3 ==>
      Reaches(mode, ops + (Vex3Bytes(f) + rest), |ops| + 3, Vex, f.map_ as int)
    ensures f.ll <= 1 && 8 <= f.map_ <= 10 ==>
      Reaches(mode, ops + (XopBytes(f) + rest), |ops| + 3, Xop, f.map_ as int)
    ensures 1 <= f.map_ <= 3 ==>
      Reaches(mode, ops + (EvexBytes(f) + rest), |ops| + 4, Evex, f.map_ as int)
    ensures mode == Mode64 && f.map_ <= 3 ==>
      Reaches(mode, ops + (MvexBytes(f) + rest), |ops| + 4, Mvex, if f.map_ == 0 then 1 else f.map_ as int)
  {
    hide Steps, Vex3, XopPrefix, MevexPrefix, MapOf, XopMapOf, MvexMapOf, MapNumber, Common, Length, Compressed;
    hide Reaches, VectorPrefix, VectorLength, Vex3Bytes, XopBytes, EvexBytes, MvexBytes, IsPrefix;
    var s := Steps(mode, InitialState(mode), ops);
    LongModeAfterRun(mode, ops);
    Starts(s, f);
    if f.ll <= 1 && 1 <= f.map_ <= 3 {
      Vex3RoundTrip(s, f);
      MapNumbers(f.map_, Vex3(s, Vex3Bytes(f)).value.map_);
      VectorReaches(mode, ops, Vex3Bytes(f), rest, Vex, f.map_ as int);
    }
    if f.ll <= 1 && 8 <= f.map_ <= 10 {
      XopRoundTrip(s, f);
      MapNumbers(f.map_, XopPrefix(s, XopBytes(f)).value.map_);
      VectorReaches(mode, ops, XopBytes(f), rest, Xop, f.map_ as int);
    }
    if 1 <= f.map_ <= 3 {
      EvexRoundTrip(s, f);
      MapNumbers(f.map_, MevexPrefix(s, EvexBytes(f)).value.map_);
      VectorReaches(mode, ops, EvexBytes(f), rest, Evex, f.map_ as int);
    }
    if mode == Mode64 && f.map_ <= 3 {
      MvexRoundTrip(s, f);
      MapNumbers(f.map_, MevexPrefix(s, MvexBytes(f)).value.map_);
      VectorReaches(mode, ops, MvexBytes(f), rest, Mvex, if f.map_ == 0 then 1 else f.map_ as int);
    }
  }

  /** The first byte of a vector prefix says how long it is and how it is read. */
  lemma Starts(s: State, f: Fields)
    ensures VectorLength(Vex2Bytes(f)[0]) == 2 && VectorPrefix(s, Vex2Bytes(f)) == Vex2(s, Vex2Bytes(f))
    ensures VectorLength(Vex3Bytes(f)[0]) == 3 && VectorPrefix(s, Vex3Bytes(f)) == Vex3(s, Vex3Bytes(f))
    ensures VectorLength(XopBytes(f)[0]) == 3 && VectorPrefix(s, XopBytes(f)) == XopPrefix(s, XopBytes(f))
    ensures VectorLength(EvexBytes(f)[0]) == 4 && VectorPrefix(s, EvexBytes(f)) == MevexPrefix(s, EvexBytes(f))
    ensures VectorLength(MvexBytes(f)[0]) == 4 && VectorPrefix(s, MvexBytes(f)) == MevexPrefix(s, MvexBytes(f))
  {
    hide Vex2, Vex3, XopPrefix, MevexPrefix, RxbMap, WVvvvLpp, Rxb, WVvvvPp, Inverted;
    assert Vex2Bytes(f)[..2] == Vex2Bytes(f);
    assert Vex3Bytes(f)[..3] == Vex3Bytes(f) && XopBytes(f)[..3] == XopBytes(f);
    assert EvexBytes(f)[..4] == EvexBytes(f) && MvexBytes(f)[..4] == MvexBytes(f);
  }

  lemma LongModeAfterRun(mode: Mode, ops: seq<Byte>)
    requires AllPrefixes(mode, ops)
    ensures Steps(mode, InitialState(mode), ops).longMode <==> mode == Mode64
  {
    hide Steps;
    RunMeaning(mode, ops);
  }

  // ----- sizes at dispatch, in bits -----

  /** The prefixes in front of the opcode. */
  function RunOf(mode: Mode, bytes: seq<Byte>): seq<Byte> {
    bytes[..RunLength(mode, bytes)]
  }

  lemma RunOfPrefixes(mode: Mode, bytes: seq<Byte>)
    ensures AllPrefixes(mode, RunOf(mode, bytes))
  {
    hide IsPrefix;
  }

  /** The address size depends on the mode and on a 67 only. */
  lemma AddressSize(mode: Mode, bytes: seq<Byte>)
    ensures SizeBits(AtDispatch(mode, bytes).sizes.asz) == AddressBits(mode, 0x67 in RunOf(mode, bytes))
    ensures AtDispatch(mode, bytes).longMode <==> mode == Mode64
  {
    hide Steps, VectorPrefix, IsPrefix, SizeBits, AddressBits, RunLength, EscapeLength, EscapeMap;
    RunOfPrefixes(mode, bytes);
    RunMeaning(mode, RunOf(mode, bytes));
    var n := RunLength(mode, bytes);
    var s := Steps(mode, InitialState(mode), bytes[..n]);
    if VectorPrefix(s, bytes[n..]).Some? {
      VectorSizes(s, bytes[n..]);
      VectorKeepsMode(s, bytes[n..]);
    }
  }

  lemma VectorKeepsMode(s: State, rest: seq<Byte>)
    requires VectorPrefix(s, rest).Some?
    ensures VectorPrefix(s, rest).value.longMode == s.longMode
  {
  }

  /** The operand size of a legacy instruction: W first, then 66, then the mode. */
  function OperandBits(mode: Mode, w: bool, p66: bool): nat {
    if w then 64 else if p66 || mode == Mode16 then 16 else 32
  }

  /** With one REX at most, as every assembler writes it. */
  lemma OperandSizeAtDispatch(mode: Mode, bytes: seq<Byte>)
    requires !HasVectorPrefix(mode, bytes) && |Places(RunOf(mode, bytes), IsRexCode)| <= 1
    ensures var s, run := AtDispatch(mode, bytes), RunOf(mode, bytes);
      && s.vector.enc == Legacy && s.flags.p66 == (0x66 in run)
      && s.sizes.w == (exists k :: 0 <= k < |run| && 0x48 <= run[k] <= 0x4f)
      && SizeBits(Normal(s).sizes.osz) == OperandBits(mode, s.sizes.w, 0x66 in run)
  {
    hide Steps, VectorPrefix, IsPrefix, RunLength, EscapeLength, EscapeMap, Places, SaysRex, SaysSizes;
    RunOfPrefixes(mode, bytes);
    var run := RunOf(mode, bytes);
    RunMeaning(mode, run);
    var s := Steps(mode, InitialState(mode), run);
    OneRex(s, mode, run);
  }

  /** The only REX, if there is one, is the last one. */
  lemma OneRex(s: State, mode: Mode, run: seq<Byte>)
    requires SaysRex(s, run) && SaysSizes(s, mode, run) && |Places(run, IsRexCode)| <= 1
    ensures s.sizes.w == (exists k :: 0 <= k < |run| && 0x48 <= run[k] <= 0x4f)
    ensures !s.sizes.w ==> SizeBits(s.sizes.osz) == OperandBits(mode, false, 0x66 in run)
  {
    hide RexSays, BitOf, SizeBits;
    if k :| 0 <= k < |run| && IsRexCode(run[k]) {
      OnlyPlace(run, IsRexCode, k);
      assert Latest(run, k, IsRexCode);
      assert RexSays(s, run[k]);
      RexW(s, run[k]);
    }
    if !s.sizes.w {
      assert forall j :: 0 <= j < |run| && IsSizeCode(run[j]) ==> run[j] == 0x66;
      if 0x66 in run {
        var k := LatestOf(run, IsSizeCode);
      } else {
        assert NoneOf(run, IsSizeCode);
      }
    }
  }

  lemma RexW(s: State, rex: Byte)
    requires RexSays(s, rex) && IsRexCode(rex)
    ensures s.sizes.w <==> 0x48 <= rex <= 0x4f
  {
  }

  lemma OnlyPlace(ops: seq<Byte>, kind: Byte -> bool, k: nat)
    requires k < |ops| && kind(ops[k]) && |Places(ops, kind)| <= 1
    ensures forall j :: 0 <= j < |ops| && kind(ops[j]) ==> j == k
  {
    assert k in Places(ops, kind);
    forall j | 0 <= j < |ops| && kind(ops[j])
      ensures j == k
    {
      assert j in Places(ops, kind);
      assert |Places(ops, kind) - {k}| == 0;
      assert j == k || j in Places(ops, kind) - {k};
    }
  }

  lemma {:induction false} LatestOf(ops: seq<Byte>, kind: Byte -> bool) returns (k: nat)
    requires !NoneOf(ops, kind)
    ensures Latest(ops, k, kind)
    decreases |ops|
  {
    var n := |ops| - 1;
    if kind(ops[n]) {
      k := n;
    } else {
      k := LatestOf(ops[..n], kind);
    }
  }

  /** In 64-bit mode a template may force 64 bits, or make them the default; then a 66
      leaves 32. */
  function TemplateBits(mode: Mode, bits: nat, p66: bool, f64: bool, d64: bool): nat {
    if mode != Mode64 || bits == 64 then bits
    else if f64 then 64
    else if d64 then (if p66 then 32 else 64)
    else bits
  }

  lemma WidenedBits(s: State, mode: Mode, entry: Entry)
    requires (s.longMode <==> mode == Mode64) && s.sizes.osz <= 2
    ensures SizeBits(Widened(s, entry).osz)
      == TemplateBits(mode, SizeBits(s.sizes.osz), s.flags.p66, entry.f64, entry.d64)
    ensures Widened(s, entry).asz == s.sizes.asz
  {
  }

  // ----- bytes that operands read -----

  /** A memory offset reads an address, in every mode and after any prefixes. */
  lemma MoffsBytes(mode: Mode, bytes: seq<Byte>, entry: Entry)
    ensures var sizes := Widened(Normal(AtDispatch(mode, bytes)), entry);
      && 8 * OwnLength(Moffs, sizes) == AddressBits(mode, 0x67 in RunOf(mode, bytes))
      && forall address, pc, hasIs4 :: NodeEnd(address, pc, hasIs4, sizes, Moffs).ok <==>
           8 * (|address| - pc) >= AddressBits(mode, 0x67 in RunOf(mode, bytes))
  {
    hide AtDispatch, AddressBits, RunLength;
    AddressSize(mode, bytes);
    DispatchSizes(mode, bytes);
    SizesFit(AtDispatch(mode, bytes), entry);
  }

  lemma SizesFit(s: State, entry: Entry)
    requires s.sizes.asz <= 2
    ensures var sizes := Widened(Normal(s), entry);
      sizes.asz == s.sizes.asz && 8 * MoffsLength(sizes) == SizeBits(s.sizes.asz)
  {
  }

  /** The final operand size of a legacy instruction with one REX at most. */
  function FinalBits(mode: Mode, bytes: seq<Byte>, entry: Entry): nat {
    var run := RunOf(mode, bytes);
    TemplateBits(mode, OperandBits(mode, AtDispatch(mode, bytes).sizes.w, 0x66 in run), 0x66 in run, entry.f64, entry.d64)
  }

  /** A far pointer reads a segment of 2 bytes and an offset of the operand size, and there
      is none of 64 bits; an immediate of the operand size reads as many bits. */
  lemma OperandBytes(mode: Mode, bytes: seq<Byte>, entry: Entry)
    requires !HasVectorPrefix(mode, bytes) && |Places(RunOf(mode, bytes), IsRexCode)| <= 1
    ensures var sizes, bits := Widened(Normal(AtDispatch(mode, bytes)), entry), FinalBits(mode, bytes, entry);
      && (forall address, pc, hasIs4 :: NodeEnd(address, pc, hasIs4, sizes, Ptr).ok <==>
            bits != 64 && |address| - pc >= 2 + bits / 8)
      && (bits != 64 ==> OwnLength(Ptr, sizes) == 2 + bits / 8)
      && forall width: nat -> uint8 :: width(sizes.osz) == SizeBits(sizes.osz) / 8 ==> OwnLength(Imm(width), sizes) == bits / 8
  {
    hide AtDispatch, RunLength, Places, OperandBits, TemplateBits, Normal, Widened, HasVectorPrefix;
    AddressSize(mode, bytes);
    OperandSizeAtDispatch(mode, bytes);
    DispatchSizes(mode, bytes);
    var s := AtDispatch(mode, bytes);
    NormalFits(s);
    WidenedBits(Normal(s), mode, entry);
    CodeFits(Normal(s), entry);
  }

  lemma NormalFits(s: State)
    requires s.sizes.osz <= 2
    ensures Normal(s).sizes.osz <= 2 && Normal(s).longMode == s.longMode && Normal(s).flags == s.flags
  {
  }

  lemma CodeFits(s: State, entry: Entry)
    requires s.sizes.osz <= 2
    ensures Widened(s, entry).osz <= 2
  {
  }

  // ----- the key -----

  /** What is looked up without 3DNow!: opcode and ModRM byte are the next two bytes, a
      missing one reads as 0, and the sizes enter as codes of their bits. */
  lemma KeyMeaning(mode: Mode, bytes: seq<Byte>)
    requires OpcodeAt(mode, bytes).ok && AtDispatch(mode, bytes).map_ != Map0F0F
    ensures var at, s, key := DispatchAt(mode, bytes), AtDispatch(mode, bytes), KeyAt(mode, bytes);
      && at < |bytes| && key.hash.opcode == bytes[at] && key.index == MapIndex(s.map_) + bytes[at] as int
      && 64 * key.mod as int + 8 * key.reg as int + key.rm as int == (if at + 1 < |bytes| then bytes[at + 1] as int else 0)
      && key.mod < 4 && key.reg < 8 && key.rm < 8 && (key.longMode <==> mode == Mode64)
      && (key.hash.yasz <==> AddressBits(mode, 0x67 in RunOf(mode, bytes)) >= 32)
      && (s.vector.enc == Legacy ==>
           && SizeBits(key.hash.len) == SizeBits(Normal(s).sizes.osz)
           && (key.hash.yosz <==> SizeBits(key.hash.len) >= 32) && (key.hash.zosz <==> SizeBits(key.hash.len) <= 32))
      && (s.vector.enc != Legacy ==> key.hash.len == s.vector.vl && !key.hash.yosz && !key.hash.zosz)
      && key.flags == s.flags && key.rex == s.rex && key.vector == s.vector
  {
    hide AtDispatch, DispatchAt, ModOf, RegOf, RmOf, AddressBits, RunLength, MapIndex;
    AddressSize(mode, bytes);
    DispatchSizes(mode, bytes);
    NormalFits(AtDispatch(mode, bytes));
    ModrmNumber(ByteAt(bytes, DispatchAt(mode, bytes) + 1));
  }

  /** For 3DNow! the ModRM byte comes first and the opcode after its tail. */
  lemma KeyOf3DNow(mode: Mode, bytes: seq<Byte>)
    requires |bytes| <= 255 && OpcodeAt(mode, bytes).ok && AtDispatch(mode, bytes).map_ == Map0F0F
    ensures var at, opcode, key := DispatchAt(mode, bytes), OpcodeAt(mode, bytes).pc, KeyAt(mode, bytes);
      && at < opcode < |bytes| && key.hash.opcode == bytes[opcode] && key.index == 512 + bytes[opcode] as int
      && 64 * key.mod as int + 8 * key.reg as int + key.rm as int == bytes[at] as int
  {
    hide AtDispatch, DispatchAt, ModOf, RegOf, RmOf, TailEnd;
    var at := DispatchAt(mode, bytes);
    ModrmNumber(ByteAt(bytes, at));
    TailEndMeaning(bytes, at + 1, ModOf(ByteAt(bytes, at)), RmOf(ByteAt(bytes, at)));
  }
}
