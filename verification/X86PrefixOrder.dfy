/** What a run of prefixes amounts to, and how far its order matters. */
module X86PrefixOrder {
  import opened Wrappers
  import opened X86Prefixes

  predicate AllPrefixes(mode: Mode, ops: seq<Byte>) {
    forall i :: 0 <= i < |ops| ==> IsPrefix(mode, ops[i])
  }

  /** How many bytes of `ops` are of a kind. */
  function Count(kind: Byte -> bool, ops: seq<Byte>): nat
    decreases |ops|
  {
    if ops == [] then 0 else Count(kind, ops[..|ops| - 1]) + (if kind(ops[|ops| - 1]) then 1 else 0)
  }

  /** The last byte of `ops` of a kind. */
  function LastOf(kind: Byte -> bool, ops: seq<Byte>): Option<Byte>
    decreases |ops|
  {
    if ops == [] then None
    else if kind(ops[|ops| - 1]) then Some(ops[|ops| - 1])
    else LastOf(kind, ops[..|ops| - 1])
  }

  /** REX, 66, F0, F2 and F3: forbidden before a vector prefix. */
  predicate IsForbidden(op: Byte) {
    IsRexByte(op) || op == 0x66 || op == 0xf0 || op == 0xf2 || op == 0xf3
  }

  predicate IsSegment(op: Byte) {
    SegmentOf(op) != NoSegment
  }

  predicate IsF(op: Byte) {
    op == 0xf2 || op == 0xf3
  }

  /** The bytes that set the operand size: 66, and REX with W. */
  predicate SetsOperandSize(op: Byte) {
    op == 0x66 || (IsRexByte(op) && Has(op, 8))
  }

  function LastSegment(ops: seq<Byte>): Segment {
    match LastOf(IsSegment, ops)
    case None => NoSegment
    case Some(op) => SegmentOf(op)
  }

  function LastRepeat(ops: seq<Byte>): LastF {
    match LastOf(IsF, ops)
    case None => NoF
    case Some(op) => if op == 0xf2 then F2 else F3
  }

  function OperandSize(mode: Mode, ops: seq<Byte>): nat {
    match LastOf(SetsOperandSize, ops)
    case None => DefaultOperandSize(mode)
    case Some(op) => if op == 0x66 then DefaultOperandSize(mode) / 2 else 2
  }

  predicate RexBit(ops: seq<Byte>, mask: Byte) {
    match LastOf(IsRexByte, ops)
    case None => false
    case Some(rex) => Has(rex, mask)
  }

  /** The state after a run of prefixes, from the bytes it holds and the last of each
      kind. */
  function Summary(mode: Mode, ops: seq<Byte>): State {
    State(
      mode == Mode64,
      Sizes(OperandSize(mode, ops),
            if 0x67 in ops then DefaultAddressSize(mode) / 2 else DefaultAddressSize(mode),
            RexBit(ops, 8)),
      Flags(0x66 in ops, 0xf0 in ops, 0xf2 in ops, 0xf3 in ops),
      Rex(LastOf(IsRexByte, ops).Some?, RexBit(ops, 4), RexBit(ops, 2), RexBit(ops, 1), RexBit(ops, 1),
          false, false, false),
      Vector(Legacy, 0, 0, 0, 0, false, false, 0),
      Count(IsForbidden, ops),
      Primary,
      LastSegment(ops),
      LastRepeat(ops),
      Count(IsSegment, ops) >= 2)
  }

  lemma InInit(op: Byte, ops: seq<Byte>)
    requires ops != []
    ensures op in ops <==> op in ops[..|ops| - 1] || op == ops[|ops| - 1]
  {
    assert ops == ops[..|ops| - 1] + [ops[|ops| - 1]];
  }

  lemma {:induction false} SegmentSeen(ops: seq<Byte>)
    ensures LastSegment(ops) != NoSegment <==> Count(IsSegment, ops) >= 1
  {
    if ops != [] {
      SegmentSeen(ops[..|ops| - 1]);
    }
  }

  /** A prefix is of one kind only. */
  lemma KindsApart(op: Byte)
    ensures IsRexByte(op) ==> !IsSegment(op) && !IsF(op) && op !in {0x66, 0x67, 0xf0, 0xf2, 0xf3}
    ensures IsSegment(op) ==> !IsF(op) && op !in {0x66, 0x67, 0xf0, 0xf2, 0xf3}
    ensures IsForbidden(op) <==> IsRexByte(op) || op in {0x66, 0xf0, 0xf2, 0xf3}
    ensures IsF(op) <==> op in {0xf2, 0xf3}
    ensures SetsOperandSize(op) <==> op == 0x66 || (IsRexByte(op) && Has(op, 8))
  {
  }

  /** The prefix loop computes the summary. */
  lemma {:induction false} RunIsSummary(mode: Mode, ops: seq<Byte>)
    requires AllPrefixes(mode, ops)
    ensures Steps(mode, InitialState(mode), ops) == Summary(mode, ops)
  {
    hide Step, Summary, Has, IsRexByte, SegmentOf, IsPrefix;
    if ops == [] {
      SummaryOfNothing(mode);
    } else {
      var init, op := ops[..|ops| - 1], ops[|ops| - 1];
      RunIsSummary(mode, init);
      SummaryStep(mode, init, op, ops);
    }
  }

  /** What one more prefix does to the counts and to the last ones. */
  ghost predicate Appended(init: seq<Byte>, op: Byte, ops: seq<Byte>)
  {
    && (forall b :: b in {0x66, 0x67, 0xf0, 0xf2, 0xf3} ==> (b in ops <==> b in init || b == op))
    && Count(IsSegment, ops) == Count(IsSegment, init) + (if IsSegment(op) then 1 else 0)
    && Count(IsForbidden, ops) == Count(IsForbidden, init) + (if IsForbidden(op) then 1 else 0)
    && LastSegment(ops) == (if IsSegment(op) then SegmentOf(op) else LastSegment(init))
    && LastOf(IsF, ops) == (if IsF(op) then Some(op) else LastOf(IsF, init))
    && LastOf(SetsOperandSize, ops) == (if SetsOperandSize(op) then Some(op) else LastOf(SetsOperandSize, init))
    && LastOf(IsRexByte, ops) == (if IsRexByte(op) then Some(op) else LastOf(IsRexByte, init))
    && (LastSegment(init) != NoSegment <==> Count(IsSegment, init) >= 1)
  }

  lemma AppendOne(init: seq<Byte>, op: Byte, ops: seq<Byte>)
    requires ops != [] && init == ops[..|ops| - 1] && op == ops[|ops| - 1]
    ensures Appended(init, op, ops)
  {
    hide Has, IsRexByte, SegmentOf, IsSegment, IsF, IsForbidden, SetsOperandSize, Count, LastOf;
    InInit(0x66, ops);
    InInit(0x67, ops);
    InInit(0xf0, ops);
    InInit(0xf2, ops);
    InInit(0xf3, ops);
    SegmentSeen(init);
    LastStep(IsSegment, ops);
    LastStep(IsForbidden, ops);
    LastStep(IsF, ops);
    LastStep(SetsOperandSize, ops);
    LastStep(IsRexByte, ops);
  }

  lemma SummaryOfNothing(mode: Mode)
    ensures Summary(mode, []) == InitialState(mode)
  {
  }

  lemma SummaryStep(mode: Mode, init: seq<Byte>, op: Byte, ops: seq<Byte>)
    requires ops != [] && init == ops[..|ops| - 1] && op == ops[|ops| - 1] && IsPrefix(mode, op)
    ensures Step(mode, Summary(mode, init), op) == Summary(mode, ops)
  {
    hide Has, IsRexByte, SegmentOf, IsF, IsForbidden, SetsOperandSize, Count, LastOf;
    hide Appended, Step, Summary;
    AppendOne(init, op, ops);
    if IsRexByte(op) {
      StepRex(mode, init, op, ops);
    } else if IsSegment(op) {
      StepSegment(mode, init, op, ops);
    } else {
      StepFlag(mode, init, op, ops);
    }
  }

  lemma StepRex(mode: Mode, init: seq<Byte>, op: Byte, ops: seq<Byte>)
    requires Appended(init, op, ops) && IsRexByte(op)
    ensures Step(mode, Summary(mode, init), op) == Summary(mode, ops)
  {
    KindsApart(op);
    hide Has, IsRexByte, SegmentOf, IsSegment, IsF, IsForbidden, SetsOperandSize, Count, LastOf, LastSegment;
  }

  lemma StepSegment(mode: Mode, init: seq<Byte>, op: Byte, ops: seq<Byte>)
    requires Appended(init, op, ops) && IsSegment(op)
    ensures Step(mode, Summary(mode, init), op) == Summary(mode, ops)
  {
    KindsApart(op);
    hide Has, IsRexByte, SegmentOf, IsSegment, IsF, IsForbidden, SetsOperandSize, Count, LastOf, LastSegment;
  }

  lemma StepFlag(mode: Mode, init: seq<Byte>, op: Byte, ops: seq<Byte>)
    requires Appended(init, op, ops) && op in {0x66, 0x67, 0xf0, 0xf2, 0xf3}
    ensures Step(mode, Summary(mode, init), op) == Summary(mode, ops)
  {
    KindsApart(op);
    hide Has, IsRexByte, SegmentOf, IsSegment, IsF, IsForbidden, SetsOperandSize, Count, LastOf, LastSegment;
  }

  lemma LastStep(kind: Byte -> bool, ops: seq<Byte>)
    requires ops != []
    ensures LastOf(kind, ops) ==
      if kind(ops[|ops| - 1]) then Some(ops[|ops| - 1]) else LastOf(kind, ops[..|ops| - 1])
    ensures Count(kind, ops) == Count(kind, ops[..|ops| - 1]) + if kind(ops[|ops| - 1]) then 1 else 0
  {
  }

  // ----- order -----

  lemma {:induction false} CountRemove(kind: Byte -> bool, ops: seq<Byte>, i: nat)
    requires i < |ops|
    ensures Count(kind, ops) == Count(kind, ops[..i] + ops[i + 1..]) + if kind(ops[i]) then 1 else 0
    decreases |ops|
  {
    var rest, init := ops[..i] + ops[i + 1..], ops[..|ops| - 1];
    if i == |ops| - 1 {
      assert rest == init;
    } else {
      CountRemove(kind, init, i);
      assert rest[..|rest| - 1] == init[..i] + init[i + 1..];
    }
  }

  lemma {:induction false} CountPermuted(kind: Byte -> bool, p: seq<Byte>, q: seq<Byte>)
    requires multiset(p) == multiset(q)
    ensures Count(kind, p) == Count(kind, q)
    decreases |p|
  {
    if p == [] {
      assert multiset(q) == multiset{};
      assert q == [];
    } else {
      var init, op := p[..|p| - 1], p[|p| - 1];
      var i := SameByte(p, q);
      CountPermuted(kind, init, q[..i] + q[i + 1..]);
      CountRemove(kind, q, i);
    }
  }

  lemma SameByte(p: seq<Byte>, q: seq<Byte>) returns (i: nat)
    requires p != [] && multiset(p) == multiset(q)
    ensures i < |q| && q[i] == p[|p| - 1]
    ensures multiset(p[..|p| - 1]) == multiset(q[..i] + q[i + 1..])
  {
    var init, op := p[..|p| - 1], p[|p| - 1];
    assert p == init + [op];
    assert op in multiset(q);
    i :| 0 <= i < |q| && q[i] == op;
    assert q == q[..i] + [op] + q[i + 1..];
    assert multiset(q[..i] + q[i + 1..]) == multiset(q) - multiset{op} == multiset(init);
  }

  lemma {:induction false} LastIsIn(kind: Byte -> bool, ops: seq<Byte>)
    ensures LastOf(kind, ops).None? <==> Count(kind, ops) == 0
    ensures LastOf(kind, ops).Some? ==> LastOf(kind, ops).value in ops && kind(LastOf(kind, ops).value)
    decreases |ops|
  {
    if ops != [] {
      LastIsIn(kind, ops[..|ops| - 1]);
    }
  }

  lemma {:induction false} OnlyOne(kind: Byte -> bool, ops: seq<Byte>, op: Byte)
    requires Count(kind, ops) <= 1 && op in ops && kind(op)
    ensures LastOf(kind, ops) == Some(op)
    decreases |ops|
  {
    var init, last := ops[..|ops| - 1], ops[|ops| - 1];
    InInit(op, ops);
    if kind(last) {
      if op in init {
        LastIsIn(kind, init);
        SomeCounts(kind, init, op);
      }
    } else {
      OnlyOne(kind, init, op);
    }
  }

  lemma {:induction false} SomeCounts(kind: Byte -> bool, ops: seq<Byte>, op: Byte)
    requires op in ops && kind(op)
    ensures Count(kind, ops) >= 1
  {
    InInit(op, ops);
    if op != ops[|ops| - 1] {
      SomeCounts(kind, ops[..|ops| - 1], op);
    }
  }

  /** With one REX at most there is no order among the REX bytes. */
  lemma SameRex(p: seq<Byte>, q: seq<Byte>)
    requires multiset(p) == multiset(q) && Count(IsRexByte, p) <= 1
    ensures LastOf(IsRexByte, p) == LastOf(IsRexByte, q)
  {
    CountPermuted(IsRexByte, p, q);
    LastIsIn(IsRexByte, p);
    LastIsIn(IsRexByte, q);
    match LastOf(IsRexByte, p)
    case None =>
    case Some(rex) =>
      assert rex in multiset(p);
      OnlyOne(IsRexByte, q, rex);
  }

  /** The size that legacy instructions use: W wins over 66 at dispatch. */
  function Normal(s: State): State {
    if s.vector.enc == Legacy && s.sizes.w then s.(sizes := s.sizes.(osz := 2)) else s
  }

  /** Without a REX.W only 66 sets the operand size. */
  lemma {:induction false} SizeWithoutW(mode: Mode, ops: seq<Byte>)
    requires forall i :: 0 <= i < |ops| && IsRexByte(ops[i]) ==> !Has(ops[i], 8)
    ensures OperandSize(mode, ops) == if 0x66 in ops then DefaultOperandSize(mode) / 2 else DefaultOperandSize(mode)
    decreases |ops|
  {
    if ops != [] {
      var init, op := ops[..|ops| - 1], ops[|ops| - 1];
      SizeWithoutW(mode, init);
      InInit(0x66, ops);
      LastStep(SetsOperandSize, ops);
    }
  }

  lemma NoW(ops: seq<Byte>)
    requires Count(IsRexByte, ops) <= 1 && !RexBit(ops, 8)
    ensures forall i :: 0 <= i < |ops| && IsRexByte(ops[i]) ==> !Has(ops[i], 8)
  {
    forall i | 0 <= i < |ops| && IsRexByte(ops[i])
      ensures !Has(ops[i], 8)
    {
      OnlyOne(IsRexByte, ops, ops[i]);
    }
  }

  /** Two orders of the same prefixes, with one REX at most, reach the same state at
      dispatch just when their last segment prefixes and their last F2 or F3 agree. */
  lemma OrderOnlyPicksTheLast(mode: Mode, p: seq<Byte>, q: seq<Byte>)
    requires AllPrefixes(mode, p) && AllPrefixes(mode, q)
    requires multiset(p) == multiset(q) && Count(IsRexByte, p) <= 1
    ensures Normal(Steps(mode, InitialState(mode), p)) == Normal(Steps(mode, InitialState(mode), q))
      <==> LastSegment(p) == LastSegment(q) && LastRepeat(p) == LastRepeat(q)
  {
    hide Has, IsRexByte, SegmentOf, IsSegment, IsForbidden, SetsOperandSize, Count, LastOf, LastSegment, LastRepeat;
    hide OperandSize;
    RunIsSummary(mode, p);
    RunIsSummary(mode, q);
    SameMembers(p, q);
    CountPermuted(IsForbidden, p, q);
    CountPermuted(IsSegment, p, q);
    CountPermuted(IsRexByte, p, q);
    SameRex(p, q);
    if !RexBit(p, 8) {
      NoW(p);
      NoW(q);
      SizeWithoutW(mode, p);
      SizeWithoutW(mode, q);
    }
  }

  /** With any number of REX bytes the order also shows in the bits of the last REX and,
      unless it has W, in which of 66 and an earlier REX.W came last. */
  lemma OrderWithManyRex(mode: Mode, p: seq<Byte>, q: seq<Byte>)
    requires AllPrefixes(mode, p) && AllPrefixes(mode, q) && multiset(p) == multiset(q)
    ensures Normal(Steps(mode, InitialState(mode), p)) == Normal(Steps(mode, InitialState(mode), q))
      <==> (LastSegment(p) == LastSegment(q) && LastRepeat(p) == LastRepeat(q) && SameRexBits(p, q)
            && (RexBit(p, 8) || OperandSize(mode, p) == OperandSize(mode, q)))
  {
    hide Has, IsRexByte, SegmentOf, IsSegment, IsForbidden, SetsOperandSize, Count, LastSegment, LastRepeat;
    hide OperandSize, RexBit, LastOf;
    RunIsSummary(mode, p);
    RunIsSummary(mode, q);
    SameMembers(p, q);
    CountPermuted(IsForbidden, p, q);
    CountPermuted(IsSegment, p, q);
    CountPermuted(IsRexByte, p, q);
    LastIsIn(IsRexByte, p);
    LastIsIn(IsRexByte, q);
  }

  predicate SameRexBits(p: seq<Byte>, q: seq<Byte>) {
    RexBit(p, 1) == RexBit(q, 1) && RexBit(p, 2) == RexBit(q, 2)
    && RexBit(p, 4) == RexBit(q, 4) && RexBit(p, 8) == RexBit(q, 8)
  }

  lemma SameMembers(p: seq<Byte>, q: seq<Byte>)
    requires multiset(p) == multiset(q)
    ensures forall op :: op in p <==> op in q
  {
    forall op | true
      ensures op in p <==> op in q
    {
      assert op in p <==> op in multiset(p);
      assert op in q <==> op in multiset(q);
    }
  }

  /** With a REX.W, another REX and a 66 the order shows in the operand size, although
      the same REX comes last. */
  lemma TwoRexBytes()
    ensures multiset([0x48, 0x66, 0x40]) == multiset([0x66, 0x48, 0x40])
    ensures Normal(Steps(Mode64, InitialState(Mode64), [0x48, 0x66, 0x40])).sizes.osz == 0
    ensures Normal(Steps(Mode64, InitialState(Mode64), [0x66, 0x48, 0x40])).sizes.osz == 2
  {
    hide Steps, InitialState, Normal;
    SizeAfterThree(0x48, 0x66, 0x40);
    SizeAfterThree(0x66, 0x48, 0x40);
  }

  lemma SizeAfterThree(a: Byte, b: Byte, c: Byte)
    requires IsPrefix(Mode64, a) && IsPrefix(Mode64, b) && c == 0x40
    ensures Normal(Steps(Mode64, InitialState(Mode64), [a, b, c])).sizes.osz
      == if b == 0x66 then 0 else if SetsOperandSize(b) then 2 else if a == 0x66 then 0 else if SetsOperandSize(a) then 2 else 1
  {
    hide Steps, InitialState, Count, LastSegment, LastRepeat;
    var ops := [a, b, c];
    assert IsPrefix(Mode64, c);
    hide IsPrefix;
    assert ops[0] == a && ops[1] == b && ops[2] == c;
    RunIsSummary(Mode64, ops);
    LastOfThree(SetsOperandSize, a, b, c);
    LastOfThree(IsRexByte, a, b, c);
  }

  lemma LastOfThree(kind: Byte -> bool, a: Byte, b: Byte, c: Byte)
    ensures LastOf(kind, [a, b, c]) ==
      if kind(c) then Some(c) else if kind(b) then Some(b) else if kind(a) then Some(a) else None
  {
    assert [a, b, c][..2] == [a, b] && [a, b][..1] == [a];
    LastStep(kind, [a, b, c]);
    LastStep(kind, [a, b]);
    LastStep(kind, [a]);
  }

  // ----- vector prefixes after other prefixes -----

  /** No vector prefix touches the count, the segment or the last F2 or F3. */
  lemma VectorKeeps(s: State, rest: seq<Byte>)
    requires VectorPrefix(s, rest).Some?
    ensures var t := VectorPrefix(s, rest).value;
      t.vfpc == s.vfpc && t.segment == s.segment && t.lastF == s.lastF && t.isUgly == s.isUgly
      && t.vector.enc != Legacy && t.rex.hasRex
  {
  }

  /** After the run of prefixes comes a vector prefix that is accepted. */
  predicate HasVectorPrefix(mode: Mode, bytes: seq<Byte>) {
    var n := RunLength(mode, bytes);
    EscapeLength(bytes[n..]) == 0 && VectorPrefix(Steps(mode, InitialState(mode), bytes[..n]), bytes[n..]).Some?
  }

  /** At dispatch `vfpc` is the number of forbidden bytes before the opcode or vector
      prefix, and the encoding is a vector one just when a vector prefix was read. */
  lemma DispatchCounts(mode: Mode, bytes: seq<Byte>)
    ensures AtDispatch(mode, bytes).vfpc == Count(IsForbidden, bytes[..RunLength(mode, bytes)])
    ensures AtDispatch(mode, bytes).segment == LastSegment(bytes[..RunLength(mode, bytes)])
    ensures AtDispatch(mode, bytes).lastF == LastRepeat(bytes[..RunLength(mode, bytes)])
    ensures AtDispatch(mode, bytes).vector.enc != Legacy <==> HasVectorPrefix(mode, bytes)
  {
    hide VectorPrefix, Count, LastSegment, LastRepeat;
    var n := RunLength(mode, bytes);
    RunIsSummary(mode, bytes[..n]);
    if VectorPrefix(Steps(mode, InitialState(mode), bytes[..n]), bytes[n..]).Some? {
      VectorKeeps(Steps(mode, InitialState(mode), bytes[..n]), bytes[n..]);
    }
  }

  /** Sizes stay codes below 3. */
  lemma DispatchSizes(mode: Mode, bytes: seq<Byte>)
    ensures AtDispatch(mode, bytes).sizes.osz <= 2 && AtDispatch(mode, bytes).sizes.asz <= 2
  {
    hide Count, LastSegment, LastRepeat, RexBit, Step, OperandSize, VectorPrefix, EscapeLength, RunLength;
    var n := RunLength(mode, bytes);
    var s, rest := Steps(mode, InitialState(mode), bytes[..n]), bytes[n..];
    RunIsSummary(mode, bytes[..n]);
    OperandSizes(mode, bytes[..n]);
    if VectorPrefix(s, rest).Some? {
      VectorSizes(s, rest);
    }
  }

  lemma OperandSizes(mode: Mode, ops: seq<Byte>)
    ensures OperandSize(mode, ops) <= 2
  {
  }

  lemma VectorSizes(s: State, rest: seq<Byte>)
    requires VectorPrefix(s, rest).Some?
    ensures VectorPrefix(s, rest).value.sizes.osz == s.sizes.osz || VectorPrefix(s, rest).value.sizes.osz == 2
    ensures VectorPrefix(s, rest).value.sizes.asz == s.sizes.asz
  {
  }
}
