/** What the emitted tree answers to any word, also to one that satisfies no pattern: the
    record at the end of its path agrees with it on the bits the path has read. */
module DecisionTreePaths {
  import opened Bits
  import opened Wrappers
  import opened DecisionTree
  import opened DecisionTreeSearch

  // ----- the path of a word -----

  /** The path ends in a leaf, not in a missing case. */
  predicate Reaches(t: Tree, w: Word)
    requires TreeOk(t)
  {
    match t
    case Empty => false
    case Leaf(_) => true
    case If(test, yes, no) => if Holds(test, w) then Reaches(yes, w) else Reaches(no, w)
    case Switch(byte, varMask, min, cases) =>
      ReachesCase(cases, Nat(And(ByteVar(w, byte), varMask)) - min, w)
  }

  predicate ReachesCase(cs: Cases, key: int, w: Word)
    requires CasesOk(cs)
  {
    match cs
    case NoCase => false
    case Case(k, body, rest) => if k == key then Reaches(body, w) else ReachesCase(rest, key, w)
  }

  /** The bits of the opcode that a mask on one byte variable stands for. */
  function Lift(byte: nat, varMask: Bits): (m: Word)
    requires 1 <= byte <= 8 && |varMask| == 8
    ensures forall i :: 0 <= i < 64 ==> m[i] == (8 * (byte - 1) <= i < 8 * byte && varMask[i - 8 * (byte - 1)])
  {
    seq(64, i requires 0 <= i < 64 => 8 * (byte - 1) <= i < 8 * byte && varMask[i - 8 * (byte - 1)])
  }

  /** What a test fixes about the answer: the bits it reads, and the whole mask of a record
      the word satisfies.  A failed comparison and a constraint fix no bit. */
  function TestBits(test: Test, w: Word): Word
    requires TestOk(test)
  {
    match test
    case ByteBits(byte, varMask) => Lift(byte, varMask)
    case NotValue(_, _) => Zeros(64)
    case Whole(data) => if Satisfies(w, data) then data.mask else Zeros(64)
  }

  /** The bits of the opcode that the path of `w` has fixed. */
  function Tested(t: Tree, w: Word): Word
    requires TreeOk(t)
  {
    match t
    case Empty => Zeros(64)
    case Leaf(_) => Zeros(64)
    case If(test, yes, no) =>
      Or(TestBits(test, w), if Holds(test, w) then Tested(yes, w) else Tested(no, w))
    case Switch(byte, varMask, min, cases) =>
      Or(Lift(byte, varMask), TestedCase(cases, Nat(And(ByteVar(w, byte), varMask)) - min, w))
  }

  function TestedCase(cs: Cases, key: int, w: Word): Word
    requires CasesOk(cs)
  {
    match cs
    case NoCase => Zeros(64)
    case Case(k, body, rest) => if k == key then Tested(body, w) else TestedCase(rest, key, w)
  }

  /** `w` and the pattern agree on bits the pattern fixes. */
  predicate AgreeOn(bits: Word, w: Word, r: Record) {
    Subset(bits, r.mask) && And(w, bits) == And(r.opcode, bits)
  }

  /** The tree answers `w` with `r`, and they agree on the path. */
  predicate AnswersWith(t: Tree, w: Word, r: Record)
    requires TreeOk(t)
  {
    Eval(t, w) == r.index && AgreeOn(Tested(t, w), w, r)
  }

  /** A path that ends in a leaf answers a record of the list that agrees with it, any other
      path answers 0. */
  ghost predicate Path(t: Tree, w: Word, list: seq<Entry>) {
    TreeOk(t) && if Reaches(t, w) then exists e :: e in list && AnswersWith(t, w, e.data) else Eval(t, w) == 0
  }

  // ----- one test -----

  lemma AgreeOnBoth(a: Word, b: Word, w: Word, r: Record)
    requires AgreeOn(a, w, r) && AgreeOn(b, w, r)
    ensures AgreeOn(Or(a, b), w, r)
  {
    forall i | 0 <= i < 64
      ensures And(w, Or(a, b))[i] == And(r.opcode, Or(a, b))[i]
    {
      assert And(w, a)[i] == And(r.opcode, a)[i] && And(w, b)[i] == And(r.opcode, b)[i];
    }
  }

  lemma AgreeOnNothing(w: Word, r: Record)
    ensures AgreeOn(Zeros(64), w, r)
  {
    assert And(w, Zeros(64)) == Zeros(64) == And(r.opcode, Zeros(64));
  }

  /** An `if` answers like the side the word takes. */
  lemma IfPath(test: Test, yes: Tree, no: Tree, w: Word, r: Record)
    requires TestOk(test) && TreeOk(yes) && TreeOk(no)
    requires AnswersWith(if Holds(test, w) then yes else no, w, r) && AgreeOn(TestBits(test, w), w, r)
    ensures AnswersWith(If(test, yes, no), w, r)
  {
    hide AgreeOn, Holds, TestBits;
    AgreeOnBoth(TestBits(test, w), Tested(if Holds(test, w) then yes else no, w), w, r);
  }

  /** The sub-list a side is built from, and the agreement its entries have on the test. */
  ghost predicate SidePath(t: Tree, w: Word, sub: seq<Entry>, bits: Word, list: seq<Entry>) {
    Path(t, w, sub)
    && forall e :: e in sub ==> AgreeOn(bits, w, e.data) && exists o :: o in list && o.data == e.data
  }

  lemma IfSide(test: Test, yes: Tree, no: Tree, w: Word, sub: seq<Entry>, list: seq<Entry>)
    requires TestOk(test) && TreeOk(yes) && TreeOk(no)
    requires SidePath(if Holds(test, w) then yes else no, w, sub, TestBits(test, w), list)
    ensures Path(If(test, yes, no), w, list)
  {
    hide AgreeOn, Holds, TestBits, AnswersWith;
    var t, side := If(test, yes, no), if Holds(test, w) then yes else no;
    if Reaches(t, w) {
      var e :| e in sub && AnswersWith(side, w, e.data);
      var o :| o in list && o.data == e.data;
      IfPath(test, yes, no, w, e.data);
    }
  }

  lemma BitTestBits(bit: nat, w: Word)
    requires bit < 64
    ensures TestBits(BitTest(bit), w) == BitMask(bit)
  {
  }

  lemma AgreeOnBit(bit: nat, w: Word, r: Record)
    requires bit < 64 && r.mask[bit] && r.opcode[bit] == w[bit]
    ensures AgreeOn(BitMask(bit), w, r)
  {
  }

  /** What a bit split puts on the side of `w` agrees with it on the bit. */
  lemma BitSide(list: seq<Entry>, bit: nat, w: Word)
    requires ListOk(list) && bit < 64 && Common(list)[bit]
    ensures forall e :: e in BitList(list, bit, w[bit]) ==>
      AgreeOn(BitMask(bit), w, e.data) && exists o :: o in list && o.data == e.data
  {
    hide Common, BitList, ListOk, AgreeOn;
    CommonMeaning(list);
    BitListSplits(list, bit, w[bit]);
    forall e | e in BitList(list, bit, w[bit])
      ensures AgreeOn(BitMask(bit), w, e.data) && exists o :: o in list && o.data == e.data
    {
      var k :| 0 <= k < |list| && e == StripEntry(list[k], BitMask(bit)) && list[k].data.opcode[bit] == w[bit];
      assert list[k] in list && list[k].mask[bit];
      OwnBits(list, list[k]);
      AgreeOnBit(bit, w, e.data);
    }
  }

  lemma OwnBits(list: seq<Entry>, e: Entry)
    requires ListOk(list) && e in list
    ensures Subset(e.mask, e.data.mask)
  {
  }

  lemma LiftByte(mask: Word, byte: nat)
    requires 1 <= byte <= 8 && WithinByte(mask, byte)
    ensures Lift(byte, ByteVar(mask, byte)) == mask
  {
  }

  /** Equal switch values mean equal bits under the mask. */
  lemma SwitchAgrees(w: Word, o: Word, mask: Word, byte: nat)
    requires 1 <= byte <= 8 && WithinByte(mask, byte) && SwitchValue(w, mask, byte) == SwitchValue(o, mask, byte)
    ensures And(w, mask) == And(o, mask)
  {
    var x, y := Shr(And(w, mask), 8 * (byte - 1)), Shr(And(o, mask), 8 * (byte - 1));
    NatInjective(x, y);
    forall i | 0 <= i < 64
      ensures And(w, mask)[i] == And(o, mask)[i]
    {
      if mask[i] {
        assert x[i - 8 * (byte - 1)] == y[i - 8 * (byte - 1)];
      }
    }
  }

  /** What a switch puts into the case of `w` agrees with it on the mask. */
  lemma {:induction false} CaseSide(list: seq<Entry>, mask: Word, byte: nat, w: Word)
    requires ListOk(list) && 1 <= byte <= 8 && WithinByte(mask, byte) && forall e :: e in list ==> Subset(mask, e.mask)
    ensures forall e :: e in CaseList(list, mask, byte, SwitchValue(w, mask, byte)) ==>
      AgreeOn(mask, w, e.data) && exists o :: o in list && o.data == e.data
  {
    hide CaseList, SwitchValue, WithinByte;
    var v := SwitchValue(w, mask, byte);
    CaseListOrigin(list, mask, byte, v);
    forall e | e in CaseList(list, mask, byte, v)
      ensures AgreeOn(mask, w, e.data) && exists o :: o in list && o.data == e.data
    {
      var o :| o in list && o.data == e.data;
      OwnBits(list, o);
      SwitchAgrees(w, e.data.opcode, mask, byte);
    }
  }

  // ----- the builder -----

  lemma {:induction false} BuildPath(list: seq<Entry>, depth: nat, w: Word, t: Tree)
    requires list != [] && ListOk(list) && Build(list, depth) == Some(t)
    ensures Path(t, w, list)
    decreases depth, 0, 0, 1
  {
    hide EffectiveMask, MinValue, SwitchApplies, BuildCases, BuildIf, Terminal, Path, ListOk;
    var mask := EffectiveMask(list);
    if IsZero(mask) {
      TerminalPath(list, depth - 1, w, t);
    } else if SwitchApplies(list, mask) {
      SwitchPath(list, depth, w, t);
    } else {
      IfListPath(list, depth - 1, w, t);
    }
  }

  /** The cases from `key` on: the one of `w` is built from its sub-list, or is missing. */
  ghost predicate CasePath(cs: Cases, w: Word, sub: seq<Entry>, key: nat, value: int) {
    && CasesOk(cs)
    && (key <= value < 256 ==>
      if ReachesCase(cs, value, w) then exists e :: e in sub && CaseAnswersWith(cs, value, w, e.data)
      else EvalCases(cs, value, w) == 0)
    && (!(key <= value < 256) ==> !ReachesCase(cs, value, w) && EvalCases(cs, value, w) == 0)
  }

  predicate CaseAnswersWith(cs: Cases, value: int, w: Word, r: Record)
    requires CasesOk(cs)
  {
    EvalCases(cs, value, w) == r.index && AgreeOn(TestedCase(cs, value, w), w, r)
  }

  lemma {:induction false} SwitchPath(list: seq<Entry>, depth: nat, w: Word, t: Tree)
    requires list != [] && ListOk(list) && Build(list, depth) == Some(t)
    requires !IsZero(EffectiveMask(list)) && SwitchApplies(list, EffectiveMask(list))
    ensures Path(t, w, list)
    decreases depth, 0, 0, 0
  {
    hide EffectiveMask, CaseList, MinValue, CaseValues, BuildCases, BuildIf, Terminal, ListOk, Path, CasePath;
    var mask := EffectiveMask(list);
    CasesPath(list, mask, t.byte, t.min, 0, depth - 1, w, t.cases);
    MaskWithin(list, mask);
    CasesGivePath(list, mask, t.byte, t.min, t.cases, w);
  }

  lemma CasesGivePath(list: seq<Entry>, mask: Word, byte: nat, min: nat, cs: Cases, w: Word)
    requires ListOk(list) && 1 <= byte <= 8 && WithinByte(mask, byte) && forall e :: e in list ==> Subset(mask, e.mask)
    requires CasePath(cs, w, CaseList(list, mask, byte, SwitchValue(w, mask, byte)), 0, SwitchValue(w, mask, byte) - min)
    ensures Path(Switch(byte, ByteVar(mask, byte), min, cs), w, list)
  {
    hide WithinByte, SwitchValue, CaseList, ListOk, AgreeOn, Lift;
    var t, v := Switch(byte, ByteVar(mask, byte), min, cs), SwitchValue(w, mask, byte);
    SwitchReads(w, mask, byte);
    LiftByte(mask, byte);
    CaseSide(list, mask, byte, w);
    if Reaches(t, w) {
      var e :| e in CaseList(list, mask, byte, v) && CaseAnswersWith(cs, v - min, w, e.data);
      var o :| o in list && o.data == e.data;
      AgreeOnBoth(mask, TestedCase(cs, v - min, w), w, e.data);
      assert AnswersWith(t, w, o.data);
    }
  }

  lemma {:induction false} CasesPath(list: seq<Entry>, mask: Word, byte: nat, min: nat, key: nat,
                                     depth: nat, w: Word, cs: Cases)
    requires 1 <= byte <= 8 && key <= 256 && ListOk(list)
    requires BuildCases(list, mask, byte, min, key, depth) == Some(cs)
    ensures CasePath(cs, w, CaseList(list, mask, byte, SwitchValue(w, mask, byte)), key, SwitchValue(w, mask, byte) - min)
    decreases depth, 1, 256 - key, 0
  {
    hide CaseList, Build, ListOk, SwitchValue, AgreeOn;
    if key < 256 {
      var sub := CaseList(list, mask, byte, key + min);
      if sub == [] {
        CasesPath(list, mask, byte, min, key + 1, depth, w, cs);
        if SwitchValue(w, mask, byte) == key + min {
          assert !ReachesCase(cs, key, w);
        }
      } else {
        CasesPath(list, mask, byte, min, key + 1, depth, w, cs.rest);
        SplitsOk(list, 0, mask, byte, Constraint(mask, mask));
        BuildPath(sub, depth, w, cs.body);
        NextCase(cs, w, CaseList(list, mask, byte, SwitchValue(w, mask, byte)), key, SwitchValue(w, mask, byte) - min);
      }
    }
  }

  lemma NextCase(cs: Cases, w: Word, sub: seq<Entry>, key: nat, value: int)
    requires cs.Case? && cs.key == key && key < 256 && CasePath(cs.rest, w, sub, key + 1, value)
    requires TreeOk(cs.body) && (value == key ==> Path(cs.body, w, sub))
    ensures CasePath(cs, w, sub, key, value)
  {
    hide AgreeOn;
    if value == key {
      if Reaches(cs.body, w) {
        var e :| e in sub && AnswersWith(cs.body, w, e.data);
        assert CaseAnswersWith(cs, value, w, e.data);
      }
    } else if ReachesCase(cs, value, w) {
      var e :| e in sub && CaseAnswersWith(cs.rest, value, w, e.data);
      assert CaseAnswersWith(cs, value, w, e.data);
    }
  }

  lemma {:induction false} IfListPath(list: seq<Entry>, depth: nat, w: Word, t: Tree)
    requires list != [] && ListOk(list) && BuildIf(list, depth) == Some(t)
    ensures Path(t, w, list)
    decreases depth, 4, Popcount(Common(list)), 0
  {
    hide Build, Terminal, BitList, Common, ListOk, Path;
    if |list| == 1 || IsZero(Common(list)) {
      TerminalPath(list, depth, w, t);
    } else {
      var bit := LowestBit(Common(list));
      var zeros, ones := BitList(list, bit, false), BitList(list, bit, true);
      BitListLoses(list, bit);
      SplitsOk(list, bit, Common(list), 1, Constraint(Zeros(64), Zeros(64)));
      if zeros == [] {
        IfListPath(ones, depth, w, t);
        PathWithin(t, w, list, bit, true);
      } else if ones == [] {
        IfListPath(zeros, depth, w, t);
        PathWithin(t, w, list, bit, false);
      } else {
        BuildPath(ones, depth, w, t.yes);
        BuildPath(zeros, depth, w, t.no);
        BitPath(list, bit, w, t.yes, t.no);
      }
    }
  }

  /** A bit on which all patterns agree is dropped without being read. */
  lemma PathWithin(t: Tree, w: Word, list: seq<Entry>, bit: nat, v: bool)
    requires bit < 64 && Path(t, w, BitList(list, bit, v))
    ensures Path(t, w, list)
  {
    hide BitList, AnswersWith;
    BitListSplits(list, bit, v);
    if Reaches(t, w) {
      var e :| e in BitList(list, bit, v) && AnswersWith(t, w, e.data);
      var k :| 0 <= k < |list| && e == StripEntry(list[k], BitMask(bit)) && list[k].data.opcode[bit] == v;
      assert list[k] in list && list[k].data == e.data;
    }
  }

  lemma BitPath(list: seq<Entry>, bit: nat, w: Word, yes: Tree, no: Tree)
    requires ListOk(list) && bit < 64 && Common(list)[bit]
    requires Path(yes, w, BitList(list, bit, true)) && Path(no, w, BitList(list, bit, false))
    ensures Path(If(BitTest(bit), yes, no), w, list)
  {
    hide BitList, Common, ListOk, AgreeOn, Holds, AnswersWith;
    BitTestMeaning(bit, w);
    BitTestBits(bit, w);
    BitSide(list, bit, w);
    IfSide(BitTest(bit), yes, no, w, BitList(list, bit, w[bit]), list);
  }

  lemma {:induction false} TerminalPath(list: seq<Entry>, depth: nat, w: Word, t: Tree)
    requires list != [] && ListOk(list) && Terminal(list, depth) == Some(t)
    ensures Path(t, w, list)
    decreases depth, 3, 0, 0
  {
    hide Build, BuildConstraint, BuildHighest, ListOk, HasConstraints, AgreeOn;
    if |list| == 1 {
      AgreeOnNothing(w, list[0].data);
      assert list[0] in list && AnswersWith(t, w, list[0].data);
    } else if HasConstraints(list) {
      ConstraintPath(list, depth, w, t);
    } else {
      HighestPath(list, depth, w, t);
    }
  }

  lemma {:induction false} SideOrigin(list: seq<Entry>, gc: Constraint, side: Side)
    ensures forall e :: e in ConstraintList(list, gc, side) ==> exists o :: o in list && o.data == e.data
  {
    hide SideOf;
    if list != [] {
      var init := list[..|list| - 1];
      SideOrigin(init, gc, side);
      assert forall e :: e in init ==> e in list;
      assert list[|list| - 1] in list;
    }
  }

  lemma {:induction false} ConstraintPath(list: seq<Entry>, depth: nat, w: Word, t: Tree)
    requires list != [] && ListOk(list) && BuildConstraint(list, depth) == Some(t)
    ensures Path(t, w, list)
    decreases depth, 2, 0, 0
  {
    hide GlobalConstraint, ConstraintList, Build, ListOk, Path;
    match GlobalConstraint(list) {
      case None => BuildPath(list, depth, w, t);
      case Some(gc) =>
        SplitsOk(list, 0, Zeros(64), 1, gc);
        if ConstraintList(list, gc, Yes) == [] {
          NothingLost(list, gc);
          ConstraintPath(ConstraintList(list, gc, No), depth - 1, w, t);
          GotoPath(list, gc, w, t);
        } else {
          BuildPath(ConstraintList(list, gc, Yes), depth, w, t.no);
          if ConstraintList(list, gc, No) != [] {
            BuildPath(ConstraintList(list, gc, No), depth, w, t.yes);
          } else {
            EmptyPath(w);
          }
          NotValuePath(list, gc, w, t.yes, t.no);
        }
    }
  }

  lemma EmptyPath(w: Word)
    ensures Path(Empty, w, [])
  {
  }

  lemma GotoPath(list: seq<Entry>, gc: Constraint, w: Word, t: Tree)
    requires Path(t, w, ConstraintList(list, gc, No))
    ensures Path(t, w, list)
  {
    hide ConstraintList, AnswersWith;
    SideOrigin(list, gc, No);
    if Reaches(t, w) {
      var e :| e in ConstraintList(list, gc, No) && AnswersWith(t, w, e.data);
      var o :| o in list && o.data == e.data;
    }
  }

  lemma NotValuePath(list: seq<Entry>, gc: Constraint, w: Word, yes: Tree, no: Tree)
    requires Path(yes, w, ConstraintList(list, gc, No)) && Path(no, w, ConstraintList(list, gc, Yes))
    ensures Path(If(NotValue(gc.mask, gc.value), yes, no), w, list)
  {
    hide ConstraintList, AgreeOn, AnswersWith;
    var test := NotValue(gc.mask, gc.value);
    var side := if Holds(test, w) then No else Yes;
    SideOrigin(list, gc, side);
    forall e | e in ConstraintList(list, gc, side)
      ensures AgreeOn(TestBits(test, w), w, e.data)
    {
      AgreeOnNothing(w, e.data);
    }
    IfSide(test, yes, no, w, ConstraintList(list, gc, side), list);
  }

  lemma {:induction false} HighestPath(list: seq<Entry>, depth: nat, w: Word, t: Tree)
    requires |list| >= 2 && ListOk(list) && BuildHighest(list, depth) == Some(t)
    ensures Path(t, w, list)
    decreases depth, 2, 0, 0
  {
    hide Build, Path, ListOk, SortByRank;
    var sorted := SortByRank(list, EntryRank);
    SortOk(list);
    PartsOk(sorted);
    BuildPath(sorted[..1], depth, w, t.yes);
    BuildPath(sorted[1..], depth, w, t.no);
    SortDescends(list);
    WholePath(sorted, list, w, t.yes, t.no);
  }

  lemma PartsOk(list: seq<Entry>)
    requires ListOk(list) && list != []
    ensures ListOk(list[..1]) && ListOk(list[1..])
  {
    assert forall e :: e in list[..1] ==> e in list;
    assert forall e :: e in list[1..] ==> e in list;
  }

  lemma WholePath(sorted: seq<Entry>, list: seq<Entry>, w: Word, yes: Tree, no: Tree)
    requires |sorted| >= 2 && forall e :: e in sorted ==> e in list
    requires Path(yes, w, sorted[..1]) && Path(no, w, sorted[1..])
    ensures Path(If(Whole(sorted[0].data), yes, no), w, list)
  {
    assert TreeOk(yes) && TreeOk(no);
    hide AgreeOn, Satisfies, Path, SidePath, TestBits;
    var r := sorted[0].data;
    assert Holds(Whole(r), w) == Satisfies(w, r);
    if Satisfies(w, r) {
      WholeSide(sorted, list, w, yes);
      IfSide(Whole(r), yes, no, w, sorted[..1], list);
    } else {
      WholeSide(sorted, list, w, no);
      IfSide(Whole(r), yes, no, w, sorted[1..], list);
    }
  }

  lemma WholeSide(sorted: seq<Entry>, list: seq<Entry>, w: Word, t: Tree)
    requires sorted != [] && forall e :: e in sorted ==> e in list
    requires Path(t, w, if Satisfies(w, sorted[0].data) then sorted[..1] else sorted[1..])
    ensures var sub := if Satisfies(w, sorted[0].data) then sorted[..1] else sorted[1..];
      SidePath(t, w, sub, TestBits(Whole(sorted[0].data), w), list)
  {
    hide AgreeOn, Satisfies, Path, TestBits;
    SubsOfSorted(sorted, list);
    WholeAgrees(sorted, w);
  }

  lemma SubsOfSorted(sorted: seq<Entry>, list: seq<Entry>)
    requires sorted != [] && forall e :: e in sorted ==> e in list
    ensures forall e :: e in sorted[..1] || e in sorted[1..] ==> exists o :: o in list && o.data == e.data
  {
    assert forall e :: e in sorted[..1] || e in sorted[1..] ==> e in sorted;
  }

  lemma WholeAgrees(sorted: seq<Entry>, w: Word)
    requires sorted != []
    ensures forall e :: e in (if Satisfies(w, sorted[0].data) then sorted[..1] else sorted[1..]) ==>
      AgreeOn(TestBits(Whole(sorted[0].data), w), w, e.data)
  {
    hide AgreeOn, Satisfies;
    var r := sorted[0].data;
    forall e | e in if Satisfies(w, r) then sorted[..1] else sorted[1..]
      ensures AgreeOn(TestBits(Whole(r), w), w, e.data)
    {
      if Satisfies(w, r) {
        assert e == sorted[0];
        SatisfiedAgrees(w, r);
      } else {
        AgreeOnNothing(w, e.data);
      }
    }
  }

  lemma SatisfiedAgrees(w: Word, r: Record)
    requires Satisfies(w, r)
    ensures AgreeOn(r.mask, w, r)
  {
    forall i | 0 <= i < 64
      ensures And(w, r.mask)[i] == And(r.opcode, r.mask)[i]
    {
      assert And(w, r.mask)[i] == r.opcode[i];
    }
  }

  // ----- the answer -----

  /** The record at the end of the path is satisfied just when the word also agrees with it
      on the bits of its mask that the path has not fixed, and meets its constraints. */
  lemma RestDecides(t: Tree, w: Word, r: Record)
    requires TreeOk(t) && AnswersWith(t, w, r) && Subset(r.opcode, r.mask)
    ensures var rest := And(r.mask, Not(Tested(t, w)));
      Satisfies(w, r) <==> And(w, rest) == And(r.opcode, rest) && forall c :: c in r.cnsts ==> Meets(w, c)
  {
    var tested := Tested(t, w);
    var rest := And(r.mask, Not(tested));
    if And(w, r.mask) == r.opcode {
      forall i | 0 <= i < 64
        ensures And(w, rest)[i] == And(r.opcode, rest)[i]
      {
        assert And(w, r.mask)[i] == r.opcode[i];
      }
    }
    if And(w, rest) == And(r.opcode, rest) {
      forall i | 0 <= i < 64
        ensures And(w, r.mask)[i] == r.opcode[i]
      {
        assert And(w, rest)[i] == And(r.opcode, rest)[i];
        assert And(w, tested)[i] == And(r.opcode, tested)[i];
      }
    }
  }

  /** The record that answers `w`, and what decides whether `w` satisfies it. */
  ghost predicate AnsweredBy(t: Tree, w: Word, r: Record)
    requires TreeOk(t)
  {
    var rest := And(r.mask, Not(Tested(t, w)));
    && AnswersWith(t, w, r)
    && (Satisfies(w, r) <==> And(w, rest) == And(r.opcode, rest) && forall c :: c in r.cnsts ==> Meets(w, c))
  }

  ghost predicate Answer(t: Tree, w: Word, records: seq<Record>) {
    TreeOk(t)
    && if Reaches(t, w) then exists r :: r in records && AnsweredBy(t, w, r) else Eval(t, w) == 0
  }

  /** Any word, whether it satisfies a record or not.  If its path ends in a leaf it gets the
      index of a record that agrees with it on every bit the path has fixed; otherwise it
      gets 0. */
  lemma AnyWord(records: seq<Record>, depth: nat, w: Word)
    requires records != [] && forall r :: r in records ==> Subset(r.opcode, r.mask)
    ensures var t := Build(InitialList(records), depth);
      t.Some? ==> Answer(t.value, w, records)
  {
    hide Build, Reaches, Eval, AgreeOn, AnswersWith;
    var list := InitialList(records);
    if Build(list, depth).Some? {
      var t := Build(list, depth).value;
      BuildPath(list, depth, w, t);
      if Reaches(t, w) {
        var e :| e in list && AnswersWith(t, w, e.data);
        assert e.data in records;
        RestDecides(t, w, e.data);
        assert AnsweredBy(t, w, e.data);
      }
    }
  }

  /** With indexes other than 0, a word is answered 0 exactly when its path does not end in a
      leaf.  So a word that satisfies no record is answered 0 exactly then, and otherwise
      gets a record that it disagrees with only on bits the path has not fixed, or on a
      constraint. */
  lemma UnmatchedWord(records: seq<Record>, depth: nat, w: Word)
    requires records != [] && forall r :: r in records ==> Subset(r.opcode, r.mask) && r.index != 0
    ensures var t := Build(InitialList(records), depth);
      t.Some? ==> TreeOk(t.value) && (Eval(t.value, w) == 0 <==> !Reaches(t.value, w))
    ensures var t := Build(InitialList(records), depth);
      t.Some? && !SomeSatisfied(records, w) && Eval(t.value, w) != 0 ==>
        exists r :: r in records && AnsweredBy(t.value, w, r) && !Satisfies(w, r)
  {
    hide Build, Reaches, Eval;
    AnyWord(records, depth, w);
    var t := Build(InitialList(records), depth);
    if t.Some? && Reaches(t.value, w) {
      var r :| r in records && AnsweredBy(t.value, w, r);
    }
  }

  /** A single record answers every word: no bit is read. */
  lemma SingleRecord(r: Record, depth: nat)
    requires depth > 0
    ensures Build(InitialList([r]), depth) == Some(Leaf(r.index))
  {
    SingleHasNoMask(InitialList([r]));
  }
}
