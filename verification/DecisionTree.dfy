/** The decision-tree compiler: the list of patterns, the builder as functions on
    lists, the emitted tree and its meaning, and the linear search it replaces. */
module DecisionTree {
  import opened Bits
  import opened Wrappers

  /** `(opcode & mask) != value`. */
  datatype Constraint = Constraint(mask: Word, value: Word)

  /** What the diagram of a record fixes for good. */
  datatype Record = Record(index: nat, opcode: Word, mask: Word, tmask: Word, cnsts: seq<Constraint>)

  /** A list node by value: `mask` and `cmask` are the parts not yet decided. */
  datatype Entry = Entry(data: Record, mask: Word, cmask: Word)

  // ----- what a pattern means -----

  predicate Meets(w: Word, c: Constraint) {
    And(w, c.mask) != c.value
  }

  predicate Satisfies(w: Word, r: Record) {
    And(w, r.mask) == r.opcode && forall c :: c in r.cnsts ==> Meets(w, c)
  }

  function Rank(r: Record): nat {
    GetBitCount(r.tmask)
  }

  /** The records of `list` that `w` satisfies, in list order. */
  function Satisfied(list: seq<Entry>, w: Word): seq<Record> {
    if list == [] then []
    else (if Satisfies(w, list[0].data) then [list[0].data] else []) + Satisfied(list[1..], w)
  }

  /** The first record of the highest rank. */
  function Best(records: seq<Record>): Option<Record> {
    if records == [] then None
    else
      var rest := Best(records[1..]);
      if rest.None? || Rank(records[0]) >= Rank(rest.value) then Some(records[0]) else rest
  }

  /** The reference: a linear, most-specific-first search of the list. */
  function Search(list: seq<Entry>, w: Word): Option<Record> {
    Best(Satisfied(list, w))
  }

  /** How `generate_isaform_disasm` enters a record. */
  function Initial(r: Record): Entry {
    Entry(r, r.mask, ConstraintBits(r.cnsts))
  }

  function ConstraintBits(cnsts: seq<Constraint>): Word {
    if cnsts == [] then Zeros(64) else Or(cnsts[0].mask, ConstraintBits(cnsts[1..]))
  }

  // ----- the emitted code -----

  /** Conditions of an emitted `if`; the first reads one byte of the opcode. */
  datatype Test =
    | ByteBits(byte: nat, varMask: Bits)
    | NotValue(mask: Word, value: Word)
    | Whole(data: Record)

  datatype Tree =
    | Empty
    | Leaf(index: nat)
    | If(test: Test, yes: Tree, no: Tree)
    | Switch(byte: nat, varMask: Bits, min: nat, cases: Cases)

  datatype Cases = NoCase | Case(key: int, body: Tree, rest: Cases)

  /** The C variables `a`, `b`, ...: byte 1 is the lowest. */
  function ByteVar(w: Word, byte: nat): Bits
    requires 1 <= byte <= 8
  {
    w[8 * (byte - 1)..8 * byte]
  }

  predicate TestOk(t: Test) {
    t.ByteBits? ==> 1 <= t.byte <= 8 && |t.varMask| == 8
  }

  predicate TreeOk(t: Tree) {
    match t
    case Empty => true
    case Leaf(_) => true
    case If(test, yes, no) => TestOk(test) && TreeOk(yes) && TreeOk(no)
    case Switch(byte, varMask, _, cases) => 1 <= byte <= 8 && |varMask| == 8 && CasesOk(cases)
  }

  predicate CasesOk(cs: Cases) {
    cs.Case? ==> TreeOk(cs.body) && CasesOk(cs.rest)
  }

  predicate Holds(t: Test, w: Word)
    requires TestOk(t)
  {
    match t
    case ByteBits(byte, varMask) => !IsZero(And(ByteVar(w, byte), varMask))
    case NotValue(mask, value) => And(w, mask) != value
    case Whole(data) => Satisfies(w, data)
  }

  /** The value the emitted lookup returns: falling through means 0. */
  function Eval(t: Tree, w: Word): nat
    requires TreeOk(t)
  {
    match t
    case Empty => 0
    case Leaf(index) => index
    case If(test, yes, no) => if Holds(test, w) then Eval(yes, w) else Eval(no, w)
    case Switch(byte, varMask, min, cases) =>
      EvalCases(cases, Nat(And(ByteVar(w, byte), varMask)) - min, w)
  }

  function EvalCases(cs: Cases, key: int, w: Word): nat
    requires CasesOk(cs)
  {
    match cs
    case NoCase => 0
    case Case(k, body, rest) => if k == key then Eval(body, w) else EvalCases(rest, key, w)
  }

  // ----- masks of a list -----

  /** `mask &= entry->mask` over the list, from -1. */
  function Common(list: seq<Entry>): Word {
    if list == [] then Ones(64)
    else And(Common(list[..|list| - 1]), list[|list| - 1].mask)
  }

  datatype Scan = Scan(mask: Word, zero: Word, one: Word)

  function ScanStep(s: Scan, e: Entry): Scan {
    var mask := And(s.mask, e.mask);
    var value := And(e.data.opcode, mask);
    Scan(mask, And(s.zero, And(Not(value), mask)), And(s.one, value))
  }

  function ScanList(list: seq<Entry>): Scan {
    if list == [] then Scan(Ones(64), Ones(64), Ones(64))
    else ScanStep(ScanList(list[..|list| - 1]), list[|list| - 1])
  }

  /** `get_effective_mask`: bits every mask still has and on which opcodes differ. */
  function EffectiveMask(list: seq<Entry>): Word {
    var s := ScanList(list);
    Xor(s.mask, Or(s.one, s.zero))
  }

  predicate WithinByte(mask: Word, byte: nat) {
    forall i :: 0 <= i < 64 && mask[i] ==> 8 * (byte - 1) <= i < 8 * byte
  }

  /** `get_blessed_byte_from_mask`: the byte that holds the whole mask, or 0. */
  function BlessedByte(mask: Word): (b: nat)
    ensures b <= 8
  {
    if WithinByte(mask, 1) then 1 else if WithinByte(mask, 2) then 2
    else if WithinByte(mask, 3) then 3 else if WithinByte(mask, 4) then 4
    else if WithinByte(mask, 5) then 5 else if WithinByte(mask, 6) then 6
    else if WithinByte(mask, 7) then 7 else if WithinByte(mask, 8) then 8
    else 0
  }

  function LowestBit(mask: Bits): (bit: nat)
    requires !IsZero(mask)
    ensures bit < |mask| && mask[bit] && forall i :: 0 <= i < bit ==> !mask[i]
  {
    if mask[0] then 0 else
      ZeroTail(mask);
      1 + LowestBit(mask[1..])
  }

  function BitMask(bit: nat): Word
    requires bit < 64
  {
    seq(64, i => i == bit)
  }

  // ----- splitting a list -----

  /** The byte test printed for one bit. */
  function BitTest(bit: nat): (t: Test)
    requires bit < 64
    ensures TestOk(t)
  {
    ByteBits(bit / 8 + 1, ByteVar(BitMask(bit), bit / 8 + 1))
  }

  function StripEntry(e: Entry, mask: Word): Entry {
    e.(mask := And(e.mask, Not(mask)))
  }

  /** `divide_tree_using_if`: the entries whose opcode has `value` at `bit`. */
  function BitList(list: seq<Entry>, bit: nat, value: bool): seq<Entry>
    requires bit < 64
  {
    if list == [] then []
    else
      var e := list[|list| - 1];
      BitList(list[..|list| - 1], bit, value)
        + (if e.data.opcode[bit] == value then [StripEntry(e, BitMask(bit))] else [])
  }

  function SwitchValue(opcode: Word, mask: Word, byte: nat): nat
    requires 1 <= byte <= 8
  {
    Nat(Shr(And(opcode, mask), 8 * (byte - 1)))
  }

  /** `divide_tree_using_switch`: the entries of one case. */
  function CaseList(list: seq<Entry>, mask: Word, byte: nat, value: int): seq<Entry>
    requires 1 <= byte <= 8
  {
    if list == [] then []
    else
      var e := list[|list| - 1];
      CaseList(list[..|list| - 1], mask, byte, value)
        + (if SwitchValue(e.data.opcode, mask, byte) == value then [StripEntry(e, mask)] else [])
  }

  function CaseValues(list: seq<Entry>, mask: Word, byte: nat): set<nat>
    requires 1 <= byte <= 8
  {
    if list == [] then {}
    else CaseValues(list[..|list| - 1], mask, byte) + {SwitchValue(list[|list| - 1].data.opcode, mask, byte)}
  }

  function Min(x: nat, y: nat): nat {
    if y < x then y else x
  }

  function MinValue(list: seq<Entry>, mask: Word, byte: nat): nat
    requires 1 <= byte <= 8 && list != []
  {
    var v := SwitchValue(list[|list| - 1].data.opcode, mask, byte);
    if |list| == 1 then v else Min(MinValue(list[..|list| - 1], mask, byte), v)
  }

  const MIN_SWITCH_CASES := 3
  const MAX_SWITCH_CASES := 400

  predicate SwitchApplies(list: seq<Entry>, mask: Word) {
    GetBitCount(mask) >= 2
    && BlessedByte(mask) != 0
    && MIN_SWITCH_CASES <= |CaseValues(list, mask, BlessedByte(mask))| <= MAX_SWITCH_CASES
  }

  /** `get_node_constraint`: the first constraint that only looks inside `mask`. */
  function NodeConstraint(e: Entry, mask: Word): Option<Constraint> {
    if IsZero(e.cmask) then None else FirstWithin(e.data.cnsts, mask)
  }

  function FirstWithin(cnsts: seq<Constraint>, mask: Word): Option<Constraint> {
    if cnsts == [] then None
    else if And(mask, cnsts[0].mask) == cnsts[0].mask then Some(cnsts[0])
    else FirstWithin(cnsts[1..], mask)
  }

  datatype Gather = Gather(gmask: Word, lmask: Word)

  /** The first loop of `get_global_constraint`. */
  function GatherMasks(list: seq<Entry>): Gather {
    if list == [] then Gather(Ones(64), Ones(64))
    else
      var g := GatherMasks(list[..|list| - 1]);
      var e := list[|list| - 1];
      if IsZero(e.cmask) then g else Gather(And(g.gmask, e.cmask), e.cmask)
  }

  function FirstNodeConstraint(list: seq<Entry>, mask: Word): Option<Constraint> {
    if list == [] then None
    else
      var c := NodeConstraint(list[0], mask);
      if c.Some? then c else FirstNodeConstraint(list[1..], mask)
  }

  function GlobalConstraint(list: seq<Entry>): Option<Constraint> {
    var g := GatherMasks(list);
    var gmask := if IsZero(g.gmask) then g.lmask else g.gmask;
    if gmask == Ones(64) || IsZero(gmask) then None else FirstNodeConstraint(list, gmask)
  }

  datatype Side = Yes | No | Both

  /** Where `divide_cnsts` puts an entry: `Yes` is the list of words for which
      `(opcode & gc.mask) != gc.value`. */
  function SideOf(e: Entry, gc: Constraint): Side {
    if NodeConstraint(e, gc.mask) == Some(gc) then Yes
    else if And(e.mask, gc.mask) == gc.mask then
      if And(e.data.opcode, gc.mask) == gc.value then No else Yes
    else Both
  }

  /** A constraint that the branch decides is struck from `cmask`. */
  function Consume(e: Entry, gc: Constraint): Entry {
    if NodeConstraint(e, gc.mask) == Some(gc) then e.(cmask := And(e.cmask, Not(gc.mask))) else e
  }

  function ConstraintList(list: seq<Entry>, gc: Constraint, other: Side): seq<Entry> {
    if list == [] then []
    else
      var e := list[|list| - 1];
      ConstraintList(list[..|list| - 1], gc, other)
        + (if SideOf(e, gc) == other then [] else [Consume(e, gc)])
  }

  predicate HasConstraints(list: seq<Entry>) {
    exists i :: 0 <= i < |list| && !IsZero(list[i].cmask)
  }

  /** Stable insertion sort by decreasing rank, as `sort` does. */
  function InsertByRank<T>(x: T, sorted: seq<T>, rank: T -> nat): seq<T> {
    if sorted == [] then [x]
    else if rank(x) >= rank(sorted[0]) then [x] + sorted
    else [sorted[0]] + InsertByRank(x, sorted[1..], rank)
  }

  function SortByRank<T>(list: seq<T>, rank: T -> nat): (r: seq<T>)
    ensures |r| == |list|
  {
    if list == [] then [] else
      var tail := SortByRank(list[1..], rank);
      InsertRankLength(list[0], tail, rank);
      InsertByRank(list[0], tail, rank)
  }

  lemma {:induction false} InsertRankLength<T>(x: T, sorted: seq<T>, rank: T -> nat)
    ensures |InsertByRank(x, sorted, rank)| == |sorted| + 1
  {
    if sorted != [] && rank(x) < rank(sorted[0]) {
      InsertRankLength(x, sorted[1..], rank);
    }
  }

  function EntryRank(e: Entry): nat {
    Rank(e.data)
  }

  // ----- the builder -----

  /** `divide_tree`.  The source gives up after 100000 calls; here `depth` bounds
      the nesting of calls and `None` stands for giving up. */
  function Build(list: seq<Entry>, depth: nat): Option<Tree>
    requires list != []
    decreases depth, 0, 0, 0
  {
    if depth == 0 then None else
      var mask := EffectiveMask(list);
      if IsZero(mask) then Terminal(list, depth - 1)
      else if SwitchApplies(list, mask) then
        var byte := BlessedByte(mask);
        var min := MinValue(list, mask, byte);
        match BuildCases(list, mask, byte, min, 0, depth - 1)
        case None => None
        case Some(cases) => Some(Switch(byte, ByteVar(mask, byte), min, cases))
      else BuildIf(list, depth - 1)
  }

  /** One sub-tree per case value, in increasing order of the printed key. */
  function BuildCases(list: seq<Entry>, mask: Word, byte: nat, min: nat, key: nat, depth: nat): Option<Cases>
    requires 1 <= byte <= 8 && key <= 256
    decreases depth, 1, 256 - key, 0
  {
    if key == 256 then Some(NoCase) else
      var sub := CaseList(list, mask, byte, key + min);
      if sub == [] then BuildCases(list, mask, byte, min, key + 1, depth)
      else
        match Build(sub, depth)
        case None => None
        case Some(body) =>
          match BuildCases(list, mask, byte, min, key + 1, depth)
          case None => None
          case Some(rest) => Some(Case(key, body, rest))
  }

  /** `divide_tree_using_if`. */
  function BuildIf(list: seq<Entry>, depth: nat): Option<Tree>
    requires list != []
    decreases depth, 4, Popcount(Common(list)), 0
  {
    if |list| == 1 then Terminal(list, depth) else
      var mask := Common(list);
      if IsZero(mask) then Terminal(list, depth) else
        var bit := LowestBit(mask);
        var zeros, ones := BitList(list, bit, false), BitList(list, bit, true);
        BitListLoses(list, bit);
        if zeros == [] then BuildIf(ones, depth)
        else if ones == [] then BuildIf(zeros, depth)
        else Branch(BitTest(bit), Build(ones, depth), Build(zeros, depth))
  }

  function Branch(test: Test, yes: Option<Tree>, no: Option<Tree>): Option<Tree> {
    if yes.None? || no.None? then None else Some(If(test, yes.value, no.value))
  }

  /** `divide_tree_terminal` and `divide_conflicts`. */
  function Terminal(list: seq<Entry>, depth: nat): Option<Tree>
    requires list != []
    decreases depth, 3, 0, 0
  {
    if |list| == 1 then Some(Leaf(list[0].data.index))
    else if HasConstraints(list) then BuildConstraint(list, depth)
    else BuildHighest(list, depth)
  }

  /** `divide_cnsts`. */
  function BuildConstraint(list: seq<Entry>, depth: nat): Option<Tree>
    requires list != []
    decreases depth, 2, 0, 0
  {
    match GlobalConstraint(list)
    case None => Build(list, depth)
    case Some(gc) =>
      var yes, no := ConstraintList(list, gc, No), ConstraintList(list, gc, Yes);
      if no == [] then
        NothingLost(list, gc);
        if depth == 0 then None else BuildConstraint(yes, depth - 1)
      else
        Branch(NotValue(gc.mask, gc.value), if yes == [] then Some(Empty) else Build(yes, depth), Build(no, depth))
  }

  /** `divide_hi_bits`. */
  function BuildHighest(list: seq<Entry>, depth: nat): Option<Tree>
    requires |list| >= 2
    decreases depth, 2, 0, 0
  {
    var sorted := SortByRank(list, EntryRank);
    Branch(Whole(sorted[0].data), Build(sorted[..1], depth), Build(sorted[1..], depth))
  }

  // ----- facts the builder itself needs -----

  lemma {:induction false} CommonMeaning(list: seq<Entry>)
    ensures forall i :: 0 <= i < 64 ==> (Common(list)[i] <==> forall k :: 0 <= k < |list| ==> list[k].mask[i])
  {
    if list != [] {
      var init := list[..|list| - 1];
      CommonMeaning(init);
      forall i | 0 <= i < 64
        ensures Common(list)[i] <==> forall k :: 0 <= k < |list| ==> list[k].mask[i]
      {
        assert forall k :: 0 <= k < |init| ==> init[k] == list[k];
      }
    }
  }

  lemma {:induction false} BitListSplits(list: seq<Entry>, bit: nat, value: bool)
    requires bit < 64
    ensures forall e :: e in BitList(list, bit, value) ==>
      exists k :: 0 <= k < |list| && e == StripEntry(list[k], BitMask(bit)) && list[k].data.opcode[bit] == value
    ensures |BitList(list, bit, false)| + |BitList(list, bit, true)| == |list|
  {
    if list != [] {
      var init := list[..|list| - 1];
      BitListSplits(init, bit, value);
      forall e | e in BitList(list, bit, value)
        ensures exists k :: 0 <= k < |list| && e == StripEntry(list[k], BitMask(bit)) && list[k].data.opcode[bit] == value
      {
        if e in BitList(init, bit, value) {
          var k :| 0 <= k < |init| && e == StripEntry(init[k], BitMask(bit)) && init[k].data.opcode[bit] == value;
          assert init[k] == list[k];
        }
      }
    }
  }

  /** When a test does not split the list, the common mask shrinks all the same. */
  lemma BitListLoses(list: seq<Entry>, bit: nat)
    requires list != [] && bit < 64 && Common(list)[bit]
    ensures forall v :: BitList(list, bit, !v) == [] ==>
      BitList(list, bit, v) != [] && Popcount(Common(BitList(list, bit, v))) < Popcount(Common(list))
  {
    forall v | BitList(list, bit, !v) == []
      ensures BitList(list, bit, v) != [] && Popcount(Common(BitList(list, bit, v))) < Popcount(Common(list))
    {
      BitListSplits(list, bit, v);
      BitListWhole(list, bit, v);
      CommonMeaning(list);
      var out := BitList(list, bit, v);
      CommonMeaning(out);
      forall i | 0 <= i < 64 && Common(out)[i]
        ensures Common(list)[i]
      {
        forall k | 0 <= k < |list|
          ensures list[k].mask[i]
        {
          assert out[k].mask[i];
        }
      }
      assert !out[0].mask[bit];
      assert !Common(out)[bit];
      PopcountSubset(Common(out), Common(list));
    }
  }

  lemma {:induction false} BitListWhole(list: seq<Entry>, bit: nat, v: bool)
    requires bit < 64 && BitList(list, bit, !v) == []
    ensures |BitList(list, bit, v)| == |list|
    ensures forall k :: 0 <= k < |list| ==> BitList(list, bit, v)[k] == StripEntry(list[k], BitMask(bit))
  {
    if list != [] {
      BitListWhole(list[..|list| - 1], bit, v);
    }
  }

  lemma {:induction false} NothingLost(list: seq<Entry>, gc: Constraint)
    requires ConstraintList(list, gc, Yes) == []
    ensures |ConstraintList(list, gc, No)| == |list|
  {
    if list != [] {
      NothingLost(list[..|list| - 1], gc);
    }
  }
}
