/** The emitted tree answers every word as the linear search does. */
module DecisionTreeSearch {
  import opened Bits
  import opened Wrappers
  import opened DecisionTree

  /** Undecided masks only ever lose bits. */
  predicate ListOk(list: seq<Entry>) {
    forall e :: e in list ==> Subset(e.mask, e.data.mask)
  }

  // ----- what a satisfied pattern says about the tests -----

  lemma SatisfiedOnBits(w: Word, e: Entry, mask: Word)
    requires Satisfies(w, e.data) && Subset(e.mask, e.data.mask) && Subset(mask, e.mask)
    ensures And(w, mask) == And(e.data.opcode, mask)
  {
    var o := And(w, e.data.mask);
    forall i | 0 <= i < 64
      ensures And(w, mask)[i] == And(e.data.opcode, mask)[i]
    {
      assert o[i] == e.data.opcode[i];
    }
  }

  lemma SatisfiedHead(list: seq<Entry>, w: Word)
    requires list != []
    ensures Satisfied(list, w)
      == (if Satisfies(w, list[0].data) then [list[0].data] else []) + Satisfied(list[1..], w)
  {
  }

  lemma {:induction false} SatisfiedAppend(a: seq<Entry>, b: seq<Entry>, w: Word)
    ensures Satisfied(a + b, w) == Satisfied(a, w) + Satisfied(b, w)
  {
    hide Satisfies;
    if a == [] {
      assert a + b == b;
      assert Satisfied(a, w) == [];
    } else {
      hide Satisfied;
      SatisfiedAppend(a[1..], b, w);
      SatisfiedHead(a, w);
      SatisfiedHead(a + b, w);
      assert (a + b)[1..] == a[1..] + b;
      Grouped(if Satisfies(w, a[0].data) then [a[0].data] else [], Satisfied(a[1..], w), Satisfied(b, w));
    }
  }

  lemma Grouped<T>(x: seq<T>, y: seq<T>, z: seq<T>)
    ensures (x + y) + z == x + (y + z)
  {
  }

  lemma SatisfiedLast(list: seq<Entry>, w: Word)
    requires list != []
    ensures Satisfied(list, w) == Satisfied(list[..|list| - 1], w)
      + (if Satisfies(w, list[|list| - 1].data) then [list[|list| - 1].data] else [])
  {
    var n := |list| - 1;
    SatisfiedAppend(list[..n], [list[n]], w);
    assert list == list[..n] + [list[n]];
  }

  lemma {:induction false} SatisfiedIn(list: seq<Entry>, w: Word)
    ensures forall r :: r in Satisfied(list, w) <==> Satisfies(w, r) && exists e :: e in list && e.data == r
  {
    if list != [] {
      SatisfiedIn(list[1..], w);
      assert forall e :: e in list <==> e == list[0] || e in list[1..];
    }
  }

  // ----- the four splits -----

  /** A single-bit test keeps what the word satisfies, in order. */
  lemma {:induction false} BitSplitKeeps(list: seq<Entry>, bit: nat, w: Word)
    requires bit < 64 && ListOk(list) && forall e :: e in list ==> e.mask[bit]
    ensures Satisfied(BitList(list, bit, w[bit]), w) == Satisfied(list, w)
  {
    if list != [] {
      var n := |list| - 1;
      var e := list[n];
      BitSplitKeeps(list[..n], bit, w);
      SatisfiedLast(list, w);
      if Satisfies(w, e.data) {
        SatisfiedOnBits(w, e, BitMask(bit));
        assert And(w, BitMask(bit))[bit] == And(e.data.opcode, BitMask(bit))[bit];
      }
      var tail := if e.data.opcode[bit] == w[bit] then [StripEntry(e, BitMask(bit))] else [];
      SatisfiedAppend(BitList(list[..n], bit, w[bit]), tail, w);
    }
  }

  /** A switch keeps what the word satisfies in the case it selects. */
  lemma {:induction false} SwitchSplitKeeps(list: seq<Entry>, mask: Word, byte: nat, w: Word)
    requires 1 <= byte <= 8 && ListOk(list) && forall e :: e in list ==> Subset(mask, e.mask)
    ensures Satisfied(CaseList(list, mask, byte, SwitchValue(w, mask, byte)), w) == Satisfied(list, w)
  {
    if list != [] {
      var n := |list| - 1;
      var e := list[n];
      SwitchSplitKeeps(list[..n], mask, byte, w);
      SatisfiedLast(list, w);
      if Satisfies(w, e.data) {
        SatisfiedOnBits(w, e, mask);
      }
      var v := SwitchValue(w, mask, byte);
      var tail := if SwitchValue(e.data.opcode, mask, byte) == v then [StripEntry(e, mask)] else [];
      SatisfiedAppend(CaseList(list[..n], mask, byte, v), tail, w);
    }
  }

  lemma {:induction false} FirstWithinIn(cnsts: seq<Constraint>, mask: Word)
    ensures var c := FirstWithin(cnsts, mask);
      c.Some? ==> c.value in cnsts && And(mask, c.value.mask) == c.value.mask
    ensures FirstWithin(cnsts, mask).None? ==> forall c :: c in cnsts ==> And(mask, c.mask) != c.mask
  {
    if cnsts != [] {
      FirstWithinIn(cnsts[1..], mask);
    }
  }

  /** The side a satisfied entry is dropped from is never the side the word takes. */
  lemma SideOfSatisfied(w: Word, e: Entry, gc: Constraint)
    requires Satisfies(w, e.data) && Subset(e.mask, e.data.mask)
    ensures Meets(w, gc) ==> SideOf(e, gc) != No
    ensures !Meets(w, gc) ==> SideOf(e, gc) != Yes
  {
    FirstWithinIn(e.data.cnsts, gc.mask);
    if And(e.mask, gc.mask) == gc.mask {
      assert Subset(gc.mask, e.mask) by {
        assert forall i :: 0 <= i < 64 ==> And(e.mask, gc.mask)[i] == gc.mask[i];
      }
      SatisfiedOnBits(w, e, gc.mask);
    }
  }

  /** A constraint test keeps what the word satisfies, although entries that it
      does not decide are forked to both sides. */
  lemma {:induction false} ConstraintSplitKeeps(list: seq<Entry>, gc: Constraint, w: Word)
    requires ListOk(list)
    ensures Satisfied(ConstraintList(list, gc, if Meets(w, gc) then No else Yes), w) == Satisfied(list, w)
  {
    if list != [] {
      var n := |list| - 1;
      var e := list[n];
      var other := if Meets(w, gc) then No else Yes;
      ConstraintSplitKeeps(list[..n], gc, w);
      SatisfiedLast(list, w);
      if Satisfies(w, e.data) {
        SideOfSatisfied(w, e, gc);
      }
      var tail := if SideOf(e, gc) == other then [] else [Consume(e, gc)];
      SatisfiedAppend(ConstraintList(list[..n], gc, other), tail, w);
    }
  }

  // ----- sorting by rank keeps the answer -----

  /** `k` holds the highest rank and no earlier record does. */
  predicate FirstHighest(records: seq<Record>, k: nat) {
    k < |records|
    && (forall j :: 0 <= j < k ==> Rank(records[j]) < Rank(records[k]))
    && (forall j :: k < j < |records| ==> Rank(records[j]) <= Rank(records[k]))
  }

  lemma {:induction false} BestMeaning(records: seq<Record>) returns (k: nat)
    requires records != []
    ensures FirstHighest(records, k) && Best(records) == Some(records[k])
  {
    if |records| == 1 {
      k := 0;
    } else {
      var tail := records[1..];
      var t := BestMeaning(tail);
      assert forall j :: 1 <= j < |records| ==> records[j] == tail[j - 1];
      k := if Rank(records[0]) >= Rank(records[t + 1]) then 0 else t + 1;
      forall j | 0 <= j < |records| && j != k
        ensures if j < k then Rank(records[j]) < Rank(records[k]) else Rank(records[j]) <= Rank(records[k])
      {
        if j > 0 {
          assert records[j] == tail[j - 1];
        }
      }
    }
  }

  lemma BestCons(r: Record, rest: seq<Record>)
    ensures var b := Best(rest);
      Best([r] + rest) == (if b.None? || Rank(r) >= Rank(b.value) then Some(r) else b)
  {
    assert ([r] + rest)[1..] == rest;
  }

  /** Records of different rank may change places. */
  lemma BestSwap(r: Record, s: Record, rest: seq<Record>)
    requires Rank(r) != Rank(s)
    ensures Best([r] + ([s] + rest)) == Best([s] + ([r] + rest))
  {
    BestCons(r, [s] + rest);
    BestCons(s, [r] + rest);
    BestCons(r, rest);
    BestCons(s, rest);
  }

  function One(e: Entry, w: Word): seq<Record> {
    if Satisfies(w, e.data) then [e.data] else []
  }

  lemma SatisfiedCons(e: Entry, list: seq<Entry>, w: Word)
    ensures Satisfied([e] + list, w) == One(e, w) + Satisfied(list, w)
  {
    assert ([e] + list)[1..] == list;
  }

  lemma SearchCons(e: Entry, a: seq<Entry>, b: seq<Entry>, w: Word)
    requires Search(a, w) == Search(b, w)
    ensures Search([e] + a, w) == Search([e] + b, w)
  {
    SatisfiedCons(e, a, w);
    SatisfiedCons(e, b, w);
    if Satisfies(w, e.data) {
      BestCons(e.data, Satisfied(a, w));
      BestCons(e.data, Satisfied(b, w));
    } else {
      assert [] + Satisfied(a, w) == Satisfied(a, w) && [] + Satisfied(b, w) == Satisfied(b, w);
    }
  }

  lemma SearchSwap(e: Entry, s: Entry, rest: seq<Entry>, w: Word)
    requires EntryRank(e) != EntryRank(s)
    ensures Search([e] + ([s] + rest), w) == Search([s] + ([e] + rest), w)
  {
    SatisfiedCons(e, [s] + rest, w);
    SatisfiedCons(s, [e] + rest, w);
    SatisfiedCons(e, rest, w);
    SatisfiedCons(s, rest, w);
    var found := Satisfied(rest, w);
    if Satisfies(w, e.data) && Satisfies(w, s.data) {
      BestSwap(e.data, s.data, found);
    } else {
      assert One(e, w) + (One(s, w) + found) == One(s, w) + (One(e, w) + found);
    }
  }

  lemma {:induction false} InsertKeepsBest(e: Entry, sorted: seq<Entry>, w: Word)
    ensures Search(InsertByRank(e, sorted, EntryRank), w) == Search([e] + sorted, w)
  {
    if sorted == [] {
      assert [e] + sorted == [e];
    } else if EntryRank(e) < EntryRank(sorted[0]) {
      var s, rest := sorted[0], sorted[1..];
      InsertKeepsBest(e, rest, w);
      SearchCons(s, InsertByRank(e, rest, EntryRank), [e] + rest, w);
      SearchSwap(e, s, rest, w);
      assert sorted == [s] + rest;
    }
  }

  lemma {:induction false} SortKeepsBest(list: seq<Entry>, w: Word)
    ensures Search(SortByRank(list, EntryRank), w) == Search(list, w)
  {
    if list != [] {
      var tail := SortByRank(list[1..], EntryRank);
      SortKeepsBest(list[1..], w);
      InsertKeepsBest(list[0], tail, w);
      SearchCons(list[0], tail, list[1..], w);
      assert list == [list[0]] + list[1..];
    }
  }


  predicate Descending(list: seq<Entry>) {
    forall i, j :: 0 <= i < j < |list| ==> EntryRank(list[i]) >= EntryRank(list[j])
  }

  predicate NoneAbove(list: seq<Entry>, rank: nat) {
    forall e :: e in list ==> EntryRank(e) <= rank
  }

  lemma {:induction false} InsertDescends(e: Entry, sorted: seq<Entry>)
    requires Descending(sorted)
    ensures Descending(InsertByRank(e, sorted, EntryRank))
    ensures forall x :: x in InsertByRank(e, sorted, EntryRank) ==> x == e || x in sorted
  {
    if sorted != [] {
      var s, rest := sorted[0], sorted[1..];
      assert Descending(rest);
      assert NoneAbove(rest, EntryRank(s));
      if EntryRank(e) < EntryRank(s) {
        InsertDescends(e, rest);
      }
    }
  }

  lemma {:induction false} SortDescends(list: seq<Entry>)
    ensures Descending(SortByRank(list, EntryRank))
    ensures forall x :: x in SortByRank(list, EntryRank) ==> x in list
  {
    if list != [] {
      SortDescends(list[1..]);
      InsertDescends(list[0], SortByRank(list[1..], EntryRank));
    }
  }

  /** In a sorted list a satisfied head is the answer. */
  lemma HeadIsBest(list: seq<Entry>, w: Word)
    requires list != [] && Descending(list) && Satisfies(w, list[0].data)
    ensures Search(list, w) == Some(list[0].data)
  {
    var found := Satisfied(list[1..], w);
    assert Satisfied(list, w) == [list[0].data] + found;
    BestCons(list[0].data, found);
    if found != [] {
      var k := BestMeaning(found);
      assert found[k] in found;
      SatisfiedIn(list[1..], w);
      var e :| e in list[1..] && e.data == found[k];
      var i :| 0 <= i < |list[1..]| && list[1..][i] == e;
      assert list[i + 1] == e;
    }
  }

  // ----- lists stay well formed -----

  lemma {:induction false} SplitsOk(list: seq<Entry>, bit: nat, mask: Word, byte: nat, gc: Constraint)
    requires ListOk(list) && bit < 64 && 1 <= byte <= 8
    ensures forall v :: ListOk(BitList(list, bit, v))
    ensures forall v :: ListOk(CaseList(list, mask, byte, v))
    ensures forall side :: ListOk(ConstraintList(list, gc, side))
  {
    if list != [] {
      SplitsOk(list[..|list| - 1], bit, mask, byte, gc);
    }
  }

  lemma SortOk(list: seq<Entry>)
    requires ListOk(list)
    ensures ListOk(SortByRank(list, EntryRank))
  {
    SortDescends(list);
  }

  // ----- the effective mask -----

  lemma {:induction false} ScanMeaning(list: seq<Entry>, i: nat)
    requires i < 64
    ensures ScanList(list).mask == Common(list)
    ensures Common(list)[i] ==> (ScanList(list).one[i] <==> forall e :: e in list ==> e.data.opcode[i])
    ensures Common(list)[i] ==> (ScanList(list).zero[i] <==> forall e :: e in list ==> !e.data.opcode[i])
    ensures !Common(list)[i] ==> !ScanList(list).one[i] && !ScanList(list).zero[i]
  {
    if list != [] {
      var init := list[..|list| - 1];
      ScanMeaning(init, i);
      assert forall e :: e in list <==> e in init || e == list[|list| - 1];
    }
  }

  /** A bit a split can use: in every undecided mask, with opcodes of both kinds. */
  predicate Decides(list: seq<Entry>, i: nat)
    requires i < 64
  {
    (forall e :: e in list ==> e.mask[i])
    && (exists e :: e in list && e.data.opcode[i]) && (exists e :: e in list && !e.data.opcode[i])
  }

  lemma EffectiveMaskMeaning(list: seq<Entry>)
    requires list != []
    ensures forall i :: 0 <= i < 64 ==> (EffectiveMask(list)[i] <==> Decides(list, i))
  {
    forall i | 0 <= i < 64
      ensures EffectiveMask(list)[i] <==> Decides(list, i)
    {
      ScanMeaning(list, i);
      CommonMeaning(list);
      assert list[0] in list;
    }
  }

  lemma SingleHasNoMask(list: seq<Entry>)
    requires |list| == 1
    ensures IsZero(EffectiveMask(list))
  {
    EffectiveMaskMeaning(list);
    forall i | 0 <= i < 64
      ensures !Decides(list, i)
    {
      assert forall e :: e in list ==> e == list[0];
    }
  }

  // ----- the printed tests read the opcode as the builder reads the patterns -----

  lemma BitTestMeaning(bit: nat, w: Word)
    requires bit < 64
    ensures Holds(BitTest(bit), w) == w[bit]
  {
    var byte, at := bit / 8 + 1, bit % 8;
    var x, m := ByteVar(w, byte), ByteVar(BitMask(bit), byte);
    assert x[at] == w[8 * (byte - 1) + at] == w[bit];
    forall i | 0 <= i < 8
      ensures And(x, m)[i] == (x[i] && i == at)
    {
      assert m[i] == BitMask(bit)[8 * (byte - 1) + i];
    }
    assert And(x, m)[at] == w[bit];
  }

  /** `(a & 0x..)` in the emitted switch is `(opcode & mask) >> shift` of the builder. */
  lemma SwitchReads(w: Word, mask: Word, byte: nat)
    requires 1 <= byte <= 8 && WithinByte(mask, byte)
    ensures Nat(And(ByteVar(w, byte), ByteVar(mask, byte))) == SwitchValue(w, mask, byte)
  {
    var x := And(ByteVar(w, byte), ByteVar(mask, byte));
    var y := Shr(And(w, mask), 8 * (byte - 1));
    assert y == x + Zeros(56);
    NatTrailingZeros(x, Zeros(56));
  }

  lemma SwitchValueRange(w: Word, mask: Word, byte: nat)
    requires 1 <= byte <= 8 && WithinByte(mask, byte)
    ensures SwitchValue(w, mask, byte) < 256
  {
    SwitchReads(w, mask, byte);
    NatBound(And(ByteVar(w, byte), ByteVar(mask, byte)));
    assert Pow2(8) == 256;
  }

  lemma {:induction false} MinIsLeast(list: seq<Entry>, mask: Word, byte: nat)
    requires 1 <= byte <= 8 && list != []
    ensures forall e :: e in list ==> MinValue(list, mask, byte) <= SwitchValue(e.data.opcode, mask, byte)
    ensures exists e :: e in list && MinValue(list, mask, byte) == SwitchValue(e.data.opcode, mask, byte)
  {
    hide SwitchValue;
    var n := |list| - 1;
    assert list[n] in list;
    if n > 0 {
      MinIsLeast(list[..n], mask, byte);
      forall e | e in list
        ensures MinValue(list, mask, byte) <= SwitchValue(e.data.opcode, mask, byte)
      {
        assert e in list[..n] || e == list[n];
      }
      var e :| e in list[..n] && MinValue(list[..n], mask, byte) == SwitchValue(e.data.opcode, mask, byte);
      assert e in list;
    }
  }

  // ----- the main theorem -----

  /** The tree is printable, and a word that satisfies some pattern of the list
      gets the index the linear search finds. */
  ghost predicate Answers(t: Tree, list: seq<Entry>, w: Word) {
    TreeOk(t) && Finds(t, Search(list, w), w)
  }

  predicate Finds(t: Tree, found: Option<Record>, w: Word)
    requires TreeOk(t)
  {
    found.Some? ==> Eval(t, w) == found.value.index
  }

  lemma IfFinds(test: Test, yes: Tree, no: Tree, found: Option<Record>, w: Word)
    requires TestOk(test) && TreeOk(yes) && TreeOk(no)
    requires Finds(if Holds(test, w) then yes else no, found, w)
    ensures TreeOk(If(test, yes, no)) && Finds(If(test, yes, no), found, w)
  {
  }

  lemma SwitchFinds(byte: nat, varMask: Bits, min: nat, cs: Cases, found: Option<Record>, w: Word)
    requires 1 <= byte <= 8 && |varMask| == 8 && CasesOk(cs)
    requires found.Some? ==> EvalCases(cs, Nat(And(ByteVar(w, byte), varMask)) - min, w) == found.value.index
    ensures TreeOk(Switch(byte, varMask, min, cs)) && Finds(Switch(byte, varMask, min, cs), found, w)
  {
  }

  lemma {:induction false} BuildAnswers(list: seq<Entry>, depth: nat, w: Word, t: Tree)
    requires list != [] && ListOk(list) && Build(list, depth) == Some(t)
    ensures Answers(t, list, w)
    decreases depth, 0, 0, 1
  {
    hide EffectiveMask, MinValue, SwitchApplies, BuildCases, BuildIf, Terminal;
    var mask := EffectiveMask(list);
    if IsZero(mask) {
      TerminalAnswers(list, depth - 1, w, t);
    } else if SwitchApplies(list, mask) {
      BuildSwitchAnswers(list, depth, w, t);
    } else {
      IfAnswers(list, depth - 1, w, t);
    }
  }

  lemma {:induction false} BuildSwitchAnswers(list: seq<Entry>, depth: nat, w: Word, t: Tree)
    requires list != [] && ListOk(list) && Build(list, depth) == Some(t)
    requires !IsZero(EffectiveMask(list)) && SwitchApplies(list, EffectiveMask(list))
    ensures Answers(t, list, w)
    decreases depth, 0, 0, 0
  {
    hide EffectiveMask, CaseList, MinValue, CaseValues, BuildCases, BuildIf, Terminal;
    var mask := EffectiveMask(list);
    CasesAnswer(list, mask, t.byte, t.min, 0, depth - 1, w, t.cases);
    MaskWithin(list, mask);
    SwitchAnswers(list, mask, t.byte, t.cases, w);
  }

  /** `cs` answers for the values `min + key` and above. */
  ghost predicate CaseFinds(cs: Cases, list: seq<Entry>, mask: Word, byte: nat, min: nat, key: nat, w: Word)
    requires 1 <= byte <= 8
  {
    CasesOk(cs) &&
    var v := SwitchValue(w, mask, byte);
    var found := Search(CaseList(list, mask, byte, v), w);
    min + key <= v < min + 256 && found.Some? ==> EvalCases(cs, v - min, w) == found.value.index
  }

  lemma SwitchSearch(list: seq<Entry>, mask: Word, byte: nat, w: Word)
    requires 1 <= byte <= 8 && ListOk(list) && forall e :: e in list ==> Subset(mask, e.mask)
    ensures Search(CaseList(list, mask, byte, SwitchValue(w, mask, byte)), w) == Search(list, w)
  {
    SwitchSplitKeeps(list, mask, byte, w);
  }

  lemma SwitchAnswers(list: seq<Entry>, mask: Word, byte: nat, cs: Cases, w: Word)
    requires list != [] && ListOk(list) && 1 <= byte <= 8 && WithinByte(mask, byte)
    requires forall e :: e in list ==> Subset(mask, e.mask)
    requires CaseFinds(cs, list, mask, byte, MinValue(list, mask, byte), 0, w)
    ensures Answers(Switch(byte, ByteVar(mask, byte), MinValue(list, mask, byte), cs), list, w)
  {
    hide WithinByte, SwitchValue, MinValue, Search, CaseList, Eval, EvalCases, ListOk, Finds;
    var v, min := SwitchValue(w, mask, byte), MinValue(list, mask, byte);
    var found := Search(list, w);
    assert found.Some? ==> min <= v by {
      SelectedCase(list, mask, byte, w);
    }
    assert Search(CaseList(list, mask, byte, v), w) == found by {
      SwitchSearch(list, mask, byte, w);
    }
    assert v < 256 by {
      SwitchValueRange(w, mask, byte);
    }
    assert Nat(And(ByteVar(w, byte), ByteVar(mask, byte))) == v by {
      SwitchReads(w, mask, byte);
    }
    SwitchFinds(byte, ByteVar(mask, byte), min, cs, found, w);
  }

  lemma MaskWithin(list: seq<Entry>, mask: Word)
    requires list != [] && mask == EffectiveMask(list)
    ensures forall e :: e in list ==> Subset(mask, e.mask)
  {
    EffectiveMaskMeaning(list);
    forall e, i | e in list && 0 <= i < 64 && mask[i]
      ensures e.mask[i]
    {
      assert Decides(list, i);
    }
  }

  lemma {:induction false} CaseListOrigin(list: seq<Entry>, mask: Word, byte: nat, v: int)
    requires 1 <= byte <= 8
    ensures forall e :: e in CaseList(list, mask, byte, v) ==> SwitchValue(e.data.opcode, mask, byte) == v
    ensures forall e :: e in CaseList(list, mask, byte, v) ==> exists o :: o in list && o.data == e.data
  {
    if list != [] {
      var n := |list| - 1;
      CaseListOrigin(list[..n], mask, byte, v);
      assert forall e :: e in list[..n] ==> e in list;
      assert list[n] in list;
    }
  }

  /** The case a satisfied word selects belongs to one of the patterns. */
  lemma SelectedCase(list: seq<Entry>, mask: Word, byte: nat, w: Word)
    requires 1 <= byte <= 8 && ListOk(list) && list != [] && forall e :: e in list ==> Subset(mask, e.mask)
    ensures Search(list, w).Some? ==> MinValue(list, mask, byte) <= SwitchValue(w, mask, byte)
  {
    if Search(list, w).Some? {
      var v := SwitchValue(w, mask, byte);
      SwitchSplitKeeps(list, mask, byte, w);
      var sub := CaseList(list, mask, byte, v);
      assert sub != [];
      CaseListOrigin(list, mask, byte, v);
      assert sub[0] in sub;
      var o :| o in list && o.data == sub[0].data;
      MinIsLeast(list, mask, byte);
    }
  }

  lemma {:induction false} CasesAnswer(list: seq<Entry>, mask: Word, byte: nat, min: nat, key: nat,
                                       depth: nat, w: Word, cs: Cases)
    requires 1 <= byte <= 8 && key <= 256 && ListOk(list)
    requires BuildCases(list, mask, byte, min, key, depth) == Some(cs)
    ensures CaseFinds(cs, list, mask, byte, min, key, w)
    decreases depth, 1, 256 - key, 0
  {
    hide CaseList, Build;
    if key < 256 {
      var sub := CaseList(list, mask, byte, key + min);
      if sub == [] {
        CasesAnswer(list, mask, byte, min, key + 1, depth, w, cs);
      } else {
        CasesAnswer(list, mask, byte, min, key + 1, depth, w, cs.rest);
        SplitsOk(list, 0, mask, byte, Constraint(mask, mask));
        BuildAnswers(sub, depth, w, cs.body);
      }
    }
  }

  lemma {:induction false} IfAnswers(list: seq<Entry>, depth: nat, w: Word, t: Tree)
    requires list != [] && ListOk(list) && BuildIf(list, depth) == Some(t)
    ensures Answers(t, list, w)
    decreases depth, 4, Popcount(Common(list)), 0
  {
    hide Build, Terminal, BitList, Common, Search, Holds, ListOk, Eval, TreeOk;
    if |list| == 1 || IsZero(Common(list)) {
      TerminalAnswers(list, depth, w, t);
    } else {
      var bit := LowestBit(Common(list));
      var zeros, ones := BitList(list, bit, false), BitList(list, bit, true);
      BitListLoses(list, bit);
      IfSplit(list, bit, w);
      NothingFound(w);
      if zeros == [] {
        IfAnswers(ones, depth, w, t);
      } else if ones == [] {
        IfAnswers(zeros, depth, w, t);
      } else {
        BuildAnswers(ones, depth, w, t.yes);
        BuildAnswers(zeros, depth, w, t.no);
        BitTestMeaning(bit, w);
        hide Finds;
        IfFinds(BitTest(bit), t.yes, t.no, Search(list, w), w);
      }
    }
  }

  lemma NothingFound(w: Word)
    ensures Search([], w).None?
  {
  }

  lemma IfSplit(list: seq<Entry>, bit: nat, w: Word)
    requires ListOk(list) && bit < 64 && Common(list)[bit]
    ensures Search(BitList(list, bit, w[bit]), w) == Search(list, w)
    ensures BitList(list, bit, !w[bit]) == [] || ListOk(BitList(list, bit, !w[bit]))
    ensures ListOk(BitList(list, bit, w[bit]))
  {
    CommonMeaning(list);
    BitSplitKeeps(list, bit, w);
    SplitsOk(list, bit, Common(list), 1, Constraint(Common(list), Common(list)));
  }

  lemma {:induction false} TerminalAnswers(list: seq<Entry>, depth: nat, w: Word, t: Tree)
    requires list != [] && ListOk(list) && Terminal(list, depth) == Some(t)
    ensures Answers(t, list, w)
    decreases depth, 3, 0, 0
  {
    hide BuildConstraint, BuildHighest;
    if |list| == 1 {
      LeafAnswers(list[0], w);
      assert list == [list[0]];
    } else if HasConstraints(list) {
      ConstraintAnswers(list, depth, w, t);
    } else {
      HighestAnswers(list, depth, w, t);
    }
  }

  lemma LeafAnswers(e: Entry, w: Word)
    ensures Answers(Leaf(e.data.index), [e], w)
  {
    SatisfiedCons(e, [], w);
    BestCons(e.data, []);
    assert [e] + [] == [e] && [e.data] + [] == [e.data];
  }

  lemma {:induction false} ConstraintAnswers(list: seq<Entry>, depth: nat, w: Word, t: Tree)
    requires list != [] && ListOk(list) && BuildConstraint(list, depth) == Some(t)
    ensures Answers(t, list, w)
    decreases depth, 2, 0, 0
  {
    hide GlobalConstraint, ConstraintList, Build, Finds, ListOk, Satisfied;
    match GlobalConstraint(list) {
      case None => BuildAnswers(list, depth, w, t);
      case Some(gc) =>
        ConstraintSides(list, gc, w);
        if ConstraintList(list, gc, Yes) == [] {
          NothingLost(list, gc);
          EmptySide(list, gc, w);
          ConstraintAnswers(ConstraintList(list, gc, No), depth - 1, w, t);
        } else {
          SidesAnswer(list, gc, depth, w, t.yes, t.no);
        }
    }
  }

  lemma {:induction false} SidesAnswer(list: seq<Entry>, gc: Constraint, depth: nat, w: Word, yes: Tree, no: Tree)
    requires ListOk(list) && ConstraintList(list, gc, Yes) != []
    requires Build(ConstraintList(list, gc, Yes), depth) == Some(no)
    requires if ConstraintList(list, gc, No) == [] then yes == Empty else Build(ConstraintList(list, gc, No), depth) == Some(yes)
    ensures Answers(If(NotValue(gc.mask, gc.value), yes, no), list, w)
    decreases depth, 1, 0, 0
  {
    ConstraintSides(list, gc, w);
    BuildAnswers(ConstraintList(list, gc, Yes), depth, w, no);
    if ConstraintList(list, gc, No) != [] {
      BuildAnswers(ConstraintList(list, gc, No), depth, w, yes);
    }
    NotValueAnswers(list, gc, w, yes, no);
  }

  lemma NotValueAnswers(list: seq<Entry>, gc: Constraint, w: Word, yes: Tree, no: Tree)
    requires ListOk(list) && Answers(no, ConstraintList(list, gc, Yes), w)
    requires if ConstraintList(list, gc, No) == [] then yes == Empty else Answers(yes, ConstraintList(list, gc, No), w)
    ensures Answers(If(NotValue(gc.mask, gc.value), yes, no), list, w)
  {
    ConstraintSides(list, gc, w);
    IfFinds(NotValue(gc.mask, gc.value), yes, no, Search(list, w), w);
  }

  lemma ConstraintSides(list: seq<Entry>, gc: Constraint, w: Word)
    requires ListOk(list)
    ensures ListOk(ConstraintList(list, gc, Yes)) && ListOk(ConstraintList(list, gc, No))
    ensures Search(ConstraintList(list, gc, if Meets(w, gc) then No else Yes), w) == Search(list, w)
  {
    SplitsOk(list, 0, gc.mask, 1, gc);
    ConstraintSplitKeeps(list, gc, w);
  }

  /** If no entry is for the words that fail the test, no entry is lost on the other side. */
  lemma {:induction false} EmptySide(list: seq<Entry>, gc: Constraint, w: Word)
    requires ConstraintList(list, gc, Yes) == []
    ensures Satisfied(ConstraintList(list, gc, No), w) == Satisfied(list, w)
  {
    if list != [] {
      var n := |list| - 1;
      EmptySide(list[..n], gc, w);
      SatisfiedLast(list, w);
      SatisfiedAppend(ConstraintList(list[..n], gc, No), [Consume(list[n], gc)], w);
    }
  }

  lemma {:induction false} HighestAnswers(list: seq<Entry>, depth: nat, w: Word, t: Tree)
    requires |list| >= 2 && ListOk(list) && BuildHighest(list, depth) == Some(t)
    ensures Answers(t, list, w)
    decreases depth, 2, 0, 0
  {
    var sorted := SortByRank(list, EntryRank);
    SortOk(list);
    SortDescends(list);
    SortKeepsBest(list, w);
    BuildAnswers(sorted[..1], depth, w, t.yes);
    BuildAnswers(sorted[1..], depth, w, t.no);
    if Satisfies(w, sorted[0].data) {
      HeadIsBest(sorted, w);
      HeadIsBest(sorted[..1], w);
    } else {
      SatisfiedCons(sorted[0], sorted[1..], w);
      assert sorted == [sorted[0]] + sorted[1..];
      assert [] + Satisfied(sorted[1..], w) == Satisfied(sorted[1..], w);
    }
    IfFinds(Whole(sorted[0].data), t.yes, t.no, Search(list, w), w);
  }

  // ----- from records to words -----

  function InitialList(records: seq<Record>): (list: seq<Entry>)
    ensures |list| == |records| && forall i :: 0 <= i < |list| ==> list[i] == Initial(records[i])
  {
    seq(|records|, i requires 0 <= i < |records| => Initial(records[i]))
  }

  /** `r` is what a linear search for the most specific pattern reports: satisfied,
      of the highest rank, and before every other satisfied pattern of that rank. */
  ghost predicate MostSpecific(records: seq<Record>, k: int, w: Word) {
    0 <= k < |records| && Satisfies(w, records[k])
    && (forall j :: 0 <= j < k && Satisfies(w, records[j]) ==> Rank(records[j]) < Rank(records[k]))
    && (forall j :: k < j < |records| && Satisfies(w, records[j]) ==> Rank(records[j]) <= Rank(records[k]))
  }

  predicate SomeSatisfied(records: seq<Record>, w: Word) {
    exists r :: r in records && Satisfies(w, r)
  }

  lemma {:induction false} SearchMeaning(list: seq<Entry>, records: seq<Record>, w: Word)
    requires |list| == |records| && forall i :: 0 <= i < |list| ==> list[i].data == records[i]
    ensures SomeSatisfied(records, w) ==>
      exists k :: MostSpecific(records, k, w) && Search(list, w) == Some(records[k])
  {
    if SomeSatisfied(records, w) {
      var k := SearchFinds(list, records, w);
    }
  }

  lemma {:induction false} SearchFinds(list: seq<Entry>, records: seq<Record>, w: Word) returns (k: int)
    requires |list| == |records| && forall i :: 0 <= i < |list| ==> list[i].data == records[i]
    requires SomeSatisfied(records, w)
    ensures MostSpecific(records, k, w) && Search(list, w) == Some(records[k])
  {
    var tail, rest := list[1..], records[1..];
    SatisfiedCons(list[0], tail, w);
    assert list == [list[0]] + tail && records == [records[0]] + rest;
    if SomeSatisfied(rest, w) {
      var t := SearchFinds(tail, rest, w);
      if Satisfies(w, records[0]) {
        BestCons(records[0], Satisfied(tail, w));
      } else {
        assert [] + Satisfied(tail, w) == Satisfied(tail, w);
      }
      if Satisfies(w, records[0]) && Rank(records[0]) >= Rank(rest[t]) {
        AtHead(records, t, w);
        k := 0;
      } else {
        AtTail(records, t, w);
        k := t + 1;
      }
    } else {
      k := 0;
      OnlyHead(list, records, w);
    }
  }

  lemma {:induction false} NoneSatisfied(list: seq<Entry>, w: Word)
    requires forall i :: 0 <= i < |list| ==> !Satisfies(w, list[i].data)
    ensures Satisfied(list, w) == []
  {
    if list != [] {
      NoneSatisfied(list[1..], w);
    }
  }

  lemma OnlyHead(list: seq<Entry>, records: seq<Record>, w: Word)
    requires |list| == |records| && forall i :: 0 <= i < |list| ==> list[i].data == records[i]
    requires SomeSatisfied(records, w) && !SomeSatisfied(records[1..], w)
    ensures MostSpecific(records, 0, w) && Search(list, w) == Some(records[0])
  {
    var rest := records[1..];
    assert forall j :: 1 <= j < |records| ==> records[j] == rest[j - 1] && records[j] in rest;
    NoneSatisfied(list[1..], w);
    BestCons(records[0], []);
    assert Satisfied(list, w) == [records[0]] + [];
  }

  lemma AtTail(records: seq<Record>, k: int, w: Word)
    requires records != [] && MostSpecific(records[1..], k, w)
    requires Satisfies(w, records[0]) ==> Rank(records[0]) < Rank(records[1..][k])
    ensures MostSpecific(records, k + 1, w)
  {
    assert forall j :: 1 <= j < |records| ==> records[j] == records[1..][j - 1];
  }

  lemma AtHead(records: seq<Record>, k: int, w: Word)
    requires records != [] && MostSpecific(records[1..], k, w)
    requires Satisfies(w, records[0]) && Rank(records[0]) >= Rank(records[1..][k])
    ensures MostSpecific(records, 0, w)
  {
    var rest := records[1..];
    forall j | 1 <= j < |records| && Satisfies(w, records[j])
      ensures Rank(records[j]) <= Rank(records[0])
    {
      assert records[j] == rest[j - 1];
      assert j - 1 == k || Rank(rest[j - 1]) <= Rank(rest[k]);
    }
  }

  /** The main theorem.  Whenever building ends, a word that satisfies some record
      is answered with the index of the most specific record it satisfies. */
  lemma TreeRefinesSearch(records: seq<Record>, depth: nat, w: Word)
    requires records != []
    ensures var t := Build(InitialList(records), depth);
      t.Some? ==> TreeOk(t.value) && (SomeSatisfied(records, w) ==>
        exists k :: MostSpecific(records, k, w) && Eval(t.value, w) == records[k].index)
  {
    var list := InitialList(records);
    if Build(list, depth).Some? {
      BuildAnswers(list, depth, w, Build(list, depth).value);
      SearchMeaning(list, records, w);
    }
  }
}
