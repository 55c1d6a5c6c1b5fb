/** Building ends exactly on the lists that `Ends` describes, at a known depth. */
module DecisionTreeTermination {
  import opened Bits
  import opened Wrappers
  import opened DecisionTree
  import DecisionTreeSearch

  // ----- the measure: undecided bits, pending constraint bits, and entries -----

  function Load(e: Entry): nat {
    Popcount(e.mask) + Popcount(e.cmask) + 1
  }

  function Weight(list: seq<Entry>): nat {
    if list == [] then 0 else Weight(list[..|list| - 1]) + Load(list[|list| - 1])
  }

  lemma WeightLast(list: seq<Entry>, tail: seq<Entry>)
    requires |tail| <= 1
    ensures Weight(list + tail) == Weight(list) + (if tail == [] then 0 else Load(tail[0]))
  {
    if tail == [] {
      assert list + tail == list;
    } else {
      assert (list + tail)[..|list|] == list;
    }
  }

  lemma StripLightens(e: Entry, mask: Word)
    requires !Disjoint(e.mask, mask)
    ensures Load(StripEntry(e, mask)) < Load(e)
  {
    PopcountClear(e.mask, mask);
  }

  lemma {:induction false} BitListLighter(list: seq<Entry>, bit: nat, v: bool)
    requires bit < 64 && forall e :: e in list ==> e.mask[bit]
    ensures Weight(BitList(list, bit, v)) + |list| <= Weight(list)
  {
    if list != [] {
      var n := |list| - 1;
      var e := list[n];
      BitListLighter(list[..n], bit, v);
      assert BitMask(bit)[bit] && e.mask[bit];
      StripLightens(e, BitMask(bit));
      WeightLast(BitList(list[..n], bit, v), if e.data.opcode[bit] == v then [StripEntry(e, BitMask(bit))] else []);
    }
  }

  lemma {:induction false} CaseListLighter(list: seq<Entry>, mask: Word, byte: nat, v: int)
    requires 1 <= byte <= 8 && !IsZero(mask) && forall e :: e in list ==> Subset(mask, e.mask)
    ensures Weight(CaseList(list, mask, byte, v)) + |list| <= Weight(list)
  {
    if list != [] {
      var n := |list| - 1;
      var e := list[n];
      CaseListLighter(list[..n], mask, byte, v);
      var i :| 0 <= i < 64 && mask[i];
      assert Subset(mask, e.mask) && e.mask[i];
      StripLightens(e, mask);
      WeightLast(CaseList(list[..n], mask, byte, v),
                 if SwitchValue(e.data.opcode, mask, byte) == v then [StripEntry(e, mask)] else []);
    }
  }

  /** An entry that `gc` decides: kept out of one side, struck from `cmask` on the other. */
  predicate Decided(e: Entry, gc: Constraint) {
    NodeConstraint(e, gc.mask) == Some(gc) && !Disjoint(e.cmask, gc.mask)
  }

  lemma ConsumeLightens(e: Entry, gc: Constraint)
    ensures Load(Consume(e, gc)) <= Load(e)
    ensures Decided(e, gc) ==> Load(Consume(e, gc)) < Load(e)
  {
    PopcountSubset(And(e.cmask, Not(gc.mask)), e.cmask);
    if Decided(e, gc) {
      PopcountClear(e.cmask, gc.mask);
    }
  }

  lemma {:induction false} ConstraintListLighter(list: seq<Entry>, gc: Constraint, side: Side)
    ensures Weight(ConstraintList(list, gc, side)) <= Weight(list)
    ensures side != Both && (exists e :: e in list && Decided(e, gc)) ==>
      Weight(ConstraintList(list, gc, side)) < Weight(list)
  {
    if list != [] {
      var n := |list| - 1;
      var e := list[n];
      ConstraintListLighter(list[..n], gc, side);
      assert forall x :: x in list <==> x in list[..n] || x == e;
      ConsumeLightens(e, gc);
      WeightLast(ConstraintList(list[..n], gc, side), if SideOf(e, gc) == side then [] else [Consume(e, gc)]);
    }
  }

  lemma {:induction false} WeightAppend(a: seq<Entry>, b: seq<Entry>)
    ensures Weight(a + b) == Weight(a) + Weight(b)
  {
    if b == [] {
      assert a + b == a;
    } else {
      var n := |b| - 1;
      assert (a + b)[..|a| + n] == a + b[..n];
      WeightAppend(a, b[..n]);
    }
  }

  lemma WeightCons(e: Entry, list: seq<Entry>)
    ensures Weight([e] + list) == Load(e) + Weight(list)
  {
    WeightAppend([e], list);
    assert [e][..0] == [];
  }

  lemma {:induction false} InsertWeight(e: Entry, sorted: seq<Entry>)
    ensures Weight(InsertByRank(e, sorted, EntryRank)) == Load(e) + Weight(sorted)
  {
    WeightCons(e, sorted);
    if sorted == [] {
      assert [e] + sorted == [e];
    } else if EntryRank(e) < EntryRank(sorted[0]) {
      InsertWeight(e, sorted[1..]);
      WeightCons(sorted[0], InsertByRank(e, sorted[1..], EntryRank));
      WeightCons(sorted[0], sorted[1..]);
      assert sorted == [sorted[0]] + sorted[1..];
    }
  }

  lemma {:induction false} SortWeight(list: seq<Entry>)
    ensures Weight(SortByRank(list, EntryRank)) == Weight(list)
  {
    if list != [] {
      SortWeight(list[1..]);
      InsertWeight(list[0], SortByRank(list[1..], EntryRank));
      WeightCons(list[0], list[1..]);
      assert list == [list[0]] + list[1..];
    }
  }

  /** Every split makes both parts of a sorted list lighter. */
  lemma HighestLighter(list: seq<Entry>)
    requires |list| >= 2
    ensures var sorted := SortByRank(list, EntryRank);
      Weight(sorted[..1]) < Weight(list) && Weight(sorted[1..]) < Weight(list)
  {
    var sorted := SortByRank(list, EntryRank);
    SortWeight(list);
    WeightAppend(sorted[..1], sorted[1..]);
    assert sorted == sorted[..1] + sorted[1..];
    HeavierThanNothing(sorted[..1]);
    HeavierThanNothing(sorted[1..]);
  }

  lemma HeavierThanNothing(list: seq<Entry>)
    requires list != []
    ensures Weight(list) > 0
  {
  }

  // ----- constraint splits -----

  lemma ConsumeShrinks(e: Entry, gc: Constraint)
    ensures Consume(e, gc) == e || Load(Consume(e, gc)) < Load(e)
  {
    PopcountSubset(And(e.cmask, Not(gc.mask)), e.cmask);
  }

  /** Either side of a constraint split is the list itself or lighter. */
  lemma {:induction false} SideShrinks(list: seq<Entry>, gc: Constraint, side: Side)
    ensures ConstraintList(list, gc, side) == list || Weight(ConstraintList(list, gc, side)) < Weight(list)
    ensures |ConstraintList(list, gc, side)| <= |list|
    ensures (exists e :: e in list && SideOf(e, gc) == side) ==> |ConstraintList(list, gc, side)| < |list|
  {
    hide SideOf, Consume, Load;
    if list != [] {
      var init, e := list[..|list| - 1], list[|list| - 1];
      SideShrinks(init, gc, side);
      ConsumeShrinks(e, gc);
      HasLoad(e);
      assert list == init + [e];
      WeightLast(ConstraintList(init, gc, side), if SideOf(e, gc) == side then [] else [Consume(e, gc)]);
    }
  }

  lemma HasLoad(e: Entry)
    ensures Load(e) > 0
  {
  }

  /** The first constraint within a mask is also the first one within its own mask. */
  lemma {:induction false} FirstWithinAgain(cnsts: seq<Constraint>, mask: Word, c: Constraint)
    requires FirstWithin(cnsts, mask) == Some(c)
    ensures FirstWithin(cnsts, c.mask) == Some(c)
  {
    var d := cnsts[0];
    if And(mask, d.mask) == d.mask {
      assert And(d.mask, d.mask) == d.mask;
    } else {
      FirstWithinAgain(cnsts[1..], mask, c);
      DecisionTreeSearch.FirstWithinIn(cnsts, mask);
      if And(c.mask, d.mask) == d.mask {
        WithinTransitive(mask, c.mask, d.mask);
      }
    }
  }

  lemma WithinTransitive(mask: Word, c: Word, d: Word)
    requires And(mask, c) == c && And(c, d) == d
    ensures And(mask, d) == d
  {
    forall i | 0 <= i < 64
      ensures And(mask, d)[i] == d[i]
    {
      assert And(mask, c)[i] == c[i] && And(c, d)[i] == d[i];
    }
  }

  lemma {:induction false} Owner(list: seq<Entry>, mask: Word, c: Constraint) returns (e: Entry)
    requires FirstNodeConstraint(list, mask) == Some(c)
    ensures e in list && NodeConstraint(e, c.mask) == Some(c)
  {
    if NodeConstraint(list[0], mask).Some? {
      e := list[0];
      FirstWithinAgain(e.data.cnsts, mask, c);
    } else {
      e := Owner(list[1..], mask, c);
    }
  }

  /** The list for the words that fail the test always loses the constraint's owner. */
  lemma FailingLighter(list: seq<Entry>, gc: Constraint)
    requires GlobalConstraint(list) == Some(gc)
    ensures Weight(ConstraintList(list, gc, Yes)) < Weight(list)
  {
    hide ConstraintList, Weight, NodeConstraint;
    var g := GatherMasks(list);
    var e := Owner(list, if IsZero(g.gmask) then g.lmask else g.gmask, gc);
    assert SideOf(e, gc) == Yes;
    SideShrinks(list, gc, Yes);
  }

  // ----- the lists on which building ends -----

  /** A split can be undone for ever in one way only: bits that tell nothing apart, a
      pending constraint, and either none that can be tested or one whose test leaves
      the list for the words that meet it as it was. */
  predicate Stuck(list: seq<Entry>) {
    && |list| > 1 && HasConstraints(list)
    && (GlobalConstraint(list).None? || ConstraintList(list, GlobalConstraint(list).value, No) == list)
  }

  /** No list that the splits of `list` lead to is stuck. */
  predicate Ends(list: seq<Entry>)
    requires list != []
    decreases Weight(list), 2
  {
    var mask := EffectiveMask(list);
    if IsZero(mask) then EndsTerminal(list)
    else if SwitchApplies(list, mask) then EndsSwitch(list, mask)
    else EndsIf(list)
  }

  predicate EndsSwitch(list: seq<Entry>, mask: Word)
    requires list != [] && mask == EffectiveMask(list) && !IsZero(mask) && SwitchApplies(list, mask)
    decreases Weight(list), 1
  {
    var byte := BlessedByte(mask);
    DecisionTreeSearch.MaskWithin(list, mask);
    var min := MinValue(list, mask, byte);
    forall v :: min <= v < min + 256 ==> CaseEnds(list, mask, byte, v)
  }

  /** The sub-list of a switch value is empty or ends. */
  predicate CaseEnds(list: seq<Entry>, mask: Word, byte: nat, v: int)
    requires 1 <= byte <= 8 && !IsZero(mask) && forall e :: e in list ==> Subset(mask, e.mask)
    decreases Weight(list), 0
  {
    CaseListLighter(list, mask, byte, v);
    CaseList(list, mask, byte, v) == [] || Ends(CaseList(list, mask, byte, v))
  }

  predicate EndsIf(list: seq<Entry>)
    requires list != []
    decreases Weight(list), 1
  {
    if |list| == 1 || IsZero(Common(list)) then EndsTerminal(list)
    else
      var bit := LowestBit(Common(list));
      var zeros, ones := BitList(list, bit, false), BitList(list, bit, true);
      BitListLoses(list, bit);
      BitsLighter(list, bit);
      if zeros == [] then EndsIf(ones)
      else if ones == [] then EndsIf(zeros)
      else Ends(ones) && Ends(zeros)
  }

  predicate EndsTerminal(list: seq<Entry>)
    requires list != []
    decreases Weight(list), 0
  {
    if |list| == 1 then true
    else if HasConstraints(list) then
      !Stuck(list) &&
      var gc := GlobalConstraint(list).value;
      var yes, no := ConstraintList(list, gc, No), ConstraintList(list, gc, Yes);
      SideShrinks(list, gc, No);
      FailingLighter(list, gc);
      (yes == [] || Ends(yes)) && (no == [] || Ends(no))
    else
      var sorted := SortByRank(list, EntryRank);
      HighestLighter(list);
      Ends(sorted[..1]) && Ends(sorted[1..])
  }

  lemma BitsLighter(list: seq<Entry>, bit: nat)
    requires list != [] && bit < 64 && Common(list)[bit]
    ensures Weight(BitList(list, bit, false)) < Weight(list) && Weight(BitList(list, bit, true)) < Weight(list)
  {
    CommonMeaning(list);
    BitListLighter(list, bit, false);
    BitListLighter(list, bit, true);
  }

  // ----- where `Ends` holds, building ends -----

  /** Twice the weight bounds the nesting of calls. */
  lemma {:induction false} BuildEnds(list: seq<Entry>, depth: nat)
    requires list != [] && Ends(list) && depth > 2 * Weight(list)
    ensures Build(list, depth).Some?
    decreases depth, 0, 0, 0
  {
    hide EffectiveMask, CaseList, MinValue, SwitchApplies, BuildCases, BuildIf, Terminal, Weight;
    hide EndsTerminal, EndsSwitch, EndsIf;
    var mask := EffectiveMask(list);
    if IsZero(mask) {
      TerminalEnds(list, depth - 1);
    } else if SwitchApplies(list, mask) {
      CasesEnd(list, mask, depth - 1);
    } else {
      IfEnds(list, depth - 1);
    }
  }

  lemma CasesEnd(list: seq<Entry>, mask: Word, depth: nat)
    requires list != [] && depth >= 2 * Weight(list)
    requires mask == EffectiveMask(list) && !IsZero(mask) && SwitchApplies(list, mask) && EndsSwitch(list, mask)
    ensures BlessedByte(mask) != 0
    ensures BuildCases(list, mask, BlessedByte(mask), MinValue(list, mask, BlessedByte(mask)), 0, depth).Some?
    decreases depth, 1, 257, 0
  {
    hide Build, Terminal, BuildIf, EffectiveMask, Weight, BuildCases, MinValue, SwitchApplies, Ends, CaseList;
    SwitchHasByte(list, mask);
    DecisionTreeSearch.MaskWithin(list, mask);
    CasesEndFrom(list, mask, BlessedByte(mask), MinValue(list, mask, BlessedByte(mask)), 0, depth);
  }

  lemma SwitchHasByte(list: seq<Entry>, mask: Word)
    requires SwitchApplies(list, mask)
    ensures BlessedByte(mask) != 0
  {
  }

  lemma {:induction false} CasesEndFrom(list: seq<Entry>, mask: Word, byte: nat, min: nat, key: nat, depth: nat)
    requires 1 <= byte <= 8 && key <= 256 && list != [] && depth >= 2 * Weight(list)
    requires !IsZero(mask) && forall e :: e in list ==> Subset(mask, e.mask)
    requires forall v :: min <= v < min + 256 ==> CaseEnds(list, mask, byte, v)
    ensures BuildCases(list, mask, byte, min, key, depth).Some?
    decreases depth, 1, 256 - key, 0
  {
    hide CaseList, Build, Weight, Ends;
    if key < 256 {
      var sub := CaseList(list, mask, byte, key + min);
      CasesEndFrom(list, mask, byte, min, key + 1, depth);
      assert CaseEnds(list, mask, byte, key + min);
      if sub != [] {
        CaseListLighter(list, mask, byte, key + min);
        BuildEnds(sub, depth);
      }
    }
  }

  lemma {:induction false} IfEnds(list: seq<Entry>, depth: nat)
    requires list != [] && EndsIf(list) && depth >= 2 * Weight(list)
    ensures BuildIf(list, depth).Some?
    decreases depth, 4, Popcount(Common(list)), 0
  {
    hide Build, Terminal, Weight, Ends, EndsTerminal, BitList, Common, EffectiveMask;
    if |list| == 1 || IsZero(Common(list)) {
      NoSplit(list);
      TerminalEnds(list, depth);
    } else {
      var bit := LowestBit(Common(list));
      var zeros, ones := BitList(list, bit, false), BitList(list, bit, true);
      BitListLoses(list, bit);
      BitsLighter(list, bit);
      if zeros == [] {
        IfEnds(ones, depth);
      } else if ones == [] {
        IfEnds(zeros, depth);
      } else {
        BuildEnds(ones, depth);
        BuildEnds(zeros, depth);
      }
    }
  }

  lemma {:induction false} TerminalEnds(list: seq<Entry>, depth: nat)
    requires list != [] && IsZero(EffectiveMask(list)) && EndsTerminal(list) && depth >= 2 * Weight(list)
    ensures Terminal(list, depth).Some?
    decreases depth, 3, 0, 0
  {
    hide BuildConstraint, Build, Weight, Ends, HasConstraints, EffectiveMask;
    if |list| == 1 {
    } else if HasConstraints(list) {
      ConstraintEnds(list, depth);
    } else {
      HighestLighter(list);
      var sorted := SortByRank(list, EntryRank);
      BuildEnds(sorted[..1], depth);
      BuildEnds(sorted[1..], depth);
    }
  }

  lemma {:induction false} ConstraintEnds(list: seq<Entry>, depth: nat)
    requires |list| > 1 && IsZero(EffectiveMask(list)) && HasConstraints(list) && EndsTerminal(list)
    requires depth >= 2 * Weight(list)
    ensures BuildConstraint(list, depth).Some?
    decreases depth, 2, 0, 0
  {
    hide GlobalConstraint, ConstraintList, Build, Weight, Ends, HasConstraints, EffectiveMask;
    var gc := GlobalConstraint(list).value;
    var yes, no := ConstraintList(list, gc, No), ConstraintList(list, gc, Yes);
    SideShrinks(list, gc, No);
    FailingLighter(list, gc);
    if no == [] {
      NothingLost(list, gc);
      SameMasks(list, gc);
      GotoEnds(yes, depth - 1);
    } else {
      BuildEnds(no, depth);
      if yes != [] {
        BuildEnds(yes, depth);
      }
    }
  }

  /** The `goto again` of `divide_cnsts`, which leaves the masks as they are. */
  lemma {:induction false} GotoEnds(list: seq<Entry>, depth: nat)
    requires |list| > 1 && IsZero(EffectiveMask(list)) && Ends(list) && depth > 2 * Weight(list)
    ensures BuildConstraint(list, depth).Some?
    decreases depth, 3, 0, 0
  {
    hide EffectiveMask, ConstraintList, Build, Weight, GlobalConstraint, EndsTerminal, EndsSwitch, EndsIf, HasConstraints;
    if HasConstraints(list) {
      ConstraintEnds(list, depth);
    } else {
      NothingPending(list);
      BuildEnds(list, depth);
    }
  }

  lemma {:induction false} SameMasks(list: seq<Entry>, gc: Constraint)
    requires ConstraintList(list, gc, Yes) == []
    ensures EffectiveMask(ConstraintList(list, gc, No)) == EffectiveMask(list)
  {
    SameScan(list, gc);
  }

  lemma {:induction false} SameScan(list: seq<Entry>, gc: Constraint)
    requires ConstraintList(list, gc, Yes) == []
    ensures ScanList(ConstraintList(list, gc, No)) == ScanList(list)
  {
    hide SideOf, ScanStep;
    if list != [] {
      var init, e := list[..|list| - 1], list[|list| - 1];
      SameScan(init, gc);
      assert SideOf(e, gc) == Yes && ConstraintList(list, gc, No) == ConstraintList(init, gc, No) + [Consume(e, gc)];
      ScanLast(ConstraintList(init, gc, No), Consume(e, gc));
      ScanConsumed(ScanList(init), e, gc);
    }
  }

  lemma ScanLast(list: seq<Entry>, e: Entry)
    ensures ScanList(list + [e]) == ScanStep(ScanList(list), e)
  {
    assert (list + [e])[..|list|] == list;
  }

  lemma ScanConsumed(s: Scan, e: Entry, gc: Constraint)
    ensures ScanStep(s, Consume(e, gc)) == ScanStep(s, e)
  {
  }

  lemma {:induction false} NothingPending(list: seq<Entry>)
    requires !HasConstraints(list)
    ensures GlobalConstraint(list).None?
  {
    NothingGathered(list);
  }

  lemma {:induction false} NothingGathered(list: seq<Entry>)
    requires !HasConstraints(list)
    ensures GatherMasks(list) == Gather(Ones(64), Ones(64))
  {
    if list != [] {
      var init := list[..|list| - 1];
      assert forall i :: 0 <= i < |init| ==> init[i] == list[i];
      NothingGathered(init);
    }
  }

  /** Without a common bit, or a second entry, no bit splits the list. */
  lemma NoSplit(list: seq<Entry>)
    requires list != [] && (|list| == 1 || IsZero(Common(list)))
    ensures IsZero(EffectiveMask(list))
  {
    if |list| == 1 {
      DecisionTreeSearch.SingleHasNoMask(list);
    } else {
      DecisionTreeSearch.EffectiveMaskMeaning(list);
      forall i | 0 <= i < 64
        ensures !DecisionTreeSearch.Decides(list, i)
      {
        assert !Common(list)[i];
        NotCommon(list, i);
      }
    }
  }

  lemma NotCommon(list: seq<Entry>, i: nat)
    requires i < 64 && !Common(list)[i]
    ensures !DecisionTreeSearch.Decides(list, i)
  {
    hide Common;
    CommonMeaning(list);
    var k :| 0 <= k < |list| && !list[k].mask[i];
    assert list[k] in list;
  }

  // ----- where building ends, `Ends` holds -----

  /** A stuck list is handed round for ever. */
  lemma {:induction false} StuckForEver(list: seq<Entry>, depth: nat)
    requires |list| > 1 && IsZero(EffectiveMask(list)) && Stuck(list)
    ensures Build(list, depth).None? && BuildConstraint(list, depth).None?
    decreases depth
  {
    hide EffectiveMask, GlobalConstraint, ConstraintList, HasConstraints;
    if depth > 0 {
      StuckForEver(list, depth - 1);
      assert Terminal(list, depth - 1).None?;
    }
  }

  lemma {:induction false} BuildGivesEnds(list: seq<Entry>, depth: nat)
    requires list != [] && Build(list, depth).Some?
    ensures Ends(list)
    decreases depth, 0, 0, 0
  {
    hide EffectiveMask, CaseList, MinValue, SwitchApplies, BuildCases, BuildIf, Terminal, Weight;
    hide EndsTerminal, EndsSwitch, EndsIf;
    var mask := EffectiveMask(list);
    if IsZero(mask) {
      TerminalGivesEnds(list, depth - 1);
    } else if SwitchApplies(list, mask) {
      SwitchHasByte(list, mask);
      SwitchGivesEnds(list, mask, depth - 1);
    } else {
      IfGivesEnds(list, depth - 1);
    }
  }

  lemma SwitchGivesEnds(list: seq<Entry>, mask: Word, depth: nat)
    requires list != [] && mask == EffectiveMask(list) && !IsZero(mask) && SwitchApplies(list, mask)
    requires BlessedByte(mask) != 0
    requires BuildCases(list, mask, BlessedByte(mask), MinValue(list, mask, BlessedByte(mask)), 0, depth).Some?
    ensures EndsSwitch(list, mask)
    decreases depth, 1, 257, 0
  {
    hide Build, Terminal, BuildIf, EffectiveMask, Weight, BuildCases, MinValue, SwitchApplies, Ends, CaseList;
    DecisionTreeSearch.MaskWithin(list, mask);
    CasesGiveEnds(list, mask, BlessedByte(mask), MinValue(list, mask, BlessedByte(mask)), 0, depth);
  }

  lemma {:induction false} CasesGiveEnds(list: seq<Entry>, mask: Word, byte: nat, min: nat, key: nat, depth: nat)
    requires 1 <= byte <= 8 && key <= 256 && BuildCases(list, mask, byte, min, key, depth).Some?
    requires !IsZero(mask) && forall e :: e in list ==> Subset(mask, e.mask)
    ensures forall v :: min + key <= v < min + 256 ==> CaseEnds(list, mask, byte, v)
    decreases depth, 1, 256 - key, 0
  {
    hide CaseList, Build, Weight, Ends;
    if key < 256 {
      CasesGiveEnds(list, mask, byte, min, key + 1, depth);
      if CaseList(list, mask, byte, key + min) != [] {
        BuildGivesEnds(CaseList(list, mask, byte, key + min), depth);
      }
      assert CaseEnds(list, mask, byte, key + min);
    }
  }

  lemma {:induction false} IfGivesEnds(list: seq<Entry>, depth: nat)
    requires list != [] && BuildIf(list, depth).Some?
    ensures EndsIf(list)
    decreases depth, 4, Popcount(Common(list)), 0
  {
    hide Build, Terminal, Weight, Ends, EndsTerminal, BitList, Common, EffectiveMask;
    if |list| == 1 || IsZero(Common(list)) {
      NoSplit(list);
      TerminalGivesEnds(list, depth);
    } else {
      var bit := LowestBit(Common(list));
      var zeros, ones := BitList(list, bit, false), BitList(list, bit, true);
      BitListLoses(list, bit);
      if zeros == [] {
        IfGivesEnds(ones, depth);
      } else if ones == [] {
        IfGivesEnds(zeros, depth);
      } else {
        BuildGivesEnds(ones, depth);
        BuildGivesEnds(zeros, depth);
      }
    }
  }

  lemma {:induction false} TerminalGivesEnds(list: seq<Entry>, depth: nat)
    requires list != [] && IsZero(EffectiveMask(list)) && Terminal(list, depth).Some?
    ensures EndsTerminal(list)
    decreases depth, 3, 0, 0
  {
    hide BuildConstraint, Build, Weight, Ends, HasConstraints, EffectiveMask;
    if |list| == 1 {
    } else if HasConstraints(list) {
      ConstraintGivesEnds(list, depth);
    } else {
      var sorted := SortByRank(list, EntryRank);
      BuildGivesEnds(sorted[..1], depth);
      BuildGivesEnds(sorted[1..], depth);
    }
  }

  lemma {:induction false} ConstraintGivesEnds(list: seq<Entry>, depth: nat)
    requires |list| > 1 && IsZero(EffectiveMask(list)) && HasConstraints(list) && BuildConstraint(list, depth).Some?
    ensures EndsTerminal(list)
    decreases depth, 2, 0, 0
  {
    hide GlobalConstraint, ConstraintList, Build, Weight, Ends, HasConstraints, EffectiveMask;
    if Stuck(list) {
      StuckForEver(list, depth);
    } else {
      var gc := GlobalConstraint(list).value;
      var yes, no := ConstraintList(list, gc, No), ConstraintList(list, gc, Yes);
      if no == [] {
        NothingLost(list, gc);
        SameMasks(list, gc);
        GotoGivesEnds(yes, depth - 1);
      } else {
        BuildGivesEnds(no, depth);
        if yes != [] {
          BuildGivesEnds(yes, depth);
        }
      }
    }
  }

  lemma {:induction false} GotoGivesEnds(list: seq<Entry>, depth: nat)
    requires |list| > 1 && IsZero(EffectiveMask(list)) && BuildConstraint(list, depth).Some?
    ensures Ends(list)
    decreases depth, 3, 0, 0
  {
    hide EffectiveMask, ConstraintList, Build, Weight, GlobalConstraint, EndsTerminal, EndsSwitch, EndsIf, HasConstraints;
    if HasConstraints(list) {
      ConstraintGivesEnds(list, depth);
    } else {
      NothingPending(list);
      BuildGivesEnds(list, depth);
    }
  }

  /** Building ends on exactly these lists, and then at any depth above twice the weight. */
  lemma EndsExactly(list: seq<Entry>)
    requires list != []
    ensures (exists d :: Build(list, d).Some?) <==> Ends(list)
    ensures forall d, depth: nat :: Build(list, d).Some? && depth > 2 * Weight(list) ==> Build(list, depth).Some?
  {
    hide Build, Ends, Weight;
    if Ends(list) {
      BuildEnds(list, 2 * Weight(list) + 1);
    }
    forall d, depth: nat | Build(list, d).Some? && depth > 2 * Weight(list)
      ensures Build(list, depth).Some?
    {
      BuildGivesEnds(list, d);
      BuildEnds(list, depth);
    }
    if d :| Build(list, d).Some? {
      BuildGivesEnds(list, d);
    }
  }

  // ----- a condition on the records that is enough -----

  /** Constraint masks of all records: within a record all the same, between any
      two constraints the same or disjoint, and none the whole 64-bit integer
      (opcodes are 32 bits wide). */
  predicate CompatibleMasks(a: seq<Constraint>, b: seq<Constraint>) {
    forall c, d :: c in a && d in b ==> c.mask == d.mask || Disjoint(c.mask, d.mask)
  }

  predicate OneMask(cnsts: seq<Constraint>) {
    forall c :: c in cnsts ==> c.mask == cnsts[0].mask && c.mask != Ones(64)
  }

  ghost predicate Compatible(records: seq<Record>) {
    forall r, s :: r in records && s in records ==> OneMask(r.cnsts) && CompatibleMasks(r.cnsts, s.cnsts)
  }

  /** What building keeps of it: `cmask` is all of the mask or nothing. */
  predicate EntryReady(e: Entry) {
    OneMask(e.data.cnsts) && (IsZero(e.cmask) || (e.data.cnsts != [] && e.cmask == e.data.cnsts[0].mask))
  }

  ghost predicate Ready(list: seq<Entry>) {
    forall e, f :: e in list && f in list ==> EntryReady(e) && CompatibleMasks(e.data.cnsts, f.data.cnsts)
  }

  /** What the first loop of `get_global_constraint` finds in a ready list. */
  ghost predicate Gathered(list: seq<Entry>, g: Gather) {
    if HasConstraints(list) then
      (exists e :: e in list && !IsZero(e.cmask) && e.cmask == g.lmask) && (IsZero(g.gmask) || g.gmask == g.lmask)
    else g == Gather(Ones(64), Ones(64))
  }

  lemma {:induction false} GatherReady(list: seq<Entry>)
    requires Ready(list)
    ensures Gathered(list, GatherMasks(list))
  {
    if list != [] {
      var init, e := list[..|list| - 1], list[|list| - 1];
      assert forall x :: x in init ==> x in list;
      GatherReady(init);
      assert e in list;
      if IsZero(e.cmask) {
        SameConstraints(list);
      } else {
        assert HasConstraints(list);
        GatherOne(list, GatherMasks(init));
      }
    }
  }

  lemma GatherOne(list: seq<Entry>, g: Gather)
    requires list != [] && Ready(list) && HasConstraints(list) && !IsZero(list[|list| - 1].cmask)
    requires Gathered(list[..|list| - 1], g)
    ensures Gathered(list, Gather(And(g.gmask, list[|list| - 1].cmask), list[|list| - 1].cmask))
  {
    hide Ready, HasConstraints;
    var init, e := list[..|list| - 1], list[|list| - 1];
    if HasConstraints(init) {
      var x :| x in init && !IsZero(x.cmask) && x.cmask == g.lmask;
      PairReady(list, x, e);
      MeetEqualOrDisjoint(g.gmask, x.cmask, e.cmask);
    } else {
      assert And(Ones(64), e.cmask) == e.cmask;
    }
    assert e in list && e.cmask == list[|list| - 1].cmask;
  }

  lemma PairReady(list: seq<Entry>, e: Entry, f: Entry)
    requires Ready(list) && e in list && f in list && !IsZero(e.cmask) && !IsZero(f.cmask)
    ensures e.cmask == f.cmask || Disjoint(e.cmask, f.cmask)
  {
    EqualOrDisjoint(e, f);
  }

  lemma MeetEqualOrDisjoint(g: Word, x: Word, e: Word)
    requires (x == e || Disjoint(x, e)) && (IsZero(g) || g == x)
    ensures And(g, e) == e || IsZero(And(g, e))
  {
    if g == e {
      assert And(g, e) == e;
    }
  }

  lemma SameConstraints(list: seq<Entry>)
    requires list != [] && IsZero(list[|list| - 1].cmask)
    ensures HasConstraints(list) == HasConstraints(list[..|list| - 1])
  {
    var init := list[..|list| - 1];
    if HasConstraints(list) {
      var i :| 0 <= i < |list| && !IsZero(list[i].cmask);
      assert init[i] == list[i];
    }
  }

  lemma EqualOrDisjoint(e: Entry, f: Entry)
    requires EntryReady(e) && EntryReady(f) && CompatibleMasks(e.data.cnsts, f.data.cnsts)
    requires !IsZero(e.cmask) && !IsZero(f.cmask)
    ensures e.cmask == f.cmask || Disjoint(e.cmask, f.cmask)
  {
    assert e.data.cnsts[0] in e.data.cnsts && f.data.cnsts[0] in f.data.cnsts;
  }

  lemma {:induction false} FirstNodeConstraintReady(list: seq<Entry>, mask: Word)
    requires Ready(list) && !IsZero(mask) && exists e :: e in list && !IsZero(e.cmask) && e.cmask == mask
    ensures FirstNodeConstraint(list, mask).Some?
    ensures exists e :: e in list && Decided(e, FirstNodeConstraint(list, mask).value)
  {
    var e := list[0];
    var x :| x in list && !IsZero(x.cmask) && x.cmask == mask;
    assert e in list;
    if NodeConstraint(e, mask).Some? {
      DecidesItself(e, x, mask);
    } else {
      if x == e {
        DecidesItself(e, x, mask);
      }
      assert x in list[1..];
      assert forall y :: y in list[1..] ==> y in list;
      FirstNodeConstraintReady(list[1..], mask);
    }
  }

  lemma FirstOfOneMask(cnsts: seq<Constraint>, mask: Word)
    requires cnsts != [] && OneMask(cnsts)
    ensures FirstWithin(cnsts, mask) == (if And(mask, cnsts[0].mask) == cnsts[0].mask then Some(cnsts[0]) else None)
  {
    DecisionTreeSearch.FirstWithinIn(cnsts, mask);
    if FirstWithin(cnsts, mask).Some? {
      var c := FirstWithin(cnsts, mask).value;
      assert c in cnsts && c.mask == cnsts[0].mask;
    }
  }

  lemma DecidesItself(e: Entry, x: Entry, mask: Word)
    requires EntryReady(e) && EntryReady(x) && CompatibleMasks(e.data.cnsts, x.data.cnsts)
    requires !IsZero(mask) && x.cmask == mask && (NodeConstraint(e, mask).Some? || e == x)
    ensures NodeConstraint(e, mask).Some? && Decided(e, NodeConstraint(e, mask).value)
  {
    if !IsZero(e.cmask) {
      var c := e.data.cnsts[0];
      assert And(c.mask, c.mask) == c.mask;
      FirstOfOneMask(e.data.cnsts, mask);
      FirstOfOneMask(e.data.cnsts, c.mask);
      var i :| 0 <= i < 64 && e.cmask[i];
      assert !Disjoint(e.cmask, c.mask);
    }
  }

  /** A list with a pending constraint always has one that some entry is decided by. */
  lemma GlobalConstraintReady(list: seq<Entry>)
    requires Ready(list) && HasConstraints(list)
    ensures GlobalConstraint(list).Some? && exists e :: e in list && Decided(e, GlobalConstraint(list).value)
  {
    hide GatherMasks, FirstNodeConstraint, CompatibleMasks, NodeConstraint;
    GatherReady(list);
    var g := GatherMasks(list);
    var e :| e in list && !IsZero(e.cmask) && e.cmask == g.lmask;
    assert g.lmask != Ones(64) by {
      assert e.data.cnsts[0] in e.data.cnsts;
    }
    FirstNodeConstraintReady(list, g.lmask);
  }

  /** The entry comes from `list`, with as much or nothing left of `cmask`. */
  ghost predicate FromOne(e: Entry, list: seq<Entry>) {
    exists o :: o in list && o.data == e.data && (e.cmask == o.cmask || IsZero(e.cmask))
  }

  ghost predicate From(sub: seq<Entry>, list: seq<Entry>) {
    forall e :: e in sub ==> FromOne(e, list)
  }

  lemma FromReady(sub: seq<Entry>, list: seq<Entry>)
    requires Ready(list) && From(sub, list)
    ensures Ready(sub)
  {
    forall e, f | e in sub && f in sub
      ensures EntryReady(e) && CompatibleMasks(e.data.cnsts, f.data.cnsts)
    {
      assert FromOne(e, list) && FromOne(f, list);
      var o :| o in list && o.data == e.data && (e.cmask == o.cmask || IsZero(e.cmask));
      var p :| p in list && p.data == f.data && (f.cmask == p.cmask || IsZero(f.cmask));
    }
  }

  lemma FromLast(sub: seq<Entry>, tail: seq<Entry>, list: seq<Entry>)
    requires From(sub, list) && |tail| <= 1 && (tail != [] ==> FromOne(tail[0], list))
    ensures From(sub + tail, list)
  {
  }

  lemma OwnMask(e: Entry, o: Entry, list: seq<Entry>)
    requires o in list && e.data == o.data && (e.cmask == o.cmask || IsZero(e.cmask))
    ensures FromOne(e, list)
  {
  }

  lemma ConsumeFrom(e: Entry, gc: Constraint)
    requires EntryReady(e)
    ensures Consume(e, gc).cmask == e.cmask || IsZero(Consume(e, gc).cmask)
  {
    if NodeConstraint(e, gc.mask) == Some(gc) {
      DecisionTreeSearch.FirstWithinIn(e.data.cnsts, gc.mask);
      assert gc in e.data.cnsts;
    }
  }

  lemma {:induction false} BitFrom(list: seq<Entry>, bit: nat, v: bool, all: seq<Entry>)
    requires bit < 64 && forall e :: e in list ==> e in all
    ensures From(BitList(list, bit, v), all)
  {
    hide FromOne;
    if list != [] {
      var init, e := list[..|list| - 1], list[|list| - 1];
      assert e in list && forall x :: x in init ==> x in list;
      BitFrom(init, bit, v, all);
      OwnMask(StripEntry(e, BitMask(bit)), e, all);
      FromLast(BitList(init, bit, v), if e.data.opcode[bit] == v then [StripEntry(e, BitMask(bit))] else [], all);
    }
  }

  lemma {:induction false} CaseFrom(list: seq<Entry>, mask: Word, byte: nat, v: int, all: seq<Entry>)
    requires 1 <= byte <= 8 && forall e :: e in list ==> e in all
    ensures From(CaseList(list, mask, byte, v), all)
  {
    hide FromOne, SwitchValue;
    if list != [] {
      var init, e := list[..|list| - 1], list[|list| - 1];
      assert e in list && forall x :: x in init ==> x in list;
      CaseFrom(init, mask, byte, v, all);
      OwnMask(StripEntry(e, mask), e, all);
      FromLast(CaseList(init, mask, byte, v),
               if SwitchValue(e.data.opcode, mask, byte) == v then [StripEntry(e, mask)] else [], all);
    }
  }

  lemma {:induction false} SideFrom(list: seq<Entry>, gc: Constraint, side: Side, all: seq<Entry>)
    requires forall e :: e in list ==> e in all && EntryReady(e)
    ensures From(ConstraintList(list, gc, side), all)
  {
    hide FromOne, EntryReady, SideOf, Consume;
    if list != [] {
      var init, e := list[..|list| - 1], list[|list| - 1];
      assert e in list && forall x :: x in init ==> x in list;
      SideFrom(init, gc, side, all);
      ConsumeFrom(e, gc);
      ConsumeKeepsData(e, gc);
      OwnMask(Consume(e, gc), e, all);
      FromLast(ConstraintList(init, gc, side), if SideOf(e, gc) == side then [] else [Consume(e, gc)], all);
    }
  }

  lemma ConsumeKeepsData(e: Entry, gc: Constraint)
    ensures Consume(e, gc).data == e.data
  {
  }

  lemma BitReady(list: seq<Entry>, bit: nat, v: bool)
    requires bit < 64 && Ready(list)
    ensures Ready(BitList(list, bit, v))
  {
    BitFrom(list, bit, v, list);
    FromReady(BitList(list, bit, v), list);
  }

  lemma CaseReady(list: seq<Entry>, mask: Word, byte: nat, v: int)
    requires 1 <= byte <= 8 && Ready(list)
    ensures Ready(CaseList(list, mask, byte, v))
  {
    CaseFrom(list, mask, byte, v, list);
    FromReady(CaseList(list, mask, byte, v), list);
  }

  lemma SideReady(list: seq<Entry>, gc: Constraint, side: Side)
    requires Ready(list)
    ensures Ready(ConstraintList(list, gc, side))
  {
    SideFrom(list, gc, side, list);
    FromReady(ConstraintList(list, gc, side), list);
  }

  /** Every split of a ready list changes it, so no stuck list is reached. */
  lemma {:induction false} ReadyEnds(list: seq<Entry>)
    requires list != [] && Ready(list)
    ensures Ends(list)
    decreases Weight(list), 2
  {
    hide EffectiveMask, SwitchApplies, EndsTerminal, EndsSwitch, EndsIf, Weight, Ready;
    var mask := EffectiveMask(list);
    if IsZero(mask) {
      ReadyTerminal(list);
    } else if SwitchApplies(list, mask) {
      ReadySwitch(list, mask);
    } else {
      ReadyIf(list);
    }
  }

  lemma {:induction false} ReadySwitch(list: seq<Entry>, mask: Word)
    requires list != [] && Ready(list) && mask == EffectiveMask(list) && !IsZero(mask) && SwitchApplies(list, mask)
    ensures EndsSwitch(list, mask)
    decreases Weight(list), 1
  {
    hide EffectiveMask, SwitchApplies, Weight, Ready, Ends, CaseList, MinValue;
    SwitchHasByte(list, mask);
    DecisionTreeSearch.MaskWithin(list, mask);
    var byte := BlessedByte(mask);
    var min := MinValue(list, mask, byte);
    forall v | min <= v < min + 256
      ensures CaseEnds(list, mask, byte, v)
    {
      CaseReady(list, mask, byte, v);
      CaseListLighter(list, mask, byte, v);
      if CaseList(list, mask, byte, v) != [] {
        ReadyEnds(CaseList(list, mask, byte, v));
      }
    }
  }

  lemma {:induction false} ReadyIf(list: seq<Entry>)
    requires list != [] && Ready(list)
    ensures EndsIf(list)
    decreases Weight(list), 1
  {
    hide Weight, Ready, Ends, EndsTerminal, BitList, Common;
    if |list| == 1 || IsZero(Common(list)) {
      ReadyTerminal(list);
    } else {
      var bit := LowestBit(Common(list));
      var zeros, ones := BitList(list, bit, false), BitList(list, bit, true);
      BitListLoses(list, bit);
      BitsLighter(list, bit);
      BitReady(list, bit, false);
      BitReady(list, bit, true);
      if zeros == [] {
        ReadyIf(ones);
      } else if ones == [] {
        ReadyIf(zeros);
      } else {
        ReadyEnds(ones);
        ReadyEnds(zeros);
      }
    }
  }

  lemma {:induction false} ReadyTerminal(list: seq<Entry>)
    requires list != [] && Ready(list)
    ensures EndsTerminal(list)
    decreases Weight(list), 0
  {
    hide Weight, Ready, Ends, ConstraintList, GlobalConstraint, HasConstraints;
    if |list| == 1 {
    } else if HasConstraints(list) {
      GlobalConstraintReady(list);
      var gc := GlobalConstraint(list).value;
      ConstraintListLighter(list, gc, No);
      ConstraintListLighter(list, gc, Yes);
      SideReady(list, gc, No);
      SideReady(list, gc, Yes);
      if ConstraintList(list, gc, No) != [] {
        ReadyEnds(ConstraintList(list, gc, No));
      }
      if ConstraintList(list, gc, Yes) != [] {
        ReadyEnds(ConstraintList(list, gc, Yes));
      }
    } else {
      HighestLighter(list);
      SortReady(list);
      ReadyEnds(SortByRank(list, EntryRank)[..1]);
      ReadyEnds(SortByRank(list, EntryRank)[1..]);
    }
  }

  lemma SortReady(list: seq<Entry>)
    requires Ready(list) && list != []
    ensures Ready(SortByRank(list, EntryRank)[..1]) && Ready(SortByRank(list, EntryRank)[1..])
  {
    var sorted := SortByRank(list, EntryRank);
    DecisionTreeSearch.SortDescends(list);
    assert forall e :: e in sorted[..1] ==> e in sorted;
    assert forall e :: e in sorted[1..] ==> e in sorted;
  }

  /** Building ends on a list of records exactly when `Ends` holds of it, in particular when
      the constraint masks are compatible, and so on every list without constraints. */
  lemma BuildingEnds(records: seq<Record>)
    requires records != []
    ensures (exists depth :: Build(DecisionTreeSearch.InitialList(records), depth).Some?)
      <==> Ends(DecisionTreeSearch.InitialList(records))
    ensures Compatible(records) ==> Ends(DecisionTreeSearch.InitialList(records))
    ensures (forall r :: r in records ==> r.cnsts == []) ==> Compatible(records)
  {
    hide Build, Ends;
    var list := DecisionTreeSearch.InitialList(records);
    EndsExactly(list);
    if Compatible(records) {
      forall r | r in records
        ensures EntryReady(Initial(r))
      {
        ConstraintBitsOfOneMask(r.cnsts);
      }
      assert Ready(list) by {
        assert forall e :: e in list ==> e.data in records && e == Initial(e.data);
      }
      ReadyEnds(list);
    }
  }

  lemma {:induction false} ConstraintBitsOfOneMask(cnsts: seq<Constraint>)
    requires OneMask(cnsts)
    ensures ConstraintBits(cnsts) == (if cnsts == [] then Zeros(64) else cnsts[0].mask)
  {
    if |cnsts| > 1 {
      var rest := cnsts[1..];
      assert forall c :: c in rest ==> c in cnsts;
      assert rest[0] in cnsts;
      ConstraintBitsOfOneMask(rest);
      assert Or(cnsts[0].mask, cnsts[0].mask) == cnsts[0].mask;
    } else if |cnsts| == 1 {
      assert Or(cnsts[0].mask, ConstraintBits(cnsts[1..])) == cnsts[0].mask;
    }
  }

  // ----- building need not end: two ways -----

  function Overlapping(index: nat, low: nat): Record
    requires low < 63
  {
    var mask := Or(BitMask(low), BitMask(low + 1));
    Record(index, Zeros(64), Zeros(64), mask, [Constraint(mask, Zeros(64))])
  }

  /** Two records with one constraint each, on bits 1:0 and on bits 2:1: no constraint
      lies within the bits the two have in common. */
  lemma OverlapNeverEnds(depth: nat)
    ensures var records := [Overlapping(1, 0), Overlapping(2, 1)];
      !Compatible(records) && Build(DecisionTreeSearch.InitialList(records), depth).None?
  {
    hide Build, GlobalConstraint, Compatible;
    var records := [Overlapping(1, 0), Overlapping(2, 1)];
    var list := DecisionTreeSearch.InitialList(records);
    var a, b := records[0].cnsts[0].mask, records[1].cnsts[0].mask;
    assert a[1] && b[1] && a[0] && !b[0] && b[2] && !a[2];
    ConstraintBitsOfOneMask(records[0].cnsts);
    ConstraintBitsOfOneMask(records[1].cnsts);
    assert list == [Entry(records[0], Zeros(64), a), Entry(records[1], Zeros(64), b)];
    OverlapIncompatible(records, a, b);
    NoMaskNoSplit(list);
    OverlapHasNoConstraint(list, a, b);
    StuckForEver(list, depth);
  }

  lemma OverlapIncompatible(records: seq<Record>, a: Word, b: Word)
    requires |records| == 2 && a != b && !Disjoint(a, b)
    requires |records[0].cnsts| == |records[1].cnsts| == 1
    requires records[0].cnsts[0].mask == a && records[1].cnsts[0].mask == b
    ensures !Compatible(records)
  {
    assert records[0] in records && records[1] in records;
    assert records[0].cnsts[0] in records[0].cnsts && records[1].cnsts[0] in records[1].cnsts;
    assert !CompatibleMasks(records[0].cnsts, records[1].cnsts);
  }

  lemma NoMaskNoSplit(list: seq<Entry>)
    requires list != [] && IsZero(list[0].mask)
    ensures IsZero(EffectiveMask(list))
  {
    DecisionTreeSearch.EffectiveMaskMeaning(list);
    forall i | 0 <= i < 64
      ensures !DecisionTreeSearch.Decides(list, i)
    {
      assert list[0] in list;
    }
  }

  lemma OverlapHasNoConstraint(list: seq<Entry>, a: Word, b: Word)
    requires |list| == 2 && list[0].cmask == a && list[1].cmask == b
    requires list[0].data.cnsts == [Constraint(a, Zeros(64))] && list[1].data.cnsts == [Constraint(b, Zeros(64))]
    requires !Subset(a, b) && !Subset(b, a) && !Disjoint(a, b)
    ensures HasConstraints(list) && GlobalConstraint(list).None?
  {
    var e, f := list[0], list[1];
    var g := And(a, b);
    assert g != Ones(64) && !IsZero(g) && !IsZero(a) && !IsZero(b) by {
      var i :| 0 <= i < 64 && a[i] && b[i];
      var j :| 0 <= j < 64 && a[j] && !b[j];
      assert g[i] && !g[j];
    }
    assert GatherMasks(list) == Gather(g, b) by {
      assert list[..1] == [e] && [e][..0] == [];
      assert And(Ones(64), a) == a;
      assert GatherMasks([e]) == Gather(a, a);
    }
    NotWithin(a, g);
    NotWithin(b, g);
    assert FirstNodeConstraint(list, g).None? by {
      assert list[1..] == [f] && [f][1..] == [];
      assert FirstNodeConstraint([f], g).None?;
    }
  }

  lemma NotWithin(mask: Word, g: Word)
    requires Subset(g, mask) && g != mask
    ensures FirstWithin([Constraint(mask, Zeros(64))], g).None?
  {
    var j :| 0 <= j < 64 && g[j] != mask[j];
    assert !And(g, mask)[j];
  }

  // ----- the second way: a constraint found again after it is used up -----

  /** Constraints on bit 0 and on bit 1, and one on bit 0 with another value. */
  function Twice(): seq<Record> {
    [Record(1, Zeros(64), Zeros(64), BitMask(0), [Constraint(BitMask(0), Zeros(64)), Constraint(BitMask(1), Zeros(64))]),
     Record(2, Zeros(64), Zeros(64), BitMask(0), [Constraint(BitMask(0), BitMask(0))])]
  }

  /** The two nodes with pending masks `c` and bit 0. */
  function TwiceList(c: Word): seq<Entry> {
    [Entry(Twice()[0], Zeros(64), c), Entry(Twice()[1], Zeros(64), BitMask(0))]
  }

  lemma GatherTwo(e: Entry, f: Entry)
    requires !IsZero(e.cmask) && !IsZero(f.cmask)
    ensures GatherMasks([e, f]) == Gather(And(e.cmask, f.cmask), f.cmask)
  {
    assert [e, f][..1] == [e] && [e][..0] == [];
    assert And(Ones(64), e.cmask) == e.cmask;
    assert GatherMasks([e]) == Gather(e.cmask, e.cmask);
  }

  lemma SideTwo(e: Entry, f: Entry, gc: Constraint)
    requires SideOf(e, gc) != No && SideOf(f, gc) != No
    ensures ConstraintList([e, f], gc, No) == [Consume(e, gc), Consume(f, gc)]
  {
    assert [e, f][..1] == [e] && [e][..0] == [];
    assert ConstraintList([e], gc, No) == [Consume(e, gc)];
  }

  /** While bit 1 is pending, the constraint on bit 0 is the one that is tested, and the
      test only strikes bit 0. */
  lemma TwiceStep(c: Word)
    requires c == BitMask(1) || c == Or(BitMask(0), BitMask(1))
    ensures HasConstraints(TwiceList(c)) && GlobalConstraint(TwiceList(c)) == Some(Twice()[0].cnsts[0])
    ensures ConstraintList(TwiceList(c), Twice()[0].cnsts[0], No) == TwiceList(BitMask(1))
  {
    var e, f := TwiceList(c)[0], TwiceList(c)[1];
    var a, b := BitMask(0), BitMask(1);
    var gc := Twice()[0].cnsts[0];
    assert a[0] && !a[1] && b[1] && !b[0] && c[1] && !Zeros(64)[0];
    GatherTwo(e, f);
    assert And(a, a) == a;
    assert !IsZero(And(c, a)) ==> And(c, a) == a by {
      assert forall i :: 0 <= i < 64 ==> And(c, a)[i] == (c[0] && a[i]);
    }
    assert NodeConstraint(e, a) == Some(gc);
    assert NodeConstraint(f, a) == Some(Twice()[1].cnsts[0]) != Some(gc);
    assert And(f.mask, a) != a by {
      assert !And(f.mask, a)[0];
    }
    SideTwo(e, f, gc);
    assert And(c, Not(a)) == b;
  }

  /** All constraint masks are equal or disjoint, but one record has two of them. */
  lemma TwiceNeverEnds(depth: nat)
    ensures forall r, s :: r in Twice() && s in Twice() ==> CompatibleMasks(r.cnsts, s.cnsts)
    ensures !Ends(DecisionTreeSearch.InitialList(Twice()))
    ensures Build(DecisionTreeSearch.InitialList(Twice()), depth).None?
  {
    hide Build, EffectiveMask, GlobalConstraint, ConstraintList, HasConstraints, Weight;
    TwiceCompatible();
    var first, second := TwiceList(Or(BitMask(0), BitMask(1))), TwiceList(BitMask(1));
    TwiceInitial();
    TwiceStep(Or(BitMask(0), BitMask(1)));
    TwiceStep(BitMask(1));
    NoMaskNoSplit(first);
    NoMaskNoSplit(second);
    assert Stuck(second);
    assert !Ends(second) && !Ends(first);
    EndsExactly(first);
  }

  lemma TwiceInitial()
    ensures DecisionTreeSearch.InitialList(Twice()) == TwiceList(Or(BitMask(0), BitMask(1)))
  {
    var a, b := BitMask(0), BitMask(1);
    assert Twice()[0].cnsts[1..] == [Constraint(b, Zeros(64))] && [Constraint(b, Zeros(64))][1..] == [];
    assert Or(b, Zeros(64)) == b && Or(a, Zeros(64)) == a;
    assert ConstraintBits([Constraint(b, Zeros(64))]) == b;
    assert Twice()[1].cnsts[1..] == [];
  }

  lemma TwiceCompatible()
    ensures forall r, s :: r in Twice() && s in Twice() ==> CompatibleMasks(r.cnsts, s.cnsts)
  {
    assert forall r, c :: r in Twice() && c in r.cnsts ==> c.mask == BitMask(0) || c.mask == BitMask(1);
  }

  // ----- a loop that the guard does not count -----

  /** Constraints on bit 0 and on bit 1, and a pattern with bit 0 set and a constraint on
      bits 0 and 2. */
  function Rolling(): seq<Record> {
    [Record(1, Zeros(64), Zeros(64), BitMask(0), [Constraint(BitMask(0), Zeros(64)), Constraint(BitMask(1), Zeros(64))]),
     Record(2, BitMask(0), BitMask(0), BitMask(0), [Constraint(Or(BitMask(0), BitMask(2)), Zeros(64))])]
  }

  function RollingList(c: Word): seq<Entry> {
    [Entry(Rolling()[0], Zeros(64), c), Entry(Rolling()[1], BitMask(0), Or(BitMask(0), BitMask(2)))]
  }

  lemma NoneTwo(e: Entry, f: Entry, gc: Constraint)
    requires SideOf(e, gc) == Yes && SideOf(f, gc) == Yes
    ensures ConstraintList([e, f], gc, Yes) == []
  {
    assert [e, f][..1] == [e] && [e][..0] == [];
    assert ConstraintList([e], gc, Yes) == [];
  }

  /** No entry is for the words that fail the test, so `goto again` follows. */
  lemma RollingStep(c: Word)
    requires c == BitMask(1) || c == Or(BitMask(0), BitMask(1))
    ensures HasConstraints(RollingList(c)) && GlobalConstraint(RollingList(c)) == Some(Rolling()[0].cnsts[0])
    ensures ConstraintList(RollingList(c), Rolling()[0].cnsts[0], Yes) == []
    ensures ConstraintList(RollingList(c), Rolling()[0].cnsts[0], No) == RollingList(BitMask(1))
  {
    hide GlobalConstraint, ConstraintList, SideOf, Consume, BitMask;
    RollingMasks(c);
    RollingGlobal(c);
    RollingSides(c);
    SideTwo(RollingList(c)[0], RollingList(c)[1], Rolling()[0].cnsts[0]);
    NoneTwo(RollingList(c)[0], RollingList(c)[1], Rolling()[0].cnsts[0]);
  }

  lemma RollingSides(c: Word)
    requires c == BitMask(1) || c == Or(BitMask(0), BitMask(1))
    ensures var e, f, gc := RollingList(c)[0], RollingList(c)[1], Rolling()[0].cnsts[0];
      && SideOf(e, gc) == Yes && SideOf(f, gc) == Yes
      && Consume(e, gc) == RollingList(BitMask(1))[0] && Consume(f, gc) == f
  {
    hide And, Or, Not, BitMask, IsZero;
    RollingMasks(c);
    RollingConstraints(c);
  }

  lemma RollingGlobal(c: Word)
    requires c == BitMask(1) || c == Or(BitMask(0), BitMask(1))
    ensures GlobalConstraint(RollingList(c)) == Some(Rolling()[0].cnsts[0])
  {
    hide And, Or, Not, BitMask, IsZero, NodeConstraint;
    RollingMasks(c);
    RollingConstraints(c);
    GatherTwo(RollingList(c)[0], RollingList(c)[1]);
  }

  lemma RollingConstraints(c: Word)
    requires c == BitMask(1) || c == Or(BitMask(0), BitMask(1))
    ensures var e, f, gc := RollingList(c)[0], RollingList(c)[1], Rolling()[0].cnsts[0];
      && NodeConstraint(e, BitMask(0)) == Some(gc) && NodeConstraint(e, Or(BitMask(0), BitMask(2))) == Some(gc)
      && NodeConstraint(f, BitMask(0)).None?
  {
    hide And, Or, Not, BitMask, IsZero;
    RollingMasks(c);
    assert Rolling()[1].cnsts[1..] == [];
  }

  lemma RollingMasks(c: Word)
    requires c == BitMask(1) || c == Or(BitMask(0), BitMask(1))
    ensures var a, b, d := BitMask(0), BitMask(1), Or(BitMask(0), BitMask(2));
      && !IsZero(a) && !IsZero(c) && !IsZero(d) && a != Ones(64) && d != Ones(64) && a != Zeros(64)
      && And(a, a) == a && And(d, a) == a && And(a, d) != d && And(c, Not(a)) == b
      && (IsZero(And(c, d)) || And(c, d) == a)
  {
    var a, b, d := BitMask(0), BitMask(1), Or(BitMask(0), BitMask(2));
    assert a[0] && !a[2] && !a[3] && b[1] && c[1] && d[0] && d[2] && !d[3] && !And(a, d)[2];
    assert forall i :: 0 <= i < 64 ==> And(c, d)[i] == (c[0] && a[i]);
  }

  /** Two records on which the loop over constraints comes back to the same list without a
      call of the builder. */
  lemma GotoForEver(depth: nat)
    ensures var list, gc := RollingList(BitMask(1)), Rolling()[0].cnsts[0];
      && GlobalConstraint(list) == Some(gc)
      && ConstraintList(list, gc, Yes) == [] && ConstraintList(list, gc, No) == list
    ensures var first, gc := DecisionTreeSearch.InitialList(Rolling()), Rolling()[0].cnsts[0];
      && IsZero(EffectiveMask(first)) && GlobalConstraint(first) == Some(gc)
      && ConstraintList(first, gc, Yes) == [] && ConstraintList(first, gc, No) == RollingList(BitMask(1))
      && Build(first, depth).None?
  {
    hide Build, EffectiveMask, GlobalConstraint, ConstraintList, HasConstraints, Weight;
    var first, second := RollingList(Or(BitMask(0), BitMask(1))), RollingList(BitMask(1));
    RollingInitial();
    RollingStep(Or(BitMask(0), BitMask(1)));
    RollingStep(BitMask(1));
    NoMaskNoSplit(first);
    NoMaskNoSplit(second);
    assert Stuck(second);
    assert !Ends(second) && !Ends(first);
    EndsExactly(first);
  }

  lemma RollingInitial()
    ensures DecisionTreeSearch.InitialList(Rolling()) == RollingList(Or(BitMask(0), BitMask(1)))
  {
    var a, b, d := BitMask(0), BitMask(1), Or(BitMask(0), BitMask(2));
    assert Rolling()[0].cnsts[1..] == [Constraint(b, Zeros(64))] && [Constraint(b, Zeros(64))][1..] == [];
    assert Or(b, Zeros(64)) == b && Or(d, Zeros(64)) == d;
    assert ConstraintBits([Constraint(b, Zeros(64))]) == b;
    assert Rolling()[1].cnsts[1..] == [];
  }
}
