/** The walk of a word through the splits of a list, without a tree: where it lands is what
    the emitted tree answers, and it lands nowhere only at a switch that has no entry left
    with the word's value. */
module DecisionTreeWalk {
  import opened Bits
  import opened Wrappers
  import opened DecisionTree
  import opened DecisionTreeTermination
  import DecisionTreeSearch
  import DecisionTreePaths

  // ----- the constraint side is never empty -----

  lemma {:induction false} Listed(list: seq<Entry>, e: Entry, gc: Constraint, other: Side)
    requires e in list && SideOf(e, gc) != other
    ensures Consume(e, gc) in ConstraintList(list, gc, other)
  {
    hide SideOf, Consume;
    var n := |list| - 1;
    if e != list[n] {
      assert e in list[..n];
      Listed(list[..n], e, gc, other);
    }
  }

  /** The words that meet the tested constraint keep at least its owner. */
  lemma MeetingNotEmpty(list: seq<Entry>, gc: Constraint)
    requires GlobalConstraint(list) == Some(gc)
    ensures ConstraintList(list, gc, No) != []
  {
    hide ConstraintList, NodeConstraint, GatherMasks;
    var g := GatherMasks(list);
    var e := Owner(list, if IsZero(g.gmask) then g.lmask else g.gmask, gc);
    Listed(list, e, gc, No);
  }

  // ----- the walk -----

  function Lands(list: seq<Entry>, w: Word): Option<Record>
    requires list != [] && Ends(list)
    decreases Weight(list), 2
  {
    var mask := EffectiveMask(list);
    if IsZero(mask) then LandsTerminal(list, w)
    else if SwitchApplies(list, mask) then LandsSwitch(list, mask, w)
    else LandsIf(list, w)
  }

  lemma CaseReached(list: seq<Entry>, mask: Word, w: Word)
    requires list != [] && mask == EffectiveMask(list) && SwitchApplies(list, mask)
    ensures BlessedByte(mask) != 0
    ensures var byte := BlessedByte(mask);
      var v := SwitchValue(w, mask, byte);
      v < 256 && (CaseList(list, mask, byte, v) != [] ==> MinValue(list, mask, byte) <= v)
  {
    hide CaseList, SwitchValue, MinValue;
    SwitchHasByte(list, mask);
    var byte := BlessedByte(mask);
    var v := SwitchValue(w, mask, byte);
    DecisionTreeSearch.SwitchValueRange(w, mask, byte);
    DecisionTreeSearch.CaseListOrigin(list, mask, byte, v);
    var sub := CaseList(list, mask, byte, v);
    if sub != [] {
      assert sub[0] in sub;
      var o :| o in list && o.data == sub[0].data;
      DecisionTreeSearch.MinIsLeast(list, mask, byte);
    }
  }

  /** Nowhere, if no entry has the value of the word. */
  function LandsSwitch(list: seq<Entry>, mask: Word, w: Word): Option<Record>
    requires list != [] && mask == EffectiveMask(list) && !IsZero(mask) && SwitchApplies(list, mask)
    requires EndsSwitch(list, mask)
    decreases Weight(list), 1
  {
    CaseReached(list, mask, w);
    DecisionTreeSearch.MaskWithin(list, mask);
    var byte := BlessedByte(mask);
    var v := SwitchValue(w, mask, byte);
    CaseListLighter(list, mask, byte, v);
    var sub := CaseList(list, mask, byte, v);
    if sub == [] then None
    else
      assert CaseEnds(list, mask, byte, v);
      Lands(sub, w)
  }

  function LandsIf(list: seq<Entry>, w: Word): Option<Record>
    requires list != [] && EndsIf(list)
    decreases Weight(list), 1
  {
    if |list| == 1 || IsZero(Common(list)) then LandsTerminal(list, w)
    else
      var bit := LowestBit(Common(list));
      var zeros, ones := BitList(list, bit, false), BitList(list, bit, true);
      BitListLoses(list, bit);
      BitsLighter(list, bit);
      if zeros == [] then LandsIf(ones, w)
      else if ones == [] then LandsIf(zeros, w)
      else Lands(if w[bit] then ones else zeros, w)
  }

  function LandsTerminal(list: seq<Entry>, w: Word): Option<Record>
    requires list != [] && EndsTerminal(list)
    decreases Weight(list), 0
  {
    if |list| == 1 then Some(list[0].data)
    else if HasConstraints(list) then
      var gc := GlobalConstraint(list).value;
      var yes, no := ConstraintList(list, gc, No), ConstraintList(list, gc, Yes);
      SideShrinks(list, gc, No);
      FailingLighter(list, gc);
      MeetingNotEmpty(list, gc);
      Lands(if no == [] || Meets(w, gc) then yes else no, w)
    else
      var sorted := SortByRank(list, EntryRank);
      HighestLighter(list);
      Lands(if Satisfies(w, sorted[0].data) then sorted[..1] else sorted[1..], w)
  }

  // ----- the tree answers what the walk finds -----

  ghost predicate Follows(t: Tree, w: Word, landed: Option<Record>) {
    && TreeOk(t)
    && (DecisionTreePaths.Reaches(t, w) <==> landed.Some?)
    && Eval(t, w) == (if landed.Some? then landed.value.index else 0)
  }

  lemma {:induction false} BuildFollows(list: seq<Entry>, depth: nat, w: Word, t: Tree)
    requires list != [] && Ends(list) && Build(list, depth) == Some(t)
    ensures Follows(t, w, Lands(list, w))
    decreases depth, 0, 0, 0
  {
    hide EffectiveMask, CaseList, MinValue, SwitchApplies, BuildCases, BuildIf, Terminal, Weight;
    hide EndsTerminal, EndsSwitch, EndsIf, Follows, LandsTerminal, LandsSwitch, LandsIf;
    var mask := EffectiveMask(list);
    if IsZero(mask) {
      TerminalFollows(list, depth - 1, w, t);
    } else if SwitchApplies(list, mask) {
      SwitchHasByte(list, mask);
      SwitchFollows(list, mask, depth - 1, w, t.cases);
    } else {
      IfFollows(list, depth - 1, w, t);
    }
  }

  /** The cases follow a walk that lands at `landed`. */
  ghost predicate CasesFollow(cs: Cases, w: Word, value: int, landed: Option<Record>) {
    && CasesOk(cs)
    && (DecisionTreePaths.ReachesCase(cs, value, w) <==> landed.Some?)
    && EvalCases(cs, value, w) == (if landed.Some? then landed.value.index else 0)
  }

  lemma {:induction false} SwitchFollows(list: seq<Entry>, mask: Word, depth: nat, w: Word, cs: Cases)
    requires list != [] && mask == EffectiveMask(list) && !IsZero(mask) && SwitchApplies(list, mask)
    requires EndsSwitch(list, mask) && BlessedByte(mask) != 0
    requires BuildCases(list, mask, BlessedByte(mask), MinValue(list, mask, BlessedByte(mask)), 0, depth) == Some(cs)
    ensures var byte := BlessedByte(mask);
      Follows(Switch(byte, ByteVar(mask, byte), MinValue(list, mask, byte), cs), w, LandsSwitch(list, mask, w))
    decreases depth, 1, 257, 0
  {
    hide Build, Terminal, BuildIf, EffectiveMask, Weight, BuildCases, MinValue, SwitchApplies, Ends, CaseList, SwitchValue;
    var byte := BlessedByte(mask);
    var min, v := MinValue(list, mask, byte), SwitchValue(w, mask, byte);
    CaseReached(list, mask, w);
    DecisionTreeSearch.MaskWithin(list, mask);
    CasesFollowFrom(list, mask, byte, min, 0, depth, w, cs, v);
    DecisionTreeSearch.SwitchReads(w, mask, byte);
  }

  /** Where the walk goes on from the case of `v`. */
  function LandsCase(list: seq<Entry>, mask: Word, byte: nat, v: int, w: Word): Option<Record>
    requires 1 <= byte <= 8 && !IsZero(mask) && (forall e :: e in list ==> Subset(mask, e.mask))
    requires CaseEnds(list, mask, byte, v)
  {
    if CaseList(list, mask, byte, v) == [] then None else Lands(CaseList(list, mask, byte, v), w)
  }

  lemma {:induction false} CasesFollowFrom(list: seq<Entry>, mask: Word, byte: nat, min: nat, key: nat,
                                           depth: nat, w: Word, cs: Cases, v: int)
    requires 1 <= byte <= 8 && key <= 256 && BuildCases(list, mask, byte, min, key, depth) == Some(cs)
    requires !IsZero(mask) && forall e :: e in list ==> Subset(mask, e.mask)
    requires forall u :: min <= u < min + 256 ==> CaseEnds(list, mask, byte, u)
    ensures CasesFollow(cs, w, v - min,
      if min + key <= v < min + 256 then LandsCase(list, mask, byte, v, w) else None)
    decreases depth, 1, 256 - key, 0
  {
    hide CaseList, Build, Weight, Ends, Lands;
    if key < 256 {
      assert CaseEnds(list, mask, byte, key + min);
      if CaseList(list, mask, byte, key + min) == [] {
        CasesFollowFrom(list, mask, byte, min, key + 1, depth, w, cs, v);
      } else {
        CasesFollowFrom(list, mask, byte, min, key + 1, depth, w, cs.rest, v);
        BuildFollows(CaseList(list, mask, byte, key + min), depth, w, cs.body);
      }
    }
  }

  lemma {:induction false} IfFollows(list: seq<Entry>, depth: nat, w: Word, t: Tree)
    requires list != [] && EndsIf(list) && BuildIf(list, depth) == Some(t)
    ensures Follows(t, w, LandsIf(list, w))
    decreases depth, 4, Popcount(Common(list)), 0
  {
    hide Build, Terminal, Weight, Ends, EndsTerminal, BitList, Common, EffectiveMask, Lands, LandsTerminal, Holds;
    if |list| == 1 || IsZero(Common(list)) {
      NoSplit(list);
      TerminalFollows(list, depth, w, t);
    } else {
      var bit := LowestBit(Common(list));
      var zeros, ones := BitList(list, bit, false), BitList(list, bit, true);
      BitListLoses(list, bit);
      BitsLighter(list, bit);
      if zeros == [] {
        IfFollows(ones, depth, w, t);
      } else if ones == [] {
        IfFollows(zeros, depth, w, t);
      } else {
        BuildFollows(ones, depth, w, t.yes);
        BuildFollows(zeros, depth, w, t.no);
        DecisionTreeSearch.BitTestMeaning(bit, w);
      }
    }
  }

  lemma {:induction false} TerminalFollows(list: seq<Entry>, depth: nat, w: Word, t: Tree)
    requires list != [] && IsZero(EffectiveMask(list)) && EndsTerminal(list) && Terminal(list, depth) == Some(t)
    ensures Follows(t, w, LandsTerminal(list, w))
    decreases depth, 3, 0, 0
  {
    hide BuildConstraint, Build, Weight, Ends, HasConstraints, EffectiveMask, Lands, Satisfies;
    if |list| == 1 {
    } else if HasConstraints(list) {
      ConstraintFollows(list, depth, w, t);
    } else {
      HighestLighter(list);
      var sorted := SortByRank(list, EntryRank);
      BuildFollows(sorted[..1], depth, w, t.yes);
      BuildFollows(sorted[1..], depth, w, t.no);
    }
  }

  lemma {:induction false} ConstraintFollows(list: seq<Entry>, depth: nat, w: Word, t: Tree)
    requires |list| > 1 && IsZero(EffectiveMask(list)) && HasConstraints(list) && EndsTerminal(list)
    requires BuildConstraint(list, depth) == Some(t)
    ensures Follows(t, w, LandsTerminal(list, w))
    decreases depth, 2, 0, 0
  {
    hide GlobalConstraint, ConstraintList, Build, Weight, Ends, HasConstraints, EffectiveMask, Lands;
    var gc := GlobalConstraint(list).value;
    var yes, no := ConstraintList(list, gc, No), ConstraintList(list, gc, Yes);
    SideShrinks(list, gc, No);
    FailingLighter(list, gc);
    MeetingNotEmpty(list, gc);
    if no == [] {
      NothingLost(list, gc);
      SameMasks(list, gc);
      GotoFollows(yes, depth - 1, w, t);
    } else {
      BuildFollows(no, depth, w, t.no);
      BuildFollows(yes, depth, w, t.yes);
    }
  }

  lemma {:induction false} GotoFollows(list: seq<Entry>, depth: nat, w: Word, t: Tree)
    requires |list| > 1 && IsZero(EffectiveMask(list)) && Ends(list) && BuildConstraint(list, depth) == Some(t)
    ensures Follows(t, w, Lands(list, w))
    decreases depth, 3, 0, 0
  {
    hide EffectiveMask, ConstraintList, Build, Weight, GlobalConstraint, EndsTerminal, EndsSwitch, EndsIf, HasConstraints;
    hide LandsTerminal, Follows;
    if HasConstraints(list) {
      ConstraintFollows(list, depth, w, t);
    } else {
      NothingPending(list);
      BuildFollows(list, depth, w, t);
    }
  }

  // ----- the walk stays in the list -----

  ghost predicate OneOf(landed: Option<Record>, list: seq<Entry>) {
    landed.Some? ==> exists e :: e in list && e.data == landed.value
  }

  lemma OneOfPart(landed: Option<Record>, part: seq<Entry>, list: seq<Entry>)
    requires OneOf(landed, part) && forall e :: e in part ==> exists o :: o in list && o.data == e.data
    ensures OneOf(landed, list)
  {
    if landed.Some? {
      var e :| e in part && e.data == landed.value;
    }
  }

  lemma {:induction false} LandsInside(list: seq<Entry>, w: Word)
    requires list != [] && Ends(list)
    ensures OneOf(Lands(list, w), list)
    decreases Weight(list), 2
  {
    hide EffectiveMask, SwitchApplies, EndsTerminal, EndsSwitch, EndsIf, LandsTerminal, LandsSwitch, LandsIf, OneOf, Weight;
    var mask := EffectiveMask(list);
    if IsZero(mask) {
      TerminalInside(list, w);
    } else if SwitchApplies(list, mask) {
      SwitchInside(list, mask, w);
    } else {
      IfInside(list, w);
    }
  }

  lemma {:induction false} SwitchInside(list: seq<Entry>, mask: Word, w: Word)
    requires list != [] && mask == EffectiveMask(list) && !IsZero(mask) && SwitchApplies(list, mask)
    requires EndsSwitch(list, mask)
    ensures OneOf(LandsSwitch(list, mask, w), list)
    decreases Weight(list), 1
  {
    hide EffectiveMask, SwitchApplies, Ends, Lands, Weight, CaseList, SwitchValue, MinValue;
    CaseReached(list, mask, w);
    DecisionTreeSearch.MaskWithin(list, mask);
    var byte := BlessedByte(mask);
    var v := SwitchValue(w, mask, byte);
    CaseListLighter(list, mask, byte, v);
    var sub := CaseList(list, mask, byte, v);
    if sub != [] {
      assert CaseEnds(list, mask, byte, v);
      LandsInside(sub, w);
      DecisionTreeSearch.CaseListOrigin(list, mask, byte, v);
      OneOfPart(Lands(sub, w), sub, list);
    }
  }

  lemma {:induction false} IfInside(list: seq<Entry>, w: Word)
    requires list != [] && EndsIf(list)
    ensures OneOf(LandsIf(list, w), list)
    decreases Weight(list), 1
  {
    hide Ends, EndsTerminal, Lands, LandsTerminal, BitList, Common, Weight, OneOf;
    if |list| == 1 || IsZero(Common(list)) {
      TerminalInside(list, w);
    } else {
      var bit := LowestBit(Common(list));
      var zeros, ones := BitList(list, bit, false), BitList(list, bit, true);
      BitListLoses(list, bit);
      BitsLighter(list, bit);
      BitOrigin(list, bit, false);
      BitOrigin(list, bit, true);
      if zeros == [] {
        IfInside(ones, w);
        OneOfPart(LandsIf(ones, w), ones, list);
      } else if ones == [] {
        IfInside(zeros, w);
        OneOfPart(LandsIf(zeros, w), zeros, list);
      } else {
        var side := if w[bit] then ones else zeros;
        LandsInside(side, w);
        OneOfPart(Lands(side, w), side, list);
      }
    }
  }

  lemma BitOrigin(list: seq<Entry>, bit: nat, value: bool)
    requires bit < 64
    ensures forall e :: e in BitList(list, bit, value) ==> exists o :: o in list && o.data == e.data
  {
    hide BitList;
    BitListSplits(list, bit, value);
    forall e | e in BitList(list, bit, value)
      ensures exists o :: o in list && o.data == e.data
    {
      var k :| 0 <= k < |list| && e == StripEntry(list[k], BitMask(bit)) && list[k].data.opcode[bit] == value;
      assert list[k] in list;
    }
  }

  lemma {:induction false} TerminalInside(list: seq<Entry>, w: Word)
    requires list != [] && EndsTerminal(list)
    ensures OneOf(LandsTerminal(list, w), list)
    decreases Weight(list), 0
  {
    hide Ends, Lands, Weight, HasConstraints, GlobalConstraint, ConstraintList, SortByRank, Satisfies;
    if |list| == 1 {
      assert list[0] in list;
    } else if HasConstraints(list) {
      var gc := GlobalConstraint(list).value;
      SideShrinks(list, gc, No);
      FailingLighter(list, gc);
      MeetingNotEmpty(list, gc);
      var other := if ConstraintList(list, gc, Yes) == [] || Meets(w, gc) then No else Yes;
      LandsInside(ConstraintList(list, gc, other), w);
      DecisionTreePaths.SideOrigin(list, gc, other);
      OneOfPart(Lands(ConstraintList(list, gc, other), w), ConstraintList(list, gc, other), list);
    } else {
      var sorted := SortByRank(list, EntryRank);
      HighestLighter(list);
      DecisionTreeSearch.SortDescends(list);
      var part := if Satisfies(w, sorted[0].data) then sorted[..1] else sorted[1..];
      assert forall e :: e in part ==> e in sorted;
      LandsInside(part, w);
      OneOfPart(Lands(part, w), part, list);
    }
  }

  // ----- the answer -----

  /** With indexes other than 0, a word is answered 0 exactly when its walk comes to a switch
      where no entry left has its value. */
  lemma AnsweredZero(records: seq<Record>, depth: nat, w: Word)
    requires records != [] && forall r :: r in records ==> r.index != 0
    requires Build(DecisionTreeSearch.InitialList(records), depth).Some?
    ensures var list := DecisionTreeSearch.InitialList(records);
      var t := Build(list, depth).value;
      Ends(list) && TreeOk(t) && (Eval(t, w) == 0 <==> Lands(list, w).None?)
  {
    hide Build, Ends, Lands, Eval;
    var list := DecisionTreeSearch.InitialList(records);
    BuildGivesEnds(list, depth);
    BuildFollows(list, depth, w, Build(list, depth).value);
    LandsInside(list, w);
    if Lands(list, w).Some? {
      var e :| e in list && e.data == Lands(list, w).value;
      assert e.data in records;
    }
  }
}
