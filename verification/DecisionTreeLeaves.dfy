/** Lists without constraints: the splits partition them, so the tree has one leaf per
    record. */
module DecisionTreeLeaves {
  import opened Bits
  import opened Wrappers
  import opened DecisionTree
  import DecisionTreeSearch

  function Leaves(t: Tree): multiset<nat> {
    match t
    case Empty => multiset{}
    case Leaf(index) => multiset{index}
    case If(_, yes, no) => Leaves(yes) + Leaves(no)
    case Switch(_, _, _, cases) => CaseLeaves(cases)
  }

  function CaseLeaves(cs: Cases): multiset<nat> {
    match cs
    case NoCase => multiset{}
    case Case(_, body, rest) => Leaves(body) + CaseLeaves(rest)
  }

  function Indexes(list: seq<Entry>): multiset<nat> {
    if list == [] then multiset{} else Indexes(list[..|list| - 1]) + multiset{list[|list| - 1].data.index}
  }

  lemma NothingListed()
    ensures Indexes([]) == multiset{}
  {
  }

  lemma IndexesLast(list: seq<Entry>, tail: seq<Entry>)
    requires |tail| <= 1
    ensures Indexes(list + tail) == Indexes(list) + (if tail == [] then multiset{} else multiset{tail[0].data.index})
  {
    if tail == [] {
      assert list + tail == list;
    } else {
      assert (list + tail)[..|list|] == list;
    }
  }

  lemma {:induction false} BitPartition(list: seq<Entry>, bit: nat)
    requires bit < 64
    ensures Indexes(BitList(list, bit, true)) + Indexes(BitList(list, bit, false)) == Indexes(list)
  {
    if list != [] {
      var n := |list| - 1;
      var e := list[n];
      BitPartition(list[..n], bit);
      hide Indexes, BitList, StripEntry;
      OneMoreBit(list, bit, true);
      OneMoreBit(list, bit, false);
      IndexesStep(list);
    }
  }

  lemma OneMoreBit(list: seq<Entry>, bit: nat, v: bool)
    requires bit < 64 && list != []
    ensures var n := |list| - 1;
      Indexes(BitList(list, bit, v)) == Indexes(BitList(list[..n], bit, v))
        + (if list[n].data.opcode[bit] == v then multiset{list[n].data.index} else multiset{})
  {
    var n := |list| - 1;
    IndexesLast(BitList(list[..n], bit, v),
                if list[n].data.opcode[bit] == v then [StripEntry(list[n], BitMask(bit))] else []);
  }

  lemma IndexesStep(list: seq<Entry>)
    requires list != []
    ensures Indexes(list) == Indexes(list[..|list| - 1]) + multiset{list[|list| - 1].data.index}
  {
  }

  /** The entries of `list` with a switch value of at least `v`. */
  function AtLeast(list: seq<Entry>, mask: Word, byte: nat, v: int): multiset<nat>
    requires 1 <= byte <= 8
  {
    if list == [] then multiset{}
    else
      var e := list[|list| - 1];
      AtLeast(list[..|list| - 1], mask, byte, v)
        + (if SwitchValue(e.data.opcode, mask, byte) >= v then multiset{e.data.index} else multiset{})
  }

  lemma {:induction false} CasePartition(list: seq<Entry>, mask: Word, byte: nat, v: int)
    requires 1 <= byte <= 8
    ensures AtLeast(list, mask, byte, v) == Indexes(CaseList(list, mask, byte, v)) + AtLeast(list, mask, byte, v + 1)
  {
    hide Indexes;
    if list == [] {
      NothingListed();
    } else {
      var n := |list| - 1;
      var e := list[n];
      CasePartition(list[..n], mask, byte, v);
      IndexesLast(CaseList(list[..n], mask, byte, v),
                  if SwitchValue(e.data.opcode, mask, byte) == v then [StripEntry(e, mask)] else []);
    }
  }

  lemma {:induction false} FromAll(list: seq<Entry>, mask: Word, byte: nat, low: int, high: int)
    requires 1 <= byte <= 8
    requires forall e :: e in list ==> low <= SwitchValue(e.data.opcode, mask, byte) < high
    ensures AtLeast(list, mask, byte, low) == Indexes(list) && AtLeast(list, mask, byte, high) == multiset{}
  {
    if list != [] {
      var n := |list| - 1;
      assert list[n] in list;
      FromAll(list[..n], mask, byte, low, high);
    }
  }

  lemma {:induction false} IndexesAppend(a: seq<Entry>, b: seq<Entry>)
    ensures Indexes(a + b) == Indexes(a) + Indexes(b)
  {
    hide Indexes;
    NothingListed();
    if b == [] {
      assert a + b == a;
    } else {
      var n := |b| - 1;
      IndexesAppend(a, b[..n]);
      IndexesLast(a + b[..n], [b[n]]);
      IndexesLast(b[..n], [b[n]]);
      assert a + b == (a + b[..n]) + [b[n]] && b == b[..n] + [b[n]];
    }
  }

  lemma IndexesCons(e: Entry, list: seq<Entry>)
    ensures Indexes([e] + list) == multiset{e.data.index} + Indexes(list)
  {
    IndexesAppend([e], list);
    assert [e][..0] == [];
  }

  lemma {:induction false} InsertIndexes(e: Entry, sorted: seq<Entry>)
    ensures Indexes(InsertByRank(e, sorted, EntryRank)) == multiset{e.data.index} + Indexes(sorted)
  {
    hide Indexes;
    IndexesCons(e, sorted);
    if sorted == [] {
      assert [e] + sorted == [e];
    } else if EntryRank(e) < EntryRank(sorted[0]) {
      var s, rest := sorted[0], sorted[1..];
      InsertIndexes(e, rest);
      IndexesCons(s, InsertByRank(e, rest, EntryRank));
      IndexesCons(s, rest);
      assert sorted == [s] + rest;
      Swap(multiset{s.data.index}, multiset{e.data.index}, Indexes(rest));
    }
  }

  lemma Swap(a: multiset<nat>, b: multiset<nat>, c: multiset<nat>)
    ensures a + (b + c) == b + (a + c)
  {
  }

  lemma {:induction false} SortIndexes(list: seq<Entry>)
    ensures Indexes(SortByRank(list, EntryRank)) == Indexes(list)
  {
    if list != [] {
      SortIndexes(list[1..]);
      InsertIndexes(list[0], SortByRank(list[1..], EntryRank));
      IndexesCons(list[0], list[1..]);
      assert list == [list[0]] + list[1..];
    }
  }

  predicate Unconstrained(list: seq<Entry>) {
    forall e :: e in list ==> IsZero(e.cmask)
  }

  lemma {:induction false} SplitsUnconstrained(list: seq<Entry>, bit: nat, mask: Word, byte: nat)
    requires bit < 64 && 1 <= byte <= 8 && Unconstrained(list)
    ensures forall v :: Unconstrained(BitList(list, bit, v))
    ensures forall v :: Unconstrained(CaseList(list, mask, byte, v))
  {
    if list != [] {
      var n := |list| - 1;
      assert forall e :: e in list[..n] ==> e in list;
      assert list[n] in list;
      SplitsUnconstrained(list[..n], bit, mask, byte);
    }
  }

  lemma {:induction false} BuildKeepsAll(list: seq<Entry>, depth: nat, t: Tree)
    requires list != [] && Unconstrained(list) && Build(list, depth) == Some(t)
    ensures Leaves(t) == Indexes(list)
    decreases depth, 0, 0, 1
  {
    hide EffectiveMask, MinValue, SwitchApplies, BuildCases, BuildIf, Terminal, Indexes, Unconstrained;
    var mask := EffectiveMask(list);
    if IsZero(mask) {
      TerminalKeepsAll(list, depth - 1, t);
    } else if SwitchApplies(list, mask) {
      SwitchKeepsAll(list, mask, depth, t);
    } else {
      IfKeepsAll(list, depth - 1, t);
    }
  }

  lemma {:induction false} SwitchKeepsAll(list: seq<Entry>, mask: Word, depth: nat, t: Tree)
    requires list != [] && Unconstrained(list) && Build(list, depth) == Some(t)
    requires mask == EffectiveMask(list) && !IsZero(mask) && SwitchApplies(list, mask)
    ensures Leaves(t) == Indexes(list)
    decreases depth, 0, 0, 0
  {
    hide EffectiveMask, CaseList, MinValue, CaseValues, BuildCases, BuildIf, Terminal, Indexes, AtLeast, Unconstrained;
    assert WithinByte(mask, t.byte);
    CasesKeepAll(list, mask, t.byte, t.min, 0, depth - 1, t.cases);
    AllValues(list, mask, t.byte);
  }

  lemma AllValues(list: seq<Entry>, mask: Word, byte: nat)
    requires list != [] && 1 <= byte <= 8 && WithinByte(mask, byte)
    ensures AtLeast(list, mask, byte, MinValue(list, mask, byte)) == Indexes(list)
    ensures AtLeast(list, mask, byte, MinValue(list, mask, byte) + 256) == multiset{}
  {
    hide CaseList, MinValue, Indexes, AtLeast;
    var min := MinValue(list, mask, byte);
    DecisionTreeSearch.MinIsLeast(list, mask, byte);
    forall e | e in list
      ensures min <= SwitchValue(e.data.opcode, mask, byte) < min + 256
    {
      DecisionTreeSearch.SwitchValueRange(e.data.opcode, mask, byte);
    }
    FromAll(list, mask, byte, min, min + 256);
  }

  lemma {:induction false} CasesKeepAll(list: seq<Entry>, mask: Word, byte: nat, min: nat, key: nat, depth: nat, cs: Cases)
    requires 1 <= byte <= 8 && key <= 256 && Unconstrained(list)
    requires BuildCases(list, mask, byte, min, key, depth) == Some(cs)
    ensures AtLeast(list, mask, byte, min + key) == CaseLeaves(cs) + AtLeast(list, mask, byte, min + 256)
    decreases depth, 1, 256 - key, 0
  {
    hide CaseList, Build, AtLeast, Unconstrained, Indexes, Leaves;
    if key < 256 {
      var sub := CaseList(list, mask, byte, key + min);
      CasePartition(list, mask, byte, min + key);
      NothingListed();
      if sub == [] {
        CasesKeepAll(list, mask, byte, min, key + 1, depth, cs);
      } else {
        CasesKeepAll(list, mask, byte, min, key + 1, depth, cs.rest);
        SplitsUnconstrained(list, 0, mask, byte);
        BuildKeepsAll(sub, depth, cs.body);
      }
    }
  }

  lemma {:induction false} IfKeepsAll(list: seq<Entry>, depth: nat, t: Tree)
    requires list != [] && Unconstrained(list) && BuildIf(list, depth) == Some(t)
    ensures Leaves(t) == Indexes(list)
    decreases depth, 4, Popcount(Common(list)), 0
  {
    hide Build, Terminal, Unconstrained, BitList, Indexes, Common;
    NothingListed();
    if |list| == 1 || IsZero(Common(list)) {
      TerminalKeepsAll(list, depth, t);
    } else {
      var bit := LowestBit(Common(list));
      var zeros, ones := BitList(list, bit, false), BitList(list, bit, true);
      BitListLoses(list, bit);
      BitPartition(list, bit);
      SplitsUnconstrained(list, bit, Common(list), 1);
      if zeros == [] {
        IfKeepsAll(ones, depth, t);
      } else if ones == [] {
        IfKeepsAll(zeros, depth, t);
      } else {
        BuildKeepsAll(ones, depth, t.yes);
        BuildKeepsAll(zeros, depth, t.no);
      }
    }
  }

  lemma {:induction false} TerminalKeepsAll(list: seq<Entry>, depth: nat, t: Tree)
    requires list != [] && Unconstrained(list) && Terminal(list, depth) == Some(t)
    ensures Leaves(t) == Indexes(list)
    decreases depth, 3, 0, 0
  {
    hide BuildConstraint, Build, BuildHighest;
    if |list| == 1 {
      assert list[..0] == [];
    } else {
      assert forall i :: 0 <= i < |list| ==> list[i] in list;
      HighestKeepsAll(list, depth, t);
    }
  }

  lemma {:induction false} HighestKeepsAll(list: seq<Entry>, depth: nat, t: Tree)
    requires |list| >= 2 && Unconstrained(list) && BuildHighest(list, depth) == Some(t)
    ensures Leaves(t) == Indexes(list)
    decreases depth, 2, 0, 0
  {
    hide Build, Indexes;
    var sorted := SortByRank(list, EntryRank);
    SortIndexes(list);
    IndexesAppend(sorted[..1], sorted[1..]);
    assert sorted == sorted[..1] + sorted[1..];
    DecisionTreeSearch.SortDescends(list);
    BuildKeepsAll(sorted[..1], depth, t.yes);
    BuildKeepsAll(sorted[1..], depth, t.no);
  }

  /** The indexes of some records, each as often as it occurs. */
  function IndexesOf(records: seq<Record>): multiset<nat> {
    multiset(seq(|records|, i requires 0 <= i < |records| => records[i].index))
  }

  /** Without constraints the tree has exactly one leaf per record. */
  lemma OneLeafPerRecord(records: seq<Record>, depth: nat)
    requires records != []
    ensures var t := Build(DecisionTreeSearch.InitialList(records), depth);
      (forall r :: r in records ==> r.cnsts == []) && t.Some? ==> Leaves(t.value) == IndexesOf(records)
  {
    var list := DecisionTreeSearch.InitialList(records);
    if (forall r :: r in records ==> r.cnsts == []) && Build(list, depth).Some? {
      assert forall e :: e in list ==> e.data in records && e == Initial(e.data);
      BuildKeepsAll(list, depth, Build(list, depth).value);
      IndexesByRecord(list, records);
    }
  }

  lemma {:induction false} IndexesByRecord(list: seq<Entry>, records: seq<Record>)
    requires |list| == |records| && forall i :: 0 <= i < |list| ==> list[i].data == records[i]
    ensures Indexes(list) == IndexesOf(records)
  {
    hide IndexesOf;
    if list == [] {
      NothingIndexed();
    } else {
      var n := |list| - 1;
      IndexesByRecord(list[..n], records[..n]);
      IndexesOfLast(records);
    }
  }

  lemma NothingIndexed()
    ensures IndexesOf([]) == multiset{}
  {
  }

  lemma IndexesOfLast(records: seq<Record>)
    requires records != []
    ensures IndexesOf(records) == IndexesOf(records[..|records| - 1]) + multiset{records[|records| - 1].index}
  {
    var n := |records| - 1;
    var all := seq(|records|, i requires 0 <= i < |records| => records[i].index);
    var init := seq(n, i requires 0 <= i < n => records[..n][i].index);
    assert all == init + [records[n].index];
  }
}
