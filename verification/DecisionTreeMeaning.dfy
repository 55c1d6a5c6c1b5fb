/** What the choices of the decision tree amount to, in positions of bits: which pattern
    wins, when a switch is built and which constraint is tested. */
module DecisionTreeMeaning {
  import opened Bits
  import opened Wrappers
  import opened DecisionTree
  import opened DecisionTreeSearch
  import DecisionTreePaths

  // ----- counting bits by their positions -----

  function SetBits(x: Bits): set<nat> {
    set i | 0 <= i < |x| && x[i]
  }

  lemma {:induction false} CountsPositions(x: Bits)
    ensures Popcount(x) == |SetBits(x)|
  {
    if x != [] {
      var n := |x| - 1;
      CountsPositions(x[..n]);
      PopcountAppend(x[..n], [x[n]]);
      assert x == x[..n] + [x[n]];
      assert Popcount([x[n]]) == if x[n] then 1 else 0;
      hide Popcount;
      SetBitsLast(x);
      if x[n] {
        OneMore(SetBits(x[..n]), n);
      }
    }
  }

  lemma SetBitsLast(x: Bits)
    requires x != []
    ensures var n := |x| - 1;
      n !in SetBits(x[..n]) && SetBits(x) == if x[n] then SetBits(x[..n]) + {n} else SetBits(x[..n])
  {
  }

  lemma OneMore<T>(xs: set<T>, x: T)
    ensures |xs + {x}| == if x in xs then |xs| else |xs| + 1
  {
    if x in xs {
      assert xs + {x} == xs;
    }
  }

  lemma SetBitsSubset(x: Bits, y: Bits)
    requires Subset(x, y) && x != y
    ensures |SetBits(x)| < |SetBits(y)|
  {
    CountsPositions(x);
    CountsPositions(y);
    PopcountSubset(x, y);
  }

  // ----- which pattern wins -----

  /** `q` fixes no more bits than `p`, its constraints included.  A pattern of no bits
      counts like one of a single bit. */
  predicate NoMoreBits(q: Record, p: Record) {
    |SetBits(q.tmask)| <= |SetBits(p.tmask)| || |SetBits(q.tmask)| <= 1
  }

  lemma RankMeaning(q: Record, p: Record)
    ensures Rank(q) <= Rank(p) <==> NoMoreBits(q, p)
  {
    CountsPositions(q.tmask);
    CountsPositions(p.tmask);
    PopcountZero(q.tmask);
    PopcountZero(p.tmask);
  }

  /** No satisfied pattern fixes more bits, and none before it fixes as many. */
  ghost predicate Wins(records: seq<Record>, k: int, w: Word) {
    && 0 <= k < |records| && Satisfies(w, records[k])
    && forall j :: 0 <= j < |records| && Satisfies(w, records[j]) ==>
      NoMoreBits(records[j], records[k]) && (j < k ==> !NoMoreBits(records[k], records[j]))
  }

  /** Whenever building ends, the tree answers a word with the satisfied pattern that fixes
      the most bits, the first one of these. */
  lemma MostBitsWin(records: seq<Record>, depth: nat, w: Word)
    requires records != [] && SomeSatisfied(records, w) && Build(InitialList(records), depth).Some?
    ensures var t := Build(InitialList(records), depth).value;
      TreeOk(t) && exists k :: Wins(records, k, w) && Eval(t, w) == records[k].index
  {
    hide Build, Eval, TreeOk, Satisfies, Rank, NoMoreBits;
    TreeRefinesSearch(records, depth, w);
    var t := Build(InitialList(records), depth).value;
    var k :| MostSpecific(records, k, w) && Eval(t, w) == records[k].index;
    forall j | 0 <= j < |records| && Satisfies(w, records[j])
      ensures NoMoreBits(records[j], records[k]) && (j < k ==> !NoMoreBits(records[k], records[j]))
    {
      RankMeaning(records[j], records[k]);
      RankMeaning(records[k], records[j]);
    }
    assert Wins(records, k, w);
  }

  /** A pattern whose bits are some of those of another satisfied pattern is never the
      answer. */
  lemma MoreSpecificWins(records: seq<Record>, depth: nat, w: Word, i: nat, j: nat)
    requires i < |records| && j < |records| && Satisfies(w, records[i]) && Satisfies(w, records[j])
    requires forall m, n :: 0 <= m < n < |records| ==> records[m].index != records[n].index
    requires Subset(records[i].tmask, records[j].tmask) && records[i].tmask != records[j].tmask
    requires !IsZero(records[i].tmask) && Build(InitialList(records), depth).Some?
    ensures var t := Build(InitialList(records), depth).value;
      TreeOk(t) && Eval(t, w) != records[i].index
  {
    hide Build, Eval, TreeOk, Satisfies;
    assert SomeSatisfied(records, w);
    MostBitsWin(records, depth, w);
    var t := Build(InitialList(records), depth).value;
    var k :| Wins(records, k, w) && Eval(t, w) == records[k].index;
    SetBitsSubset(records[i].tmask, records[j].tmask);
    var b :| 0 <= b < 64 && records[i].tmask[b];
    assert b in SetBits(records[i].tmask);
    assert !NoMoreBits(records[j], records[i]);
  }

  // ----- how a record enters -----

  lemma {:induction false} ConstraintBitsMeaning(cnsts: seq<Constraint>, i: nat)
    requires i < 64
    ensures ConstraintBits(cnsts)[i] <==> exists c :: c in cnsts && c.mask[i]
  {
    if cnsts != [] {
      ConstraintBitsMeaning(cnsts[1..], i);
      assert forall c :: c in cnsts <==> c == cnsts[0] || c in cnsts[1..];
    }
  }

  /** Everything a record fixes is undecided at first: its mask and the bits of all of its
      constraints. */
  lemma InitialMeaning(records: seq<Record>, k: nat)
    requires k < |records|
    ensures var e := InitialList(records)[k];
      e.data == records[k] && e.mask == records[k].mask
      && forall i :: 0 <= i < 64 ==> (e.cmask[i] <==> exists c :: c in records[k].cnsts && c.mask[i])
  {
    forall i | 0 <= i < 64
      ensures InitialList(records)[k].cmask[i] <==> exists c :: c in records[k].cnsts && c.mask[i]
    {
      ConstraintBitsMeaning(records[k].cnsts, i);
    }
  }

  // ----- when a switch is built -----

  /** The opcodes of the list under a mask. */
  function Values(list: seq<Entry>, mask: Word): set<Word> {
    set e | e in list :: And(e.data.opcode, mask)
  }

  lemma {:induction false} CaseValuesMeaning(list: seq<Entry>, mask: Word, byte: nat)
    requires 1 <= byte <= 8
    ensures forall e :: e in list ==> SwitchValue(e.data.opcode, mask, byte) in CaseValues(list, mask, byte)
    ensures forall v :: v in CaseValues(list, mask, byte) ==>
      exists e :: e in list && v == SwitchValue(e.data.opcode, mask, byte)
  {
    hide SwitchValue;
    if list != [] {
      var n := |list| - 1;
      CaseValuesMeaning(list[..n], mask, byte);
      assert forall e :: e in list[..n] ==> e in list;
      assert list[n] in list;
      assert forall e :: e in list ==> e in list[..n] || e == list[n];
    }
  }

  lemma {:induction false} SameCount(list: seq<Entry>, mask: Word, byte: nat)
    requires 1 <= byte <= 8 && WithinByte(mask, byte)
    ensures |CaseValues(list, mask, byte)| == |Values(list, mask)|
  {
    hide SwitchValue, WithinByte, Values;
    if list == [] {
      NoValues(mask);
    } else {
      var n := |list| - 1;
      SameCount(list[..n], mask, byte);
      CaseValuesMeaning(list[..n], mask, byte);
      NewValue(list[..n], list[n], mask, byte);
      OneMoreValue(list, mask, byte);
      hide CaseValues;
      OneMore(CaseValues(list[..n], mask, byte), SwitchValue(list[n].data.opcode, mask, byte));
      OneMore(Values(list[..n], mask), And(list[n].data.opcode, mask));
    }
  }

  lemma NoValues(mask: Word)
    ensures Values([], mask) == {} && forall byte: nat :: 1 <= byte <= 8 ==> CaseValues([], mask, byte) == {}
  {
  }

  lemma OneMoreValue(list: seq<Entry>, mask: Word, byte: nat)
    requires list != [] && 1 <= byte <= 8
    ensures CaseValues(list, mask, byte)
      == CaseValues(list[..|list| - 1], mask, byte) + {SwitchValue(list[|list| - 1].data.opcode, mask, byte)}
    ensures Values(list, mask) == Values(list[..|list| - 1], mask) + {And(list[|list| - 1].data.opcode, mask)}
  {
    var n := |list| - 1;
    assert forall e :: e in list <==> e in list[..n] || e == list[n];
  }

  lemma NewValue(list: seq<Entry>, e: Entry, mask: Word, byte: nat)
    requires 1 <= byte <= 8 && WithinByte(mask, byte)
    requires forall o :: o in list ==> SwitchValue(o.data.opcode, mask, byte) in CaseValues(list, mask, byte)
    requires forall v :: v in CaseValues(list, mask, byte) ==>
      exists o :: o in list && v == SwitchValue(o.data.opcode, mask, byte)
    ensures SwitchValue(e.data.opcode, mask, byte) in CaseValues(list, mask, byte)
      <==> And(e.data.opcode, mask) in Values(list, mask)
  {
    hide WithinByte, CaseValues;
    if SwitchValue(e.data.opcode, mask, byte) in CaseValues(list, mask, byte) {
      var o :| o in list && SwitchValue(e.data.opcode, mask, byte) == SwitchValue(o.data.opcode, mask, byte);
      DecisionTreePaths.SwitchAgrees(e.data.opcode, o.data.opcode, mask, byte);
    }
  }

  lemma BlessedByteMeaning(mask: Word)
    requires !IsZero(mask)
    ensures BlessedByte(mask) != 0 <==> exists b: nat :: 1 <= b <= 8 && WithinByte(mask, b)
    ensures BlessedByte(mask) != 0 ==> WithinByte(mask, BlessedByte(mask))
  {
  }

  predicate InByte(bits: set<nat>, b: nat) {
    forall i :: i in bits ==> 8 * b - 8 <= i < 8 * b
  }

  lemma WithinMeans(mask: Word, b: nat)
    requires b >= 1
    ensures WithinByte(mask, b) <==> InByte(SetBits(mask), b)
  {
    if InByte(SetBits(mask), b) {
      forall i | 0 <= i < 64 && mask[i]
        ensures 8 * (b - 1) <= i < 8 * b
      {
        assert i in SetBits(mask);
      }
    }
  }

  /** Two bits at least, all in one byte, and 3 to 400 different values. */
  ghost predicate WorthSwitching(list: seq<Entry>, mask: Word) {
    && |SetBits(mask)| >= 2
    && (exists b: nat :: 1 <= b <= 8 && InByte(SetBits(mask), b))
    && 3 <= |Values(list, mask)| <= 400
  }

  lemma SwitchExactly(list: seq<Entry>, depth: nat)
    requires list != [] && !IsZero(EffectiveMask(list)) && Build(list, depth).Some?
    ensures WorthSwitching(list, EffectiveMask(list)) ==> Build(list, depth).value.Switch?
    ensures SwitchApplies(list, EffectiveMask(list)) <==> WorthSwitching(list, EffectiveMask(list))
  {
    hide EffectiveMask, BuildCases, BuildIf, Terminal, CaseValues, MinValue, Values;
    hide SetBits, WithinByte, InByte, Popcount, BlessedByte;
    var mask := EffectiveMask(list);
    CountsPositions(mask);
    BlessedByteMeaning(mask);
    forall b: nat | 1 <= b <= 8
      ensures WithinByte(mask, b) <==> InByte(SetBits(mask), b)
    {
      WithinMeans(mask, b);
    }
    if BlessedByte(mask) != 0 {
      SameCount(list, mask, BlessedByte(mask));
    }
  }

  // ----- which constraint is tested -----

  predicate IsPending(e: Entry) {
    !IsZero(e.cmask)
  }

  /** Bit `i` is pending in every entry that has anything pending. */
  predicate PendingInAll(list: seq<Entry>, i: nat)
    requires i < 64
  {
    forall e :: e in list && IsPending(e) ==> e.cmask[i]
  }

  /** The bits a constraint is looked for in: those pending everywhere or, when there are
      none, those of the last entry with any pending. */
  ghost predicate SearchMask(list: seq<Entry>, m: Word) {
    if exists i :: 0 <= i < 64 && PendingInAll(list, i) then
      forall i :: 0 <= i < 64 ==> m[i] == PendingInAll(list, i)
    else
      exists k :: LastPending(list, k) && m == list[k].cmask
  }

  predicate NonePending(list: seq<Entry>) {
    forall e :: e in list ==> !IsPending(e)
  }

  lemma {:induction false} CommonlyPending(list: seq<Entry>)
    ensures forall i :: 0 <= i < 64 ==> GatherMasks(list).gmask[i] == PendingInAll(list, i)
  {
    if list != [] {
      var n := |list| - 1;
      CommonlyPending(list[..n]);
      assert forall e :: e in list <==> e in list[..n] || e == list[n];
    }
  }

  ghost predicate LastPending(list: seq<Entry>, k: int) {
    0 <= k < |list| && IsPending(list[k]) && NonePending(list[k + 1..])
  }

  lemma {:induction false} LastlyPending(list: seq<Entry>)
    ensures !NonePending(list) ==> exists k :: LastPending(list, k) && GatherMasks(list).lmask == list[k].cmask
  {
    hide IsZero;
    if list != [] {
      var n := |list| - 1;
      var init := list[..n];
      LastlyPending(init);
      assert forall e :: e in list <==> e in init || e == list[n];
      if IsPending(list[n]) {
        assert list[n + 1..] == [];
        assert LastPending(list, n);
      } else if !NonePending(init) {
        var k :| LastPending(init, k) && GatherMasks(init).lmask == init[k].cmask;
        assert list[k + 1..] == init[k + 1..] + [list[n]];
        assert LastPending(list, k);
      }
    }
  }

  /** `c` is the first constraint of an entry that looks only inside `m`. */
  ghost predicate FirstInside(cnsts: seq<Constraint>, m: Word, c: Constraint) {
    exists j :: 0 <= j < |cnsts| && cnsts[j] == c && Subset(c.mask, m) && NoneInside(cnsts[..j], m)
  }

  predicate NoneInside(cnsts: seq<Constraint>, m: Word) {
    forall c :: c in cnsts ==> !Subset(c.mask, m)
  }

  lemma InsideMeans(c: Constraint, m: Word)
    ensures And(m, c.mask) == c.mask <==> Subset(c.mask, m)
  {
    if And(m, c.mask) == c.mask {
      forall i | 0 <= i < 64 && c.mask[i]
        ensures m[i]
      {
        assert And(m, c.mask)[i];
      }
    }
  }

  lemma {:induction false} FirstWithinMeaning(cnsts: seq<Constraint>, m: Word)
    ensures match FirstWithin(cnsts, m)
      case None => NoneInside(cnsts, m)
      case Some(c) => FirstInside(cnsts, m, c)
  {
    hide Subset, FirstInside, NoneInside;
    if cnsts == [] {
      NothingInside(m);
    } else {
      InsideMeans(cnsts[0], m);
      FirstWithinMeaning(cnsts[1..], m);
      if Subset(cnsts[0].mask, m) {
        InsideHead(cnsts, m);
      } else {
        InsideTail(cnsts, m, FirstWithin(cnsts, m));
      }
    }
  }

  lemma NothingInside(m: Word)
    ensures NoneInside([], m)
  {
  }

  lemma InsideHead(cnsts: seq<Constraint>, m: Word)
    requires cnsts != [] && Subset(cnsts[0].mask, m)
    ensures FirstInside(cnsts, m, cnsts[0])
  {
    assert cnsts[..0] == [];
  }

  lemma InsideTail(cnsts: seq<Constraint>, m: Word, found: Option<Constraint>)
    requires cnsts != [] && !Subset(cnsts[0].mask, m)
    ensures NoneInside(cnsts[1..], m) ==> NoneInside(cnsts, m)
    ensures found.Some? && FirstInside(cnsts[1..], m, found.value) ==> FirstInside(cnsts, m, found.value)
  {
    hide Subset;
    var rest := cnsts[1..];
    assert cnsts == [cnsts[0]] + rest;
    if found.Some? && FirstInside(rest, m, found.value) {
      var j :| 0 <= j < |rest| && rest[j] == found.value && Subset(found.value.mask, m) && NoneInside(rest[..j], m);
      assert cnsts[..j + 1] == [cnsts[0]] + rest[..j] && cnsts[j + 1] == found.value;
    }
  }

  /** No pending entry has a constraint inside `m`. */
  predicate NoneLooksInside(list: seq<Entry>, m: Word) {
    forall e :: e in list && IsPending(e) ==> NoneInside(e.data.cnsts, m)
  }

  /** The first pending entry with a constraint inside `m` has `c` for its first. */
  ghost predicate FirstOwned(list: seq<Entry>, m: Word, c: Constraint) {
    exists k :: 0 <= k < |list| && IsPending(list[k]) && FirstInside(list[k].data.cnsts, m, c)
      && NoneLooksInside(list[..k], m)
  }

  lemma {:induction false} FirstOwnedMeaning(list: seq<Entry>, m: Word)
    ensures match FirstNodeConstraint(list, m)
      case None => NoneLooksInside(list, m)
      case Some(c) => FirstOwned(list, m, c)
  {
    hide FirstWithin, NoneInside, FirstInside, IsZero;
    if list != [] {
      var rest := list[1..];
      FirstWithinMeaning(list[0].data.cnsts, m);
      FirstOwnedMeaning(rest, m);
      assert list == [list[0]] + rest;
      var found := FirstNodeConstraint(list, m);
      if NodeConstraint(list[0], m).Some? {
        assert list[..0] == [];
        assert FirstOwned(list, m, found.value);
      } else if found.Some? {
        var k :| 0 <= k < |rest| && IsPending(rest[k]) && FirstInside(rest[k].data.cnsts, m, found.value)
          && NoneLooksInside(rest[..k], m);
        assert list[..k + 1] == [list[0]] + rest[..k] && list[k + 1] == rest[k];
      }
    }
  }

  /** Nothing is tested when nothing is pending; else the first constraint that looks only
      inside the search mask, in the order of the list and of the entry's constraints. */
  lemma GlobalConstraintMeaning(list: seq<Entry>, m: Word)
    ensures NonePending(list) ==> GlobalConstraint(list).None?
    ensures !NonePending(list) && SearchMask(list, m) && m != Ones(64) ==>
      match GlobalConstraint(list)
      case None => NoneLooksInside(list, m)
      case Some(c) => FirstOwned(list, m, c)
  {
    hide NoneLooksInside, FirstOwned, FirstNodeConstraint, PendingInAll, IsPending;
    FirstOwnedMeaning(list, m);
    if NonePending(list) {
      NothingIsPending(list);
    }
    if !NonePending(list) && SearchMask(list, m) && m != Ones(64) {
      SearchMaskIs(list, m);
    }
  }

  lemma SearchMaskIs(list: seq<Entry>, m: Word)
    requires !NonePending(list) && SearchMask(list, m)
    ensures var g := GatherMasks(list);
      m == (if IsZero(g.gmask) then g.lmask else g.gmask) && !IsZero(m)
  {
    hide PendingInAll, GatherMasks, NonePending;
    CommonlyPending(list);
    LastlyPending(list);
    var g := GatherMasks(list);
    if i :| 0 <= i < 64 && PendingInAll(list, i) {
      assert g.gmask[i] && m[i];
      assert m == g.gmask;
    } else {
      var k :| LastPending(list, k) && m == list[k].cmask;
      var l :| LastPending(list, l) && g.lmask == list[l].cmask;
      LastIsOne(list, k, l);
    }
  }

  lemma LastIsOne(list: seq<Entry>, k: nat, l: nat)
    requires LastPending(list, k) && LastPending(list, l)
    ensures k == l
  {
    forall i | k < i < |list|
      ensures !IsPending(list[i])
    {
      assert list[k + 1..][i - k - 1] == list[i];
    }
    forall i | l < i < |list|
      ensures !IsPending(list[i])
    {
      assert list[l + 1..][i - l - 1] == list[i];
    }
  }

  lemma NothingIsPending(list: seq<Entry>)
    requires NonePending(list)
    ensures GlobalConstraint(list).None?
  {
    CommonlyPending(list);
    assert GatherMasks(list).gmask == Ones(64);
    assert Ones(64)[0];
  }
}
