/** The builder as it works in place: linked nodes whose masks are overwritten and
    whose `next` links are rewired, proved to build what the functions on lists do. */
module DecisionTreeNodes {
  import opened Bits
  import opened Wrappers
  import opened DecisionTree
  import DecisionTreeSearch

  class Node {
    const data: Record
    var mask: Word
    var cmask: Word
    var next: Node?

    constructor (data: Record, mask: Word, cmask: Word)
      ensures this.data == data && this.mask == mask && this.cmask == cmask && next == null
    {
      this.data, this.mask, this.cmask, this.next := data, mask, cmask, null;
    }

    function Value(): Entry
      reads this`mask, this`cmask
    {
      Entry(data, mask, cmask)
    }
  }

  function NodeRank(n: Node): nat {
    Rank(n.data)
  }

  ghost function Nodes(list: seq<Node>): set<Node> {
    set n | n in list
  }

  ghost predicate Distinct(list: seq<Node>) {
    forall i, j :: 0 <= i < j < |list| ==> list[i] != list[j]
  }

  ghost function At(list: seq<Node>, i: nat): Node? {
    if i < |list| then list[i] else null
  }

  /** The nodes of `list`, linked in this order and ended by null. */
  ghost predicate Chain(list: seq<Node>)
    reads Nodes(list)`next
  {
    Distinct(list) && forall i :: 0 <= i < |list| ==> list[i].next == At(list, i + 1)
  }

  ghost function Contents(list: seq<Node>): (r: seq<Entry>)
    reads Nodes(list)`mask, Nodes(list)`cmask
    ensures |r| == |list|
  {
    if list == [] then [] else Contents(list[..|list| - 1]) + [list[|list| - 1].Value()]
  }

  lemma {:induction false} ContentsAt(list: seq<Node>)
    ensures forall i :: 0 <= i < |list| ==> Contents(list)[i] == list[i].Value()
  {
    if list != [] {
      ContentsAt(list[..|list| - 1]);
    }
  }

  lemma ContentsLast(list: seq<Node>, n: Node)
    ensures Contents(list + [n]) == Contents(list) + [n.Value()]
  {
    assert (list + [n])[..|list|] == list;
  }

  ghost predicate Apart(a: seq<Node>, b: seq<Node>) {
    Nodes(a) !! Nodes(b)
  }

  ghost predicate Within(a: seq<Node>, b: seq<Node>) {
    Nodes(a) <= Nodes(b)
  }

  /** What is left to walk: `entry` heads `rest`, after the entries `done` of `before`. */
  ghost predicate Walk(entry: Node?, rest: seq<Node>, done: seq<Entry>, before: seq<Entry>)
    reads Nodes(rest)
  {
    Chain(rest) && entry == At(rest, 0) && done + Contents(rest) == before
  }

  /** A list under construction: its nodes, its first and last node, its contents. */
  ghost predicate Grown(nodes: seq<Node>, head: Node?, tail: Node?, contents: seq<Entry>)
    reads Nodes(nodes)
  {
    Chain(nodes) && head == At(nodes, 0) && tail == (if nodes == [] then null else nodes[|nodes| - 1])
    && Contents(nodes) == contents
  }

  lemma Start(list: seq<Node>)
    requires list != [] && Chain(list)
    ensures Walk(list[0], list, [], Contents(list)) && Grown([], null, null, []) && Nodes([]) == {}
  {
  }

  lemma ChainTail(chain: seq<Node>)
    requires chain != [] && Chain(chain)
    ensures Chain(chain[1..]) && chain[0].next == At(chain[1..], 0)
    ensures chain[0] !in Nodes(chain[1..]) && Nodes(chain) == {chain[0]} + Nodes(chain[1..])
  {
    var tail := chain[1..];
    forall k | 0 <= k < |tail|
      ensures tail[k].next == At(tail, k + 1) && tail[k] != chain[0]
    {
      assert tail[k] == chain[k + 1];
    }
    assert chain[0].next == At(chain, 1);
    assert chain == [chain[0]] + tail;
  }

  lemma {:induction false} ContentsCons(n: Node, list: seq<Node>)
    ensures Contents([n] + list) == [n.Value()] + Contents(list)
  {
    ContentsAt([n] + list);
    ContentsAt(list);
  }

  /** One node further: `$entry = $entry->{next}`. */
  lemma Advance(entry: Node, rest: seq<Node>, done: seq<Entry>, before: seq<Entry>)
    requires Walk(entry, rest, done, before)
    ensures rest != [] && Walk(entry.next, rest[1..], done + [entry.Value()], before)
    ensures entry !in Nodes(rest[1..]) && Nodes(rest) == {entry} + Nodes(rest[1..])
  {
    hide Chain, Distinct, Contents;
    ChainTail(rest);
    ContentsCons(entry, rest[1..]);
    assert rest == [entry] + rest[1..];
  }

  lemma Finish(rest: seq<Node>, done: seq<Entry>, before: seq<Entry>)
    requires Walk(null, rest, done, before)
    ensures rest == [] && done == before
  {
    assert done + [] == done;
  }

  lemma Complete(nodes: seq<Node>, head: Node?, tail: Node?, contents: seq<Entry>)
    requires Grown(nodes, head, tail, contents)
    ensures Chain(nodes) && head == At(nodes, 0) && Contents(nodes) == contents
  {
  }

  /** `$append`: put a node at the end of a list. */
  method Append(head: Node?, tail: Node?, src: Node, ghost nodes: seq<Node>, ghost contents: seq<Entry>)
      returns (first: Node, last: Node)
    requires Grown(nodes, head, tail, contents) && src !in Nodes(nodes)
    modifies src`next, Nodes(nodes)`next
    ensures Grown(nodes + [src], first, last, contents + [src.Value()])
    ensures Nodes(nodes + [src]) == Nodes(nodes) + {src}
  {
    src.next := null;
    if head == null {
      first, last := src, src;
    } else {
      first := head;
      tail.next := src;
      last := src;
    }
    ContentsLast(nodes, src);
  }

  // ----- loops that only read -----

  /** `get_effective_mask`. */
  method GetEffectiveMask(node: Node, ghost list: seq<Node>) returns (mask: Word)
    requires list != [] && node == list[0] && Chain(list)
    ensures mask == EffectiveMask(Contents(list))
  {
    var entry: Node? := node;
    mask := Ones(64);
    var zero: Word, one: Word := Ones(64), Ones(64);
    ghost var i := 0;
    ContentsAt(list);
    while entry != null
      invariant i <= |list| && entry == At(list, i)
      invariant Scan(mask, zero, one) == ScanList(Contents(list)[..i])
      decreases |list| - i
    {
      assert entry == list[i] && list[i].next == At(list, i + 1);
      assert Contents(list)[..i + 1][..i] == Contents(list)[..i];
      mask := And(mask, entry.mask);
      var value := And(entry.data.opcode, mask);
      one := And(one, value);
      zero := And(zero, And(Not(value), mask));
      entry := entry.next;
      i := i + 1;
    }
    assert Contents(list)[..i] == Contents(list);
    var imask := Or(one, zero);
    mask := Xor(mask, imask);
  }

  /** The loop of `divide_tree_using_if` that ands the masks. */
  method AndMasks(node: Node, ghost list: seq<Node>) returns (mask: Word)
    requires list != [] && node == list[0] && Chain(list)
    ensures mask == Common(Contents(list))
  {
    var entry: Node? := node;
    mask := Ones(64);
    ghost var i := 0;
    ContentsAt(list);
    while entry != null
      invariant i <= |list| && entry == At(list, i)
      invariant mask == Common(Contents(list)[..i])
      decreases |list| - i
    {
      assert entry == list[i] && list[i].next == At(list, i + 1);
      assert Contents(list)[..i + 1][..i] == Contents(list)[..i];
      mask := And(mask, entry.mask);
      entry := entry.next;
      i := i + 1;
    }
    assert Contents(list)[..i] == Contents(list);
  }

  // ----- one bit -----

  lemma BitListLast(done: seq<Entry>, e: Entry, bit: nat)
    requires bit < 64
    ensures var v := e.data.opcode[bit];
      BitList(done + [e], bit, v) == BitList(done, bit, v) + [StripEntry(e, BitMask(bit))]
      && BitList(done + [e], bit, !v) == BitList(done, bit, !v)
  {
    assert (done + [e])[..|done|] == done;
  }

  /** The relinking loop of `divide_tree_using_if`. */
  method SplitByBit(node: Node, ghost list: seq<Node>, bit: nat)
      returns (zeros: Node?, ones: Node?, ghost zs: seq<Node>, ghost os: seq<Node>)
    requires list != [] && node == list[0] && Chain(list) && bit < 64
    modifies Nodes(list)
    ensures Chain(zs) && Contents(zs) == BitList(old(Contents(list)), bit, false) && zeros == At(zs, 0)
    ensures Chain(os) && Contents(os) == BitList(old(Contents(list)), bit, true) && ones == At(os, 0)
    ensures Apart(zs, os) && Within(zs, list) && Within(os, list)
  {
    hide Walk, Grown, Chain, Distinct, Contents, BitList;
    var bitmask := BitMask(bit);
    var node0: Node?, node1: Node? := null, null;
    ghost var before := Contents(list);
    var entry: Node? := node;
    ghost var done, rest := [], list;
    zeros, ones, zs, os := null, null, [], [];
    Start(list);
    BitListEmpty(bit);
    while entry != null
      invariant Walk(entry, rest, done, before)
      invariant Grown(zs, zeros, node0, BitList(done, bit, false))
      invariant Grown(os, ones, node1, BitList(done, bit, true))
      invariant Apart(zs, os) && Apart(rest, zs) && Apart(rest, os)
      invariant Within(zs, list) && Within(os, list) && Within(rest, list)
      decreases |rest|
    {
      var current := entry;
      Advance(current, rest, done, before);
      BitListLast(done, current.Value(), bit);
      ghost var done0, done1 := BitList(done, bit, false), BitList(done, bit, true);
      entry, rest, done := entry.next, rest[1..], done + [current.Value()];
      current.mask := And(current.mask, Not(bitmask));
      if current.data.opcode[bit] {
        ones, node1 := Append(ones, node1, current, os, done1);
        os := os + [current];
      } else {
        zeros, node0 := Append(zeros, node0, current, zs, done0);
        zs := zs + [current];
      }
    }
    Finish(rest, done, before);
    Complete(zs, zeros, node0, BitList(before, bit, false));
    Complete(os, ones, node1, BitList(before, bit, true));
  }

  lemma BitListEmpty(bit: nat)
    requires bit < 64
    ensures BitList([], bit, false) == [] && BitList([], bit, true) == []
  {
  }

  // ----- one byte -----

  lemma CaseListLast(done: seq<Entry>, e: Entry, mask: Word, byte: nat)
    requires 1 <= byte <= 8
    ensures var v := SwitchValue(e.data.opcode, mask, byte);
      CaseList(done + [e], mask, byte, v) == CaseList(done, mask, byte, v) + [StripEntry(e, mask)]
  {
    assert (done + [e])[..|done|] == done;
  }

  lemma CaseListOther(done: seq<Entry>, e: Entry, mask: Word, byte: nat, u: int)
    requires 1 <= byte <= 8 && u != SwitchValue(e.data.opcode, mask, byte)
    ensures CaseList(done + [e], mask, byte, u) == CaseList(done, mask, byte, u)
  {
    assert (done + [e])[..|done|] == done;
  }

  ghost predicate AllAt(nodes: seq<Node>, mask: Word, byte: nat, value: int)
    requires 1 <= byte <= 8
  {
    forall n :: n in Nodes(nodes) ==> SwitchValue(n.data.opcode, mask, byte) == value
  }

  lemma CasesApart(a: seq<Node>, b: seq<Node>, mask: Word, byte: nat, u: int, v: int)
    requires 1 <= byte <= 8 && AllAt(a, mask, byte, u) && AllAt(b, mask, byte, v) && u != v
    ensures Apart(a, b)
  {
  }

  /** The entries that belong under a key. */
  function KeyList(done: seq<Entry>, mask: Word, byte: nat, min: nat, key: int): seq<Entry>
    requires 1 <= byte <= 8
  {
    CaseList(done, mask, byte, key + min)
  }

  /** The list of one key, over nodes of its own. */
  ghost predicate Slot(nodes: seq<Node>, head: Node?, tail: Node?, done: seq<Entry>, mask: Word, byte: nat, min: nat,
                       key: int)
    requires 1 <= byte <= 8
    reads Nodes(nodes)
  {
    Grown(nodes, head, tail, KeyList(done, mask, byte, min, key)) && AllAt(nodes, mask, byte, key + min)
  }

  /** The lists of all cases under construction, one per key, over the nodes `placed`. */
  ghost predicate Table(heads: map<int, Node>, tails: map<int, Node>, lists: map<int, seq<Node>>, placed: set<Node>,
                        done: seq<Entry>, mask: Word, byte: nat, min: nat)
    requires 1 <= byte <= 8
    reads placed
  {
    heads.Keys == tails.Keys == lists.Keys
    && (forall k :: k in lists ==>
      Nodes(lists[k]) <= placed && Slot(lists[k], heads[k], tails[k], done, mask, byte, min, k))
    && (forall k :: k in lists <==> KeyList(done, mask, byte, min, k) != [])
  }

  lemma SlotsApart(a: seq<Node>, b: seq<Node>, headA: Node?, tailA: Node?, headB: Node?, tailB: Node?,
                   done: seq<Entry>, mask: Word, byte: nat, min: nat, j: int, k: int)
    requires 1 <= byte <= 8 && j != k
    requires Slot(a, headA, tailA, done, mask, byte, min, j) && Slot(b, headB, tailB, done, mask, byte, min, k)
    ensures Apart(a, b)
  {
    hide Grown, AllAt, KeyList;
    CasesApart(a, b, mask, byte, j + min, k + min);
  }

  /** An entry joins the list of its own key only. */
  lemma KeyListStep(done: seq<Entry>, e: Entry, mask: Word, byte: nat, min: nat, key: int)
    requires 1 <= byte <= 8 && key == SwitchValue(e.data.opcode, mask, byte) - min
    ensures KeyList(done + [e], mask, byte, min, key) == KeyList(done, mask, byte, min, key) + [StripEntry(e, mask)]
    ensures forall k :: k != key ==> KeyList(done + [e], mask, byte, min, k) == KeyList(done, mask, byte, min, k)
  {
    hide CaseList, SwitchValue;
    CaseListLast(done, e, mask, byte);
    forall k | k != key
      ensures KeyList(done + [e], mask, byte, min, k) == KeyList(done, mask, byte, min, k)
    {
      CaseListOther(done, e, mask, byte, k + min);
    }
  }

  /** The list so far of a key, with its two ends. */
  method FindSlot(heads: map<int, Node>, tails: map<int, Node>, ghost lists: map<int, seq<Node>>, ghost placed: set<Node>,
                  ghost done: seq<Entry>, mask: Word, byte: nat, min: nat, key: int)
      returns (head: Node?, tail: Node?, ghost nodes: seq<Node>)
    requires 1 <= byte <= 8 && Table(heads, tails, lists, placed, done, mask, byte, min)
    ensures Slot(nodes, head, tail, done, mask, byte, min, key) && Nodes(nodes) <= placed
    ensures forall k :: k in lists && k != key ==> Apart(lists[k], nodes)
  {
    hide KeyList, Slot, Apart;
    head := if key in heads then heads[key] else null;
    tail := if key in tails then tails[key] else null;
    nodes := if key in lists then lists[key] else [];
    EmptySlot(done, mask, byte, min, key);
    forall k | k in lists && k != key
      ensures Apart(lists[k], nodes)
    {
      SlotsApart(lists[k], nodes, heads[k], tails[k], head, tail, done, mask, byte, min, k, key);
    }
  }

  lemma EmptySlot(done: seq<Entry>, mask: Word, byte: nat, min: nat, key: int)
    requires 1 <= byte <= 8
    ensures KeyList(done, mask, byte, min, key) == [] ==> Slot([], null, null, done, mask, byte, min, key)
    ensures Nodes([]) == {}
  {
    EmptyGrown();
  }

  method Put(heads: map<int, Node>, tails: map<int, Node>, ghost lists: map<int, seq<Node>>, ghost placed: set<Node>,
             tmp: Node, ghost done: seq<Entry>, ghost e: Entry, mask: Word, byte: nat, min: nat)
      returns (heads': map<int, Node>, tails': map<int, Node>, ghost lists': map<int, seq<Node>>)
    requires 1 <= byte <= 8 && Table(heads, tails, lists, placed, done, mask, byte, min)
    requires tmp !in placed && tmp.data == e.data && tmp.Value() == StripEntry(e, mask)
    modifies tmp`next, placed`next
    ensures Table(heads', tails', lists', placed + {tmp}, done + [e], mask, byte, min)
  {
    hide KeyList, Slot, SwitchValue, StripEntry;
    var key := SwitchValue(tmp.data.opcode, mask, byte) - min;
    var head, tail;
    ghost var nodes;
    head, tail, nodes := FindSlot(heads, tails, lists, placed, done, mask, byte, min, key);
    KeyListStep(done, e, mask, byte, min, key);
    var first, last := AppendTo(head, tail, tmp, nodes, done, e, mask, byte, min, key);
    heads', tails', lists' := heads[key := first], tails[key := last], lists[key := nodes + [tmp]];
    forall k | k in lists'
      ensures Nodes(lists'[k]) <= placed + {tmp}
      ensures Slot(lists'[k], heads'[k], tails'[k], done + [e], mask, byte, min, k)
    {
      if k != key {
        SlotKept(lists[k], heads[k], tails[k], done, e, mask, byte, min, k);
      }
    }
  }

  lemma SlotKept(nodes: seq<Node>, head: Node?, tail: Node?, done: seq<Entry>, e: Entry, mask: Word, byte: nat, min: nat,
                 key: int)
    requires 1 <= byte <= 8 && Slot(nodes, head, tail, done, mask, byte, min, key)
    requires KeyList(done + [e], mask, byte, min, key) == KeyList(done, mask, byte, min, key)
    ensures Slot(nodes, head, tail, done + [e], mask, byte, min, key)
  {
    hide Grown, KeyList, AllAt;
  }

  method AppendTo(head: Node?, tail: Node?, tmp: Node, ghost nodes: seq<Node>, ghost done: seq<Entry>, ghost e: Entry,
                  mask: Word, byte: nat, min: nat, key: int)
      returns (first: Node, last: Node)
    requires 1 <= byte <= 8 && Slot(nodes, head, tail, done, mask, byte, min, key) && tmp !in Nodes(nodes)
    requires tmp.data == e.data && tmp.Value() == StripEntry(e, mask)
    requires key == SwitchValue(e.data.opcode, mask, byte) - min
    modifies tmp`next, Nodes(nodes)`next
    ensures Slot(nodes + [tmp], first, last, done + [e], mask, byte, min, key)
    ensures Nodes(nodes + [tmp]) == Nodes(nodes) + {tmp}
  {
    hide Grown, KeyList, SwitchValue, StripEntry;
    KeyListStep(done, e, mask, byte, min, key);
    first, last := Append(head, tail, tmp, nodes, KeyList(done, mask, byte, min, key));
  }

  lemma EmptyGrown()
    ensures Grown([], null, null, []) && Nodes([]) == {}
  {
  }

  /** The relinking loop of `divide_tree_using_switch`: `heads` is `$case`, `tails` is `$nexts`. */
  method SplitByValue(node: Node, ghost list: seq<Node>, mask: Word, byte: nat, min: nat)
      returns (heads: map<int, Node>, ghost lists: map<int, seq<Node>>)
    requires list != [] && node == list[0] && Chain(list) && 1 <= byte <= 8
    modifies Nodes(list)
    ensures Cases(heads, lists, Nodes(list), old(Contents(list)), mask, byte, min)
  {
    hide Walk, Grown, Chain, Distinct, Contents, CaseList, Table;
    var tails: map<int, Node> := map[];
    ghost var before := Contents(list);
    ghost var placed: set<Node> := {};
    var entry: Node? := node;
    ghost var done, rest := [], list;
    heads, lists := map[], map[];
    Start(list);
    EmptyTable(mask, byte, min);
    while entry != null
      invariant Walk(entry, rest, done, before) && Within(rest, list)
      invariant placed <= Nodes(list) && Nodes(rest) !! placed
      invariant Table(heads, tails, lists, placed, done, mask, byte, min)
      decreases |rest|
    {
      var tmp := entry;
      Advance(tmp, rest, done, before);
      ghost var e, previous := tmp.Value(), done;
      entry, rest, done := entry.next, rest[1..], done + [tmp.Value()];
      assert tmp !in placed && tmp in Nodes(list);
      tmp.mask := And(tmp.mask, Not(mask));
      heads, tails, lists := Put(heads, tails, lists, placed, tmp, previous, e, mask, byte, min);
      placed := placed + {tmp};
    }
    Finish(rest, done, before);
    TableDone(heads, tails, lists, placed, before, mask, byte, min);
  }

  /** The finished lists: one per case value, sharing no node. */
  ghost predicate Cases(heads: map<int, Node>, lists: map<int, seq<Node>>, placed: set<Node>,
                        before: seq<Entry>, mask: Word, byte: nat, min: nat)
    requires 1 <= byte <= 8
    reads placed
  {
    heads.Keys == lists.Keys
    && (forall k :: k in lists ==>
      Nodes(lists[k]) <= placed && Chain(lists[k]) && heads[k] == At(lists[k], 0)
      && Contents(lists[k]) == CaseList(before, mask, byte, k + min))
    && (forall k :: k in lists ==> AllAt(lists[k], mask, byte, k + min))
    && (forall k :: k in lists <==> CaseList(before, mask, byte, k + min) != [])
  }

  lemma EmptyTable(mask: Word, byte: nat, min: nat)
    requires 1 <= byte <= 8
    ensures Table(map[], map[], map[], {}, [], mask, byte, min)
  {
  }

  lemma TableDone(heads: map<int, Node>, tails: map<int, Node>, lists: map<int, seq<Node>>, placed: set<Node>,
                  before: seq<Entry>, mask: Word, byte: nat, min: nat)
    requires 1 <= byte <= 8 && Table(heads, tails, lists, placed, before, mask, byte, min)
    ensures forall all :: placed <= all ==> Cases(heads, lists, all, before, mask, byte, min)
  {
    hide Chain, Contents, CaseList, Distinct;
    assert forall k :: CaseList(before, mask, byte, k + min) == KeyList(before, mask, byte, min, k);
  }

  // ----- constraints -----

  lemma ConstraintListLast(done: seq<Entry>, e: Entry, gc: Constraint)
    ensures forall other :: other != SideOf(e, gc) ==>
      ConstraintList(done + [e], gc, other) == ConstraintList(done, gc, other) + [Consume(e, gc)]
    ensures ConstraintList(done + [e], gc, SideOf(e, gc)) == ConstraintList(done, gc, SideOf(e, gc))
  {
    assert (done + [e])[..|done|] == done;
  }

  lemma ConstraintListEmpty(gc: Constraint)
    ensures ConstraintList([], gc, Yes) == [] && ConstraintList([], gc, No) == []
  {
  }

  /** The loop of `divide_cnsts`: entries the constraint does not decide are forked. */
  method SplitByConstraint(node: Node, ghost list: seq<Node>, gc: Constraint)
      returns (ncnode: Node?, cnode: Node?, ghost ns: seq<Node>, ghost cs: seq<Node>)
    requires list != [] && node == list[0] && Chain(list)
    modifies Nodes(list)
    ensures Chain(ns) && Contents(ns) == ConstraintList(old(Contents(list)), gc, Yes) && ncnode == At(ns, 0)
    ensures Chain(cs) && Contents(cs) == ConstraintList(old(Contents(list)), gc, No) && cnode == At(cs, 0)
    ensures Apart(ns, cs) && Within(ns, list) && fresh(Nodes(cs) - Nodes(list))
  {
    hide Walk, Grown, Chain, Distinct, Contents, ConstraintList;
    var ccurrent: Node?, nccurrent: Node? := null, null;
    ghost var before := Contents(list);
    var entry: Node? := node;
    ghost var done, rest := [], list;
    ncnode, cnode, ns, cs := null, null, [], [];
    Start(list);
    ConstraintListEmpty(gc);
    while entry != null
      invariant Walk(entry, rest, done, before)
      invariant Grown(ns, ncnode, nccurrent, ConstraintList(done, gc, Yes))
      invariant Grown(cs, cnode, ccurrent, ConstraintList(done, gc, No))
      invariant Apart(ns, cs) && Apart(rest, ns) && Apart(rest, cs)
      invariant Within(ns, list) && Within(rest, list) && fresh(Nodes(cs) - Nodes(list))
      decreases |rest|
    {
      var current := entry;
      Advance(current, rest, done, before);
      ConstraintListLast(done, current.Value(), gc);
      ghost var dn, dc := ConstraintList(done, gc, Yes), ConstraintList(done, gc, No);
      entry, rest, done := entry.next, rest[1..], done + [current.Value()];
      var constraint := NodeConstraint(current.Value(), gc.mask);
      if constraint == Some(gc) {
        current.cmask := And(current.cmask, Not(gc.mask));
        cnode, ccurrent := Append(cnode, ccurrent, current, cs, dc);
        cs := cs + [current];
      } else if And(current.mask, gc.mask) == gc.mask {
        if And(current.data.opcode, gc.mask) == gc.value {
          ncnode, nccurrent := Append(ncnode, nccurrent, current, ns, dn);
          ns := ns + [current];
        } else {
          cnode, ccurrent := Append(cnode, ccurrent, current, cs, dc);
          cs := cs + [current];
        }
      } else {
        var fork := new Node(current.data, current.mask, current.cmask);
        ncnode, nccurrent := Append(ncnode, nccurrent, current, ns, dn);
        ns := ns + [current];
        cnode, ccurrent := Append(cnode, ccurrent, fork, cs, dc);
        cs := cs + [fork];
      }
    }
    Finish(rest, done, before);
    Complete(ns, ncnode, nccurrent, ConstraintList(before, gc, Yes));
    Complete(cs, cnode, ccurrent, ConstraintList(before, gc, No));
  }

  /** `state_has_cnsts`. */
  method StateHasConstraints(node: Node, ghost list: seq<Node>) returns (has: bool)
    requires list != [] && node == list[0] && Chain(list)
    ensures has == HasConstraints(Contents(list))
  {
    ContentsAt(list);
    var entry: Node? := node;
    ghost var i := 0;
    while entry != null
      invariant i <= |list| && entry == At(list, i)
      invariant forall j :: 0 <= j < i ==> IsZero(list[j].cmask)
      decreases |list| - i
    {
      assert entry == list[i] && list[i].next == At(list, i + 1);
      if !IsZero(entry.cmask) {
        assert Contents(list)[i] == list[i].Value();
        return true;
      }
      entry := entry.next;
      i := i + 1;
    }
    return false;
  }

  lemma FirstNodeConstraintTail(entries: seq<Entry>, i: nat, mask: Word)
    requires i < |entries|
    ensures FirstNodeConstraint(entries[i..], mask) ==
      var c := NodeConstraint(entries[i], mask);
      if c.Some? then c else FirstNodeConstraint(entries[i + 1..], mask)
  {
    assert entries[i..][1..] == entries[i + 1..];
  }

  /** `get_global_constraint`. */
  method GetGlobalConstraint(node: Node, ghost list: seq<Node>) returns (c: Option<Constraint>)
    requires list != [] && node == list[0] && Chain(list)
    ensures c == GlobalConstraint(Contents(list))
  {
    hide Distinct, GatherMasks, FirstNodeConstraint, GlobalConstraint;
    ghost var entries := Contents(list);
    ContentsAt(list);
    var gmask: Word, lmask: Word := Ones(64), Ones(64);
    var entry: Node? := node;
    ghost var i := 0;
    GatherEmpty();
    while entry != null
      invariant i <= |list| && entry == At(list, i) && entries == Contents(list)
      invariant Gather(gmask, lmask) == GatherMasks(entries[..i])
      decreases |list| - i
    {
      assert entry == list[i] && list[i].next == At(list, i + 1);
      GatherLast(entries, i);
      if !IsZero(entry.cmask) {
        lmask := entry.cmask;
        gmask := And(gmask, lmask);
      }
      entry := entry.next;
      i := i + 1;
    }
    assert entries[..i] == entries;
    GlobalBy(entries, Gather(gmask, lmask));
    if IsZero(gmask) {
      gmask := lmask;
    }
    if gmask == Ones(64) || IsZero(gmask) {
      return None;
    }
    entry, i := node, 0;
    assert entries[0..] == entries;
    while entry != null
      invariant i <= |list| && entry == At(list, i) && entries == Contents(list)
      invariant FirstNodeConstraint(entries, gmask) == FirstNodeConstraint(entries[i..], gmask)
      decreases |list| - i
    {
      assert entry == list[i] && list[i].next == At(list, i + 1);
      FirstNodeConstraintTail(entries, i, gmask);
      c := NodeConstraint(entry.Value(), gmask);
      if c.Some? {
        return;
      }
      entry := entry.next;
      i := i + 1;
    }
    assert entries[i..] == [];
    GatherEmpty();
    return None;
  }

  lemma GlobalBy(entries: seq<Entry>, g: Gather)
    requires g == GatherMasks(entries)
    ensures var gmask := if IsZero(g.gmask) then g.lmask else g.gmask;
      GlobalConstraint(entries)
        == (if gmask == Ones(64) || IsZero(gmask) then None else FirstNodeConstraint(entries, gmask))
  {
  }

  lemma GatherEmpty()
    ensures GatherMasks([]) == Gather(Ones(64), Ones(64)) && forall m :: FirstNodeConstraint([], m).None?
  {
  }

  lemma GatherLast(entries: seq<Entry>, i: nat)
    requires i < |entries|
    ensures var g, e := GatherMasks(entries[..i]), entries[i];
      GatherMasks(entries[..i + 1]) == if IsZero(e.cmask) then g else Gather(And(g.gmask, e.cmask), e.cmask)
  {
    assert entries[..i + 1][..i] == entries[..i];
  }

  // ----- sorting -----

  lemma {:induction false} InsertNodes(x: Node, sorted: seq<Node>)
    ensures Nodes(InsertByRank(x, sorted, NodeRank)) == {x} + Nodes(sorted)
    ensures Distinct(sorted) && x !in sorted ==> Distinct(InsertByRank(x, sorted, NodeRank))
    ensures Contents(InsertByRank(x, sorted, NodeRank)) == InsertByRank(x.Value(), Contents(sorted), EntryRank)
  {
    ContentsCons(x, sorted);
    if sorted != [] {
      var s, tail := sorted[0], sorted[1..];
      assert sorted == [s] + tail;
      ContentsCons(s, tail);
      if NodeRank(x) < NodeRank(s) {
        var rest := InsertByRank(x, tail, NodeRank);
        InsertNodes(x, tail);
        ContentsCons(s, rest);
        NodesCons(s, rest);
        NodesCons(s, tail);
        if Distinct(sorted) && x !in sorted {
          assert s !in Nodes(rest);
        }
      } else {
        NodesCons(x, sorted);
      }
    }
  }

  lemma NodesCons(n: Node, list: seq<Node>)
    ensures Nodes([n] + list) == {n} + Nodes(list)
    ensures n !in Nodes(list) && Distinct(list) ==> Distinct([n] + list)
    ensures Distinct([n] + list) ==> n !in Nodes(list) && Distinct(list)
  {
    var all := [n] + list;
    assert forall i :: 1 <= i < |all| ==> all[i] == list[i - 1];
    if Distinct(all) {
      forall i | 0 <= i < |list|
        ensures list[i] != n
      {
        assert all[0] == n && all[i + 1] == list[i];
      }
      forall i, j | 0 <= i < j < |list|
        ensures list[i] != list[j]
      {
        assert all[i + 1] == list[i] && all[j + 1] == list[j];
      }
    }
  }

  lemma {:induction false} SortNodes(list: seq<Node>)
    ensures Nodes(SortByRank(list, NodeRank)) == Nodes(list)
    ensures Distinct(list) ==> Distinct(SortByRank(list, NodeRank))
    ensures Contents(SortByRank(list, NodeRank)) == SortByRank(Contents(list), EntryRank)
  {
    if list != [] {
      hide Contents, Distinct;
      assert list == [list[0]] + list[1..];
      SortNodes(list[1..]);
      InsertNodes(list[0], SortByRank(list[1..], NodeRank));
      ContentsCons(list[0], list[1..]);
      NodesCons(list[0], list[1..]);
      assert list[0] in SortByRank(list[1..], NodeRank) <==> list[0] in Nodes(list[1..]);
    }
  }

  /** `node2array`. */
  method NodeToArray(node: Node, ghost list: seq<Node>) returns (nodes: seq<Node>)
    requires list != [] && node == list[0] && Chain(list)
    ensures nodes == list
  {
    nodes := [];
    var entry: Node? := node;
    while entry != null
      invariant |nodes| <= |list| && nodes == list[..|nodes|] && entry == At(list, |nodes|)
      decreases |list| - |nodes|
    {
      assert entry == list[|nodes|] && list[|nodes|].next == At(list, |nodes| + 1);
      nodes := nodes + [entry];
      entry := entry.next;
    }
  }

  /** Link the nodes in the order of the array. */
  method Relink(nodes: seq<Node>)
    requires nodes != [] && Distinct(nodes)
    modifies Nodes(nodes)`next
    ensures Chain(nodes)
  {
    var current := nodes[0];
    var i := 1;
    while i < |nodes|
      invariant 1 <= i <= |nodes| && current == nodes[i - 1]
      invariant forall j :: 0 <= j < i - 1 ==> nodes[j].next == At(nodes, j + 1)
    {
      current.next := nodes[i];
      current := nodes[i];
      i := i + 1;
    }
    current.next := null;
  }

  // ----- the builder -----

  /** `divide_tree`. */
  method DivideTree(node: Node, ghost list: seq<Node>, depth: nat) returns (t: Option<Tree>)
    requires list != [] && node == list[0] && Chain(list)
    modifies Nodes(list)
    ensures t == Build(old(Contents(list)), depth)
    decreases depth, 0
  {
    hide Chain, Distinct, Contents, BuildIf, BuildCases, EffectiveMask, SwitchApplies, Terminal, MinValue;
    if depth == 0 {
      return None;
    }
    var ok;
    ok, t := DivideTreeUsingSwitch(node, list, depth - 1);
    if !ok {
      t := DivideTreeUsingIf(node, list, depth - 1);
    }
  }

  lemma NoValues(mask: Word, byte: nat)
    requires 1 <= byte <= 8
    ensures CaseValues([], mask, byte) == {}
  {
  }

  lemma ValuesLast(entries: seq<Entry>, i: nat, mask: Word, byte: nat)
    requires 1 <= byte <= 8 && i < |entries|
    ensures var v := SwitchValue(entries[i].data.opcode, mask, byte);
      CaseValues(entries[..i + 1], mask, byte) == CaseValues(entries[..i], mask, byte) + {v}
      && MinValue(entries[..i + 1], mask, byte) == (if i == 0 then v else Min(MinValue(entries[..i], mask, byte), v))
      && (i > 0 ==> CaseValues(entries[..i], mask, byte) != {})
  {
    assert entries[..i + 1][..i] == entries[..i];
  }

  /** The counting loop of `divide_tree_using_switch`. */
  method CountCases(node: Node, ghost list: seq<Node>, mask: Word, byte: nat) returns (count: nat, min: nat)
    requires list != [] && node == list[0] && Chain(list) && 1 <= byte <= 8
    ensures Counted(Contents(list), mask, byte, count, min)
  {
    hide Distinct, MinValue, CaseValues, Counted, SwitchValue;
    ghost var entries := Contents(list);
    ContentsAt(list);
    NoValues(mask, byte);
    var seen: set<nat> := {};
    min := 0;
    var entry: Node? := node;
    ghost var i := 0;
    while entry != null
      invariant i <= |list| && entry == At(list, i) && entries == Contents(list)
      invariant seen == CaseValues(entries[..i], mask, byte)
      invariant i > 0 ==> min == MinValue(entries[..i], mask, byte)
      decreases |list| - i
    {
      assert entry == list[i] && list[i].next == At(list, i + 1);
      ValuesLast(entries, i, mask, byte);
      var value := SwitchValue(entry.data.opcode, mask, byte);
      if seen == {} {
        min := value;
      }
      min := Min(min, value);
      seen := seen + {value};
      entry := entry.next;
      i := i + 1;
    }
    assert entries[..i] == entries;
    count := |seen|;
    IsCounted(entries, mask, byte, seen, min);
  }

  ghost predicate Counted(entries: seq<Entry>, mask: Word, byte: nat, count: nat, min: nat)
    requires entries != [] && 1 <= byte <= 8
  {
    count == |CaseValues(entries, mask, byte)| && min == MinValue(entries, mask, byte)
  }

  lemma IsCounted(entries: seq<Entry>, mask: Word, byte: nat, seen: set<nat>, min: nat)
    requires entries != [] && 1 <= byte <= 8
    requires seen == CaseValues(entries, mask, byte) && min == MinValue(entries, mask, byte)
    ensures Counted(entries, mask, byte, |seen|, min)
  {
  }

  ghost predicate FallsToIf(list: seq<Entry>, depth: nat)
    requires list != []
  {
    Build(list, depth + 1) == BuildIf(list, depth)
  }

  /** `divide_tree_using_switch`; not `ok` is `$DIVIDE_TREE_FAILED`. */
  method DivideTreeUsingSwitch(node: Node, ghost list: seq<Node>, depth: nat) returns (ok: bool, t: Option<Tree>)
    requires list != [] && node == list[0] && Chain(list)
    modifies Nodes(list)
    ensures ok ==> t == Build(old(Contents(list)), depth + 1)
    ensures !ok ==> Chain(list) && Contents(list) == old(Contents(list)) && FallsToIf(Contents(list), depth)
    decreases depth, 5
  {
    hide Chain, Distinct, Contents, BuildIf, BuildCases, EffectiveMask, Terminal, MinValue, CaseValues;
    ghost var before := Contents(list);
    var mask := GetEffectiveMask(node, list);
    if IsZero(mask) {
      t := DivideTreeTerminal(node, list, depth);
      return true, t;
    }
    if GetBitCount(mask) < 2 {
      return false, None;
    }
    var byte := BlessedByte(mask);
    if byte == 0 {
      return false, None;
    }
    var count, min := CountCases(node, list, mask, byte);
    if count < MIN_SWITCH_CASES || count > MAX_SWITCH_CASES {
      return false, None;
    }
    var heads: map<int, Node>;
    ghost var lists;
    heads, lists := SplitByValue(node, list, mask, byte, min);
    var cases := DivideCases(heads, lists, Nodes(list), before, mask, byte, min, depth);
    ok := true;
    t := match cases
      case None => None
      case Some(cs) => Some(Switch(byte, ByteVar(mask, byte), min, cs));
  }

  /** One `divide_tree` per key of `$case`. */
  method DivideCases(heads: map<int, Node>, ghost lists: map<int, seq<Node>>, ghost all: set<Node>,
                     ghost before: seq<Entry>, mask: Word, byte: nat, min: nat, depth: nat)
      returns (cases: Option<DecisionTree.Cases>)
    requires 1 <= byte <= 8 && Cases(heads, lists, all, before, mask, byte, min)
    modifies all
    ensures cases == BuildCases(before, mask, byte, min, 0, depth)
    decreases depth, 1
  {
    hide Chain, Distinct, Contents, CaseList, Build, AllAt;
    cases := Some(NoCase);
    var key := 256;
    while key > 0
      invariant 0 <= key <= 256 && cases.Some?
      invariant cases == BuildCases(before, mask, byte, min, key, depth)
      invariant Pending(heads, lists, all, before, mask, byte, min, key)
    {
      key := key - 1;
      if key in heads {
        StillPending(heads, lists, all, before, mask, byte, min, key);
        var body := DivideTree(heads[key], lists[key], depth);
        if body.None? {
          FailsEarlier(before, mask, byte, min, key, depth);
          return None;
        }
        cases := Some(Case(key, body.value, cases.value));
      } else {
        assert CaseList(before, mask, byte, key + min) == [];
      }
    }
  }

  /** The lists of the keys below `key` are untouched. */
  ghost predicate Pending(heads: map<int, Node>, lists: map<int, seq<Node>>, all: set<Node>,
                          before: seq<Entry>, mask: Word, byte: nat, min: nat, key: int)
    requires 1 <= byte <= 8
    reads all
  {
    heads.Keys == lists.Keys
    && (forall k :: k in lists ==> Nodes(lists[k]) <= all && AllAt(lists[k], mask, byte, k + min))
    && (forall k :: k in lists && k < key ==>
      Chain(lists[k]) && heads[k] == At(lists[k], 0) && Contents(lists[k]) == CaseList(before, mask, byte, k + min))
    && (forall k :: k in lists <==> CaseList(before, mask, byte, k + min) != [])
  }

  lemma StillPending(heads: map<int, Node>, lists: map<int, seq<Node>>, all: set<Node>,
                     before: seq<Entry>, mask: Word, byte: nat, min: nat, key: int)
    requires 1 <= byte <= 8 && Pending(heads, lists, all, before, mask, byte, min, key + 1) && key in lists
    ensures forall k :: k in lists && k != key ==> Apart(lists[k], lists[key])
  {
    hide AllAt;
    forall k | k in lists && k != key
      ensures Apart(lists[k], lists[key])
    {
      CasesApart(lists[k], lists[key], mask, byte, k + min, key + min);
    }
  }

  lemma {:induction false} FailsEarlier(before: seq<Entry>, mask: Word, byte: nat, min: nat, key: nat, depth: nat)
    requires 1 <= byte <= 8 && key <= 256 && BuildCases(before, mask, byte, min, key, depth).None?
    ensures BuildCases(before, mask, byte, min, 0, depth).None?
    decreases key
  {
    hide Build, CaseList;
    if key > 0 {
      FailsEarlier(before, mask, byte, min, key - 1, depth);
    }
  }

  /** `divide_tree_using_if`: while all opcodes agree on a common bit, drop it and go again. */
  method DivideTreeUsingIf(node: Node, ghost list: seq<Node>, depth: nat) returns (t: Option<Tree>)
    requires list != [] && node == list[0] && Chain(list)
    modifies Nodes(list)
    ensures t == BuildIf(old(Contents(list)), depth)
    decreases depth, 4
  {
    hide Chain, Distinct, Contents, Build, Terminal, Common, BitList;
    if node.next == null {
      Single(list);
      t := DivideTreeTerminal(node, list, depth);
      return;
    }
    Several(list);
    ghost var before := Contents(list);
    var first: Node := node;
    ghost var l := list;
    while true
      invariant l != [] && first == l[0] && Chain(l) && Within(l, list) && |l| > 1
      invariant BuildIf(Contents(l), depth) == BuildIf(before, depth)
      decreases Popcount(Common(Contents(l)))
    {
      var mask := AndMasks(first, l);
      if IsZero(mask) {
        t := DivideTreeTerminal(first, l, depth);
        return;
      }
      var bit := LowestBit(mask);
      ghost var now := Contents(l);
      BitListLoses(now, bit);
      BitListSplits(now, bit, true);
      var zeros, ones;
      ghost var zs, os;
      zeros, ones, zs, os := SplitByBit(first, l, bit);
      assert (zs == [] <==> zeros == null) && (os == [] <==> ones == null);
      if zeros == null {
        first, l := ones, os;
      } else if ones == null {
        first, l := zeros, zs;
      } else {
        var yes := DivideTree(ones, os, depth);
        var no := DivideTree(zeros, zs, depth);
        t := Branch(BitTest(bit), yes, no);
        return;
      }
    }
  }

  lemma Single(list: seq<Node>)
    requires list != [] && Chain(list) && list[0].next == null
    ensures |list| == 1
  {
    assert list[0].next == At(list, 1);
  }

  lemma Several(list: seq<Node>)
    requires list != [] && Chain(list) && list[0].next != null
    ensures |list| > 1
  {
    assert list[0].next == At(list, 1);
  }

  /** `divide_tree_terminal` and `divide_conflicts`. */
  method DivideTreeTerminal(node: Node, ghost list: seq<Node>, depth: nat) returns (t: Option<Tree>)
    requires list != [] && node == list[0] && Chain(list)
    modifies Nodes(list)
    ensures t == Terminal(old(Contents(list)), depth)
    decreases depth, 3
  {
    hide Chain, Distinct, Contents, BuildConstraint, BuildHighest, HasConstraints;
    if node.next != null {
      Several(list);
      var has := StateHasConstraints(node, list);
      if has {
        t := DivideConstraints(node, list, depth);
      } else {
        t := DivideHighest(node, list, depth);
      }
    } else {
      Single(list);
      ContentsAt(list);
      t := Some(Leaf(node.data.index));
    }
  }

  /** `divide_cnsts`: while a constraint leaves every entry on one side, go again. */
  method DivideConstraints(node: Node, ghost list: seq<Node>, depth: nat) returns (t: Option<Tree>)
    requires list != [] && node == list[0] && Chain(list)
    modifies Nodes(list)
    ensures t == BuildConstraint(old(Contents(list)), depth)
    decreases depth, 2
  {
    hide Chain, Distinct, Contents, GlobalConstraint, ConstraintList, Build;
    ghost var before := Contents(list);
    var first: Node, d: nat := node, depth;
    ghost var l := list;
    while true
      invariant l != [] && first == l[0] && Chain(l) && fresh(Nodes(l) - Nodes(list)) && d <= depth
      invariant BuildConstraint(Contents(l), d) == BuildConstraint(before, depth)
      decreases d
    {
      ghost var now := Contents(l);
      var c := GetGlobalConstraint(first, l);
      if c.None? {
        t := DivideTree(first, l, d);
        return;
      }
      var ncnode, cnode;
      ghost var ns, cs;
      ncnode, cnode, ns, cs := SplitByConstraint(first, l, c.value);
      assert (ns == [] <==> ncnode == null) && (cs == [] <==> cnode == null);
      if ncnode == null {
        NothingLost(now, c.value);
        if d == 0 {
          return None;
        }
        first, l, d := cnode, cs, d - 1;
      } else {
        var yes := Some(Empty);
        if cnode != null {
          yes := DivideTree(cnode, cs, d);
        }
        var no := DivideTree(ncnode, ns, d);
        t := Branch(NotValue(c.value.mask, c.value.value), yes, no);
        return;
      }
    }
  }

  lemma Alone(n: Node)
    requires n.next == null
    ensures Chain([n]) && Contents([n]) == [n.Value()] && Nodes([n]) == {n}
  {
    ContentsCons(n, []);
    assert [n] + [] == [n];
  }

  lemma ChainDistinct(list: seq<Node>)
    requires Chain(list)
    ensures Distinct(list)
  {
  }

  /** `divide_hi_bits`. */
  method DivideHighest(node: Node, ghost list: seq<Node>, depth: nat) returns (t: Option<Tree>)
    requires |list| >= 2 && node == list[0] && Chain(list)
    modifies Nodes(list)
    ensures t == BuildHighest(old(Contents(list)), depth)
    decreases depth, 2
  {
    hide Contents, Build, SortByRank, NodeRank, Distinct, Chain;
    var nodes := NodeToArray(node, list);
    ChainDistinct(nodes);
    SortNodes(nodes);
    nodes := SortByRank(nodes, NodeRank);
    Relink(nodes);
    ChainTail(nodes);
    ghost var rest := nodes[1..];
    ContentsCons(nodes[0], rest);
    assert nodes == [nodes[0]] + rest;
    var first := nodes[0];
    var next := first.next;
    first.next := null;
    Alone(first);
    var yes := DivideTree(first, [first], depth);
    var no := DivideTree(next, rest, depth);
    t := Branch(Whole(first.data), yes, no);
  }

  /** `get_tree` on a fresh list of records builds the tree that refines the search. */
  method GetTree(records: seq<Record>, depth: nat) returns (t: Option<Tree>)
    requires records != []
    ensures t == Build(DecisionTreeSearch.InitialList(records), depth)
  {
    hide Chain, Contents, Distinct, Build;
    var current: Node?, node: Node? := null, null;
    ghost var list: seq<Node> := [];
    ghost var entries := DecisionTreeSearch.InitialList(records);
    EmptyGrown();
    assert entries[..0] == [];
    for k := 0 to |records|
      invariant Grown(list, node, current, entries[..k]) && |list| == k && fresh(Nodes(list))
    {
      var r := records[k];
      var n := new Node(r, r.mask, ConstraintBits(r.cnsts));
      assert entries[..k + 1] == entries[..k] + [n.Value()];
      node, current := Append(node, current, n, list, entries[..k]);
      list := list + [n];
    }
    assert entries[..|records|] == entries;
    Complete(list, node, current, entries);
    t := DivideTree(node, list, depth);
  }
}
