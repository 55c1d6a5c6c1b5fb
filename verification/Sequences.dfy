/** Interning lists of C initializers into one flat array (`generator/Sequence.pm`). */
module Sequences {
  import opened Bits
  import opened FieldExpressions

  // ----- the flat array as a value -----

  function Flat<T>(lists: seq<seq<T>>): seq<T> {
    if lists == [] then [] else Flat(lists[..|lists| - 1]) + lists[|lists| - 1]
  }

  function Offset<T>(lists: seq<seq<T>>, k: nat): nat
    requires k <= |lists|
  {
    |Flat(lists[..k])|
  }

  /** Equal lists share an entry, a new list goes to the end. */
  function AddList<T(==)>(lists: seq<seq<T>>, a: seq<T>): seq<seq<T>> {
    if a in lists then lists else lists + [a]
  }

  /** Where `a` starts in the flat array. */
  function IndexOf<T(==)>(lists: seq<seq<T>>, a: seq<T>): nat
    requires a in lists
  {
    if lists[|lists| - 1] == a && a !in lists[..|lists| - 1] then Offset(lists, |lists| - 1)
    else IndexOf(lists[..|lists| - 1], a)
  }

  function AddAll<T(==)>(arrays: seq<seq<T>>): seq<seq<T>> {
    if arrays == [] then [] else AddList(AddAll(arrays[..|arrays| - 1]), arrays[|arrays| - 1])
  }

  lemma FlatLast<T>(lists: seq<seq<T>>, a: seq<T>)
    ensures Flat(lists + [a]) == Flat(lists) + a
  {
    assert (lists + [a])[..|lists|] == lists;
  }

  lemma {:induction false} FlatPrefix<T>(lists: seq<seq<T>>, k: nat)
    requires k <= |lists|
    ensures Flat(lists[..k]) <= Flat(lists)
  {
    if k < |lists| {
      FlatPrefix(lists[..|lists| - 1], k);
      assert lists[..|lists| - 1][..k] == lists[..k];
    } else {
      assert lists[..k] == lists;
    }
  }

  lemma {:induction false} IndexOfUnique<T>(lists: seq<seq<T>>, k: nat)
    requires k < |lists| && forall i, j :: 0 <= i < j < |lists| ==> lists[i] != lists[j]
    ensures IndexOf(lists, lists[k]) == Offset(lists, k)
  {
    var n := |lists| - 1;
    if k < n {
      assert lists[..n][k] == lists[k] && lists[..n][..k] == lists[..k];
      IndexOfUnique(lists[..n], k);
    }
  }

  /** Every list reads back from its index. */
  lemma {:induction false} ReadsBack<T>(lists: seq<seq<T>>, a: seq<T>)
    requires a in lists
    ensures IndexOf(lists, a) + |a| <= |Flat(lists)|
    ensures Flat(lists)[IndexOf(lists, a)..IndexOf(lists, a) + |a|] == a
  {
    hide Flat;
    var n := |lists| - 1;
    assert lists == lists[..n] + [lists[n]];
    FlatLast(lists[..n], lists[n]);
    if lists[n] == a && a !in lists[..n] {
      assert lists[..|lists| - 1] == lists[..n];
      SliceOfSum(Flat(lists[..n]), a, |Flat(lists[..n])|, |a|);
    } else {
      ReadsBack(lists[..n], a);
      SliceOfSum(Flat(lists[..n]), lists[n], IndexOf(lists[..n], a), |a|);
    }
  }

  lemma SliceOfSum<T>(x: seq<T>, y: seq<T>, at: nat, n: nat)
    ensures at + n <= |x| ==> (x + y)[at..at + n] == x[at..at + n]
    ensures at == |x| && n == |y| ==> (x + y)[at..at + n] == y
  {
  }

  /** Adding keeps the array so far and every index handed out. */
  lemma AddKeeps<T>(lists: seq<seq<T>>, a: seq<T>)
    ensures a in AddList(lists, a) && Flat(lists) <= Flat(AddList(lists, a))
    ensures forall b :: b in lists ==> b in AddList(lists, a) && IndexOf(AddList(lists, a), b) == IndexOf(lists, b)
    ensures a !in lists ==> IndexOf(AddList(lists, a), a) == |Flat(lists)| && Flat(AddList(lists, a)) == Flat(lists) + a
  {
    if a !in lists {
      FlatLast(lists, a);
      assert (lists + [a])[..|lists|] == lists;
    }
  }

  lemma {:induction false} LaterAddsKeep<T>(arrays: seq<seq<T>>, j: nat)
    requires j <= |arrays|
    ensures Flat(AddAll(arrays[..j])) <= Flat(AddAll(arrays))
    ensures forall b :: b in AddAll(arrays[..j]) ==>
      b in AddAll(arrays) && IndexOf(AddAll(arrays), b) == IndexOf(AddAll(arrays[..j]), b)
  {
    if j < |arrays| {
      var n := |arrays| - 1;
      LaterAddsKeep(arrays[..n], j);
      assert arrays[..n][..j] == arrays[..j];
      AddKeeps(AddAll(arrays[..n]), arrays[n]);
    } else {
      assert arrays[..j] == arrays;
    }
  }

  /** Over any run of adds: the index returned for the `i`-th list is the one every
      later add of an equal list returns, and the final array still holds the list there. */
  lemma InterningIsFaithful<T>(arrays: seq<seq<T>>, i: nat, j: nat)
    requires i <= j < |arrays|
    ensures arrays[i] in AddAll(arrays[..i + 1]) && arrays[i] in AddAll(arrays)
    ensures var index := IndexOf(AddAll(arrays[..i + 1]), arrays[i]);
      index + |arrays[i]| <= |Flat(AddAll(arrays))|
      && Flat(AddAll(arrays))[index..index + |arrays[i]|] == arrays[i]
    ensures arrays[j] == arrays[i] ==>
      arrays[j] in AddAll(arrays[..j + 1])
      && IndexOf(AddAll(arrays[..j + 1]), arrays[j]) == IndexOf(AddAll(arrays[..i + 1]), arrays[i])
  {
    hide Flat, IndexOf, AddAll;
    Enters(arrays, i);
    Enters(arrays, j);
    LaterAddsKeep(arrays, i + 1);
    LaterAddsKeep(arrays[..j + 1], i + 1);
    assert arrays[..j + 1][..i + 1] == arrays[..i + 1];
    ReadsBack(AddAll(arrays), arrays[i]);
  }

  lemma Enters<T>(arrays: seq<seq<T>>, i: nat)
    requires i < |arrays|
    ensures arrays[i] in AddAll(arrays[..i + 1])
  {
    assert arrays[..i + 1][..i] == arrays[..i];
    AddKeeps(AddAll(arrays[..i]), arrays[i]);
  }

  // ----- the key: the elements joined with ", " -----

  function Join(list: seq<string>): string {
    if list == [] then ""
    else if |list| == 1 then list[0]
    else list[0] + ", " + Join(list[1..])
  }

  /** How many braces are open after `s`. */
  function Depth(s: string): int {
    if s == "" then 0
    else Depth(s[..|s| - 1]) + (if s[|s| - 1] == '{' then 1 else if s[|s| - 1] == '}' then -1 else 0)
  }

  /** A separator stands at `i`, outside all braces. */
  predicate SplitAt(s: string, i: nat) {
    i + 2 <= |s| && s[i..i + 2] == ", " && Depth(s[..i]) == 0
  }

  /** One initializer: its braces match, and it holds no separator outside them.  Numbers,
      pointers and nested initializers are all of this kind. */
  predicate Initializer(e: string) {
    e != "" && Depth(e) == 0 && forall i :: 0 <= i < |e| ==> !SplitAt(e, i)
  }

  predicate Initializers(list: seq<string>) {
    forall e :: e in list ==> Initializer(e)
  }

  /** An element without braces or commas. */
  lemma {:induction false} PlainDepth(s: string)
    requires forall i :: 0 <= i < |s| ==> s[i] != '{' && s[i] != '}'
    ensures Depth(s) == 0
  {
    if s != "" {
      PlainDepth(s[..|s| - 1]);
    }
  }

  lemma PlainIsInitializer(e: string)
    requires e != "" && forall i :: 0 <= i < |e| ==> e[i] != '{' && e[i] != '}' && e[i] != ','
    ensures Initializer(e)
  {
    PlainDepth(e);
    forall i | 0 <= i < |e|
      ensures !SplitAt(e, i)
    {
      if i + 2 <= |e| {
        assert e[i..i + 2][0] == e[i];
      }
    }
  }

  lemma {:induction false} DepthOpen(s: string, n: nat)
    requires 1 <= n <= |s| && s[0] == '{' && forall i :: 1 <= i < n ==> s[i] != '{' && s[i] != '}'
    ensures Depth(s[..n]) == 1
  {
    assert s[..n][..n - 1] == s[..n - 1];
    if n > 1 {
      DepthOpen(s, n - 1);
    }
  }

  /** An element whose only braces are the two around it. */
  lemma BracedIsInitializer(e: string)
    requires |e| >= 2 && e[0] == '{' && e[|e| - 1] == '}'
    requires forall i :: 1 <= i < |e| - 1 ==> e[i] != '{' && e[i] != '}'
    ensures Initializer(e)
  {
    hide Depth;
    DepthOpen(e, |e| - 1);
    DepthStep(e);
    forall i | 0 <= i < |e|
      ensures !SplitAt(e, i)
    {
      if 0 < i < |e| - 1 {
        DepthOpen(e, i);
      }
    }
  }

  lemma DepthStep(s: string)
    requires s != ""
    ensures Depth(s)
      == Depth(s[..|s| - 1]) + (if s[|s| - 1] == '{' then 1 else if s[|s| - 1] == '}' then -1 else 0)
  {
  }

  function Tail(list: seq<string>): string {
    if |list| <= 1 then "" else ", " + Join(list[1..])
  }

  lemma JoinParts(list: seq<string>)
    requires list != []
    ensures Join(list) == list[0] + Tail(list)
  {
  }

  /** The first element ends at the first separator outside braces. */
  lemma HeadEnds(list: seq<string>)
    requires list != [] && Initializers(list)
    ensures |list[0]| <= |Join(list)| && list[0] == Join(list)[..|list[0]|] && Tail(list) == Join(list)[|list[0]|..]
    ensures |list[0]| < |Join(list)| ==> SplitAt(Join(list), |list[0]|)
    ensures forall i :: 0 <= i < |list[0]| ==> !SplitAt(Join(list), i)
  {
    hide Join, Depth;
    JoinParts(list);
    var e, j := list[0], Join(list);
    assert Initializer(e);
    forall i | 0 <= i < |e|
      ensures !SplitAt(j, i)
    {
      assert j[..i] == e[..i] && !SplitAt(e, i);
      if i + 2 <= |e| {
        assert j[i..i + 2] == e[i..i + 2];
      } else if i + 2 <= |j| {
        assert j[i..i + 2][1] == j[i + 1] == ',';
      }
    }
    if |e| < |j| {
      assert j[|e|..|e| + 2] == ", " && j[..|e|] == e;
    }
  }

  lemma SameHead(a: seq<string>, b: seq<string>)
    requires a != [] && b != [] && Initializers(a) && Initializers(b) && Join(a) == Join(b)
    ensures a[0] == b[0] && Tail(a) == Tail(b)
  {
    hide Join, SplitAt, Tail;
    HeadEnds(a);
    HeadEnds(b);
    assert |a[0]| == |b[0]|;
  }

  /** The joined text determines the elements. */
  lemma {:induction false} JoinInjective(a: seq<string>, b: seq<string>)
    requires Initializers(a) && Initializers(b) && Join(a) == Join(b)
    ensures a == b
  {
    hide Initializer;
    if a != [] {
      JoinNotEmpty(a);
    }
    if b != [] {
      JoinNotEmpty(b);
    }
    if a != [] && b != [] {
      SameHead(a, b);
      assert a == [a[0]] + a[1..] && b == [b[0]] + b[1..];
      if |a| > 1 && |b| > 1 {
        assert Tail(a)[2..] == Join(a[1..]) && Tail(b)[2..] == Join(b[1..]);
        JoinInjective(a[1..], b[1..]);
      }
    }
  }

  lemma JoinNotEmpty(list: seq<string>)
    requires list != [] && Initializers(list)
    ensures Join(list) != ""
  {
    hide Join, Depth;
    JoinParts(list);
    assert Initializer(list[0]);
  }

  // ----- the object -----

  datatype Item = Item(data: string, index: nat, iindex: nat)

  class Sequence {
    var items: seq<Item>
    var seen: map<string, Item>
    var index: nat
    ghost var lists: seq<seq<string>>

    ghost predicate Valid()
      reads this
    {
      |items| == |lists| && index == |Flat(lists)|
      && (forall k :: 0 <= k < |lists| ==> Initializers(lists[k]))
      && (forall i, j :: 0 <= i < j < |lists| ==> lists[i] != lists[j])
      && (forall k :: 0 <= k < |items| ==> items[k] == Item(Join(lists[k]), Offset(lists, k), k))
      && (forall k :: 0 <= k < |items| ==> items[k].data in seen && seen[items[k].data] == items[k])
      && (forall txt :: txt in seen ==> seen[txt] in items && seen[txt].data == txt)
    }

    constructor ()
      ensures Valid() && lists == []
    {
      items, seen, index, lists := [], map[], 0, [];
    }

    /** `add`. */
    method Add(elements: seq<string>) returns (item: Item)
      requires Valid() && Initializers(elements)
      modifies this
      ensures Valid() && lists == AddList(old(lists), elements) && elements in lists
      ensures item.data == Join(elements) && item.index == IndexOf(lists, elements)
      ensures item.iindex < |lists| && lists[item.iindex] == elements
    {
      hide Join, Flat, IndexOf;
      var txt := Join(elements);
      AddKeeps(lists, elements);
      if txt in seen {
        item := seen[txt];
        var k :| 0 <= k < |items| && items[k] == item;
        JoinInjective(lists[k], elements);
        IndexOfUnique(lists, k);
        return;
      }
      item := Item(txt, index, |items|);
      ghost var before := lists;
      items := items + [item];
      seen := seen[txt := item];
      index := index + |elements|;
      lists := lists + [elements];
      assert lists[..|before|] == before;
      forall k | 0 <= k < |before|
        ensures Offset(lists, k) == Offset(before, k)
      {
        assert lists[..k] == before[..k];
      }
    }
  }

  // ----- the text of one element -----

  const DIGITS := "0123456789abcdef"

  function HexChar(nibble: Bits): (c: char)
    requires |nibble| == 4
    ensures c in DIGITS
  {
    NatBound(nibble);
    assert Pow2(4) == 16;
    DIGITS[Nat(nibble)]
  }

  /** Four bits of a word. */
  function Nibble(x: Bits, i: nat): (n: Bits)
    requires |x| == WIDTH && i < 8
    ensures |n| == 4 && n == x[28 - 4 * i..32 - 4 * i]
  {
    x[28 - 4 * i..32 - 4 * i]
  }

  /** `%08x` of a 32-bit value. */
  function Hex8(x: Bits): (s: string)
    requires |x| == WIDTH
    ensures |s| == 8
  {
    seq(8, i requires 0 <= i < 8 => HexChar(Nibble(x, i)))
  }

  /** `%d` of a natural number. */
  function Dec(n: nat): (s: string)
    ensures s != [] && forall i :: 0 <= i < |s| ==> '0' <= s[i] <= '9'
  {
    if n < 10 then [DIGITS[n]] else Dec(n / 10) + [DIGITS[n % 10]]
  }

  /** `mask_to_c`. */
  function MaskToC(c: Chunk): string
    requires |c.mask| == WIDTH
  {
    "{0x" + Hex8(c.mask) + ", " + Dec(c.size) + "}"
  }

  lemma MaskToCIsInitializer(c: Chunk)
    requires |c.mask| == WIDTH
    ensures Initializer(MaskToC(c))
  {
    hide Hex8, Dec, Initializer;
    var h, n := Hex8(c.mask), Dec(c.size);
    HexDigits(c.mask);
    var s := MaskToC(c);
    assert s == "{0x" + h + ", " + n + "}";
    forall i | 1 <= i < |s| - 1
      ensures s[i] != '{' && s[i] != '}'
    {
      if 3 <= i < 11 {
        assert s[i] == h[i - 3];
      } else if 13 <= i {
        assert s[i] == n[i - 13];
      }
    }
    BracedIsInitializer(s);
  }

  lemma HexDigits(x: Bits)
    requires |x| == WIDTH
    ensures forall i :: 0 <= i < 8 ==> Hex8(x)[i] != '{' && Hex8(x)[i] != '}'
  {
    forall i | 0 <= i < 8
      ensures Hex8(x)[i] != '{' && Hex8(x)[i] != '}'
    {
      assert Hex8(x)[i] in DIGITS;
    }
  }

  lemma DigitInjective(i: nat, j: nat)
    requires i < 16 && j < 16 && DIGITS[i] == DIGITS[j]
    ensures i == j
  {
  }

  lemma HexCharInjective(a: Bits, b: Bits)
    requires |a| == |b| == 4 && HexChar(a) == HexChar(b)
    ensures a == b
  {
    hide Nat;
    NatBound(a);
    NatBound(b);
    assert Pow2(4) == 16;
    DigitInjective(Nat(a), Nat(b));
    NatInjective(a, b);
  }

  lemma HexInjective(x: Bits, y: Bits)
    requires |x| == |y| == WIDTH && Hex8(x) == Hex8(y)
    ensures x == y
  {
    hide HexChar, Nibble;
    forall k | 0 <= k < WIDTH
      ensures x[k] == y[k]
    {
      var i := 7 - k / 4;
      assert Hex8(x)[i] == HexChar(Nibble(x, i)) && Hex8(y)[i] == HexChar(Nibble(y, i));
      HexCharInjective(Nibble(x, i), Nibble(y, i));
      assert Nibble(x, i)[k % 4] == x[k] && Nibble(y, i)[k % 4] == y[k];
    }
  }

  lemma {:induction false} DecInjective(m: nat, n: nat)
    requires Dec(m) == Dec(n)
    ensures m == n
  {
    hide Dec;
    DecParts(m);
    DecParts(n);
    DigitInjective(m % 10, n % 10);
    if m >= 10 && n >= 10 {
      DecInjective(m / 10, n / 10);
    }
  }

  lemma DecParts(n: nat)
    ensures var s := Dec(n);
      s[|s| - 1] == DIGITS[n % 10] && (n < 10 ==> |s| == 1) && (n >= 10 ==> |s| > 1 && s[..|s| - 1] == Dec(n / 10))
  {
  }

  /** The C compiler reads back the element that was printed. */
  lemma MaskToCInjective(c: Chunk, e: Chunk)
    requires |c.mask| == |e.mask| == WIDTH && MaskToC(c) == MaskToC(e)
    ensures c == e
  {
    var s, t := MaskToC(c), MaskToC(e);
    assert s[3..11] == Hex8(c.mask) && t[3..11] == Hex8(e.mask);
    assert s[13..|s| - 1] == Dec(c.size) && t[13..|t| - 1] == Dec(e.size);
    HexInjective(c.mask, e.mask);
    DecInjective(c.size, e.size);
  }

  // ----- reading the text as a C compiler does -----

  predicate IsDecimal(s: string) {
    s != "" && forall i :: 0 <= i < |s| ==> '0' <= s[i] <= '9'
  }

  predicate IsHex(s: string) {
    s != "" && forall i :: 0 <= i < |s| ==> '0' <= s[i] <= '9' || 'a' <= s[i] <= 'f'
  }

  /** A digit by its character code. */
  function DigitValue(c: char): int {
    if 'a' <= c then c as int - 'a' as int + 10 else c as int - '0' as int
  }

  function HexValue(s: string): int {
    if s == "" then 0 else 16 * HexValue(s[..|s| - 1]) + DigitValue(s[|s| - 1])
  }

  function DecValue(s: string): int {
    if s == "" then 0 else 10 * DecValue(s[..|s| - 1]) + DigitValue(s[|s| - 1])
  }

  lemma DigitsAreRead(n: nat)
    requires n < 16
    ensures DigitValue(DIGITS[n]) == n && IsHex([DIGITS[n]]) && (n < 10 ==> IsDecimal([DIGITS[n]]))
    ensures DIGITS[n] == '0' <==> n == 0
  {
  }

  /** A number is read back, and not as an octal one. */
  lemma {:induction false} DecReads(n: nat)
    ensures IsDecimal(Dec(n)) && DecValue(Dec(n)) == n
    ensures Dec(n)[0] == '0' <==> n == 0
  {
    DigitsAreRead(n % 10);
    if n >= 10 {
      DecReads(n / 10);
      assert Dec(n)[..|Dec(n)| - 1] == Dec(n / 10);
    } else {
      assert Dec(n)[..0] == "";
    }
  }

  lemma HexCharReads(nibble: Bits)
    requires |nibble| == 4
    ensures DigitValue(HexChar(nibble)) == Nat(nibble) && IsHex([HexChar(nibble)])
  {
    hide Nat;
    NatBound(nibble);
    assert Pow2(4) == 16;
    DigitsAreRead(Nat(nibble));
  }

  lemma HexStep(s: string, k: nat)
    requires k < |s|
    ensures HexValue(s[..k + 1]) == 16 * HexValue(s[..k]) + DigitValue(s[k])
  {
    assert s[..k + 1][..k] == s[..k];
  }

  lemma HexDigitAt(x: Bits, i: nat)
    requires |x| == WIDTH && i < 8
    ensures DigitValue(Hex8(x)[i]) == Nat(Nibble(x, i)) && IsHex([Hex8(x)[i]])
  {
    hide HexChar, Nibble, Nat;
    HexCharReads(Nibble(x, i));
  }

  /** The highest `k` digits. */
  function Top(x: Bits, k: nat): Bits
    requires |x| == WIDTH && k <= 8
  {
    x[32 - 4 * k..]
  }

  /** One more digit below those before. */
  lemma NibbleBelow(x: Bits, k: nat)
    requires |x| == WIDTH && k < 8
    ensures Nat(Top(x, k + 1)) == Nat(Nibble(x, k)) + 16 * Nat(Top(x, k))
  {
    assert Pow2(4) == 16;
    hide Nat, Pow2;
    assert Top(x, k + 1) == Nibble(x, k) + Top(x, k);
    NatAppend(Nibble(x, k), Top(x, k));
  }

  lemma {:induction false} HexPrefixReads(x: Bits, k: nat)
    requires |x| == WIDTH && k <= 8
    ensures HexValue(Hex8(x)[..k]) == Nat(Top(x, k))
  {
    if k == 0 {
      assert Hex8(x)[..0] == "" && Top(x, 0) == [];
      EmptyNat();
    } else {
      hide Hex8, Nibble, Nat, HexValue, DigitValue, Top;
      HexPrefixReads(x, k - 1);
      HexDigitAt(x, k - 1);
      HexStep(Hex8(x), k - 1);
      NibbleBelow(x, k - 1);
    }
  }

  lemma EmptyNat()
    ensures Nat([]) == 0
  {
  }

  lemma AllHex(s: string)
    requires s != "" && forall i :: 0 <= i < |s| ==> IsHex([s[i]])
    ensures IsHex(s)
  {
    forall i | 0 <= i < |s|
      ensures '0' <= s[i] <= '9' || 'a' <= s[i] <= 'f'
    {
      assert IsHex([s[i]]) && [s[i]][0] == s[i];
    }
  }

  lemma HexReads(x: Bits)
    requires |x| == WIDTH
    ensures IsHex(Hex8(x)) && HexValue(Hex8(x)) == Nat(x)
  {
    hide Hex8, Nat, HexValue, IsHex;
    HexPrefixReads(x, 8);
    assert Hex8(x)[..8] == Hex8(x) && Top(x, 8) == x;
    forall i | 0 <= i < 8
      ensures IsHex([Hex8(x)[i]])
    {
      HexDigitAt(x, i);
    }
    AllHex(Hex8(x));
  }

  /** `{0xM, S}` initializes a mask with the hexadecimal number M and a size with the
      decimal number S. */
  ghost predicate Initializes(text: string, c: Chunk) {
    exists m: string, s: string :: InitializesBy(text, c, m, s)
  }

  predicate InitializesBy(text: string, c: Chunk, m: string, s: string) {
    && text == "{0x" + m + ", " + s + "}" && IsHex(m) && IsDecimal(s) && (s[0] == '0' ==> |s| == 1)
    && |c.mask| == WIDTH && Nat(c.mask) == HexValue(m) && c.size == DecValue(s)
  }

  /** What is printed initializes the chunk, and nothing else. */
  lemma PrintedInitializes(c: Chunk, e: Chunk)
    requires |c.mask| == WIDTH
    ensures Initializes(MaskToC(c), e) <==> e == c
  {
    hide Hex8, Dec, HexValue, DecValue, Nat;
    HexReads(c.mask);
    DecReads(c.size);
    var m, s := Hex8(c.mask), Dec(c.size);
    DecLength(c.size);
    assert InitializesBy(MaskToC(c), c, m, s);
    if Initializes(MaskToC(c), e) {
      var n: string, t: string :| InitializesBy(MaskToC(c), e, n, t);
      SameParts(m, s, n, t);
      NatInjective(c.mask, e.mask);
    }
  }

  lemma DecLength(n: nat)
    ensures n < 10 ==> |Dec(n)| == 1
  {
  }

  lemma SameParts(m: string, s: string, n: string, t: string)
    requires "{0x" + m + ", " + s + "}" == "{0x" + n + ", " + t + "}" && IsHex(m) && IsHex(n)
    ensures m == n && s == t
  {
    var x, y := "{0x" + m + ", " + s + "}", "{0x" + n + ", " + t + "}";
    assert |m| == |n| by {
      assert x[3 + |m|] == ',' && y[3 + |n|] == ',';
      assert forall i :: 0 <= i < |m| ==> x[3 + i] == m[i];
      assert forall i :: 0 <= i < |n| ==> y[3 + i] == n[i];
    }
    assert m == x[3..3 + |m|] && n == y[3..3 + |n|];
    assert s == x[5 + |m|..|x| - 1] && t == y[5 + |n|..|y| - 1];
  }
}
