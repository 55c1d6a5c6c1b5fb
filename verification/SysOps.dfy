/** The table of system operations and the nested switch printed from it
    (`source/aarch64/sysop.pl`). */
module SysOps {
  /** The keys, outermost first. */
  datatype Key = Op1 | CRn | CRm | Op2

  /** The keys of a row, and the arguments of the printed function. */
  datatype Keys = Keys(op1: nat, crn: nat, crm: nat, op2: nat)

  datatype Row = Row(keys: Keys, result: string)

  function At(keys: Keys, key: Key): nat {
    match key
    case Op1 => keys.op1
    case CRn => keys.crn
    case CRm => keys.crm
    case Op2 => keys.op2
  }

  /** `%nexts`. */
  function Next(key: Key): Key
    requires key != Op2
  {
    match key
    case Op1 => CRn
    case CRn => CRm
    case CRm => Op2
  }

  function Depth(key: Key): nat {
    match key
    case Op1 => 4
    case CRn => 3
    case CRm => 2
    case Op2 => 1
  }

  // ----- the table -----

  /** The nested hash: four levels of keys over lists of rows. */
  datatype Trie = Leaf(rows: seq<Row>) | Node(children: map<nat, Trie>)

  /** A level of the hash, with nothing empty below it. */
  predicate LevelOk(t: Trie, key: Key)
    decreases Depth(key)
  {
    && t.Node?
    && forall k :: k in t.children ==>
      if key == Op2 then t.children[k].Leaf? && t.children[k].rows != []
      else LevelOk(t.children[k], Next(key)) && t.children[k].children != map[]
  }

  /** `push` on the list at a row's keys, making the levels that are missing. */
  function Push(t: Trie, key: Key, row: Row): (r: Trie)
    requires LevelOk(t, key)
    ensures LevelOk(r, key) && r.children != map[]
    decreases Depth(key)
  {
    var k := At(row.keys, key);
    if key == Op2 then
      var rows := if k in t.children then t.children[k].rows else [];
      assert k in t.children[k := Leaf(rows + [row])];
      Node(t.children[k := Leaf(rows + [row])])
    else
      var child := if k in t.children then t.children[k] else Node(map[]);
      var pushed := Push(child, Next(key), row);
      assert k in t.children[k := pushed];
      Node(t.children[k := pushed])
  }

  function Table(rows: seq<Row>): (t: Trie)
    ensures LevelOk(t, Op1)
    decreases |rows|
  {
    if rows == [] then Node(map[]) else Push(Table(rows[..|rows| - 1]), Op1, rows[|rows| - 1])
  }

  /** The loop that reads the table. */
  method ReadTable(rows: seq<Row>) returns (table: Trie)
    ensures table == Table(rows)
  {
    table := Node(map[]);
    var i := 0;
    while i < |rows|
      invariant i <= |rows| && table == Table(rows[..i])
    {
      table := Push(table, Op1, rows[i]);
      assert rows[..i + 1][..i] == rows[..i];
      i := i + 1;
    }
    assert rows[..i] == rows;
  }

  /** The rows at some keys. */
  function Find(t: Trie, key: Key, keys: Keys): seq<Row>
    requires LevelOk(t, key)
    decreases Depth(key)
  {
    if At(keys, key) !in t.children then []
    else if key == Op2 then t.children[At(keys, key)].rows
    else Find(t.children[At(keys, key)], Next(key), keys)
  }

  /** The keys from `key` inwards agree. */
  predicate Matches(row: Row, key: Key, keys: Keys)
    decreases Depth(key)
  {
    At(row.keys, key) == At(keys, key) && (key != Op2 ==> Matches(row, Next(key), keys))
  }

  /** The rows of the table with the given keys, in the order of the table. */
  function Matching(rows: seq<Row>, keys: Keys): seq<Row>
    decreases |rows|
  {
    if rows == [] then []
    else
      var row := rows[|rows| - 1];
      Matching(rows[..|rows| - 1], keys) + if row.keys == keys then [row] else []
  }

  lemma {:induction false} PushFinds(t: Trie, key: Key, row: Row, keys: Keys)
    requires LevelOk(t, key)
    ensures Find(Push(t, key, row), key, keys) == Find(t, key, keys) + if Matches(row, key, keys) then [row] else []
    decreases Depth(key)
  {
    var k := At(row.keys, key);
    if key != Op2 && k == At(keys, key) {
      PushFinds(if k in t.children then t.children[k] else Node(map[]), Next(key), row, keys);
    }
  }

  lemma {:induction false} MatchesAll(row: Row, keys: Keys)
    ensures Matches(row, Op1, keys) <==> row.keys == keys
  {
    assert Matches(row, Op1, keys) == (row.keys.op1 == keys.op1 && Matches(row, CRn, keys));
    assert Matches(row, CRn, keys) == (row.keys.crn == keys.crn && Matches(row, CRm, keys));
    assert Matches(row, CRm, keys) == (row.keys.crm == keys.crm && Matches(row, Op2, keys));
  }

  lemma {:induction false} TableFinds(rows: seq<Row>, keys: Keys)
    ensures Find(Table(rows), Op1, keys) == Matching(rows, keys)
    decreases |rows|
  {
    if rows != [] {
      TableFinds(rows[..|rows| - 1], keys);
      PushFinds(Table(rows[..|rows| - 1]), Op1, rows[|rows| - 1], keys);
      MatchesAll(rows[|rows| - 1], keys);
    }
  }

  // ----- the printed code -----

  /** C statements, as far as they are printed.  A switch starts with `default: break`. */
  datatype Stmt = Return(result: string) | Break | Switch(variable: Key, cases: seq<Case>)

  datatype Case = Case(label_: nat, body: seq<Stmt>)

  datatype Outcome = Returned(result: string) | Broken | Completed

  /** One statement; a `break` inside a switch only leaves the switch. */
  function Run(s: Stmt, keys: Keys): Outcome
    decreases s, 0
  {
    match s
    case Return(result) => Returned(result)
    case Break => Broken
    case Switch(variable, cases) =>
      var o := RunCases(cases, At(keys, variable), false, keys);
      if o == Broken then Completed else o
  }

  function RunAll(ss: seq<Stmt>, keys: Keys): Outcome
    decreases ss, 0
  {
    if ss == [] then Completed
    else
      var o := Run(ss[0], keys);
      if o == Completed then RunAll(ss[1..], keys) else o
  }

  /** Control enters at the matching label and falls from case to case. */
  function RunCases(cases: seq<Case>, value: nat, entered: bool, keys: Keys): Outcome
    decreases cases, 0
  {
    if cases == [] then if entered then Completed else Broken
    else if entered || cases[0].label_ == value then
      var o := RunAll(cases[0].body, keys);
      if o == Completed then RunCases(cases[1..], value, true, keys) else o
    else RunCases(cases[1..], value, false, keys)
  }

  /** What the switch for a level does: return for the first row found, else end. */
  ghost predicate RunsStmt(s: Stmt, t: Trie, key: Key, keys: Keys)
    requires LevelOk(t, key)
  {
    var found := Find(t, key, keys);
    Run(s, keys) == if found == [] then Completed else Returned(found[0].result)
  }

  ghost predicate RunsBody(body: seq<Stmt>, t: Trie, key: Key, keys: Keys)
    requires LevelOk(t, key)
  {
    var found := Find(t, key, keys);
    RunAll(body, keys) == if found == [] then Broken else Returned(found[0].result)
  }

  ghost predicate StmtOk(s: Stmt, t: Trie, key: Key)
    requires LevelOk(t, key)
  {
    forall keys :: RunsStmt(s, t, key, keys)
  }

  ghost predicate CaseOk(c: Case, t: Trie, key: Key)
    requires LevelOk(t, key)
  {
    forall keys :: At(keys, key) == c.label_ ==> RunsBody(c.body, t, key, keys)
  }

  /** The keys from `key` inwards. */
  function Levels(key: Key): (levels: seq<Key>)
    ensures levels != []
    decreases Depth(key)
  {
    if key == Op2 then [Op2] else [key] + Levels(Next(key))
  }

  /** Switches inside switches over these keys, returns in the innermost. */
  predicate Nests(s: Stmt, levels: seq<Key>)
    requires levels != []
    decreases |levels|, 1
  {
    s.Switch? && s.variable == levels[0] && forall i :: 0 <= i < |s.cases| ==> BodyNests(s.cases[i].body, levels)
  }

  predicate BodyNests(body: seq<Stmt>, levels: seq<Key>)
    requires levels != []
    decreases |levels|, 0
  {
    if |levels| == 1 then forall i :: 0 <= i < |body| ==> body[i].Return?
    else |body| == 2 && Nests(body[0], levels[1..]) && body[1] == Break
  }

  lemma FourLevels()
    ensures Levels(Op1) == [Op1, CRn, CRm, Op2]
  {
    assert Levels(CRm) == [CRm, Op2] && Levels(CRn) == [CRn, CRm, Op2];
  }

  /** A list of rows: every row prints a return, and only the first is reached. */
  method PrintRows(rows: seq<Row>) returns (body: seq<Stmt>)
    requires rows != []
    ensures body != [] && body[0] == Return(rows[0].result) && BodyNests(body, Levels(Op2))
  {
    body := [];
    for i := 0 to |rows|
      invariant |body| == i && (i > 0 ==> body[0] == Return(rows[0].result))
      invariant forall k :: 0 <= k < i ==> body[k].Return?
    {
      body := body + [Return(rows[i].result)];
    }
  }

  /** The statements for one key; a nested switch is followed by a `break`. */
  method PrintBody(t: Trie, key: Key, k: nat) returns (body: seq<Stmt>)
    requires LevelOk(t, key) && k in t.children
    ensures CaseOk(Case(k, body), t, key) && BodyNests(body, Levels(key))
    decreases Depth(key), 0
  {
    assert key == Op2 ==> t.children[k].Leaf? && t.children[k].rows != [];
    assert key != Op2 ==> LevelOk(t.children[k], Next(key));
    hide LevelOk;
    if key == Op2 {
      body := PrintRows(t.children[k].rows);
      RowsReturn(body, t, k);
    } else {
      var inner := PrintCase(t.children[k], Next(key));
      body := [inner, Break];
      NestedSwitch(inner, t, key, k);
    }
  }

  lemma RowsReturn(body: seq<Stmt>, t: Trie, k: nat)
    requires LevelOk(t, Op2) && k in t.children && t.children[k].rows != []
    requires body != [] && body[0] == Return(t.children[k].rows[0].result)
    ensures CaseOk(Case(k, body), t, Op2)
  {
    forall keys | At(keys, Op2) == k
      ensures RunsBody(body, t, Op2, keys)
    {
      assert Find(t, Op2, keys) == t.children[k].rows;
      assert Run(body[0], keys) == Returned(t.children[k].rows[0].result);
    }
  }

  lemma NestedSwitch(inner: Stmt, t: Trie, key: Key, k: nat)
    requires LevelOk(t, key) && k in t.children && key != Op2
    requires StmtOk(inner, t.children[k], Next(key))
    ensures CaseOk(Case(k, [inner, Break]), t, key)
  {
    forall keys | At(keys, key) == k
      ensures RunsBody([inner, Break], t, key, keys)
    {
      assert RunsStmt(inner, t.children[k], Next(key), keys);
      assert [inner, Break][1..] == [Break];
      assert RunAll([Break], keys) == Broken;
    }
  }

  predicate HasLabel(cases: seq<Case>, k: nat) {
    exists i :: 0 <= i < |cases| && cases[i].label_ == k
  }

  predicate Increasing(cases: seq<Case>) {
    forall i :: 0 < i < |cases| ==> cases[i - 1].label_ < cases[i].label_
  }

  /** The cases printed while `left` are still to come. */
  ghost predicate Printing(cases: seq<Case>, left: set<nat>, t: Trie, key: Key)
    requires LevelOk(t, key)
  {
    && (forall k :: k in t.children <==> k in left || HasLabel(cases, k))
    && (forall i :: 0 <= i < |cases| ==> CaseOk(cases[i], t, key))
    && Increasing(cases)
    && (cases != [] ==> forall k :: k in left ==> cases[|cases| - 1].label_ < k)
  }

  /** `print_case`: the switch for one level, cases in increasing order of their keys. */
  method PrintCase(t: Trie, key: Key) returns (s: Stmt)
    requires LevelOk(t, key)
    ensures s.Switch? && s.variable == key && StmtOk(s, t, key) && Increasing(s.cases)
    ensures Nests(s, Levels(key))
    decreases Depth(key), 1
  {
    var cases: seq<Case> := [];
    var left := t.children.Keys;
    assert forall k :: !HasLabel(cases, k);
    assert Printing(cases, left, t, key);
    while left != {}
      invariant left <= t.children.Keys && Printing(cases, left, t, key)
      invariant forall i :: 0 <= i < |cases| ==> BodyNests(cases[i].body, Levels(key))
    {
      hide LevelOk, Printing, CaseOk, BodyNests;
      var k := Smallest(left);
      var body := PrintBody(t, key, k);
      PrintStep(cases, left, t, key, Case(k, body));
      cases := cases + [Case(k, body)];
      left := left - {k};
    }
    s := Switch(key, cases);
    SwitchRuns(cases, t, key);
  }

  lemma PrintStep(cases: seq<Case>, left: set<nat>, t: Trie, key: Key, c: Case)
    requires LevelOk(t, key) && Printing(cases, left, t, key) && CaseOk(c, t, key)
    requires c.label_ in left && forall k :: k in left ==> c.label_ <= k
    ensures Printing(cases + [c], left - {c.label_}, t, key)
  {
    hide LevelOk, CaseOk, HasLabel;
    OneMoreLabel(cases, c);
  }

  lemma OneMoreLabel(cases: seq<Case>, c: Case)
    ensures forall k :: HasLabel(cases + [c], k) <==> HasLabel(cases, k) || k == c.label_
  {
    forall k
      ensures HasLabel(cases + [c], k) <==> HasLabel(cases, k) || k == c.label_
    {
      assert (cases + [c])[|cases|] == c;
      if HasLabel(cases, k) {
        var i :| 0 <= i < |cases| && cases[i].label_ == k;
        assert (cases + [c])[i].label_ == k;
      }
    }
  }

  method Smallest(keys: set<nat>) returns (k: nat)
    requires keys != {}
    ensures k in keys && forall j :: j in keys ==> k <= j
  {
    k :| k in keys;
    var left := keys - {k};
    while left != {}
      invariant left <= keys && k in keys && forall j :: j in keys && j !in left ==> k <= j
    {
      var j :| j in left;
      if j < k {
        k := j;
      }
      left := left - {j};
    }
  }

  lemma SwitchRuns(cases: seq<Case>, t: Trie, key: Key)
    requires LevelOk(t, key)
    requires forall i :: 0 <= i < |cases| ==> CaseOk(cases[i], t, key)
    requires forall k :: k in t.children <==> HasLabel(cases, k)
    ensures StmtOk(Switch(key, cases), t, key)
  {
    hide LevelOk, CaseOk, HasLabel;
    forall keys | true
      ensures RunsStmt(Switch(key, cases), t, key, keys)
    {
      CasesRun(cases, t, key, keys);
      FoundMeans(t, key, keys);
    }
  }

  lemma {:induction false} FoundMeans(t: Trie, key: Key, keys: Keys)
    requires LevelOk(t, key)
    ensures At(keys, key) !in t.children ==> Find(t, key, keys) == []
  {
  }

  /** The cases run like the one with the label, if there is one. */
  lemma {:induction false} CasesRun(cases: seq<Case>, t: Trie, key: Key, keys: Keys)
    requires LevelOk(t, key)
    requires forall i :: 0 <= i < |cases| ==> CaseOk(cases[i], t, key)
    ensures !HasLabel(cases, At(keys, key)) ==> RunCases(cases, At(keys, key), false, keys) == Broken
    ensures HasLabel(cases, At(keys, key)) ==>
      RunCases(cases, At(keys, key), false, keys) == ResultOf(Find(t, key, keys))
  {
    hide LevelOk;
    var k := At(keys, key);
    if cases != [] {
      if cases[0].label_ == k {
        assert CaseOk(cases[0], t, key);
        assert RunsBody(cases[0].body, t, key, keys);
      } else {
        CasesRun(cases[1..], t, key, keys);
        assert HasLabel(cases, k) <==> HasLabel(cases[1..], k) by {
          if i :| 0 <= i < |cases| && cases[i].label_ == k {
            assert cases[1..][i - 1] == cases[i];
          }
        }
      }
    }
  }

  function ResultOf(found: seq<Row>): Outcome {
    if found == [] then Broken else Returned(found[0].result)
  }

  /** The printed function `SysOp`. */
  function SysOp(s: Stmt, keys: Keys): string {
    match Run(s, keys)
    case Returned(result) => result
    case _ => "Sys_SYS"
  }

  /** The type of the first row with the four keys, or `Sys_SYS`. */
  function FirstType(rows: seq<Row>, keys: Keys): string {
    if rows == [] then "Sys_SYS"
    else if rows[0].keys == keys then rows[0].result
    else FirstType(rows[1..], keys)
  }

  /** No row has the keys. */
  predicate NoRow(rows: seq<Row>, keys: Keys) {
    forall row :: row in rows ==> row.keys != keys
  }

  /** The answer is that of row `i` when it is the first with its keys, and the plain SYS
      instruction when no row has them. */
  lemma {:induction false} FirstTypeMeaning(rows: seq<Row>, keys: Keys, i: nat)
    ensures NoRow(rows, keys) ==> FirstType(rows, keys) == "Sys_SYS"
    ensures i < |rows| && rows[i].keys == keys && NoRow(rows[..i], keys) ==> FirstType(rows, keys) == rows[i].result
  {
    if rows != [] {
      FirstTypeMeaning(rows[1..], keys, if i > 0 then i - 1 else 0);
      if 0 < i < |rows| {
        assert rows[..i] == [rows[0]] + rows[1..][..i - 1];
      }
    }
  }

  lemma {:induction false} FirstOfMatching(rows: seq<Row>, keys: Keys)
    ensures FirstType(rows, keys) ==
      if Matching(rows, keys) == [] then "Sys_SYS" else Matching(rows, keys)[0].result
  {
    if rows != [] {
      FirstOfMatching(rows[1..], keys);
      MatchingHead(rows, keys);
    }
  }

  lemma {:induction false} MatchingHead(rows: seq<Row>, keys: Keys)
    requires rows != []
    ensures Matching(rows, keys) ==
      (if rows[0].keys == keys then [rows[0]] else []) + Matching(rows[1..], keys)
    decreases |rows|
  {
    if |rows| > 1 {
      var init := rows[..|rows| - 1];
      MatchingHead(init, keys);
      assert init[1..] == rows[1..][..|rows| - 2];
    }
  }

  /** From the table to the printed function: the four-level switch answers like a search
      of the table from the top. */
  method Generate(rows: seq<Row>) returns (s: Stmt)
    ensures forall keys :: SysOp(s, keys) == FirstType(rows, keys)
    ensures Nests(s, [Op1, CRn, CRm, Op2])
  {
    FourLevels();
    var table := ReadTable(rows);
    s := PrintCase(table, Op1);
    forall keys | true
      ensures SysOp(s, keys) == FirstType(rows, keys)
    {
      assert RunsStmt(s, table, Op1, keys);
      TableFinds(rows, keys);
      FirstOfMatching(rows, keys);
    }
  }
}
