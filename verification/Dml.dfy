/** INSERT, UPDATE and DELETE planning (`proxy/plan/plan_insert.go`, `plan_update.go`, `plan_delete.go`)
    and what every run of accepted statements does to the stored rows. */
module Dml {
  import opened Lists
  import opened Rules
  import opened Routing
  import opened Semantics
  import opened Plans

  /** `column = expression`, the expression opaque. */
  datatype Assignment = Assignment(name: string, value: nat)

  /** An INSERT or REPLACE; `assignmentMode` is `INSERT INTO t SET ...`, with one row. */
  datatype Insert = Insert(
    assignmentMode: bool,
    columns: seq<string>,
    rows: seq<seq<Operand>>,
    onDuplicate: seq<Assignment>,
    replace: bool,
    ignore: bool)

  datatype Stmt =
    | InsertStmt(ins: Insert)
    | UpdateStmt(list: seq<Assignment>, where: Expr)
    | DeleteStmt(where: Expr)

  // ---------------------------------------------------------------- planning

  /** The last column named like the sharding column, or -1. */
  function ShardingColumnIndex(rule: Rule, columns: seq<string>): (k: int)
    ensures -1 <= k < |columns|
    ensures k != -1 ==> columns[k] == rule.column
    ensures forall j :: k < j < |columns| ==> columns[j] != rule.column
    ensures k == -1 <==> rule.column !in columns
  {
    if columns == [] then -1
    else
      var n := |columns| - 1;
      assert columns == columns[..n] + [columns[n]];
      if columns[n] == rule.column then n else ShardingColumnIndex(rule, columns[..n])
  }

  /** The route after each literal key has narrowed it; other expressions narrow nothing. */
  function NarrowByKeys(rule: Rule, route: seq<int>, keys: seq<Operand>): Result<seq<int>> {
    if keys == [] then Ok(route)
    else
      var n := |keys| - 1;
      var r :- NarrowByKeys(rule, route, keys[..n]);
      if !keys[n].Literal? then Ok(r)
      else
        var idx :- FindTableIndex(rule, keys[n].value);
        Ok(Inter(r, [idx]))
  }

  function KeysOf(rows: seq<seq<Operand>>, col: nat): seq<Operand>
    requires forall k :: 0 <= k < |rows| ==> col < |rows[k]|
  {
    seq(|rows|, k requires 0 <= k < |rows| => rows[k][col])
  }

  function HandleInsertValues(rule: Rule, ins: Insert, col: nat, route: seq<int>): Result<seq<int>> {
    if exists k :: 0 <= k < |ins.rows| && col >= |ins.rows[k]| then Rejected
    else
      var r :- NarrowByKeys(rule, route, KeysOf(ins.rows, col));
      if !ins.assignmentMode && r == [] then Rejected else Ok(r)
  }

  predicate AssignsShardKey(rule: Rule, list: seq<Assignment>) {
    exists k :: 0 <= k < |list| && list[k].name == rule.column
  }

  /** HandleInsertStmt up to SQL generation: the target tables. */
  function PlanInsert(rule: Rule, ins: Insert): Result<seq<int>> {
    if ins.rows == [] || ins.columns == [] || |ins.columns| != |ins.rows[0]| then Rejected
    else if ins.assignmentMode && |ins.rows| != 1 then Rejected
    else
      var col := ShardingColumnIndex(rule, ins.columns);
      if col == -1 || AssignsShardKey(rule, ins.onDuplicate) then Rejected
      else HandleInsertValues(rule, ins, col, rule.indexes)
  }

  /** The value loop of handleInsertValues: Inter on the shared route, row after row. */
  method NarrowRoute(rule: Rule, rows: seq<seq<Operand>>, col: nat, result: RouteResult) returns (ok: bool)
    requires forall k :: 0 <= k < |rows| ==> col < |rows[k]|
    modifies result`indexes
    ensures ok == NarrowByKeys(rule, old(result.indexes), KeysOf(rows, col)).Ok?
    ensures ok ==> result.indexes == NarrowByKeys(rule, old(result.indexes), KeysOf(rows, col)).value
  {
    ghost var keys, start := KeysOf(rows, col), result.indexes;
    for k := 0 to |rows|
      invariant NarrowByKeys(rule, start, keys[..k]) == Ok(result.indexes)
    {
      assert keys[..k + 1][..k] == keys[..k];
      var item := rows[k][col];
      if item.Literal? {
        var routeIdx := FindTableIndex(rule, item.value);
        if routeIdx.Rejected? {
          NarrowRejects(rule, start, keys, k + 1);
          return false;
        }
        result.Inter([routeIdx.value]);
      }
    }
    assert keys[..|rows|] == keys;
    ok := true;
  }

  lemma {:induction false} NarrowRejects(rule: Rule, route: seq<int>, keys: seq<Operand>, k: nat)
    requires k <= |keys| && NarrowByKeys(rule, route, keys[..k]).Rejected?
    ensures NarrowByKeys(rule, route, keys).Rejected?
    decreases |keys| - k
  {
    if k < |keys| {
      assert keys[..k + 1][..k] == keys[..k];
      NarrowRejects(rule, route, keys, k + 1);
    } else {
      assert keys[..k] == keys;
    }
  }

  // ---------------------------------------------------------------- insert targets

  ghost predicate AllKeysLiteral(keys: seq<Operand>) {
    forall k :: 0 <= k < |keys| ==> keys[k].Literal?
  }

  /** Narrowing by literal keys keeps exactly the table that every key maps to. */
  lemma {:induction false} NarrowExact(rule: Rule, route: seq<int>, keys: seq<Operand>)
    requires ValidRule(rule) && Increasing(route) && NarrowByKeys(rule, route, keys).Ok?
    ensures var r := NarrowByKeys(rule, route, keys).value;
            && Increasing(r)
            && forall x :: x in r <==> x in route && forall k :: 0 <= k < |keys| && keys[k].Literal? ==>
                                                      FindTableIndex(rule, keys[k].value) == Ok(x)
    ensures forall k :: 0 <= k < |keys| && keys[k].Literal? ==> FindTableIndex(rule, keys[k].value).Ok?
  {
    if keys != [] {
      var n := |keys| - 1;
      NarrowExact(rule, route, keys[..n]);
      if keys[n].Literal? {
        InterIsIntersection(NarrowByKeys(rule, route, keys[..n]).value, [FindTableIndex(rule, keys[n].value).value]);
      }
      assert forall k :: 0 <= k < n ==> keys[..n][k] == keys[k];
    }
  }

  function InsertKeys(rule: Rule, ins: Insert): seq<Operand>
    requires PlanInsert(rule, ins).Ok?
  {
    KeysOf(ins.rows, ShardingColumnIndex(rule, ins.columns))
  }

  /** An accepted insert with literal keys has exactly one target table, the table of every one of its
      rows; in particular a batch across tables is rejected. */
  lemma InsertSingleTarget(rule: Rule, ins: Insert)
    requires ValidRule(rule) && PlanInsert(rule, ins).Ok? && AllKeysLiteral(InsertKeys(rule, ins))
    ensures |PlanInsert(rule, ins).value| == 1
    ensures forall k :: 0 <= k < |ins.rows| ==>
              FindTableIndex(rule, InsertKeys(rule, ins)[k].value) == Ok(PlanInsert(rule, ins).value[0])
  {
    var keys, r := InsertKeys(rule, ins), PlanInsert(rule, ins).value;
    NarrowExact(rule, rule.indexes, keys);
    var idx := FindTableIndex(rule, keys[0].value).value;
    assert forall x :: x in r ==> x == idx;
    if ins.assignmentMode {
      assert |keys| == 1 && idx in r;
    }
    assert r[0] in r;
    IncreasingUnique(r, [idx]);
  }

  // ---------------------------------------------------------------- execution

  /** What the backend adds: the value of an opaque expression, in a condition or assignment on a row, or in an ON
      DUPLICATE list on the new row and the stored one; whether a row collides with a stored one on a unique key; and
      which of the rows it collides with an ON DUPLICATE list is applied to. */
  datatype Backend = Backend(
    w: World,
    onDuplicate: (nat, Row, Row) -> Value,
    computedKey: nat -> int,
    collides: (Row, Row) -> bool,
    pick: (Row, multiset<Row>) -> Row)

  type Values = (nat, Row) -> Value

  /** The values of an ON DUPLICATE list for a new row. */
  function Duplicate(b: Backend, row: Row): Values { (id: nat, met: Row) => b.onDuplicate(id, row, met) }

  function Assigned(values: Values, rule: Rule, row: Row, a: Assignment): Row {
    var v := values(a.value, row);
    if a.name == rule.column then row.(key := if v.Int? then v.v else 0) else row.(cols := row.cols[a.name := v])
  }

  function Assign(values: Values, rule: Rule, row: Row, list: seq<Assignment>): Row
    decreases |list|
  {
    if list == [] then row else Assign(values, rule, Assigned(values, rule, row, list[0]), list[1..])
  }

  function KeyValue(computed: nat -> int, key: Operand): int {
    match key
    case Literal(v) => if v.Int? then v.v else 0
    case Other(id) => computed(id)
    case Column(_, _) => computed(0)
  }

  /** The rows an insert describes. */
  function NewRows(b: Backend, rule: Rule, ins: Insert, keys: seq<Operand>): seq<Row>
    requires |keys| == |ins.rows|
  {
    seq(|keys|, k requires 0 <= k < |keys| =>
      Row(KeyValue(b.computedKey, keys[k]), Cells(rule.column, ins.columns, ins.rows[k])))
  }

  /** The cells beside the sharding key. */
  function Cells(key: string, columns: seq<string>, cells: seq<Operand>): map<string, Value> {
    if columns == [] || cells == [] then map[]
    else
      var rest := Cells(key, columns[1..], cells[1..]);
      if cells[0].Literal? && columns[0] != key then rest[columns[0] := cells[0].value] else rest
  }

  /** The stored rows a new row collides with, and the others. */
  function Hits(b: Backend, row: Row, table: seq<Row>): seq<Row> {
    if table == [] then []
    else (if b.collides(row, table[0]) then [table[0]] else []) + Hits(b, row, table[1..])
  }

  function Misses(b: Backend, row: Row, table: seq<Row>): seq<Row> {
    if table == [] then []
    else (if b.collides(row, table[0]) then [] else [table[0]]) + Misses(b, row, table[1..])
  }

  /** The first `old_` of the table becomes `new_`. */
  function Swapped(table: seq<Row>, old_: Row, new_: Row): seq<Row> {
    if table == [] then []
    else if table[0] == old_ then [new_] + table[1..]
    else [table[0]] + Swapped(table[1..], old_, new_)
  }

  /** The table without its first `row`. */
  function Rest(table: seq<Row>, row: Row): seq<Row> {
    if table == [] then [] else if table[0] == row then table[1..] else [table[0]] + Rest(table[1..], row)
  }

  /** ON DUPLICATE: the stored row `met` is changed, unless what it becomes collides with another row. */
  function Merge(b: Backend, rule: Rule, ins: Insert, table: seq<Row>, row: Row, met: Row): Result<seq<Row>> {
    var next := Assign(Duplicate(b, row), rule, met, ins.onDuplicate);
    if Hits(b, next, Rest(table, met)) == [] then Ok(Swapped(table, met, next))
    else if ins.ignore then Ok(table)
    else Rejected
  }

  /** One row into one table. Without a collision it is appended. REPLACE deletes the rows it collides with; ON
      DUPLICATE changes the one the backend picks; INSERT IGNORE drops the new row; INSERT fails. */
  function PutRow(b: Backend, rule: Rule, ins: Insert, table: seq<Row>, row: Row): Result<seq<Row>> {
    var hits := Hits(b, row, table);
    if hits == [] then Ok(table + [row])
    else if ins.replace then Ok(Misses(b, row, table) + [row])
    else if ins.onDuplicate != [] then
      var met := b.pick(row, multiset(hits));
      if met in hits then Merge(b, rule, ins, table, row, met) else Ok(table)
    else if ins.ignore then Ok(table)
    else Rejected
  }

  /** The rows of a statement, one after the other; a failing row makes the whole statement fail. */
  function PutRows(b: Backend, rule: Rule, ins: Insert, table: seq<Row>, rows: seq<Row>): Result<seq<Row>>
    decreases |rows|
  {
    if rows == [] then Ok(table)
    else
      var next :- PutRow(b, rule, ins, table, rows[0]);
      PutRows(b, rule, ins, next, rows[1..])
  }

  /** The table after the statement, unchanged when it fails. */
  function Inserted(b: Backend, rule: Rule, ins: Insert, table: seq<Row>, rows: seq<Row>): seq<Row> {
    var r := PutRows(b, rule, ins, table, rows);
    if r.Ok? then r.value else table
  }

  function UpdateRows(b: Backend, rule: Rule, list: seq<Assignment>, e: Expr, rows: seq<Row>): seq<Row> {
    if rows == [] then []
    else [if Eval(b.w, rule, e, rows[0]) == True then Assign(b.w.other, rule, rows[0], list) else rows[0]]
         + UpdateRows(b, rule, list, e, rows[1..])
  }

  /** No two rows collide, one way or the other. */
  predicate Clear(b: Backend, rows: seq<Row>) {
    rows != [] ==>
      (forall r :: r in rows[1..] ==> !b.collides(rows[0], r) && !b.collides(r, rows[0])) && Clear(b, rows[1..])
  }

  /** UPDATE on one table: refused as a whole when two of its rows would collide. */
  function Updated(b: Backend, rule: Rule, list: seq<Assignment>, e: Expr, rows: seq<Row>): seq<Row> {
    var next := UpdateRows(b, rule, list, e, rows);
    if Clear(b, next) then next else rows
  }

  function DeleteRows(b: Backend, rule: Rule, e: Expr, rows: seq<Row>): seq<Row> {
    if rows == [] then []
    else (if Eval(b.w, rule, e, rows[0]) == True then [] else [rows[0]]) + DeleteRows(b, rule, e, rows[1..])
  }

  /** A statement through the proxy: planned, restored per routed table, run on each of them. */
  function Step(b: Backend, rule: Rule, store: Store, stmt: Stmt): Store
    requires ValidRule(rule)
  {
    match stmt
    case InsertStmt(ins) =>
      var plan := PlanInsert(rule, ins);
      if plan.Rejected? then store
      else
        var rows := NewRows(b, rule, ins, InsertKeys(rule, ins));
        map i | i in store :: if i in plan.value then Inserted(b, rule, ins, store[i], rows) else store[i]
    case UpdateStmt(list, where) =>
      var plan := HandleWhere(rule, where);
      if AssignsShardKey(rule, list) || plan.Rejected? then store
      else
        map i | i in store ::
          if i in plan.value.route then Updated(b, rule, list, Restore(plan.value.expr, i), store[i]) else store[i]
    case DeleteStmt(where) =>
      var plan := HandleWhere(rule, where);
      if plan.Rejected? then store
      else
        map i | i in store ::
          if i in plan.value.route then DeleteRows(b, rule, Restore(plan.value.expr, i), store[i]) else store[i]
  }

  function Run(b: Backend, rule: Rule, store: Store, stmts: seq<Stmt>): Store
    requires ValidRule(rule)
  {
    if stmts == [] then store else Run(b, rule, Step(b, rule, store, stmts[0]), stmts[1..])
  }

  // ---------------------------------------------------------------- placement

  ghost predicate TablePlaced(rule: Rule, rows: seq<Row>, i: int) {
    forall k :: 0 <= k < |rows| ==> FindForKey(rule.shard, rows[k].key) == Ok(i)
  }

  /** Every insert of the run gives its shard keys as literals. */
  ghost predicate LiteralKeys(rule: Rule, stmt: Stmt) {
    stmt.InsertStmt? && PlanInsert(rule, stmt.ins).Ok? ==> AllKeysLiteral(InsertKeys(rule, stmt.ins))
  }

  /** Rows as the proxy stores them: the sharding key is kept apart from the other cells. */
  predicate Insertable(rule: Rule, row: Row) { rule.column !in row.cols }

  lemma {:induction false} AssignKeepsKey(values: Values, rule: Rule, row: Row, list: seq<Assignment>)
    requires !AssignsShardKey(rule, list)
    ensures Assign(values, rule, row, list).key == row.key
    ensures Insertable(rule, row) ==> Insertable(rule, Assign(values, rule, row, list))
    decreases |list|
  {
    if list != [] {
      assert list[0].name != rule.column;
      assert forall k :: 0 <= k < |list[1..]| ==> list[1..][k] == list[k + 1];
      AssignKeepsKey(values, rule, Assigned(values, rule, row, list[0]), list[1..]);
    }
  }

  lemma {:induction false} MissesIn(b: Backend, row: Row, table: seq<Row>)
    ensures forall r :: r in Misses(b, row, table) ==> r in table && !b.collides(row, r)
    ensures forall r :: r in Hits(b, row, table) <==> r in table && b.collides(row, r)
  {
    if table != [] {
      MissesIn(b, row, table[1..]);
      assert table == [table[0]] + table[1..];
    }
  }

  lemma {:induction false} SwappedIn(table: seq<Row>, old_: Row, new_: Row)
    ensures forall r :: r in Swapped(table, old_, new_) ==> r in table || (r == new_ && old_ in table)
  {
    if table != [] {
      SwappedIn(table[1..], old_, new_);
      assert table == [table[0]] + table[1..];
    }
  }

  /** Whatever collides, an inserted row is new, was there, or was there and is changed by the ON DUPLICATE list. */
  lemma PutRowIn(b: Backend, rule: Rule, ins: Insert, table: seq<Row>, row: Row, r: Row)
    requires PutRow(b, rule, ins, table, row).Ok? && r in PutRow(b, rule, ins, table, row).value
    ensures r == row || r in table
            || exists met :: met in table && r == Assign(Duplicate(b, row), rule, met, ins.onDuplicate)
  {
    MissesIn(b, row, table);
    var met := b.pick(row, multiset(Hits(b, row, table)));
    SwappedIn(table, met, Assign(Duplicate(b, row), rule, met, ins.onDuplicate));
  }

  lemma PutRowPlaced(b: Backend, rule: Rule, ins: Insert, table: seq<Row>, row: Row, i: int)
    requires !AssignsShardKey(rule, ins.onDuplicate) && PutRow(b, rule, ins, table, row).Ok?
    requires TablePlaced(rule, table, i) && FindForKey(rule.shard, row.key) == Ok(i)
    ensures TablePlaced(rule, PutRow(b, rule, ins, table, row).value, i)
  {
    var next := PutRow(b, rule, ins, table, row).value;
    forall k | 0 <= k < |next| ensures FindForKey(rule.shard, next[k].key) == Ok(i) {
      PutRowIn(b, rule, ins, table, row, next[k]);
      if met :| met in table && next[k] == Assign(Duplicate(b, row), rule, met, ins.onDuplicate) {
        AssignKeepsKey(Duplicate(b, row), rule, met, ins.onDuplicate);
      }
    }
  }

  lemma {:induction false} PutRowsPlaced(b: Backend, rule: Rule, ins: Insert, table: seq<Row>, rows: seq<Row>, i: int)
    requires !AssignsShardKey(rule, ins.onDuplicate)
    requires TablePlaced(rule, table, i) && TablePlaced(rule, rows, i)
    ensures PutRows(b, rule, ins, table, rows).Ok? ==> TablePlaced(rule, PutRows(b, rule, ins, table, rows).value, i)
    decreases |rows|
  {
    if rows != [] && PutRow(b, rule, ins, table, rows[0]).Ok? {
      PutRowPlaced(b, rule, ins, table, rows[0], i);
      PutRowsPlaced(b, rule, ins, PutRow(b, rule, ins, table, rows[0]).value, rows[1..], i);
    }
  }

  lemma {:induction false} UpdateRowsPlaced(b: Backend, rule: Rule, list: seq<Assignment>, e: Expr, rows: seq<Row>,
                                            i: int)
    requires !AssignsShardKey(rule, list) && TablePlaced(rule, rows, i)
    ensures TablePlaced(rule, UpdateRows(b, rule, list, e, rows), i)
  {
    if rows != [] {
      AssignKeepsKey(b.w.other, rule, rows[0], list);
      UpdateRowsPlaced(b, rule, list, e, rows[1..], i);
    }
  }

  lemma {:induction false} DeleteRowsPlaced(b: Backend, rule: Rule, e: Expr, rows: seq<Row>, i: int)
    requires TablePlaced(rule, rows, i)
    ensures TablePlaced(rule, DeleteRows(b, rule, e, rows), i)
  {
    if rows != [] { DeleteRowsPlaced(b, rule, e, rows[1..], i); }
  }

  lemma StepPlaced(b: Backend, rule: Rule, store: Store, stmt: Stmt, i: int)
    requires ValidRule(rule) && i in store && TablePlaced(rule, store[i], i) && LiteralKeys(rule, stmt)
    ensures i in Step(b, rule, store, stmt) && TablePlaced(rule, Step(b, rule, store, stmt)[i], i)
  {
    match stmt
    case InsertStmt(ins) =>
      if PlanInsert(rule, ins).Ok? && i in PlanInsert(rule, ins).value {
        InsertSingleTarget(rule, ins);
        var rows := NewRows(b, rule, ins, InsertKeys(rule, ins));
        PutRowsPlaced(b, rule, ins, store[i], rows, i);
      }
    case UpdateStmt(list, where) =>
      if !AssignsShardKey(rule, list) && HandleWhere(rule, where).Ok? {
        UpdateRowsPlaced(b, rule, list, Restore(HandleWhere(rule, where).value.expr, i), store[i], i);
      }
    case DeleteStmt(where) =>
      if HandleWhere(rule, where).Ok? {
        DeleteRowsPlaced(b, rule, Restore(HandleWhere(rule, where).value.expr, i), store[i], i);
      }
  }

  /** Over every run, accepted or rejected statement by statement, whatever the backend's unique keys
      do, each row stays in the table its key maps to. */
  lemma {:induction false} RunPlaced(b: Backend, rule: Rule, store: Store, stmts: seq<Stmt>)
    requires ValidRule(rule) && Placed(rule, store)
    requires forall k :: 0 <= k < |stmts| ==> LiteralKeys(rule, stmts[k])
    ensures Placed(rule, Run(b, rule, store, stmts))
  {
    if stmts != [] {
      var store' := Step(b, rule, store, stmts[0]);
      forall i | i in store ensures i in store' && TablePlaced(rule, store'[i], i) {
        assert forall k :: 0 <= k < |store[i]| ==> store[i][k] in store[i];
        StepPlaced(b, rule, store, stmts[0], i);
      }
      assert store'.Keys == store.Keys;
      RunPlaced(b, rule, store', stmts[1..]);
    }
  }

  // ---------------------------------------------------------------- computed keys

  /** Every table the insert is sent to is the table of each of its rows. */
  ghost predicate LandsRight(rule: Rule, ins: Insert, computed: nat -> int)
    requires PlanInsert(rule, ins).Ok?
  {
    forall i, k :: i in PlanInsert(rule, ins).value && 0 <= k < |InsertKeys(rule, ins)| ==>
      FindForKey(rule.shard, KeyValue(computed, InsertKeys(rule, ins)[k])) == Ok(i)
  }

  /** No table holds every key. */
  ghost predicate Spread(rule: Rule) {
    forall i :: i in rule.indexes ==> exists k :: FindForKey(rule.shard, k) != Ok(i)
  }

  /** An accepted insert puts its rows where routing looks for them, whatever its computed expressions
      yield, exactly when every row gives the shard key as a literal: other expressions narrow nothing. */
  lemma InsertLandsRightIff(rule: Rule, ins: Insert)
    requires ValidRule(rule) && Spread(rule) && PlanInsert(rule, ins).Ok?
    ensures (forall computed: nat -> int :: LandsRight(rule, ins, computed)) <==> AllKeysLiteral(InsertKeys(rule, ins))
  {
    var keys, route := InsertKeys(rule, ins), PlanInsert(rule, ins).value;
    if AllKeysLiteral(keys) {
      InsertSingleTarget(rule, ins);
    } else {
      var k :| 0 <= k < |keys| && !keys[k].Literal?;
      NarrowExact(rule, rule.indexes, keys);
      if ins.assignmentMode {
        assert k == 0 && rule.indexes[0] in route;
      }
      var i := route[0];
      assert i in route;
      var v :| FindForKey(rule.shard, v) != Ok(i);
      var computed: nat -> int := _ => v;
      assert !LandsRight(rule, ins, computed);
    }
  }

  const COMPUTED_KEY := Insert(false, ["id"], [[Other(0)]], [], false, false)

  lemma ComputedKeyPlan()
    ensures PlanInsert(ParityRule(), COMPUTED_KEY) == Ok([0, 1]) && InsertKeys(ParityRule(), COMPUTED_KEY) == [Other(0)]
  {
    var rule := ParityRule();
    assert COMPUTED_KEY.columns[0] == "id" && ShardingColumnIndex(rule, COMPUTED_KEY.columns) == 0;
    assert KeysOf(COMPUTED_KEY.rows, 0) == [Other(0)] && [Other(0)][..0] == [];
    assert NarrowByKeys(rule, [0, 1], []) == Ok([0, 1]);
  }

  /** `INSERT INTO t (id) VALUES (expression)` over two tables by parity: sent to both, so it cannot land right. */
  lemma ComputedKeyExample(computed: nat -> int)
    ensures ValidRule(ParityRule()) && PlanInsert(ParityRule(), COMPUTED_KEY) == Ok([0, 1])
    ensures !LandsRight(ParityRule(), COMPUTED_KEY, computed)
  {
    ParityRoutes();
    ComputedKeyPlan();
    var rule, k := ParityRule(), computed(0);
    assert 0 in [0, 1] && 1 in [0, 1];
    assert FindForKey(rule.shard, k) == Ok(k % 2);
    assert KeyValue(computed, InsertKeys(rule, COMPUTED_KEY)[0]) == k;
    assert 1 - k % 2 in PlanInsert(rule, COMPUTED_KEY).value;
  }
}
