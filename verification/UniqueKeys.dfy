/** Unique keys over a sharded table: when the proxy enforces them, and when it cannot. */
module UniqueKeys {
  import opened Lists
  import opened Rules
  import opened Routing
  import opened Semantics
  import opened Dml
  import opened SingleTable

  // ---------------------------------------------------------------- uniqueness over runs

  ghost predicate Symmetric(b: Backend) { forall r, q :: b.collides(r, q) ==> b.collides(q, r) }

  lemma {:induction false} ClearMisses(b: Backend, row: Row, rows: seq<Row>)
    requires Clear(b, rows)
    ensures Clear(b, Misses(b, row, rows))
  {
    if rows != [] {
      var h, t := rows[0], Misses(b, row, rows[1..]);
      ClearMisses(b, row, rows[1..]);
      MissesIn(b, row, rows[1..]);
      assert ([h] + t)[1..] == t && [] + t == t;
    }
  }

  lemma ClearAppend(b: Backend, rows: seq<Row>, row: Row)
    requires Symmetric(b) && Clear(b, rows) && forall r :: r in rows ==> !b.collides(row, r)
    ensures Clear(b, rows + [row])
  {
    assert rows + [] == rows && rows + ([row] + []) == rows + [row];
    ClearInsert(b, rows, row, []);
  }

  lemma ClearMerge(b: Backend, rule: Rule, ins: Insert, rows: seq<Row>, row: Row, met: Row)
    requires Symmetric(b) && Clear(b, rows) && met in rows
    ensures Merge(b, rule, ins, rows, row, met).Ok? ==> Clear(b, Merge(b, rule, ins, rows, row, met).value)
  {
    var next, rest := Assign(Duplicate(b, row), rule, met, ins.onDuplicate), Rest(rows, met);
    RestMultiset(rows, met);
    assert multiset(rows) == multiset([] + ([met] + rest));
    ClearPerm(b, rows, [] + ([met] + rest));
    ClearInsert(b, [], met, rest);
    assert [] + rest == rest;
    if Hits(b, next, rest) == [] {
      MissesIn(b, next, rest);
      ClearAppend(b, rest, next);
      SwappedMultiset(rows, met, next);
      ClearPerm(b, rest + [next], Swapped(rows, met, next));
    }
  }

  lemma ClearPutRow(b: Backend, rule: Rule, ins: Insert, rows: seq<Row>, row: Row)
    requires Symmetric(b) && Clear(b, rows)
    ensures PutRow(b, rule, ins, rows, row).Ok? ==> Clear(b, PutRow(b, rule, ins, rows, row).value)
  {
    MissesIn(b, row, rows);
    var hits := Hits(b, row, rows);
    if hits == [] {
      ClearAppend(b, rows, row);
    } else if ins.replace {
      ClearMisses(b, row, rows);
      ClearAppend(b, Misses(b, row, rows), row);
    } else if ins.onDuplicate != [] {
      var met := b.pick(row, multiset(hits));
      if met in hits { ClearMerge(b, rule, ins, rows, row, met); }
    }
  }

  lemma {:induction false} ClearInserted(b: Backend, rule: Rule, ins: Insert, rows: seq<Row>, fresh_: seq<Row>)
    requires Symmetric(b) && Clear(b, rows)
    ensures PutRows(b, rule, ins, rows, fresh_).Ok? ==> Clear(b, PutRows(b, rule, ins, rows, fresh_).value)
    decreases |fresh_|
  {
    if fresh_ != [] {
      ClearPutRow(b, rule, ins, rows, fresh_[0]);
      var next := PutRow(b, rule, ins, rows, fresh_[0]);
      if next.Ok? { ClearInserted(b, rule, ins, next.value, fresh_[1..]); }
    }
  }

  lemma {:induction false} ClearDelete(b: Backend, rule: Rule, e: Expr, rows: seq<Row>)
    requires Clear(b, rows)
    ensures Clear(b, DeleteRows(b, rule, e, rows))
  {
    if rows != [] {
      ClearDelete(b, rule, e, rows[1..]);
      DeleteRowsIn(b, rule, e, rows[1..]);
      var h, t := rows[0], DeleteRows(b, rule, e, rows[1..]);
      assert ([h] + t)[1..] == t && [] + t == t;
    }
  }

  ghost predicate EachClear(b: Backend, store: Store) { forall i :: i in store ==> Clear(b, store[i]) }

  lemma StepClear(b: Backend, rule: Rule, store: Store, stmt: Stmt)
    requires ValidRule(rule) && Symmetric(b) && EachClear(b, store)
    ensures EachClear(b, Step(b, rule, store, stmt))
  {
    forall i | i in Step(b, rule, store, stmt) ensures Clear(b, Step(b, rule, store, stmt)[i]) {
      match stmt
      case InsertStmt(ins) =>
        if PlanInsert(rule, ins).Ok? {
          ClearInserted(b, rule, ins, store[i], NewRows(b, rule, ins, InsertKeys(rule, ins)));
        }
      case UpdateStmt(list, where) =>
      case DeleteStmt(where) =>
        if HandleWhere(rule, where).Ok? {
          ClearDelete(b, rule, Restore(HandleWhere(rule, where).value.expr, i), store[i]);
        }
    }
  }

  lemma {:induction false} RunKeeps(b: Backend, rule: Rule, store: Store, stmts: seq<Stmt>)
    requires ValidRule(rule) && Symmetric(b) && EachClear(b, store) && Placed(rule, store) && Proper(rule, store)
    requires forall k :: 0 <= k < |stmts| ==> Plain(rule, stmts[k])
    ensures var after := Run(b, rule, store, stmts);
            EachClear(b, after) && Placed(rule, after) && Proper(rule, after)
    decreases |stmts|
  {
    if stmts != [] {
      StepClear(b, rule, store, stmts[0]);
      StepKeepsPlaced(b, rule, store, stmts[0]);
      StepKeepsProper(b, rule, store, stmts[0]);
      RunKeeps(b, rule, Step(b, rule, store, stmts[0]), stmts[1..]);
    }
  }

  /** With local collisions every run through the proxy, refused in parts or not, keeps the unique keys over all tables
      together. */
  lemma UniqueAcrossTables(b: Backend, rule: Rule, store: Store, stmts: seq<Stmt>)
    requires ValidRule(rule) && Placed(rule, store) && Proper(rule, store) && Local(b, rule) && Symmetric(b)
    requires forall k :: 0 <= k < |stmts| ==> Plain(rule, stmts[k])
    requires EachClear(b, store)
    ensures Placed(rule, Run(b, rule, store, stmts))
    ensures Clear(b, Logical(Run(b, rule, store, stmts), rule.indexes))
  {
    RunKeeps(b, rule, store, stmts);
    var after := Run(b, rule, store, stmts);
    forall i | i in rule.indexes ensures AtTable(rule, after[i], i) { StoreAt(rule, after, i); }
    ClearLogical(b, rule, after, rule.indexes);
  }

  // ---------------------------------------------------------------- assignments that leave unique keys alone

  /** The assignments leave the unique columns alone. */
  ghost predicate KeepsUnique(b: Backend, rule: Rule, list: seq<Assignment>) {
    forall row :: Twins(b, row, Assign(b.w.other, rule, row, list))
  }

  /** `q` collides with the rows `r` collides with. */
  ghost predicate Twins(b: Backend, r: Row, q: Row) {
    forall x :: (b.collides(r, x) <==> b.collides(q, x)) && (b.collides(x, r) <==> b.collides(x, q))
  }

  lemma {:induction false} ClearTwins(b: Backend, rows: seq<Row>, next: seq<Row>)
    requires Clear(b, rows) && |next| == |rows| && forall k :: 0 <= k < |rows| ==> Twins(b, rows[k], next[k])
    ensures Clear(b, next)
  {
    if rows != [] {
      ClearTwins(b, rows[1..], next[1..]);
      forall q | q in next[1..] ensures !b.collides(next[0], q) && !b.collides(q, next[0]) {
        var k :| 0 <= k < |next[1..]| && next[1..][k] == q;
        assert Twins(b, rows[k + 1], next[k + 1]) && rows[1..][k] in rows[1..];
        assert Twins(b, rows[0], next[0]);
      }
    }
  }

  lemma {:induction false} UpdateTwins(b: Backend, rule: Rule, list: seq<Assignment>, e: Expr, rows: seq<Row>, k: nat)
    requires KeepsUnique(b, rule, list) && k < |rows|
    ensures |UpdateRows(b, rule, list, e, rows)| == |rows| && Twins(b, rows[k], UpdateRows(b, rule, list, e, rows)[k])
  {
    assert Twins(b, rows[0], Assign(b.w.other, rule, rows[0], list));
    if |rows| > 1 { UpdateTwins(b, rule, list, e, rows[1..], if k == 0 then 0 else k - 1); }
  }

  lemma KeptAccepted(b: Backend, rule: Rule, list: seq<Assignment>, e: Expr, rows: seq<Row>)
    requires KeepsUnique(b, rule, list) && Clear(b, rows)
    ensures Clear(b, UpdateRows(b, rule, list, e, rows))
  {
    if rows != [] {
      UpdateTwins(b, rule, list, e, rows, 0);
      forall k | 0 <= k < |rows| { UpdateTwins(b, rule, list, e, rows, k); }
      ClearTwins(b, rows, UpdateRows(b, rule, list, e, rows));
    }
  }

  /** A run whose UPDATEs leave the unique columns alone has none that some tables refuse. */
  lemma {:induction false} KeptUniform(b: Backend, rule: Rule, store: Store, stmts: seq<Stmt>)
    requires ValidRule(rule) && Symmetric(b) && EachClear(b, store) && Placed(rule, store)
    requires forall k :: 0 <= k < |stmts| ==>
               Plain(rule, stmts[k]) && (stmts[k].UpdateStmt? ==> KeepsUnique(b, rule, stmts[k].list))
    ensures Uniform(b, rule, store, stmts)
    decreases |stmts|
  {
    if stmts != [] {
      if stmts[0].UpdateStmt? {
        forall i | i in rule.indexes ensures Clear(b, UpdateRows(b, rule, stmts[0].list, stmts[0].where, store[i])) {
          KeptAccepted(b, rule, stmts[0].list, stmts[0].where, store[i]);
        }
      }
      StepClear(b, rule, store, stmts[0]);
      StepKeepsPlaced(b, rule, store, stmts[0]);
      KeptUniform(b, rule, Step(b, rule, store, stmts[0]), stmts[1..]);
    }
  }

  // ---------------------------------------------------------------- exactly when the proxy refines one table

  /** A run, from a state in which the sub-tables hold the rows of the one table, without an UPDATE that some tables
      refuse and others carry out. */
  ghost predicate Runnable(b: Backend, rule: Rule, store: Store, rows: seq<Row>, stmts: seq<Stmt>)
    requires ValidRule(rule)
  {
    && Placed(rule, store) && Proper(rule, store)
    && multiset(Logical(store, rule.indexes)) == multiset(rows) && Clear(b, rows)
    && (forall k :: 0 <= k < |stmts| ==> Plain(rule, stmts[k]))
    && Uniform(b, rule, store, stmts)
  }

  /** After the run they still do. */
  ghost predicate Agree(b: Backend, rule: Rule, store: Store, rows: seq<Row>, stmts: seq<Stmt>)
    requires ValidRule(rule)
  {
    var after := Run(b, rule, store, stmts);
    && (forall i :: i in rule.indexes ==> i in after)
    && multiset(Logical(after, rule.indexes)) == multiset(TableRun(b, rule, rows, stmts))
  }

  ghost predicate RefinesOneTable(b: Backend, rule: Rule)
    requires ValidRule(rule)
  {
    forall store, rows, stmts :: Runnable(b, rule, store, rows, stmts) ==> Agree(b, rule, store, rows, stmts)
  }

  /** Columns and literals that describe the cells of a row. */
  lemma {:induction false} Described(key: string, cols: map<string, Value>)
    returns (columns: seq<string>, cells: seq<Operand>)
    requires key !in cols
    ensures |columns| == |cells| && key !in columns && Cells(key, columns, cells) == cols
    decreases |cols|
  {
    if cols == map[] {
      columns, cells := [], [];
    } else {
      assert cols.Keys != {};
      var name :| name in cols;
      var restColumns, restCells := Described(key, cols - {name});
      columns, cells := [name] + restColumns, [Literal(cols[name])] + restCells;
      assert columns[1..] == restColumns && cells[1..] == restCells;
      assert (cols - {name})[name := cols[name]] == cols;
    }
  }

  /** The REPLACE statement that describes a row. */
  lemma ReplaceOf(b: Backend, rule: Rule, row: Row, t: int) returns (ins: Insert)
    requires ValidRule(rule) && Insertable(rule, row) && FindForKey(rule.shard, row.key) == Ok(t)
    ensures ins.replace && ins.onDuplicate == [] && LiteralKeys(rule, InsertStmt(ins))
    ensures PlanInsert(rule, ins) == Ok([t]) && NewRows(b, rule, ins, InsertKeys(rule, ins)) == [row]
  {
    var columns, cells := Described(rule.column, row.cols);
    ins := ReplaceRow(rule.column, columns, row.key, cells);
    ReplaceRowPlan(b, rule, columns, row.key, cells, t);
  }

  /** `REPLACE INTO t (key column, columns) VALUES (k, cells)`. */
  function ReplaceRow(key: string, columns: seq<string>, k: int, cells: seq<Operand>): Insert {
    Insert(false, [key] + columns, [[Literal(Int(k))] + cells], [], true, false)
  }

  lemma ReplaceRowPlan(b: Backend, rule: Rule, columns: seq<string>, k: int, cells: seq<Operand>, t: int)
    requires ValidRule(rule) && |columns| == |cells| && rule.column !in columns && FindForKey(rule.shard, k) == Ok(t)
    ensures var ins := ReplaceRow(rule.column, columns, k, cells);
            && LiteralKeys(rule, InsertStmt(ins)) && PlanInsert(rule, ins) == Ok([t])
            && NewRows(b, rule, ins, InsertKeys(rule, ins)) == [Row(k, Cells(rule.column, columns, cells))]
  {
    var ins := ReplaceRow(rule.column, columns, k, cells);
    var all, values := ins.columns, ins.rows[0];
    assert all[1..] == columns && values[1..] == cells;
    assert ShardingColumnIndex(rule, all) == 0 by {
      assert all[0] == rule.column;
      assert forall j :: 0 < j < |all| ==> all[j] in columns;
    }
    OneKeyRoute(rule, k, t);
    assert KeysOf(ins.rows, 0) == [Literal(Int(k))];
    InsertSingleTarget(rule, ins);
    assert PlanInsert(rule, ins).value == [t];
  }

  lemma OneKeyRoute(rule: Rule, key: int, t: int)
    requires ValidRule(rule) && FindForKey(rule.shard, key) == Ok(t)
    ensures NarrowByKeys(rule, rule.indexes, [Literal(Int(key))]).Ok?
    ensures NarrowByKeys(rule, rule.indexes, [Literal(Int(key))]).value != []
  {
    assert [Literal(Int(key))][..0] == [];
    InterIsIntersection(rule.indexes, [t]);
    assert t in Inter(rule.indexes, [t]);
  }

  /** A store with one row. */
  function OneRow(rule: Rule, i: int, row: Row): Store {
    map j | j in rule.indexes :: if j == i then [row] else []
  }

  lemma OneRowLogical(rule: Rule, i: int, row: Row)
    requires ValidRule(rule) && FindForKey(rule.shard, row.key) == Ok(i)
    ensures Placed(rule, OneRow(rule, i, row))
    ensures multiset(Logical(OneRow(rule, i, row), rule.indexes)) == multiset([row])
  {
    var store := OneRow(rule, i, row);
    LogicalSplit(store, rule.indexes, i);
    WithoutIn(rule.indexes, i);
    AllEmpty(store, Without(rule.indexes, i));
  }

  lemma {:induction false} AllEmpty(store: Store, all: seq<int>)
    requires forall i :: i in all ==> i in store && store[i] == []
    ensures Logical(store, all) == []
  {
    if all != [] {
      assert all[0] in all;
      AllEmpty(store, all[1..]);
    }
  }

  lemma OneRowRunnable(b: Backend, rule: Rule, i: int, r: Row, ins: Insert)
    requires ValidRule(rule) && RowAt(rule, r, i) && LiteralKeys(rule, InsertStmt(ins))
    ensures Runnable(b, rule, OneRow(rule, i, r), [r], [InsertStmt(ins)])
  {
    OneRowLogical(rule, i, r);
    assert Clear(b, [r]) by { assert [r][1..] == []; }
    var store, stmt := OneRow(rule, i, r), InsertStmt(ins);
    assert [stmt][1..] == [] && Uniform(b, rule, Step(b, rule, store, stmt), []);
  }

  /** The proxy keeps the row of the other table. */
  lemma OtherTableKept(b: Backend, rule: Rule, i: int, r: Row, ins: Insert, t: int)
    requires ValidRule(rule) && i in rule.indexes && PlanInsert(rule, ins) == Ok([t]) && i != t
    ensures var after := Run(b, rule, OneRow(rule, i, r), [InsertStmt(ins)]);
            && (forall j :: j in rule.indexes ==> j in after)
            && r in Logical(after, rule.indexes)
  {
    var store := OneRow(rule, i, r);
    var after := Step(b, rule, store, InsertStmt(ins));
    assert [InsertStmt(ins)][1..] == [];
    assert Run(b, rule, after, []) == after;
    assert after[i] == [r];
    LogicalIn(after, rule.indexes, r);
  }

  /** The one table replaces the row. */
  lemma RowReplaced(b: Backend, rule: Rule, r: Row, ins: Insert, row: Row)
    requires ValidRule(rule) && PlanInsert(rule, ins).Ok? && ins.replace && b.collides(row, r)
    requires NewRows(b, rule, ins, InsertKeys(rule, ins)) == [row]
    ensures TableRun(b, rule, [r], [InsertStmt(ins)]) == [row]
  {
    ReplacesAll(b, rule, ins, row, r);
    assert [InsertStmt(ins)][1..] == [];
    assert TableRun(b, rule, [row], []) == [row];
  }

  /** A collision across tables is missed: the single table replaces the row, the proxy keeps both. */
  lemma MissedCollision(b: Backend, rule: Rule, row: Row, r: Row)
    returns (store: Store, rows: seq<Row>, stmts: seq<Stmt>)
    requires ValidRule(rule) && Insertable(rule, row) && Insertable(rule, r)
    requires b.collides(row, r) && !SameTable(rule, row.key, r.key)
    ensures Runnable(b, rule, store, rows, stmts) && !Agree(b, rule, store, rows, stmts)
  {
    var t, i := FindForKey(rule.shard, row.key).value, FindForKey(rule.shard, r.key).value;
    var ins := ReplaceOf(b, rule, row, t);
    store, rows, stmts := OneRow(rule, i, r), [r], [InsertStmt(ins)];
    OneRowRunnable(b, rule, i, r, ins);
    OtherTableKept(b, rule, i, r, ins, t);
    RowReplaced(b, rule, r, ins, row);
    assert r in multiset(Logical(Run(b, rule, store, stmts), rule.indexes)) && r !in multiset([row]);
  }

  lemma ReplacesAll(b: Backend, rule: Rule, ins: Insert, row: Row, r: Row)
    requires ins.replace && b.collides(row, r)
    ensures Inserted(b, rule, ins, [r], [row]) == [row]
  {
    assert [r][1..] == [] && [row][1..] == [];
    assert Hits(b, row, [r]) == [r] && Misses(b, row, [r]) == [];
    assert [] + [row] == [row];
    assert PutRow(b, rule, ins, [r], row) == Ok([row]);
    assert PutRows(b, rule, ins, [row], []) == Ok([row]);
  }

  /** The proxy refines one table over all runs exactly when collisions are local. */
  lemma RefinesIffLocal(b: Backend, rule: Rule)
    requires ValidRule(rule)
    ensures RefinesOneTable(b, rule) <==> Local(b, rule)
  {
    if Local(b, rule) {
      forall store, rows, stmts | Runnable(b, rule, store, rows, stmts) ensures Agree(b, rule, store, rows, stmts) {
        RunRefines(b, rule, store, rows, stmts);
      }
    } else {
      var row, r :| Insertable(rule, row) && Insertable(rule, r) && b.collides(row, r)
                    && !SameTable(rule, row.key, r.key);
      var store, rows, stmts := MissedCollision(b, rule, row, r);
    }
  }

  // ---------------------------------------------------------------- unique columns

  /** The value of a column of a row. */
  function CellOf(rule: Rule, row: Row, column: string): Value {
    if column == rule.column then Int(row.key) else if column in row.cols then row.cols[column] else Null
  }

  /** A unique key over the columns: rows collide when they agree on all of them and none is NULL. */
  function UniqueOn(rule: Rule, columns: seq<string>): (Row, Row) -> bool {
    (r: Row, q: Row) => forall k :: 0 <= k < |columns| ==>
      CellOf(rule, r, columns[k]) == CellOf(rule, q, columns[k]) && !CellOf(rule, r, columns[k]).Null?
  }

  /** A unique key that has the sharding column among its columns is enforced. */
  lemma KeyedUniqueIsLocal(b: Backend, rule: Rule, columns: seq<string>)
    requires b.collides == UniqueOn(rule, columns) && rule.column in columns
    ensures Local(b, rule) && Symmetric(b)
  {
    var k :| 0 <= k < |columns| && columns[k] == rule.column;
    forall row, r | b.collides(row, r) ensures row.key == r.key {
      assert CellOf(rule, row, columns[k]) == CellOf(rule, r, columns[k]);
    }
  }

  /** Assignments to other columns leave a unique key alone. */
  lemma {:induction false} OtherColumnsKept(values: Values, rule: Rule, row: Row, list: seq<Assignment>, column: string)
    requires forall k :: 0 <= k < |list| ==> list[k].name != column
    ensures CellOf(rule, Assign(values, rule, row, list), column) == CellOf(rule, row, column)
    decreases |list|
  {
    if list != [] {
      assert forall k :: 0 <= k < |list[1..]| ==> list[1..][k] == list[k + 1];
      OtherColumnsKept(values, rule, Assigned(values, rule, row, list[0]), list[1..], column);
    }
  }

  lemma KeepsUniqueColumns(b: Backend, rule: Rule, columns: seq<string>, list: seq<Assignment>)
    requires b.collides == UniqueOn(rule, columns)
    requires forall k :: 0 <= k < |list| ==> list[k].name !in columns
    ensures KeepsUnique(b, rule, list)
  {
    forall row, k | 0 <= k < |columns|
      ensures CellOf(rule, Assign(b.w.other, rule, row, list), columns[k]) == CellOf(rule, row, columns[k])
    {
      OtherColumnsKept(b.w.other, rule, row, list, columns[k]);
    }
  }

  // ---------------------------------------------------------------- a unique key the proxy cannot enforce

  /** `REPLACE INTO t (id, name) VALUES (k, 7)`. */
  function ReplaceName(k: int): Insert { ReplaceRow("id", ["name"], k, [Literal(Int(7))]) }

  function Named(k: int): Row { Row(k, map["name" := Int(7)]) }

  lemma ReplaceNamePlan(b: Backend, k: int)
    ensures ValidRule(ParityRule()) && PlanInsert(ParityRule(), ReplaceName(k)) == Ok([k % 2])
    ensures NewRows(b, ParityRule(), ReplaceName(k), InsertKeys(ParityRule(), ReplaceName(k))) == [Named(k)]
  {
    ParityRoutes();
    ReplaceRowPlan(b, ParityRule(), ["name"], k, [Literal(Int(7))], k % 2);
    assert ["name"][1..] == [] && [Literal(Int(7))][1..] == [];
    assert Cells("id", [], []) == map[];
    assert Cells("id", ["name"], [Literal(Int(7))]) == map["name" := Int(7)];
  }

  lemma AppendsOne(b: Backend, rule: Rule, ins: Insert, row: Row)
    ensures Inserted(b, rule, ins, [], [row]) == [row]
  {
    assert [row][1..] == [] && [] + [row] == [row];
    assert PutRow(b, rule, ins, [], row) == Ok([row]);
    assert PutRows(b, rule, ins, [row], []) == Ok([row]);
  }

  lemma NamesCollide(b: Backend)
    requires b.collides == UniqueOn(ParityRule(), ["name"])
    ensures b.collides(Named(1), Named(0))
  {
  }

  /** REPLACE (0, 7), then REPLACE (1, 7), over two tables by parity with `name` unique: two rows against one. */
  lemma ParityReplaceDiverges(b: Backend)
    requires b.collides == UniqueOn(ParityRule(), ["name"])
    ensures ValidRule(ParityRule())
    ensures var rule, stmts := ParityRule(), [InsertStmt(ReplaceName(0)), InsertStmt(ReplaceName(1))];
            && Run(b, rule, map[0 := [], 1 := []], stmts) == map[0 := [Named(0)], 1 := [Named(1)]]
            && TableRun(b, rule, [], stmts) == [Named(1)]
  {
    var rule := ParityRule();
    ReplaceNamePlan(b, 0);
    ReplaceNamePlan(b, 1);
    NamesCollide(b);
    ReplaceTwo(b, rule, ReplaceName(0), ReplaceName(1), 0, 1, Named(0), Named(1));
  }

  lemma ReplaceTwo(b: Backend, rule: Rule, first: Insert, second: Insert, i: int, j: int, r: Row, q: Row)
    requires ValidRule(rule) && i != j && second.replace && b.collides(q, r)
    requires PlanInsert(rule, first) == Ok([i]) && NewRows(b, rule, first, InsertKeys(rule, first)) == [r]
    requires PlanInsert(rule, second) == Ok([j]) && NewRows(b, rule, second, InsertKeys(rule, second)) == [q]
    ensures Run(b, rule, map[i := [], j := []], [InsertStmt(first), InsertStmt(second)]) == map[i := [r], j := [q]]
    ensures TableRun(b, rule, [], [InsertStmt(first), InsertStmt(second)]) == [q]
  {
    var empty: Store := map[i := [], j := []];
    AppendsTo(b, rule, empty, first, i, r);
    AppendsTo(b, rule, empty[i := [r]], second, j, q);
    assert empty[i := [r]][j := [q]] == map[i := [r], j := [q]];
    assert TableStep(b, rule, [], InsertStmt(first)) == [r] by { AppendsOne(b, rule, first, r); }
    assert TableStep(b, rule, [r], InsertStmt(second)) == [q] by { ReplacesAll(b, rule, second, q, r); }
    TwoSteps(b, rule, empty, [], InsertStmt(first), InsertStmt(second));
  }

  lemma AppendsTo(b: Backend, rule: Rule, store: Store, ins: Insert, t: int, row: Row)
    requires ValidRule(rule) && PlanInsert(rule, ins) == Ok([t]) && t in store && store[t] == []
    requires NewRows(b, rule, ins, InsertKeys(rule, ins)) == [row]
    ensures Step(b, rule, store, InsertStmt(ins)) == store[t := [row]]
  {
    InsertStepAt(b, rule, store, ins, t);
    AppendsOne(b, rule, ins, row);
  }

  lemma TwoSteps(b: Backend, rule: Rule, store: Store, rows: seq<Row>, first: Stmt, second: Stmt)
    requires ValidRule(rule)
    ensures Run(b, rule, store, [first, second]) == Step(b, rule, Step(b, rule, store, first), second)
    ensures TableRun(b, rule, rows, [first, second]) == TableStep(b, rule, TableStep(b, rule, rows, first), second)
  {
    assert [first, second][1..] == [second] && [second][1..] == [];
    var one, two := Step(b, rule, store, first), Step(b, rule, Step(b, rule, store, first), second);
    assert Run(b, rule, two, []) == two && Run(b, rule, one, [second]) == two;
    var t1, t2 := TableStep(b, rule, rows, first), TableStep(b, rule, TableStep(b, rule, rows, first), second);
    assert TableRun(b, rule, t2, []) == t2 && TableRun(b, rule, t1, [second]) == t2;
  }

  // ---------------------------------------------------------------- an UPDATE refused in part

  function Item(id: int, name: int): Row { Row(id, map["name" := Int(name)]) }

  /** `UPDATE t SET name = 7`. */
  function Rename(): Stmt { UpdateStmt([Assignment("name", 0)], Absent) }

  lemma Renamed(b: Backend, id: int, name: int)
    requires forall r :: b.w.other(0, r) == Int(7)
    ensures Assign(b.w.other, ParityRule(), Item(id, name), [Assignment("name", 0)]) == Item(id, 7)
  {
    var values, list := b.w.other, [Assignment("name", 0)];
    assert list[1..] == [];
    assert Assigned(values, ParityRule(), Item(id, name), list[0]) == Item(id, 7);
    assert Assign(values, ParityRule(), Item(id, 7), []) == Item(id, 7);
  }

  lemma {:induction false} RenamedRows(b: Backend, rows: seq<Row>, items: seq<(int, int)>)
    requires forall r :: b.w.other(0, r) == Int(7)
    requires |rows| == |items| && forall k :: 0 <= k < |rows| ==> rows[k] == Item(items[k].0, items[k].1)
    ensures UpdateRows(b, ParityRule(), [Assignment("name", 0)], Absent, rows)
            == seq(|rows|, k requires 0 <= k < |rows| => Item(items[k].0, 7))
  {
    if rows != [] {
      Renamed(b, items[0].0, items[0].1);
      RenamedRows(b, rows[1..], items[1..]);
    }
  }

  const TWO: seq<Row> := [Item(0, 1), Item(0, 2)]
  const ONE: seq<Row> := [Item(1, 3)]

  lemma RenameOutcomes(b: Backend)
    requires b.collides == UniqueOn(ParityRule(), ["id", "name"]) && forall r :: b.w.other(0, r) == Int(7)
    ensures Updated(b, ParityRule(), [Assignment("name", 0)], Absent, TWO) == TWO
    ensures Updated(b, ParityRule(), [Assignment("name", 0)], Absent, ONE) == [Item(1, 7)]
    ensures Updated(b, ParityRule(), [Assignment("name", 0)], Absent, TWO + ONE) == TWO + ONE
  {
    var rule, list := ParityRule(), [Assignment("name", 0)];
    RenamedRows(b, TWO, [(0, 1), (0, 2)]);
    RenamedRows(b, ONE, [(1, 3)]);
    RenamedRows(b, TWO + ONE, [(0, 1), (0, 2), (1, 3)]);
    SevenCollides(b);
    assert UpdateRows(b, rule, list, Absent, TWO) == [Item(0, 7), Item(0, 7)];
    assert UpdateRows(b, rule, list, Absent, ONE) == [Item(1, 7)];
    assert UpdateRows(b, rule, list, Absent, TWO + ONE) == [Item(0, 7), Item(0, 7), Item(1, 7)];
  }

  /** An UPDATE without a condition goes to every table. */
  lemma EverywhereUpdated(b: Backend, rule: Rule, list: seq<Assignment>, two: seq<Row>, one: seq<Row>,
                          changed: seq<Row>)
    requires ValidRule(rule) && rule.indexes == [0, 1] && !AssignsShardKey(rule, list)
    requires Updated(b, rule, list, Absent, two) == two && Updated(b, rule, list, Absent, one) == changed
    ensures Step(b, rule, map[0 := two, 1 := one], UpdateStmt(list, Absent)) == map[0 := two, 1 := changed]
  {
    assert Restore(Absent, 0) == Absent && Restore(Absent, 1) == Absent;
    assert HandleWhere(rule, Absent) == Ok(Routed(false, [0, 1], Absent));
  }

  lemma RenameElsewhere()
    ensures !AssignsShardKey(ParityRule(), [Assignment("name", 0)])
  {
  }

  /** With (id, name) unique, rows (0, 1) and (0, 2) in one table and (1, 3) in the other, `SET name = 7`: the first
      table refuses, the second is changed, and one table would refuse the statement. */
  lemma PartialUpdateDiverges(b: Backend)
    requires b.collides == UniqueOn(ParityRule(), ["id", "name"]) && forall r :: b.w.other(0, r) == Int(7)
    ensures ValidRule(ParityRule()) && Local(b, ParityRule())
    ensures Step(b, ParityRule(), map[0 := TWO, 1 := ONE], Rename()) == map[0 := TWO, 1 := [Item(1, 7)]]
    ensures TableStep(b, ParityRule(), TWO + ONE, Rename()) == TWO + ONE
  {
    assert ValidRule(ParityRule()) by { ParityRoutes(); }
    assert Local(b, ParityRule()) by {
      assert ["id", "name"][0] == "id";
      KeyedUniqueIsLocal(b, ParityRule(), ["id", "name"]);
    }
    RenameOutcomes(b);
    RenameElsewhere();
    EverywhereUpdated(b, ParityRule(), [Assignment("name", 0)], TWO, ONE, [Item(1, 7)]);
  }

  lemma SevenCollides(b: Backend)
    requires b.collides == UniqueOn(ParityRule(), ["id", "name"])
    ensures !Clear(b, [Item(0, 7), Item(0, 7)]) && !Clear(b, [Item(0, 7), Item(0, 7), Item(1, 7)])
    ensures Clear(b, [Item(1, 7)])
  {
    var x, y := Item(0, 7), Item(1, 7);
    assert b.collides(x, x);
    assert [x, x][1..] == [x] && x in [x] && [x, x, y][1..] == [x, y] && x in [x, y] && [y][1..] == [];
  }
}
