/** The sharded store behaves like one MySQL table over every run of INSERT, UPDATE, DELETE and SELECT. */
module SingleTable {
  import opened Lists
  import opened Rules
  import opened Routing
  import opened Semantics
  import opened Dml

  // ---------------------------------------------------------------- the unsharded table

  function TableStep(b: Backend, rule: Rule, rows: seq<Row>, stmt: Stmt): seq<Row>
    requires ValidRule(rule)
  {
    match stmt
    case InsertStmt(ins) =>
      if PlanInsert(rule, ins).Rejected? then rows
      else Inserted(b, rule, ins, rows, NewRows(b, rule, ins, InsertKeys(rule, ins)))
    case UpdateStmt(list, where) =>
      if AssignsShardKey(rule, list) || HandleWhere(rule, where).Rejected? then rows
      else Updated(b, rule, list, where, rows)
    case DeleteStmt(where) =>
      if HandleWhere(rule, where).Rejected? then rows else DeleteRows(b, rule, where, rows)
  }

  function TableRun(b: Backend, rule: Rule, rows: seq<Row>, stmts: seq<Stmt>): seq<Row>
    requires ValidRule(rule)
    decreases |stmts|
  {
    if stmts == [] then rows else TableRun(b, rule, TableStep(b, rule, rows, stmts[0]), stmts[1..])
  }

  /** Every stored row keeps its sharding key apart from its other cells. */
  ghost predicate Proper(rule: Rule, store: Store) {
    forall i, row :: i in store && row in store[i] ==> Insertable(rule, row)
  }

  /** Two keys that have tables have the same one. */
  predicate SameTable(rule: Rule, k: int, l: int) {
    var i, j := FindForKey(rule.shard, k), FindForKey(rule.shard, l);
    i.Ok? && j.Ok? ==> i == j
  }

  /** Collisions are local: rows collide only within a table. */
  ghost predicate Local(b: Backend, rule: Rule) {
    forall row, r :: Insertable(rule, row) && Insertable(rule, r) && b.collides(row, r) ==>
      SameTable(rule, row.key, r.key)
  }

  ghost predicate Plain(rule: Rule, stmt: Stmt) {
    match stmt
    case InsertStmt(ins) => LiteralKeys(rule, stmt)
    case UpdateStmt(list, where) => BoundsOk(rule, where) && Undecorated(where)
    case DeleteStmt(where) => BoundsOk(rule, where) && Undecorated(where)
  }

  /** An UPDATE that no table refuses, or that changes none of the tables that accept it. */
  ghost predicate AllOrNone(b: Backend, rule: Rule, store: Store, list: seq<Assignment>, where: Expr)
    requires forall i :: i in rule.indexes ==> i in store
  {
    AllAccept(b, rule, store, list, where) || NoneChange(b, rule, store, list, where)
  }

  ghost predicate AllAccept(b: Backend, rule: Rule, store: Store, list: seq<Assignment>, where: Expr)
    requires forall i :: i in rule.indexes ==> i in store
  {
    forall i :: i in rule.indexes ==> Clear(b, UpdateRows(b, rule, list, where, store[i]))
  }

  ghost predicate NoneChange(b: Backend, rule: Rule, store: Store, list: seq<Assignment>, where: Expr)
    requires forall i :: i in rule.indexes ==> i in store
  {
    forall i :: i in rule.indexes ==> multiset(Updated(b, rule, list, where, store[i])) == multiset(store[i])
  }

  /** The statement is not an UPDATE that some tables refuse and others carry out. */
  ghost predicate Whole(b: Backend, rule: Rule, store: Store, stmt: Stmt)
    requires ValidRule(rule) && forall i :: i in rule.indexes ==> i in store
  {
    stmt.UpdateStmt? && !AssignsShardKey(rule, stmt.list) && HandleWhere(rule, stmt.where).Ok? ==>
      AllOrNone(b, rule, store, stmt.list, stmt.where)
  }

  /** No statement of the run is one. */
  ghost predicate Uniform(b: Backend, rule: Rule, store: Store, stmts: seq<Stmt>)
    requires ValidRule(rule)
    decreases |stmts|
  {
    stmts != [] ==>
      && (forall i :: i in rule.indexes ==> i in store)
      && Whole(b, rule, store, stmts[0]) && Uniform(b, rule, Step(b, rule, store, stmts[0]), stmts[1..])
  }

  // ---------------------------------------------------------------- row by row

  // Every effect on a table is a row-by-row one.

  function Updater(b: Backend, rule: Rule, list: seq<Assignment>, e: Expr): Row -> seq<Row> {
    row => [if Eval(b.w, rule, e, row) == True then Assign(b.w.other, rule, row, list) else row]
  }

  function Deleter(b: Backend, rule: Rule, e: Expr): Row -> seq<Row> {
    row => if Eval(b.w, rule, e, row) == True then [] else [row]
  }

  function Selector(w: World, rule: Rule, e: Expr): Row -> seq<Row> {
    row => if Eval(w, rule, e, row) == True then [row] else []
  }

  lemma {:induction false} UpdateIsFlatMap(b: Backend, rule: Rule, list: seq<Assignment>, e: Expr, rows: seq<Row>)
    ensures UpdateRows(b, rule, list, e, rows) == FlatMap(Updater(b, rule, list, e), rows)
  {
    if rows != [] { UpdateIsFlatMap(b, rule, list, e, rows[1..]); }
  }

  lemma {:induction false} DeleteIsFlatMap(b: Backend, rule: Rule, e: Expr, rows: seq<Row>)
    ensures DeleteRows(b, rule, e, rows) == FlatMap(Deleter(b, rule, e), rows)
  {
    if rows != [] { DeleteIsFlatMap(b, rule, e, rows[1..]); }
  }

  lemma {:induction false} SelectIsFlatMap(w: World, rule: Rule, e: Expr, rows: seq<Row>)
    ensures Select(w, rule, e, rows) == FlatMap(Selector(w, rule, e), rows)
  {
    if rows != [] { SelectIsFlatMap(w, rule, e, rows[1..]); }
  }

  lemma {:induction false} FlatMapLogical(f: Row -> seq<Row>, store: Store, store': Store, all: seq<int>)
    requires forall i :: i in all ==> i in store && i in store' && store'[i] == FlatMap(f, store[i])
    ensures Logical(store', all) == FlatMap(f, Logical(store, all))
  {
    if all != [] {
      var i := all[0];
      assert i in all;
      FlatMapLogical(f, store, store', all[1..]);
      FlatMapConcat(f, store[i], Logical(store, all[1..]));
    }
  }

  // ---------------------------------------------------------------- tables

  lemma {:induction false} TableUpdateExact(b: Backend, rule: Rule, list: seq<Assignment>, e: Expr, rows: seq<Row>,
                                            i: int)
    requires ValidRule(rule) && Handle(rule, e).Ok? && Undecorated(e) && TablePlaced(rule, rows, i)
    ensures UpdateRows(b, rule, list, Restore(Handle(rule, e).value.expr, i), rows)
            == UpdateRows(b, rule, list, e, rows)
    ensures DeleteRows(b, rule, Restore(Handle(rule, e).value.expr, i), rows) == DeleteRows(b, rule, e, rows)
  {
    if rows != [] {
      RestoreExact(b.w, rule, e, rows[0], i);
      TableUpdateExact(b, rule, list, e, rows[1..], i);
    }
  }

  lemma {:induction false} NothingSelected(b: Backend, rule: Rule, list: seq<Assignment>, e: Expr, rows: seq<Row>)
    requires Select(b.w, rule, e, rows) == []
    ensures UpdateRows(b, rule, list, e, rows) == rows && DeleteRows(b, rule, e, rows) == rows
  {
    if rows != [] { NothingSelected(b, rule, list, e, rows[1..]); }
  }

  /** On each table, routed or not, an accepted condition acts as the original one. */
  lemma TableActsAsOriginal(b: Backend, rule: Rule, list: seq<Assignment>, e: Expr, rows: seq<Row>, i: int)
    requires ValidRule(rule) && HandleWhere(rule, e).Ok? && BoundsOk(rule, e) && Undecorated(e)
    requires i in rule.indexes && TablePlaced(rule, rows, i)
    ensures var plan := HandleWhere(rule, e).value;
            && UpdateRows(b, rule, list, e, rows)
               == (if i in plan.route then UpdateRows(b, rule, list, Restore(plan.expr, i), rows) else rows)
            && DeleteRows(b, rule, e, rows)
               == (if i in plan.route then DeleteRows(b, rule, Restore(plan.expr, i), rows) else rows)
  {
    TableUpdateExact(b, rule, list, e, rows, i);
    if i !in HandleWhere(rule, e).value.route {
      OffRouteEmpty(b.w, rule, e, rows, i);
      NothingSelected(b, rule, list, e, rows);
    }
  }

  lemma {:induction false} LogicalSame(store: Store, store': Store, all: seq<int>)
    requires forall i :: i in all ==> i in store && i in store' && store'[i] == store[i]
    ensures Logical(store', all) == Logical(store, all)
  {
    if all != [] {
      assert all[0] in all;
      LogicalSame(store, store', all[1..]);
    }
  }

  function Without(all: seq<int>, t: int): seq<int> {
    if all == [] then [] else (if all[0] == t then [] else [all[0]]) + Without(all[1..], t)
  }

  lemma {:induction false} WithoutIn(all: seq<int>, t: int)
    ensures forall i :: i in Without(all, t) <==> i in all && i != t
  {
    if all != [] {
      WithoutIn(all[1..], t);
      assert all == [all[0]] + all[1..];
    }
  }

  /** The logical table is one table and the others beside it. */
  lemma {:induction false} LogicalSplit(store: Store, all: seq<int>, t: int)
    requires Increasing(all) && t in all && forall i :: i in all ==> i in store
    ensures forall i :: i in Without(all, t) ==> i in store
    ensures multiset(Logical(store, all)) == multiset(store[t]) + multiset(Logical(store, Without(all, t)))
  {
    WithoutIn(all, t);
    var i, rest := all[0], all[1..];
    assert all == [i] + rest;
    if i == t {
      WithoutNone(rest, t);
      assert Without(all, t) == [] + rest == rest;
    } else {
      LogicalSplit(store, rest, t);
      assert Without(all, t) == [i] + Without(rest, t) && ([i] + Without(rest, t))[1..] == Without(rest, t);
    }
  }

  lemma {:induction false} WithoutNone(all: seq<int>, t: int)
    requires t !in all
    ensures Without(all, t) == all
  {
    if all != [] {
      assert all == [all[0]] + all[1..];
      WithoutNone(all[1..], t);
    }
  }

  lemma {:induction false} LogicalIn(store: Store, all: seq<int>, row: Row)
    requires forall i :: i in all ==> i in store
    ensures row in Logical(store, all) <==> exists i :: i in all && row in store[i]
  {
    if all != [] {
      var i, rest := all[0], all[1..];
      assert all == [i] + rest;
      LogicalIn(store, rest, row);
      assert i in all;
    }
  }

  // ---------------------------------------------------------------- collisions

  function Hitter(b: Backend, row: Row): Row -> seq<Row> { r => if b.collides(row, r) then [r] else [] }

  function Misser(b: Backend, row: Row): Row -> seq<Row> { r => if b.collides(row, r) then [] else [r] }

  lemma {:induction false} HitsIsFlatMap(b: Backend, row: Row, table: seq<Row>)
    ensures Hits(b, row, table) == FlatMap(Hitter(b, row), table)
    ensures Misses(b, row, table) == FlatMap(Misser(b, row), table)
  {
    if table != [] { HitsIsFlatMap(b, row, table[1..]); }
  }

  lemma HitsPerm(b: Backend, row: Row, a: seq<Row>, c: seq<Row>)
    requires multiset(a) == multiset(c)
    ensures multiset(Hits(b, row, a)) == multiset(Hits(b, row, c))
    ensures multiset(Misses(b, row, a)) == multiset(Misses(b, row, c))
    ensures Hits(b, row, a) == [] <==> Hits(b, row, c) == []
  {
    HitsIsFlatMap(b, row, a);
    HitsIsFlatMap(b, row, c);
    FlatMapPerm(Hitter(b, row), a, c);
    FlatMapPerm(Misser(b, row), a, c);
    assert |multiset(Hits(b, row, a))| == |multiset(Hits(b, row, c))|;
  }

  lemma HitsConcat(b: Backend, row: Row, a: seq<Row>, c: seq<Row>)
    ensures Hits(b, row, a + c) == Hits(b, row, a) + Hits(b, row, c)
    ensures Misses(b, row, a + c) == Misses(b, row, a) + Misses(b, row, c)
  {
    HitsIsFlatMap(b, row, a);
    HitsIsFlatMap(b, row, c);
    HitsIsFlatMap(b, row, a + c);
    FlatMapConcat(Hitter(b, row), a, c);
    FlatMapConcat(Misser(b, row), a, c);
  }

  lemma {:induction false} NoHits(b: Backend, row: Row, table: seq<Row>)
    requires forall r :: r in table ==> !b.collides(row, r)
    ensures Hits(b, row, table) == [] && Misses(b, row, table) == table
  {
    if table != [] {
      assert table == [table[0]] + table[1..];
      NoHits(b, row, table[1..]);
    }
  }

  lemma {:induction false} SwappedMultiset(table: seq<Row>, old_: Row, new_: Row)
    requires old_ in table
    ensures multiset(Swapped(table, old_, new_)) == multiset(table) - multiset{old_} + multiset{new_}
  {
    assert table == [table[0]] + table[1..];
    if table[0] != old_ { SwappedMultiset(table[1..], old_, new_); }
  }

  lemma HitsMembers(b: Backend, row: Row, a: seq<Row>, c: seq<Row>, met: Row)
    requires multiset(Hits(b, row, a)) == multiset(Hits(b, row, c))
    ensures met in Hits(b, row, a) <==> met in Hits(b, row, c)
  {
    assert met in Hits(b, row, a) <==> met in multiset(Hits(b, row, a));
    assert met in Hits(b, row, c) <==> met in multiset(Hits(b, row, c));
  }

  lemma {:induction false} RestMultiset(table: seq<Row>, row: Row)
    requires row in table
    ensures multiset(Rest(table, row)) == multiset(table) - multiset{row}
  {
    assert table == [table[0]] + table[1..];
    if table[0] != row { RestMultiset(table[1..], row); }
  }

  /** Tables of the same rows, and the row an ON DUPLICATE list changes. */
  lemma MergePerm(b: Backend, rule: Rule, ins: Insert, a: seq<Row>, c: seq<Row>, row: Row, met: Row)
    requires multiset(a) == multiset(c) && met in a && met in c
    ensures var x, y := Merge(b, rule, ins, a, row, met), Merge(b, rule, ins, c, row, met);
            (x.Ok? <==> y.Ok?) && (x.Ok? ==> multiset(x.value) == multiset(y.value))
  {
    var next := Assign(Duplicate(b, row), rule, met, ins.onDuplicate);
    RestMultiset(a, met);
    RestMultiset(c, met);
    HitsPerm(b, next, Rest(a, met), Rest(c, met));
    SwappedMultiset(a, met, next);
    SwappedMultiset(c, met, next);
  }

  /** What a row does to a table does not depend on the order of its rows. */
  lemma PutRowPerm(b: Backend, rule: Rule, ins: Insert, a: seq<Row>, c: seq<Row>, row: Row)
    requires multiset(a) == multiset(c)
    ensures PutRow(b, rule, ins, a, row).Ok? <==> PutRow(b, rule, ins, c, row).Ok?
    ensures PutRow(b, rule, ins, a, row).Ok? ==>
              multiset(PutRow(b, rule, ins, a, row).value) == multiset(PutRow(b, rule, ins, c, row).value)
  {
    HitsPerm(b, row, a, c);
    AppendPerm(a, c, row);
    AppendPerm(Misses(b, row, a), Misses(b, row, c), row);
    if Hits(b, row, a) != [] && !ins.replace && ins.onDuplicate != [] {
      var met := b.pick(row, multiset(Hits(b, row, a)));
      HitsMembers(b, row, a, c, met);
      if met in Hits(b, row, a) {
        HitIn(b, row, a, met);
        HitIn(b, row, c, met);
        MergePerm(b, rule, ins, a, c, row, met);
      }
    }
  }

  lemma AppendPerm(a: seq<Row>, c: seq<Row>, row: Row)
    requires multiset(a) == multiset(c)
    ensures multiset(a + [row]) == multiset(c + [row])
  {
  }

  lemma HitIn(b: Backend, row: Row, table: seq<Row>, met: Row)
    requires met in Hits(b, row, table)
    ensures met in table
  {
    MissesIn(b, row, table);
  }

  /** The rows belong to table `i`. */
  ghost predicate AtTable(rule: Rule, rows: seq<Row>, i: int) { forall r :: r in rows ==> RowAt(rule, r, i) }

  ghost predicate RowAt(rule: Rule, r: Row, i: int) { Insertable(rule, r) && FindForKey(rule.shard, r.key) == Ok(i) }

  /** No row of table `i` would collide with the others. */
  ghost predicate Apart(b: Backend, rule: Rule, i: int, others: seq<Row>) {
    forall x, r :: RowAt(rule, x, i) && r in others ==> !b.collides(x, r) && !b.collides(r, x)
  }

  lemma MergeBeside(b: Backend, rule: Rule, ins: Insert, i: int, t: seq<Row>, others: seq<Row>, row: Row, met: Row)
    requires met in t && RowAt(rule, met, i) && Apart(b, rule, i, others) && !AssignsShardKey(rule, ins.onDuplicate)
    ensures var x, y := Merge(b, rule, ins, t + others, row, met), Merge(b, rule, ins, t, row, met);
            (x.Ok? <==> y.Ok?) && (x.Ok? ==> multiset(x.value) == multiset(y.value) + multiset(others))
  {
    var next := Assign(Duplicate(b, row), rule, met, ins.onDuplicate);
    assert RowAt(rule, next, i) by { AssignKeepsKey(Duplicate(b, row), rule, met, ins.onDuplicate); }
    RestBeside(b, next, t, others, met);
    SwappedMultiset(t, met, next);
    SwappedMultiset(t + others, met, next);
  }

  lemma RestBeside(b: Backend, next: Row, t: seq<Row>, others: seq<Row>, met: Row)
    requires met in t && forall r :: r in others ==> !b.collides(next, r)
    ensures Hits(b, next, Rest(t + others, met)) == [] <==> Hits(b, next, Rest(t, met)) == []
  {
    RestMultiset(t, met);
    RestMultiset(t + others, met);
    HitsPerm(b, next, Rest(t + others, met), Rest(t, met) + others);
    HitsBeside(b, next, Rest(t, met), others);
  }

  /** Rows of other tables stay beside a new row. */
  lemma PutRowBeside(b: Backend, rule: Rule, ins: Insert, i: int, t: seq<Row>, others: seq<Row>, row: Row)
    requires AtTable(rule, t, i) && RowAt(rule, row, i) && Apart(b, rule, i, others)
    requires !AssignsShardKey(rule, ins.onDuplicate)
    ensures PutRow(b, rule, ins, t + others, row).Ok? <==> PutRow(b, rule, ins, t, row).Ok?
    ensures PutRow(b, rule, ins, t, row).Ok? ==>
              multiset(PutRow(b, rule, ins, t + others, row).value) ==
              multiset(PutRow(b, rule, ins, t, row).value) + multiset(others)
  {
    HitsBeside(b, row, t, others);
    var hits, misses := Hits(b, row, t), Misses(b, row, t);
    AppendBeside(t, others, row);
    AppendBeside(misses, others, row);
    if hits != [] && !ins.replace && ins.onDuplicate != [] {
      var met := b.pick(row, multiset(hits));
      if met in hits {
        MissesIn(b, row, t);
        MergeBeside(b, rule, ins, i, t, others, row, met);
      }
    }
  }

  lemma AppendBeside(t: seq<Row>, others: seq<Row>, row: Row)
    ensures multiset((t + others) + [row]) == multiset(t + [row]) + multiset(others)
  {
  }

  lemma HitsBeside(b: Backend, row: Row, t: seq<Row>, others: seq<Row>)
    requires forall r :: r in others ==> !b.collides(row, r)
    ensures Hits(b, row, t + others) == Hits(b, row, t)
    ensures Misses(b, row, t + others) == Misses(b, row, t) + others
  {
    HitsConcat(b, row, t, others);
    NoHits(b, row, others);
    assert Hits(b, row, t) + [] == Hits(b, row, t);
  }

  lemma PutRowAt(b: Backend, rule: Rule, ins: Insert, i: int, t: seq<Row>, row: Row)
    requires AtTable(rule, t, i) && RowAt(rule, row, i) && !AssignsShardKey(rule, ins.onDuplicate)
    requires PutRow(b, rule, ins, t, row).Ok?
    ensures AtTable(rule, PutRow(b, rule, ins, t, row).value, i)
  {
    forall r | r in PutRow(b, rule, ins, t, row).value ensures RowAt(rule, r, i) {
      PutRowIn(b, rule, ins, t, row, r);
      if met :| met in t && r == Assign(Duplicate(b, row), rule, met, ins.onDuplicate) {
        assert RowAt(rule, met, i);
        AssignKeepsKey(Duplicate(b, row), rule, met, ins.onDuplicate);
      }
    }
  }

  lemma {:induction false} PutRowsBeside(b: Backend, rule: Rule, ins: Insert, i: int, t: seq<Row>, others: seq<Row>,
                                         whole: seq<Row>, rows: seq<Row>)
    requires multiset(whole) == multiset(t) + multiset(others)
    requires AtTable(rule, t, i) && AtTable(rule, rows, i) && Apart(b, rule, i, others)
    requires !AssignsShardKey(rule, ins.onDuplicate)
    ensures PutRows(b, rule, ins, whole, rows).Ok? <==> PutRows(b, rule, ins, t, rows).Ok?
    ensures PutRows(b, rule, ins, t, rows).Ok? ==>
              multiset(PutRows(b, rule, ins, whole, rows).value) ==
              multiset(PutRows(b, rule, ins, t, rows).value) + multiset(others)
    ensures PutRows(b, rule, ins, t, rows).Ok? ==> AtTable(rule, PutRows(b, rule, ins, t, rows).value, i)
    decreases |rows|
  {
    if rows != [] {
      var row := rows[0];
      assert row in rows;
      assert multiset(t + others) == multiset(whole);
      PutRowPerm(b, rule, ins, whole, t + others, row);
      PutRowBeside(b, rule, ins, i, t, others, row);
      if PutRow(b, rule, ins, t, row).Ok? {
        PutRowAt(b, rule, ins, i, t, row);
        PutRowsBeside(b, rule, ins, i, PutRow(b, rule, ins, t, row).value, others,
                      PutRow(b, rule, ins, whole, row).value, rows[1..]);
      }
    }
  }

  // ---------------------------------------------------------------- clear tables

  /** The row collides with none of the others, one way or the other. */
  predicate Clean(b: Backend, x: Row, rows: seq<Row>) {
    forall q :: q in rows ==> !b.collides(x, q) && !b.collides(q, x)
  }

  lemma ClearHead(b: Backend, h: Row, t: seq<Row>)
    ensures Clear(b, [h] + t) <==> Clean(b, h, t) && Clear(b, t)
  {
    assert ([h] + t)[1..] == t;
  }

  lemma CleanConcat(b: Backend, x: Row, l: seq<Row>, r: seq<Row>)
    ensures Clean(b, x, l + r) <==> Clean(b, x, l) && Clean(b, x, r)
  {
    assert forall q :: q in l + r <==> q in l || q in r;
  }

  lemma {:induction false} ClearInsert(b: Backend, l: seq<Row>, x: Row, r: seq<Row>)
    ensures Clear(b, l + ([x] + r)) <==> Clear(b, l + r) && Clean(b, x, l + r)
  {
    if l == [] {
      assert l + ([x] + r) == [x] + r && l + r == r;
      ClearHead(b, x, r);
    } else {
      var h, t := l[0], l[1..];
      assert l + r == [h] + (t + r) && l + ([x] + r) == [h] + (t + ([x] + r));
      ClearInsert(b, t, x, r);
      ClearHead(b, h, t + r);
      ClearHead(b, h, t + ([x] + r));
      CleanConcat(b, h, t, [x] + r);
      CleanConcat(b, h, [x], r);
      CleanConcat(b, h, t, r);
      CleanConcat(b, x, [h], t + r);
      assert Clean(b, h, [x]) <==> Clean(b, x, [h]);
    }
  }

  lemma {:induction false} ClearPerm(b: Backend, a: seq<Row>, c: seq<Row>)
    requires multiset(a) == multiset(c)
    ensures Clear(b, a) <==> Clear(b, c)
  {
    if a == [] {
      assert |multiset(c)| == 0;
    } else {
      var l, r := SplitAtHead(a, c);
      ClearPerm(b, a[1..], l + r);
      ClearInsert(b, l, a[0], r);
      assert forall q :: q in l + r <==> q in multiset(l + r);
      assert forall q :: q in a[1..] <==> q in multiset(a[1..]);
    }
  }

  lemma {:induction false} ClearConcat(b: Backend, a: seq<Row>, c: seq<Row>)
    ensures Clear(b, a + c) ==> Clear(b, a) && Clear(b, c)
    ensures Clear(b, a) && Clear(b, c)
            && (forall x, y :: x in a && y in c ==> !b.collides(x, y) && !b.collides(y, x)) ==>
              Clear(b, a + c)
  {
    if a == [] {
      assert a + c == c;
    } else {
      assert (a + c)[1..] == a[1..] + c && a == [a[0]] + a[1..];
      assert forall r :: r in a[1..] + c <==> r in a[1..] || r in c;
      ClearConcat(b, a[1..], c);
    }
  }

  /** With local collisions the logical table is clear exactly when every table is. */
  lemma {:induction false} ClearLogical(b: Backend, rule: Rule, store: Store, all: seq<int>)
    requires Local(b, rule) && Increasing(all)
    requires forall i :: i in all ==> i in store && AtTable(rule, store[i], i)
    ensures Clear(b, Logical(store, all)) <==> forall i :: i in all ==> Clear(b, store[i])
  {
    if all != [] {
      var i, rest := all[0], all[1..];
      assert all == [i] + rest;
      ClearLogical(b, rule, store, rest);
      forall x, y | x in store[i] && y in Logical(store, rest) ensures !b.collides(x, y) && !b.collides(y, x) {
        LogicalIn(store, rest, y);
        var j :| j in rest && y in store[j];
        assert RowAt(rule, x, i) && RowAt(rule, y, j) && i != j;
      }
      ClearConcat(b, store[i], Logical(store, rest));
    }
  }

  // ---------------------------------------------------------------- table by table

  lemma {:induction false} LogicalCount(rule: Rule, store: Store, all: seq<int>, x: Row, j: int)
    requires Increasing(all) && forall i :: i in all ==> i in store && AtTable(rule, store[i], i)
    requires FindForKey(rule.shard, x.key) == Ok(j)
    ensures multiset(Logical(store, all))[x] == if j in all then multiset(store[j])[x] else 0
  {
    if all != [] {
      var i, rest := all[0], all[1..];
      assert all == [i] + rest;
      LogicalCount(rule, store, rest, x, j);
      assert x in store[i] ==> RowAt(rule, x, i);
      assert i == j ==> j !in rest;
    }
  }

  lemma {:induction false} LogicalEach(store: Store, store': Store, all: seq<int>)
    requires forall i :: i in all ==> i in store && i in store' && multiset(store[i]) == multiset(store'[i])
    ensures multiset(Logical(store, all)) == multiset(Logical(store', all))
  {
    if all != [] {
      assert all[0] in all;
      LogicalEach(store, store', all[1..]);
    }
  }

  /** Two placed stores hold the same rows exactly when each table does. */
  lemma LogicalPerTable(rule: Rule, store: Store, store': Store, all: seq<int>)
    requires Increasing(all)
    requires forall i :: i in all ==> i in store && AtTable(rule, store[i], i)
    requires forall i :: i in all ==> i in store' && AtTable(rule, store'[i], i)
    ensures multiset(Logical(store, all)) == multiset(Logical(store', all)) <==>
            forall i :: i in all ==> multiset(store[i]) == multiset(store'[i])
  {
    if multiset(Logical(store, all)) == multiset(Logical(store', all)) {
      forall i | i in all ensures multiset(store[i]) == multiset(store'[i]) {
        forall x ensures multiset(store[i])[x] == multiset(store'[i])[x] {
          if x in store[i] || x in store'[i] {
            assert RowAt(rule, x, i);
            LogicalCount(rule, store, all, x, i);
            LogicalCount(rule, store', all, x, i);
          }
        }
      }
    } else if forall i :: i in all ==> multiset(store[i]) == multiset(store'[i]) {
      LogicalEach(store, store', all);
    }
  }

  // ---------------------------------------------------------------- steps and runs

  /** The table an accepted insert goes to. */
  lemma InsertTarget(rule: Rule, ins: Insert) returns (t: int)
    requires ValidRule(rule) && PlanInsert(rule, ins).Ok? && LiteralKeys(rule, InsertStmt(ins))
    ensures PlanInsert(rule, ins).value == [t] && t in rule.indexes
  {
    InsertSingleTarget(rule, ins);
    t := PlanInsert(rule, ins).value[0];
    assert FindForKey(rule.shard, InsertKeys(rule, ins)[0].value.v) == Ok(t);
  }

  lemma NewRowsAt(b: Backend, rule: Rule, ins: Insert, t: int)
    requires ValidRule(rule) && PlanInsert(rule, ins).Ok? && LiteralKeys(rule, InsertStmt(ins))
    requires PlanInsert(rule, ins).value == [t]
    ensures AtTable(rule, NewRows(b, rule, ins, InsertKeys(rule, ins)), t)
  {
    InsertSingleTarget(rule, ins);
    var rows := NewRows(b, rule, ins, InsertKeys(rule, ins));
    forall k | 0 <= k < |rows| ensures RowAt(rule, rows[k], t) {
      CellsApart(rule.column, ins.columns, ins.rows[k]);
    }
  }

  lemma {:induction false} CellsApart(key: string, columns: seq<string>, cells: seq<Operand>)
    ensures key !in Cells(key, columns, cells)
  {
    if columns != [] && cells != [] { CellsApart(key, columns[1..], cells[1..]); }
  }

  lemma StoreAt(rule: Rule, store: Store, i: int)
    requires Placed(rule, store) && Proper(rule, store) && i in store
    ensures AtTable(rule, store[i], i)
  {
  }

  /** Rows of the other tables are out of reach of a table's rows. */
  lemma OthersApart(b: Backend, rule: Rule, store: Store, t: int)
    requires Placed(rule, store) && Proper(rule, store) && Local(b, rule)
    requires forall i :: i in Without(rule.indexes, t) ==> i in store
    ensures Apart(b, rule, t, Logical(store, Without(rule.indexes, t)))
  {
    var all := Without(rule.indexes, t);
    WithoutIn(rule.indexes, t);
    forall x, r | RowAt(rule, x, t) && r in Logical(store, all) ensures !b.collides(x, r) && !b.collides(r, x) {
      LogicalIn(store, all, r);
      var i :| i in all && r in store[i];
      assert FindForKey(rule.shard, r.key) == Ok(i) && Insertable(rule, r);
    }
  }

  lemma InsertStepAt(b: Backend, rule: Rule, store: Store, ins: Insert, t: int)
    requires ValidRule(rule) && PlanInsert(rule, ins).Ok? && PlanInsert(rule, ins).value == [t] && t in store
    ensures var rows := NewRows(b, rule, ins, InsertKeys(rule, ins));
            Step(b, rule, store, InsertStmt(ins)) == store[t := Inserted(b, rule, ins, store[t], rows)]
  {
  }

  lemma InsertStepRefines(b: Backend, rule: Rule, store: Store, rows: seq<Row>, ins: Insert)
    requires ValidRule(rule) && Placed(rule, store) && Proper(rule, store) && Local(b, rule)
    requires LiteralKeys(rule, InsertStmt(ins)) && multiset(Logical(store, rule.indexes)) == multiset(rows)
    requires forall i :: i in rule.indexes ==> i in Step(b, rule, store, InsertStmt(ins))
    ensures multiset(Logical(Step(b, rule, store, InsertStmt(ins)), rule.indexes))
            == multiset(TableStep(b, rule, rows, InsertStmt(ins)))
  {
    if PlanInsert(rule, ins).Ok? {
      var t := InsertTarget(rule, ins);
      var fresh_, store' := NewRows(b, rule, ins, InsertKeys(rule, ins)), Step(b, rule, store, InsertStmt(ins));
      InsertStepAt(b, rule, store, ins, t);
      LogicalSplit(store, rule.indexes, t);
      LogicalSplit(store', rule.indexes, t);
      WithoutIn(rule.indexes, t);
      var others := Logical(store, Without(rule.indexes, t));
      LogicalSame(store, store', Without(rule.indexes, t));
      NewRowsAt(b, rule, ins, t);
      OthersApart(b, rule, store, t);
      StoreAt(rule, store, t);
      PutRowsBeside(b, rule, ins, t, store[t], others, rows, fresh_);
    }
  }

  /** DELETE, table by table, is DELETE on the logical table. */
  lemma DeleteStepRefines(b: Backend, rule: Rule, store: Store, rows: seq<Row>, where: Expr)
    requires ValidRule(rule) && Placed(rule, store) && Plain(rule, DeleteStmt(where)) && HandleWhere(rule, where).Ok?
    requires forall i :: i in rule.indexes ==> i in Step(b, rule, store, DeleteStmt(where))
    requires multiset(Logical(store, rule.indexes)) == multiset(rows)
    ensures multiset(Logical(Step(b, rule, store, DeleteStmt(where)), rule.indexes))
            == multiset(DeleteRows(b, rule, where, rows))
  {
    var store', all := Step(b, rule, store, DeleteStmt(where)), Logical(store, rule.indexes);
    var f := Deleter(b, rule, where);
    forall i | i in rule.indexes ensures store'[i] == FlatMap(f, store[i]) {
      TablePlacedFrom(rule, store, i);
      TableActsAsOriginal(b, rule, [], where, store[i], i);
      DeleteIsFlatMap(b, rule, where, store[i]);
    }
    FlatMapLogical(f, store, store', rule.indexes);
    DeleteIsFlatMap(b, rule, where, rows);
    FlatMapPerm(f, all, rows);
  }

  /** UPDATE, table by table: each routed or other table as the original statement would change it. */
  lemma UpdateStepAt(b: Backend, rule: Rule, store: Store, list: seq<Assignment>, where: Expr, i: int)
    requires ValidRule(rule) && Placed(rule, store) && Plain(rule, UpdateStmt(list, where)) && i in rule.indexes
    requires HandleWhere(rule, where).Ok? && !AssignsShardKey(rule, list)
    ensures i in Step(b, rule, store, UpdateStmt(list, where))
    ensures Step(b, rule, store, UpdateStmt(list, where))[i] == Updated(b, rule, list, where, store[i])
  {
    TablePlacedFrom(rule, store, i);
    TableActsAsOriginal(b, rule, list, where, store[i], i);
  }

  lemma {:induction false} UpdateRowsAt(b: Backend, rule: Rule, list: seq<Assignment>, where: Expr, rows: seq<Row>,
                                        i: int)
    requires !AssignsShardKey(rule, list) && AtTable(rule, rows, i)
    ensures AtTable(rule, UpdateRows(b, rule, list, where, rows), i)
  {
    if rows != [] {
      assert RowAt(rule, rows[0], i);
      AssignKeepsKey(b.w.other, rule, rows[0], list);
      UpdateRowsAt(b, rule, list, where, rows[1..], i);
    }
  }

  /** The rows of every table, changed but not yet checked. */
  ghost function Proposed(b: Backend, rule: Rule, store: Store, list: seq<Assignment>, where: Expr): Store {
    map i | i in store :: UpdateRows(b, rule, list, where, store[i])
  }

  lemma ProposedLogical(b: Backend, rule: Rule, store: Store, list: seq<Assignment>, where: Expr, rows: seq<Row>)
    requires forall i :: i in rule.indexes ==> i in store
    requires multiset(Logical(store, rule.indexes)) == multiset(rows)
    ensures multiset(Logical(Proposed(b, rule, store, list, where), rule.indexes))
            == multiset(UpdateRows(b, rule, list, where, rows))
  {
    var f, store' := Updater(b, rule, list, where), Proposed(b, rule, store, list, where);
    forall i | i in rule.indexes ensures store'[i] == FlatMap(f, store[i]) {
      UpdateIsFlatMap(b, rule, list, where, store[i]);
    }
    FlatMapLogical(f, store, store', rule.indexes);
    UpdateIsFlatMap(b, rule, list, where, rows);
    FlatMapPerm(f, Logical(store, rule.indexes), rows);
  }

  /** The one table refuses exactly when some sub-table does. */
  lemma RefusedTogether(b: Backend, rule: Rule, store: Store, list: seq<Assignment>, where: Expr, rows: seq<Row>)
    requires ValidRule(rule) && Placed(rule, store) && Proper(rule, store) && Local(b, rule)
    requires !AssignsShardKey(rule, list) && multiset(Logical(store, rule.indexes)) == multiset(rows)
    ensures Clear(b, UpdateRows(b, rule, list, where, rows)) <==> AllAccept(b, rule, store, list, where)
  {
    var next := Proposed(b, rule, store, list, where);
    ProposedLogical(b, rule, store, list, where, rows);
    forall i | i in rule.indexes ensures AtTable(rule, next[i], i) {
      StoreAt(rule, store, i);
      UpdateRowsAt(b, rule, list, where, store[i], i);
    }
    ClearLogical(b, rule, next, rule.indexes);
    ClearPerm(b, Logical(next, rule.indexes), UpdateRows(b, rule, list, where, rows));
  }

  /** The store after each table did as it does. */
  ghost predicate EachUpdated(b: Backend, rule: Rule, store: Store, store': Store, list: seq<Assignment>, where: Expr)
    requires forall i :: i in rule.indexes ==> i in store
  {
    forall i :: i in rule.indexes ==> i in store' && store'[i] == Updated(b, rule, list, where, store[i])
  }

  lemma AcceptedUpdate(b: Backend, rule: Rule, store: Store, store': Store, rows: seq<Row>, list: seq<Assignment>,
                       where: Expr)
    requires (forall i :: i in rule.indexes ==> i in store) && EachUpdated(b, rule, store, store', list, where)
    requires AllAccept(b, rule, store, list, where) && multiset(Logical(store, rule.indexes)) == multiset(rows)
    ensures multiset(Logical(store', rule.indexes)) == multiset(UpdateRows(b, rule, list, where, rows))
  {
    ProposedLogical(b, rule, store, list, where, rows);
    LogicalSame(Proposed(b, rule, store, list, where), store', rule.indexes);
  }

  lemma RefusedUpdate(b: Backend, rule: Rule, store: Store, store': Store, list: seq<Assignment>, where: Expr)
    requires ValidRule(rule) && Placed(rule, store) && Proper(rule, store) && !AssignsShardKey(rule, list)
    requires EachUpdated(b, rule, store, store', list, where)
    ensures multiset(Logical(store', rule.indexes)) == multiset(Logical(store, rule.indexes))
            <==> NoneChange(b, rule, store, list, where)
  {
    forall i | i in rule.indexes ensures AtTable(rule, store[i], i) && AtTable(rule, store'[i], i) {
      StoreAt(rule, store, i);
      UpdateRowsAt(b, rule, list, where, store[i], i);
    }
    LogicalPerTable(rule, store', store, rule.indexes);
  }

  /** An accepted UPDATE through the proxy does what it does to one table exactly when no table refuses it, or those
      that accept it are not changed by it. */
  lemma UpdateRefinesIff(b: Backend, rule: Rule, store: Store, rows: seq<Row>, list: seq<Assignment>, where: Expr)
    requires ValidRule(rule) && Placed(rule, store) && Proper(rule, store) && Local(b, rule)
    requires Plain(rule, UpdateStmt(list, where)) && HandleWhere(rule, where).Ok? && !AssignsShardKey(rule, list)
    requires multiset(Logical(store, rule.indexes)) == multiset(rows)
    ensures forall i :: i in rule.indexes ==> i in Step(b, rule, store, UpdateStmt(list, where))
    ensures multiset(Logical(Step(b, rule, store, UpdateStmt(list, where)), rule.indexes))
            == multiset(TableStep(b, rule, rows, UpdateStmt(list, where)))
            <==> AllOrNone(b, rule, store, list, where)
  {
    var store' := Step(b, rule, store, UpdateStmt(list, where));
    forall i | i in rule.indexes ensures i in store' && store'[i] == Updated(b, rule, list, where, store[i]) {
      UpdateStepAt(b, rule, store, list, where, i);
    }
    RefusedTogether(b, rule, store, list, where, rows);
    RefusedUpdate(b, rule, store, store', list, where);
    if AllAccept(b, rule, store, list, where) { AcceptedUpdate(b, rule, store, store', rows, list, where); }
  }

  lemma TablePlacedFrom(rule: Rule, store: Store, i: int)
    requires Placed(rule, store) && i in store
    ensures TablePlaced(rule, store[i], i)
  {
    forall k | 0 <= k < |store[i]| ensures FindForKey(rule.shard, store[i][k].key) == Ok(i) {
      assert store[i][k] in store[i];
    }
  }

  /** One statement through the proxy changes the sub-tables together as it changes one table, exactly when it is not an
      UPDATE that some tables refuse and others carry out. */
  lemma StepRefinesIff(b: Backend, rule: Rule, store: Store, rows: seq<Row>, stmt: Stmt)
    requires ValidRule(rule) && Placed(rule, store) && Proper(rule, store) && Local(b, rule) && Plain(rule, stmt)
    requires multiset(Logical(store, rule.indexes)) == multiset(rows)
    ensures Placed(rule, Step(b, rule, store, stmt)) && Proper(rule, Step(b, rule, store, stmt))
    ensures multiset(Logical(Step(b, rule, store, stmt), rule.indexes)) == multiset(TableStep(b, rule, rows, stmt))
            <==> Whole(b, rule, store, stmt)
  {
    StepKeepsPlaced(b, rule, store, stmt);
    StepKeepsProper(b, rule, store, stmt);
    match stmt
    case InsertStmt(ins) =>
      InsertStepRefines(b, rule, store, rows, ins);
    case UpdateStmt(list, where) =>
      if !AssignsShardKey(rule, list) && HandleWhere(rule, where).Ok? {
        UpdateRefinesIff(b, rule, store, rows, list, where);
      }
    case DeleteStmt(where) =>
      if HandleWhere(rule, where).Ok? { DeleteStepRefines(b, rule, store, rows, where); }
  }

  lemma {:induction false} DeleteRowsIn(b: Backend, rule: Rule, e: Expr, rows: seq<Row>)
    ensures forall r :: r in DeleteRows(b, rule, e, rows) ==> r in rows
  {
    if rows != [] {
      DeleteRowsIn(b, rule, e, rows[1..]);
      assert rows == [rows[0]] + rows[1..];
    }
  }

  lemma StepKeepsProper(b: Backend, rule: Rule, store: Store, stmt: Stmt)
    requires ValidRule(rule) && Placed(rule, store) && Proper(rule, store) && Plain(rule, stmt)
    ensures Proper(rule, Step(b, rule, store, stmt))
  {
    var store' := Step(b, rule, store, stmt);
    forall i | i in store' ensures forall row :: row in store'[i] ==> Insertable(rule, row) {
      StoreAt(rule, store, i);
      match stmt
      case InsertStmt(ins) =>
        if PlanInsert(rule, ins).Ok? && i in PlanInsert(rule, ins).value {
          var t := InsertTarget(rule, ins);
          var fresh_ := NewRows(b, rule, ins, InsertKeys(rule, ins));
          NewRowsAt(b, rule, ins, t);
          assert Apart(b, rule, t, []);
          PutRowsBeside(b, rule, ins, t, store[t], [], store[t], fresh_);
        }
      case UpdateStmt(list, where) =>
        if !AssignsShardKey(rule, list) && HandleWhere(rule, where).Ok? {
          UpdateRowsAt(b, rule, list, Restore(HandleWhere(rule, where).value.expr, i), store[i], i);
        }
      case DeleteStmt(where) =>
        if HandleWhere(rule, where).Ok? {
          DeleteRowsIn(b, rule, Restore(HandleWhere(rule, where).value.expr, i), store[i]);
        }
    }
  }

  lemma StepKeepsPlaced(b: Backend, rule: Rule, store: Store, stmt: Stmt)
    requires ValidRule(rule) && Placed(rule, store) && LiteralKeys(rule, stmt)
    ensures Placed(rule, Step(b, rule, store, stmt))
  {
    RunPlaced(b, rule, store, [stmt]);
    assert [stmt][1..] == [];
    assert Run(b, rule, Step(b, rule, store, stmt), []) == Step(b, rule, store, stmt);
  }

  /** After every statement of the run the sub-tables together hold the rows the one table holds. */
  ghost predicate Follows(b: Backend, rule: Rule, store: Store, rows: seq<Row>, stmts: seq<Stmt>)
    requires ValidRule(rule)
    decreases |stmts|
  {
    && (forall i :: i in rule.indexes ==> i in store)
    && multiset(Logical(store, rule.indexes)) == multiset(rows)
    && (stmts != [] ==>
          Follows(b, rule, Step(b, rule, store, stmts[0]), TableStep(b, rule, rows, stmts[0]), stmts[1..]))
  }

  /** Over every run they do exactly when no UPDATE is refused by some tables and carried out by others. */
  lemma {:induction false} RunRefinesIff(b: Backend, rule: Rule, store: Store, rows: seq<Row>, stmts: seq<Stmt>)
    requires ValidRule(rule) && Placed(rule, store) && Proper(rule, store) && Local(b, rule)
    requires forall k :: 0 <= k < |stmts| ==> Plain(rule, stmts[k])
    requires multiset(Logical(store, rule.indexes)) == multiset(rows)
    ensures Follows(b, rule, store, rows, stmts) <==> Uniform(b, rule, store, stmts)
    decreases |stmts|
  {
    if stmts != [] {
      var store', rows' := Step(b, rule, store, stmts[0]), TableStep(b, rule, rows, stmts[0]);
      StepRefinesIff(b, rule, store, rows, stmts[0]);
      if multiset(Logical(store', rule.indexes)) == multiset(rows') {
        RunRefinesIff(b, rule, store', rows', stmts[1..]);
      }
    }
  }

  /** Then after the run the sub-tables together hold the rows one table would hold. */
  lemma {:induction false} RunRefines(b: Backend, rule: Rule, store: Store, rows: seq<Row>, stmts: seq<Stmt>)
    requires ValidRule(rule) && Placed(rule, store) && Proper(rule, store) && Local(b, rule)
    requires forall k :: 0 <= k < |stmts| ==> Plain(rule, stmts[k])
    requires Uniform(b, rule, store, stmts)
    requires multiset(Logical(store, rule.indexes)) == multiset(rows)
    ensures Placed(rule, Run(b, rule, store, stmts))
    ensures multiset(Logical(Run(b, rule, store, stmts), rule.indexes)) == multiset(TableRun(b, rule, rows, stmts))
    decreases |stmts|
  {
    if stmts != [] {
      StepRefinesIff(b, rule, store, rows, stmts[0]);
      RunRefines(b, rule, Step(b, rule, store, stmts[0]), TableStep(b, rule, rows, stmts[0]), stmts[1..]);
    }
  }

  /** A SELECT through the proxy after any run answers what the one table would answer. */
  lemma SelectAfterRun(b: Backend, rule: Rule, store: Store, rows: seq<Row>, stmts: seq<Stmt>, e: Expr)
    requires ValidRule(rule) && Placed(rule, store) && Proper(rule, store) && Local(b, rule)
    requires forall k :: 0 <= k < |stmts| ==> Plain(rule, stmts[k])
    requires Uniform(b, rule, store, stmts)
    requires multiset(Logical(store, rule.indexes)) == multiset(rows)
    requires HandleWhere(rule, e).Ok? && BoundsOk(rule, e) && Undecorated(e)
    ensures Placed(rule, Run(b, rule, store, stmts))
    ensures RouteShape(rule, HandleWhere(rule, e).value.route)
    ensures multiset(ShardedSelect(b.w, rule, HandleWhere(rule, e).value.expr, Run(b, rule, store, stmts),
                                   HandleWhere(rule, e).value.route))
            == multiset(Select(b.w, rule, e, TableRun(b, rule, rows, stmts)))
  {
    RunRefines(b, rule, store, rows, stmts);
    var store', rows' := Run(b, rule, store, stmts), TableRun(b, rule, rows, stmts);
    ShardedSelectIsSelect(b.w, rule, e, store');
    var all := Logical(store', rule.indexes);
    SelectIsFlatMap(b.w, rule, e, all);
    SelectIsFlatMap(b.w, rule, e, rows');
    FlatMapPerm(Selector(b.w, rule, e), all, rows');
  }
}
