/** A query from end to end: the planned statements on the routed tables, ORDER BY and LIMIT on every backend, and
    the proxy's merge, against one server that holds the logical table. */
module QueryAnswers {
  import opened Lists
  import opened Rules
  import opened Routing
  import opened Semantics
  import opened Plans
  import opened Dml
  import opened SingleTable
  import O = OrderLimit

  /** `ran` is every filed statement once, in the order the answers arrive. */
  ghost predicate RanAll(sqls: SqlMap, ran: seq<Sql>) {
    && (forall q :: q in ran <==> exists s, d :: q in Under(sqls, s, d))
    && Distinct(ran)
  }

  /** The rows a statement selects in its table. */
  function RowsOf(w: World, rule: Rule, store: Store): Sql -> seq<Row> {
    (q: Sql) => if q.index in store then Select(w, rule, q.where, store[q.index]) else []
  }

  /** The statements of a route, in route order. */
  function Restored(expr: Expr, route: seq<int>): seq<Sql> {
    seq(|route|, k requires 0 <= k < |route| => Sql(route[k], Restore(expr, route[k])))
  }

  lemma {:induction false} DistinctCount<T>(s: seq<T>, x: T)
    requires Distinct(s)
    ensures multiset(s)[x] == if x in s then 1 else 0
  {
    if s != [] {
      DistinctCount(s[1..], x);
      assert s == [s[0]] + s[1..];
      if x in s[1..] { var k :| 0 <= k < |s[1..]| && s[1..][k] == x; assert s[0] != s[k + 1]; }
    }
  }

  lemma DistinctPerm<T>(a: seq<T>, b: seq<T>)
    requires Distinct(a) && Distinct(b) && forall x :: x in a <==> x in b
    ensures multiset(a) == multiset(b)
  {
    forall x ensures multiset(a)[x] == multiset(b)[x] {
      DistinctCount(a, x);
      DistinctCount(b, x);
    }
  }

  lemma FiledMember(rule: Rule, expr: Expr, route: seq<int>, sqls: SqlMap, q: Sql)
    requires Increasing(route) && (forall i :: i in route ==> HasSlice(rule, i)) && Filed(rule, expr, route, sqls)
    ensures (exists s, d :: q in Under(sqls, s, d)) <==> q.index in route && q.where == Restore(expr, q.index)
  {
    if s, d :| q in Under(sqls, s, d) {
      assert Under(sqls, s, d) == Statements(rule, expr, route, s, d);
      OneStatementPerTable(rule, expr, route, s, d);
    }
    if q.index in route && q.where == Restore(expr, q.index) {
      var s, d := SliceName(rule, q.index), DatabaseName(rule, q.index);
      OneStatementPerTable(rule, expr, route, s, d);
      assert q in Under(sqls, s, d);
    }
  }

  /** What ran is the route's statements, in some order. */
  lemma RanIsRoute(rule: Rule, expr: Expr, route: seq<int>, sqls: SqlMap, ran: seq<Sql>)
    requires Increasing(route) && (forall i :: i in route ==> HasSlice(rule, i)) && Filed(rule, expr, route, sqls)
    requires RanAll(sqls, ran)
    ensures multiset(ran) == multiset(Restored(expr, route))
  {
    var texts := Restored(expr, route);
    forall q ensures q in ran <==> q in texts {
      FiledMember(rule, expr, route, sqls, q);
      if q.index in route && q.where == Restore(expr, q.index) {
        var k :| 0 <= k < |route| && route[k] == q.index;
        assert texts[k] == q;
      }
    }
    DistinctPerm(ran, texts);
  }

  lemma {:induction false} RouteRows(w: World, rule: Rule, expr: Expr, store: Store, route: seq<int>)
    requires forall i :: i in route ==> i in store
    ensures FlatMap(RowsOf(w, rule, store), Restored(expr, route)) == ShardedSelect(w, rule, expr, store, route)
  {
    if route != [] {
      assert route[0] in route;
      assert Restored(expr, route)[1..] == Restored(expr, route[1..]);
      RouteRows(w, rule, expr, store, route[1..]);
    }
  }

  /** Sorting each part keeps the rows. */
  lemma {:induction false} Gathered<S, T>(f: S -> seq<T>, xs: seq<S>, parts: seq<seq<T>>)
    requires |parts| == |xs| && forall k :: 0 <= k < |xs| ==> multiset(parts[k]) == multiset(f(xs[k]))
    ensures multiset(Flatten(parts)) == multiset(FlatMap(f, xs))
  {
    if xs == [] {
      assert parts == [];
    } else {
      var n := |xs| - 1;
      Gathered(f, xs[..n], parts[..n]);
      assert xs == xs[..n] + [xs[n]];
      FlatMapConcat(f, xs[..n], [xs[n]]);
      assert FlatMap(f, [xs[n]]) == f(xs[n]) + FlatMap(f, []) == f(xs[n]);
    }
  }

  lemma SameStore<T(!new)>(le: (T, T) -> bool, a: seq<T>, b: seq<T>, limit: O.Limit, r: seq<T>)
    requires multiset(a) == multiset(b) && O.IsAnswer(le, a, limit, r)
    ensures O.IsAnswer(le, b, limit, r)
  {
    var all :| O.IsSortOf(le, all, a) && r == O.BackendRows(all, limit);
    assert O.IsSortOf(le, all, b);
  }

  /** Whatever the proxy's comparison `own` calls at most, the backends' order does too. */
  ghost predicate Finer<T(!new)>(own: (T, T) -> bool, le: (T, T) -> bool) { forall a, b :: own(a, b) ==> le(a, b) }

  /** The cells a row shows in the ORDER BY columns. */
  function Cells(rule: Rule, columns: seq<string>, row: Row): O.Row {
    seq(|columns|, i requires 0 <= i < |columns| =>
      var v := if columns[i] == rule.column then Int(row.key)
               else if columns[i] in row.cols then row.cols[columns[i]] else Null;
      if v.Null? then O.Null else O.Num(v.v as real))
  }

  /** ORDER BY columns of this store, integers and NULLs, each ascending or descending. */
  function OrderBy(rule: Rule, columns: seq<string>, keys: seq<O.SortKey>): (Row, Row) -> bool {
    (a, b) => O.Le(keys, Cells(rule, columns, a), Cells(rule, columns, b))
  }

  lemma OrderByTotal(rule: Rule, columns: seq<string>, keys: seq<O.SortKey>)
    ensures O.TotalPreorder(OrderBy(rule, columns, keys))
  {
    var le := OrderBy(rule, columns, keys);
    forall a, b ensures le(a, b) || le(b, a) {
      O.RowOrder(keys, Cells(rule, columns, a), Cells(rule, columns, b), Cells(rule, columns, a));
    }
    forall a, b, c ensures O.Transits(le, a, b, c) {
      O.RowOrder(keys, Cells(rule, columns, a), Cells(rule, columns, b), Cells(rule, columns, c));
    }
  }

  /** The statements generateShardingSQLs files for the condition (its route is always of that shape). */
  ghost predicate Planned(rule: Rule, e: Expr, sqls: SqlMap)
    requires ValidRule(rule) && HandleWhere(rule, e).Ok?
  {
    var plan := HandleWhere(rule, e).value;
    RouteShape(rule, plan.route) && Filed(rule, plan.expr, plan.route, sqls)
  }

  /** What the backends answer, statement by statement: the selected rows in the backends' order `le`. */
  ghost predicate Answering(w: World, rule: Rule, store: Store, le: (Row, Row) -> bool, ran: seq<Sql>,
                            rs: seq<seq<Row>>) {
    |rs| == |ran| && forall k :: 0 <= k < |ran| ==> O.IsSortOf(le, rs[k], RowsOf(w, rule, store)(ran[k]))
  }

  /** The rows of all answers are the rows the condition selects from the logical table. */
  lemma AnsweredRows(w: World, rule: Rule, e: Expr, store: Store, sqls: SqlMap, ran: seq<Sql>,
                     le: (Row, Row) -> bool, rs: seq<seq<Row>>)
    requires ValidRule(rule) && HandleWhere(rule, e).Ok? && BoundsOk(rule, e) && Undecorated(e)
    requires Placed(rule, store) && Planned(rule, e, sqls) && RanAll(sqls, ran)
    requires Answering(w, rule, store, le, ran, rs)
    ensures multiset(Flatten(rs)) == multiset(Select(w, rule, e, Logical(store, rule.indexes)))
  {
    Gathered(RowsOf(w, rule, store), ran, rs);
    StatementRows(w, rule, e, store, sqls, ran);
  }

  lemma StatementRows(w: World, rule: Rule, e: Expr, store: Store, sqls: SqlMap, ran: seq<Sql>)
    requires ValidRule(rule) && HandleWhere(rule, e).Ok? && BoundsOk(rule, e) && Undecorated(e)
    requires Placed(rule, store) && Planned(rule, e, sqls) && RanAll(sqls, ran)
    ensures multiset(FlatMap(RowsOf(w, rule, store), ran)) == multiset(Select(w, rule, e, Logical(store, rule.indexes)))
  {
    var f, plan := RowsOf(w, rule, store), HandleWhere(rule, e).value;
    RanIsRoute(rule, plan.expr, plan.route, sqls, ran);
    FlatMapPerm(f, ran, Restored(plan.expr, plan.route));
    RouteRows(w, rule, plan.expr, store, plan.route);
    ShardedSelectIsSelect(w, rule, e, store);
  }

  /** WHERE, ORDER BY and LIMIT through the proxy: with the statements run in any order, the backends sorting by
      `le` and the proxy by a comparison that refines it, the answer is one that a single server holding the
      logical table may give. */
  lemma QueryAnswered(w: World, rule: Rule, e: Expr, store: Store, sqls: SqlMap, ran: seq<Sql>, limit: O.Limit,
                      le: (Row, Row) -> bool, own: (Row, Row) -> bool, rs: seq<seq<Row>>, merged: seq<Row>)
    requires ValidRule(rule) && HandleWhere(rule, e).Ok? && BoundsOk(rule, e) && Undecorated(e)
    requires Placed(rule, store) && Planned(rule, e, sqls) && RanAll(sqls, ran)
    requires O.TotalPreorder(le) && Finer(own, le) && Answering(w, rule, store, le, ran, rs)
    requires O.IsSortOf(own, merged, Flatten(O.BackendAnswers(rs, O.PlanLimit(limit).backend)))
    ensures O.IsAnswer(le, Select(w, rule, e, Logical(store, rule.indexes)), limit,
                       O.LimitSelectResult(merged, O.PlanLimit(limit)))
  {
    AnsweredRows(w, rule, e, store, sqls, ran, le, rs);
    assert O.Sorted(le, merged);
    O.LimitPushdownExact(le, rs, limit, merged);
    SameStore(le, Flatten(rs), Select(w, rule, e, Logical(store, rule.indexes)), limit,
              O.LimitSelectResult(merged, O.PlanLimit(limit)));
  }

  /** The same after any run of INSERT, UPDATE and DELETE through the proxy, against the one table that ran them. */
  lemma QueryAfterRun(b: Backend, rule: Rule, store: Store, rows: seq<Row>, stmts: seq<Stmt>, e: Expr, sqls: SqlMap,
                      ran: seq<Sql>, limit: O.Limit, le: (Row, Row) -> bool, own: (Row, Row) -> bool,
                      rs: seq<seq<Row>>, merged: seq<Row>)
    requires ValidRule(rule) && Placed(rule, store) && Proper(rule, store) && Local(b, rule)
    requires (forall k :: 0 <= k < |stmts| ==> Plain(rule, stmts[k])) && Uniform(b, rule, store, stmts)
    requires multiset(Logical(store, rule.indexes)) == multiset(rows)
    requires HandleWhere(rule, e).Ok? && BoundsOk(rule, e) && Undecorated(e)
    requires Planned(rule, e, sqls) && RanAll(sqls, ran)
    requires O.TotalPreorder(le) && Finer(own, le) && Answering(b.w, rule, Run(b, rule, store, stmts), le, ran, rs)
    requires O.IsSortOf(own, merged, Flatten(O.BackendAnswers(rs, O.PlanLimit(limit).backend)))
    ensures O.IsAnswer(le, Select(b.w, rule, e, TableRun(b, rule, rows, stmts)), limit,
                       O.LimitSelectResult(merged, O.PlanLimit(limit)))
  {
    var store', r := Run(b, rule, store, stmts), O.LimitSelectResult(merged, O.PlanLimit(limit));
    SelectAfterRun(b, rule, store, rows, stmts, e);
    QueryAnswered(b.w, rule, e, store', sqls, ran, limit, le, own, rs, merged);
    ShardedSelectIsSelect(b.w, rule, e, store');
    SameStore(le, Select(b.w, rule, e, Logical(store', rule.indexes)),
              Select(b.w, rule, e, TableRun(b, rule, rows, stmts)), limit, r);
  }
}
