/** GROUP BY and aggregate queries from end to end: the planned statements on the routed tables, grouping on every
    backend, and the proxy's merge, against one server that holds the logical table. */
module GroupedQueries {
  import opened Lists
  import opened Rules
  import opened Routing
  import opened Semantics
  import opened Plans
  import opened Dml
  import opened SingleTable
  import opened QueryAnswers
  import opened Decimal
  import G = GroupMerge

  /** What the select list shows of a row; an aggregated column shows the aggregate's argument. */
  type Show = Row -> G.Row

  function Cellwise(show: Show): Row -> seq<G.Row> { (row: Row) => [show(row)] }

  function Shown(show: Show, rows: seq<Row>): seq<G.Row> { FlatMap(Cellwise(show), rows) }

  // ---------------------------------------------------------------- GROUP BY

  /** Statement by statement, what backends that group under `fold` answer over the rows they select. */
  ghost predicate GroupAnswering(w: World, rule: Rule, store: Store, q: G.Query, fold: G.Collation, show: Show,
                                 ran: seq<Sql>, shards: seq<G.Shard>)
    requires G.ValidQuery(q)
  {
    && |shards| == |ran|
    && forall k :: 0 <= k < |ran| ==>
         shards[k].base == Shown(show, RowsOf(w, rule, store)(ran[k])) && G.ShardAnswers(q, fold, shards[k])
  }

  lemma {:induction false} BasesShown(f: Sql -> seq<Row>, show: Show, ran: seq<Sql>, shards: seq<G.Shard>)
    requires |shards| == |ran| && forall k :: 0 <= k < |ran| ==> shards[k].base == Shown(show, f(ran[k]))
    ensures G.Bases(shards) == Shown(show, FlatMap(f, ran))
  {
    if ran == [] {
      assert shards == [];
    } else {
      var n := |ran| - 1;
      BasesShown(f, show, ran[..n], shards[..n]);
      assert ran == ran[..n] + [ran[n]];
      FlatMapConcat(f, ran[..n], [ran[n]]);
      assert FlatMap(f, [ran[n]]) == f(ran[n]) + FlatMap(f, []) == f(ran[n]);
      FlatMapConcat(Cellwise(show), FlatMap(f, ran[..n]), f(ran[n]));
    }
  }

  /** The shards together hold what the condition selects from the logical table. */
  lemma BasesSelected(w: World, rule: Rule, e: Expr, store: Store, sqls: SqlMap, q: G.Query, fold: G.Collation,
                      show: Show, ran: seq<Sql>, shards: seq<G.Shard>)
    requires ValidRule(rule) && HandleWhere(rule, e).Ok? && BoundsOk(rule, e) && Undecorated(e)
    requires Placed(rule, store) && Planned(rule, e, sqls) && RanAll(sqls, ran)
    requires G.ValidQuery(q) && GroupAnswering(w, rule, store, q, fold, show, ran, shards)
    ensures multiset(G.Bases(shards)) == multiset(Shown(show, Select(w, rule, e, Logical(store, rule.indexes))))
    ensures G.Answered(q, fold, shards)
  {
    var f := RowsOf(w, rule, store);
    BasesShown(f, show, ran, shards);
    StatementRows(w, rule, e, store, sqls, ran);
    FlatMapPerm(Cellwise(show), FlatMap(f, ran), Select(w, rule, e, Logical(store, rule.indexes)));
  }

  /** WHERE and GROUP BY through the proxy: with the statements run in any order, the merged map holds one row per group
      of what the condition selects from the logical table, with the group's aggregates, when at most one statement
      ran or the backends' collation tells apart all keys the columns can hold. */
  lemma GroupedQueryAnswered(w: World, rule: Rule, e: Expr, store: Store, sqls: SqlMap, q: G.Query, fold: G.Collation,
                             show: Show, ran: seq<Sql>, shards: seq<G.Shard>, result: map<seq<Byte>, G.Row>,
                             table: seq<G.Row>)
    requires ValidRule(rule) && HandleWhere(rule, e).Ok? && BoundsOk(rule, e) && Undecorated(e)
    requires Placed(rule, store) && Planned(rule, e, sqls) && RanAll(sqls, ran)
    requires G.ValidQuery(q) && GroupAnswering(w, rule, store, q, fold, show, ran, shards)
    requires G.Wide(q, G.Outs(shards)) && G.AllFiled(q, G.Outs(shards), result)
    requires |ran| <= 1 || G.Discerning(q, fold)
    requires G.Wide(q, table)
    requires multiset(table) == multiset(Shown(show, Select(w, rule, e, Logical(store, rule.indexes))))
    ensures G.WholeGroups(q, fold, table, result)
  {
    BasesSelected(w, rule, e, store, sqls, q, fold, show, ran, shards);
    G.MergeExactIff(q, fold, |shards|);
    assert G.Merged(q, fold, shards, table, result);
  }

  /** The same after any run of INSERT, UPDATE and DELETE through the proxy, against the one table that ran them. */
  lemma GroupedQueryAfterRun(b: Backend, rule: Rule, store: Store, rows: seq<Row>, stmts: seq<Stmt>, e: Expr,
                             sqls: SqlMap, q: G.Query, fold: G.Collation, show: Show, ran: seq<Sql>,
                             shards: seq<G.Shard>, result: map<seq<Byte>, G.Row>)
    requires ValidRule(rule) && Placed(rule, store) && Proper(rule, store) && Local(b, rule)
    requires (forall k :: 0 <= k < |stmts| ==> Plain(rule, stmts[k])) && Uniform(b, rule, store, stmts)
    requires multiset(Logical(store, rule.indexes)) == multiset(rows)
    requires HandleWhere(rule, e).Ok? && BoundsOk(rule, e) && Undecorated(e)
    requires Planned(rule, e, sqls) && RanAll(sqls, ran)
    requires G.ValidQuery(q) && GroupAnswering(b.w, rule, Run(b, rule, store, stmts), q, fold, show, ran, shards)
    requires G.Wide(q, G.Outs(shards)) && G.AllFiled(q, G.Outs(shards), result)
    requires |ran| <= 1 || G.Discerning(q, fold)
    requires G.Wide(q, Shown(show, Select(b.w, rule, e, TableRun(b, rule, rows, stmts))))
    ensures G.WholeGroups(q, fold, Shown(show, Select(b.w, rule, e, TableRun(b, rule, rows, stmts))), result)
  {
    var store', selected := Run(b, rule, store, stmts), Select(b.w, rule, e, TableRun(b, rule, rows, stmts));
    SelectAfterRun(b, rule, store, rows, stmts, e);
    ShardedSelectIsSelect(b.w, rule, e, store');
    FlatMapPerm(Cellwise(show), Select(b.w, rule, e, Logical(store', rule.indexes)), selected);
    GroupedQueryAnswered(b.w, rule, e, store', sqls, q, fold, show, ran, shards, result, Shown(show, selected));
  }

  // ---------------------------------------------------------------- aggregates without GROUP BY

  ghost predicate AllWide(q: G.Query, rows: seq<G.Row>) { forall i :: 0 <= i < |rows| ==> |rows[i]| == q.width }

  /** The aggregates one server answers over a table, empty or not. */
  ghost predicate Aggregated(q: G.Query, table: seq<G.Row>, row: G.Row)
    requires G.ValidQuery(q)
  {
    && AllWide(q, table) && |row| == q.width
    && forall c :: c in q.aggs ==> row[c] == G.Agg(q.aggs[c], G.Column(table, c))
  }

  ghost predicate AggregateAnswering(w: World, rule: Rule, store: Store, q: G.Query, show: Show, ran: seq<Sql>,
                                     outs: seq<G.Row>)
    requires G.ValidQuery(q)
  {
    && |outs| == |ran|
    && forall k :: 0 <= k < |ran| ==> Aggregated(q, Shown(show, RowsOf(w, rule, store)(ran[k])), outs[k])
  }

  /** The rows of the result. */
  function AggregateResult(q: G.Query, sqls: SqlMap, outs: seq<G.Row>): seq<G.Row>
    requires forall i :: 0 <= i < |outs| ==> |outs[i]| == q.width
  {
    if sqls == map[] then [] else [if outs == [] then [] else G.MergeRows(q, outs)]
  }

  /** ExecuteIn: no statement, no row; otherwise the merge of the answers. */
  method ExecuteIn(q: G.Query, sqls: SqlMap, outs: seq<G.Row>) returns (rows: seq<G.Row>)
    requires G.ValidQuery(q) && AllWide(q, outs)
    ensures rows == AggregateResult(q, sqls, outs)
  {
    if sqls == map[] { return []; }
    var r := G.BuildSelectOnlyResult(q, outs);
    return [r];
  }

  ghost predicate OneServerRow(q: G.Query, table: seq<G.Row>, rows: seq<G.Row>)
    requires G.ValidQuery(q)
  {
    |rows| == 1 && Aggregated(q, table, rows[0])
  }

  /** Over every store, with the statements run in any order, the result is the one row of one server. */
  ghost predicate AggregatesExact(w: World, rule: Rule, e: Expr, q: G.Query, show: Show)
    requires ValidRule(rule) && HandleWhere(rule, e).Ok? && G.ValidQuery(q)
  {
    forall store, sqls, ran, outs :: Executed(w, rule, e, q, show, store, sqls, ran, outs) ==>
      OneServerRow(q, Shown(show, Select(w, rule, e, Logical(store, rule.indexes))), AggregateResult(q, sqls, outs))
  }

  ghost predicate Executed(w: World, rule: Rule, e: Expr, q: G.Query, show: Show, store: Store, sqls: SqlMap,
                           ran: seq<Sql>, outs: seq<G.Row>)
    requires ValidRule(rule) && HandleWhere(rule, e).Ok? && G.ValidQuery(q)
  {
    && Placed(rule, store) && Planned(rule, e, sqls) && RanAll(sqls, ran)
    && AggregateAnswering(w, rule, store, q, show, ran, outs) && AllWide(q, outs)
  }

  lemma {:induction false} FlattenShown(f: Sql -> seq<Row>, show: Show, ran: seq<Sql>, bases: seq<seq<G.Row>>)
    requires |bases| == |ran| && forall k :: 0 <= k < |ran| ==> bases[k] == Shown(show, f(ran[k]))
    ensures Flatten(bases) == Shown(show, FlatMap(f, ran))
  {
    if ran == [] {
      assert bases == [];
    } else {
      var n := |ran| - 1;
      FlattenShown(f, show, ran[..n], bases[..n]);
      assert ran == ran[..n] + [ran[n]];
      FlatMapConcat(f, ran[..n], [ran[n]]);
      assert FlatMap(f, [ran[n]]) == f(ran[n]) + FlatMap(f, []) == f(ran[n]);
      FlatMapConcat(Cellwise(show), FlatMap(f, ran[..n]), f(ran[n]));
    }
  }

  /** Every statement routed gets one, and there is one exactly when a table is routed. */
  lemma RouteRuns(rule: Rule, e: Expr, sqls: SqlMap, ran: seq<Sql>)
    requires ValidRule(rule) && HandleWhere(rule, e).Ok? && Planned(rule, e, sqls) && RanAll(sqls, ran)
    ensures |ran| == |HandleWhere(rule, e).value.route| && (sqls == map[] <==> ran == [])
  {
    var plan := HandleWhere(rule, e).value;
    RanIsRoute(rule, plan.expr, plan.route, sqls, ran);
    assert |ran| == |multiset(ran)| == |multiset(Restored(plan.expr, plan.route))|;
    FiledRun(sqls, ran);
  }

  lemma FiledRun(sqls: SqlMap, ran: seq<Sql>)
    requires NoneEmpty(sqls) && RanAll(sqls, ran)
    ensures sqls == map[] <==> ran == []
  {
    assert ran != [] ==> ran[0] in ran;
    if sqls != map[] {
      assert sqls.Keys != {};
      var s :| s in sqls;
      assert sqls[s].Keys != {};
      var d :| d in sqls[s];
      assert sqls[s][d][0] in Under(sqls, s, d);
      assert sqls[s][d][0] in ran;
    }
  }

  /** The merged aggregates are those of all selected rows. */
  lemma MergedAggregates(q: G.Query, bases: seq<seq<G.Row>>, outs: seq<G.Row>, table: seq<G.Row>)
    requires G.ValidQuery(q) && |bases| == |outs| > 0 && AllWide(q, outs) && AllWide(q, table)
    requires forall k :: 0 <= k < |outs| ==> Aggregated(q, bases[k], outs[k])
    requires multiset(Flatten(bases)) == multiset(table)
    ensures Aggregated(q, table, G.MergeRows(q, outs))
  {
    forall c | c in q.aggs ensures G.MergeRows(q, outs)[c] == G.Agg(q.aggs[c], G.Column(table, c)) {
      G.UngroupedMergeExact(q, bases, outs, c);
      G.ColumnMultiset(Flatten(bases), table, c);
      G.AggPerm(q.aggs[c], G.Column(Flatten(bases), c), G.Column(table, c));
    }
  }

  lemma RoutedAggregates(w: World, rule: Rule, e: Expr, store: Store, sqls: SqlMap, q: G.Query, show: Show,
                         ran: seq<Sql>, outs: seq<G.Row>)
    requires ValidRule(rule) && HandleWhere(rule, e).Ok? && BoundsOk(rule, e) && Undecorated(e)
    requires Placed(rule, store) && Planned(rule, e, sqls) && RanAll(sqls, ran)
    requires G.ValidQuery(q) && AggregateAnswering(w, rule, store, q, show, ran, outs) && AllWide(q, outs)
    requires HandleWhere(rule, e).value.route != []
    ensures OneServerRow(q, Shown(show, Select(w, rule, e, Logical(store, rule.indexes))),
                         AggregateResult(q, sqls, outs))
  {
    RouteRuns(rule, e, sqls, ran);
    var f, selected := RowsOf(w, rule, store), Select(w, rule, e, Logical(store, rule.indexes));
    var bases := seq(|ran|, k requires 0 <= k < |ran| => Shown(show, f(ran[k])));
    FlattenShown(f, show, ran, bases);
    StatementRows(w, rule, e, store, sqls, ran);
    FlatMapPerm(Cellwise(show), FlatMap(f, ran), selected);
    ShownWide(q, bases, Shown(show, selected));
    MergedAggregates(q, bases, outs, Shown(show, selected));
  }

  lemma ShownWide(q: G.Query, bases: seq<seq<G.Row>>, table: seq<G.Row>)
    requires forall k :: 0 <= k < |bases| ==> AllWide(q, bases[k])
    requires multiset(Flatten(bases)) == multiset(table)
    ensures AllWide(q, table)
  {
    G.FlattenWide(bases, q.width);
    forall i | 0 <= i < |table| ensures |table[i]| == q.width { assert table[i] in multiset(Flatten(bases)); }
  }

  /** The store without rows. */
  function Empty(rule: Rule): Store { map i | i in rule.indexes :: [] }

  lemma UnroutedAggregates(w: World, rule: Rule, e: Expr, q: G.Query, show: Show)
    requires ValidRule(rule) && HandleWhere(rule, e).Ok? && G.ValidQuery(q) && HandleWhere(rule, e).value.route == []
    ensures !AggregatesExact(w, rule, e, q, show)
  {
    assert Executed(w, rule, e, q, show, Empty(rule), map[], [], []) by {
      NothingFiled(rule, HandleWhere(rule, e).value.expr);
      assert Planned(rule, e, map[]) && RanAll(map[], []);
      assert Placed(rule, Empty(rule));
    }
    assert AggregateResult(q, map[], []) == [];
  }

  /** WHERE with aggregates and no GROUP BY: the proxy returns one server's row over every store exactly when the
      condition routes to some table. */
  lemma AggregateQueryIff(w: World, rule: Rule, e: Expr, q: G.Query, show: Show)
    requires ValidRule(rule) && HandleWhere(rule, e).Ok? && BoundsOk(rule, e) && Undecorated(e) && G.ValidQuery(q)
    ensures AggregatesExact(w, rule, e, q, show) <==> HandleWhere(rule, e).value.route != []
  {
    if HandleWhere(rule, e).value.route == [] {
      UnroutedAggregates(w, rule, e, q, show);
    } else {
      forall store, sqls, ran, outs | Executed(w, rule, e, q, show, store, sqls, ran, outs)
        ensures OneServerRow(q, Shown(show, Select(w, rule, e, Logical(store, rule.indexes))),
                             AggregateResult(q, sqls, outs))
      {
        RoutedAggregates(w, rule, e, store, sqls, q, show, ran, outs);
      }
    }
  }

  // ---------------------------------------------------------------- a condition no table satisfies

  /** `id = 0 AND id = 1`. */
  function Contradiction(): Expr {
    And(Compare(EQ, Column("id", false), Literal(Int(0))), Compare(EQ, Column("id", false), Literal(Int(1))))
  }

  /** SELECT COUNT(*). */
  function CountAll(): (q: G.Query)
    ensures G.ValidQuery(q)
  {
    G.Query(1, [], map[0 := G.Count], {})
  }

  /** `SELECT COUNT(*) ... WHERE id = 0 AND id = 1` over two tables by parity is accepted with an empty route: the
      proxy returns no row, where one server returns 0. */
  lemma EmptyRouteExample(w: World, sqls: SqlMap, ran: seq<Sql>, outs: seq<G.Row>)
    requires ValidRule(ParityRule()) && HandleWhere(ParityRule(), Contradiction()).Ok?
    requires Planned(ParityRule(), Contradiction(), sqls) && RanAll(sqls, ran)
    requires |outs| == |ran| && AllWide(CountAll(), outs)
    ensures AggregateResult(CountAll(), sqls, outs) == []
    ensures Aggregated(CountAll(), [], [G.Int(0)])
  {
    EmptyRoute();
    RouteRuns(ParityRule(), Contradiction(), sqls, ran);
    assert G.Present([]) == [];
  }

  lemma EmptyRoute()
    ensures ValidRule(ParityRule()) && HandleWhere(ParityRule(), Contradiction()).Ok?
    ensures HandleWhere(ParityRule(), Contradiction()).value.route == []
  {
    ParityRoutes();
    assert Inter([0], [1]) == [];
    assert Inter([0, 1], []) == [];
  }
}
