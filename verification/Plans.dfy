/** Route cursor and SQL generation: `proxy/plan/route_result.go` and generateShardingSQLs of
    `proxy/plan/plan.go`. */
module Plans {
  import opened Lists
  import opened Rules
  import opened Routing

  /** The route of a statement and the cursor that restoring reads. */
  class RouteResult {
    var currentIndex: nat
    var indexes: seq<int>

    constructor (initIndexes: seq<int>)
      ensures currentIndex == 0 && indexes == initIndexes
    {
      currentIndex := 0;
      indexes := initIndexes;
    }

    method Inter(other: seq<int>)
      modifies this`indexes
      ensures indexes == Lists.Inter(old(indexes), other)
    {
      indexes := InterList(indexes, other);
    }

    method Union(other: seq<int>)
      modifies this`indexes
      ensures indexes == Lists.Union(old(indexes), other)
    {
      indexes := UnionList(indexes, other);
    }

    predicate HasNext() reads this {
      currentIndex < |indexes|
    }

    function GetCurrentTableIndex(): Result<int> reads this {
      if currentIndex >= |indexes| then Rejected else Ok(indexes[currentIndex])
    }

    method Next() returns (index: int)
      requires HasNext()
      modifies this`currentIndex
      ensures currentIndex == old(currentIndex) + 1 && index == indexes[old(currentIndex)]
    {
      index := indexes[currentIndex];
      currentIndex := currentIndex + 1;
    }

    method Reset()
      modifies this`currentIndex
      ensures currentIndex == 0
    {
      currentIndex := 0;
    }
  }

  /** A generated statement: the table it names and its restored condition. */
  datatype Sql = Sql(index: int, where: Expr)

  /** First key slice, second key physical database. */
  type SqlMap = map<string, map<string, seq<Sql>>>

  ghost predicate HasSlice(rule: Rule, i: int) {
    i in rule.tableToSlice && 0 <= rule.tableToSlice[i] < |rule.slices|
  }

  function SliceName(rule: Rule, i: int): string
    requires HasSlice(rule, i)
  {
    rule.slices[rule.tableToSlice[i]]
  }

  function DatabaseName(rule: Rule, i: int): string {
    if i in rule.databases then rule.databases[i] else ""
  }

  function Under(sqls: SqlMap, slice: string, db: string): seq<Sql> {
    if slice in sqls && db in sqls[slice] then sqls[slice][db] else []
  }

  /** The statements due to one slice and database, in route order. */
  function Statements(rule: Rule, e: Expr, route: seq<int>, slice: string, db: string): seq<Sql>
    requires forall i :: i in route ==> HasSlice(rule, i)
  {
    if route == [] then []
    else
      var n := |route| - 1;
      var i := route[n];
      assert i in route;
      Statements(rule, e, route[..n], slice, db) +
      (if SliceName(rule, i) == slice && DatabaseName(rule, i) == db then [Sql(i, Restore(e, i))] else [])
  }

  /** Every slice and database has exactly the statements due to it. */
  ghost predicate Filed(rule: Rule, e: Expr, route: seq<int>, sqls: SqlMap)
    requires forall i :: i in route ==> HasSlice(rule, i)
  {
    && (forall s, d :: Under(sqls, s, d) == Statements(rule, e, route, s, d))
    && NoneEmpty(sqls)
  }

  /** No slice without a database, no database without a statement. */
  ghost predicate NoneEmpty(sqls: SqlMap) {
    && (forall s :: s in sqls ==> sqls[s] != map[])
    && (forall s, d :: s in sqls && d in sqls[s] ==> sqls[s][d] != [])
  }

  lemma StatementsStep(rule: Rule, e: Expr, route: seq<int>, i: int, s: string, d: string)
    requires HasSlice(rule, i) && forall j :: j in route ==> HasSlice(rule, j)
    ensures Statements(rule, e, route + [i], s, d) == Statements(rule, e, route, s, d) +
            if SliceName(rule, i) == s && DatabaseName(rule, i) == d then [Sql(i, Restore(e, i))] else []
  {
    assert (route + [i])[..|route|] == route;
  }

  lemma FiledStep(rule: Rule, e: Expr, route: seq<int>, i: int, sqls: SqlMap)
    requires HasSlice(rule, i) && (forall j :: j in route ==> HasSlice(rule, j)) && Filed(rule, e, route, sqls)
    ensures Filed(rule, e, route + [i], File(sqls, SliceName(rule, i), DatabaseName(rule, i), Sql(i, Restore(e, i))))
  {
    var r := File(sqls, SliceName(rule, i), DatabaseName(rule, i), Sql(i, Restore(e, i)));
    forall s, d ensures Under(r, s, d) == Statements(rule, e, route + [i], s, d) {
      StatementsStep(rule, e, route, i, s, d);
      assert Under(sqls, s, d) == Statements(rule, e, route, s, d);
    }
  }

  lemma NothingFiled(rule: Rule, e: Expr)
    ensures Filed(rule, e, [], map[])
  {
  }

  /** generateShardingSQLs: restores the statement at the cursor, advances, files the text, and resets
      the cursor at the end. */
  method GenerateShardingSQLs(e: Expr, result: RouteResult, rule: Rule) returns (ret: SqlMap)
    requires result.currentIndex == 0
    requires forall i :: i in result.indexes ==> HasSlice(rule, i)
    modifies result`currentIndex
    ensures result.currentIndex == 0
    ensures Filed(rule, e, result.indexes, ret)
  {
    ret := map[];
    NothingFiled(rule, e);
    assert result.indexes[..0] == [];
    while result.HasNext()
      invariant result.currentIndex <= |result.indexes|
      invariant Filed(rule, e, result.indexes[..result.currentIndex], ret)
      decreases |result.indexes| - result.currentIndex
    {
      ghost var n := result.currentIndex;
      var current := result.GetCurrentTableIndex();
      var text := Restore(e, current.value);
      var index := result.Next();
      var sliceName, dbName := SliceName(rule, index), DatabaseName(rule, index);
      assert Filed(rule, e, result.indexes[..n + 1], File(ret, sliceName, dbName, Sql(index, text))) by {
        assert result.indexes[..n + 1] == result.indexes[..n] + [index];
        FiledStep(rule, e, result.indexes[..n], index, ret);
      }
      ret := File(ret, sliceName, dbName, Sql(index, text));
    }
    assert result.indexes[..result.currentIndex] == result.indexes;
    result.Reset();
  }

  function File(sqls: SqlMap, slice: string, db: string, sql: Sql): (r: SqlMap)
    ensures Under(r, slice, db) == Under(sqls, slice, db) + [sql]
    ensures forall s, d :: (s, d) != (slice, db) ==> Under(r, s, d) == Under(sqls, s, d)
    ensures NoneEmpty(sqls) ==> NoneEmpty(r)
  {
    var inner := if slice in sqls then sqls[slice] else map[];
    sqls[slice := inner[db := Under(sqls, slice, db) + [sql]]]
  }

  /** Each routed table gets exactly one statement, its own, under its own slice and database. */
  lemma {:induction false} OneStatementPerTable(rule: Rule, e: Expr, route: seq<int>, slice: string, db: string)
    requires Increasing(route) && forall i :: i in route ==> HasSlice(rule, i)
    ensures forall q :: q in Statements(rule, e, route, slice, db) <==>
              q.index in route && q.where == Restore(e, q.index)
              && SliceName(rule, q.index) == slice && DatabaseName(rule, q.index) == db
    ensures forall j, k :: 0 <= j < k < |Statements(rule, e, route, slice, db)| ==>
              Statements(rule, e, route, slice, db)[j].index < Statements(rule, e, route, slice, db)[k].index
  {
    if route != [] {
      var n := |route| - 1;
      var init := route[..n];
      assert route == init + [route[n]];
      OneStatementPerTable(rule, e, init, slice, db);
      var ss := Statements(rule, e, init, slice, db);
      forall j | 0 <= j < |ss| ensures ss[j].index < route[n] {
        assert ss[j] in ss;
      }
    }
  }
}
