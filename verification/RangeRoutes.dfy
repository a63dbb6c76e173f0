/** Minimal routes on numeric ranges: each routed table can hold a matching key. */
module RangeRoutes {
  import opened Arithmetic
  import opened Lists
  import opened Rules
  import opened Routing
  import opened Semantics

  /** Some 64-bit key of table i satisfies `key op v`. */
  ghost predicate CanMatch(rule: Rule, op: Op, v: int, i: int) {
    exists k :: IsInt64(k) && FindForKey(rule.shard, k) == Ok(i) && Cmp(op, Int(k), Int(v)) == True
  }

  /** For `<`, `<=` and `>=` the route is exactly the tables that can hold a match. */
  lemma CompareRouteExact(rule: Rule, op: Op, v: int, i: int)
    requires ValidRule(rule) && rule.shard.NumRange? && i in rule.indexes
    requires (op == LT || op == LE || op == GE) && IsInt64(v)
    requires FindTableIndexes(rule, op, rule.column, Int(v)).Ok?
    ensures i in FindTableIndexes(rule, op, rule.column, Int(v)).value <==> CanMatch(rule, op, v, i)
  {
    forall k | FindForKey(rule.shard, k) == Ok(i) && Cmp(op, Int(k), Int(v)) == True
      ensures i in FindTableIndexes(rule, op, rule.column, Int(v)).value
    {
      CompareLeafSound(rule, op, Int(v), k);
    }
    if i in FindTableIndexes(rule, op, rule.column, Int(v)).value {
      var shards, j := rule.shard.shards, FindForKey(rule.shard, v).value;
      IndexBounds(rule);
      StartMaps(rule, i);
      ScanFinds(shards, v, 0);
      var k := if op == GE && i == j then v else shards[i].start;
      assert IsInt64(k) && FindForKey(rule.shard, k) == Ok(i) && Cmp(op, Int(k), Int(v)) == True;
    }
  }

  /** For `>` the table of v itself is routed even when v is its last key, or the greatest key there is; all the
      others can match. */
  lemma GreaterRouteExactIff(rule: Rule, v: int, i: int)
    requires ValidRule(rule) && rule.shard.NumRange? && i in rule.indexes && IsInt64(v)
    requires FindTableIndexes(rule, GT, rule.column, Int(v)).Ok?
    ensures CanMatch(rule, GT, v, i) <==>
            i in FindTableIndexes(rule, GT, rule.column, Int(v)).value
            && (FindForKey(rule.shard, v) == Ok(i) ==> IsInt64(v + 1) && FindForKey(rule.shard, v + 1) == Ok(i))
  {
    var shards, j := rule.shard.shards, FindForKey(rule.shard, v).value;
    IndexBounds(rule);
    StartMaps(rule, i);
    ScanFinds(shards, v, 0);
    ScanFinds(shards, v + 1, 0);
    if CanMatch(rule, GT, v, i) {
      var k :| IsInt64(k) && FindForKey(rule.shard, k) == Ok(i) && Cmp(GT, Int(k), Int(v)) == True;
      CompareLeafSound(rule, GT, Int(v), k);
      ScanFinds(shards, k, 0);
      if i == j { assert shards[i].Contains(v + 1); }
    }
    if i in FindTableIndexes(rule, GT, rule.column, Int(v)).value {
      var k := if i == j then v + 1 else shards[i].start;
      if FindForKey(rule.shard, v) == Ok(i) ==> IsInt64(v + 1) && FindForKey(rule.shard, v + 1) == Ok(i) {
        assert IsInt64(k) && FindForKey(rule.shard, k) == Ok(i) && Cmp(GT, Int(k), Int(v)) == True;
      }
    }
  }

  /** For ordered bounds the BETWEEN route is exactly the tables that can hold a key between them. */
  lemma BetweenRouteExact(rule: Rule, lo: int, hi: int, i: int)
    requires ValidRule(rule) && rule.shard.NumRange? && i in rule.indexes && lo <= hi && IsInt64(lo) && IsInt64(hi)
    requires RangeBetween(rule, Literal(Int(lo)), Literal(Int(hi)), false).Ok?
    ensures i in RangeBetween(rule, Literal(Int(lo)), Literal(Int(hi)), false).value <==>
            exists k :: IsInt64(k) && FindForKey(rule.shard, k) == Ok(i) && lo <= k <= hi
  {
    forall k | FindForKey(rule.shard, k) == Ok(i) && lo <= k <= hi
      ensures i in RangeBetween(rule, Literal(Int(lo)), Literal(Int(hi)), false).value
    {
      BetweenKeyRouted(rule, lo, hi, k);
    }
    if i in RangeBetween(rule, Literal(Int(lo)), Literal(Int(hi)), false).value {
      var shards := rule.shard.shards;
      FindMonotone(rule, lo, hi);
      StartMaps(rule, i);
      ScanFinds(shards, lo, 0);
      ScanFinds(shards, hi, 0);
      var k := if FindForKey(rule.shard, lo) == Ok(i) then lo else shards[i].start;
      assert FindForKey(rule.shard, k) == Ok(i) && lo <= k <= hi;
    }
  }

  /** Three tables of ten keys each. */
  function Tens(): Rule {
    Rule("id", [0, 1, 2], map[0 := 0, 1 := 0, 2 := 0], ["s"], map[],
         NumRange([NumKeyRange(0, 10), NumKeyRange(10, 20), NumKeyRange(20, 30)]))
  }

  lemma TensValid()
    ensures ValidRule(Tens())
    ensures FindForKey(Tens().shard, 25) == Ok(2) && FindForKey(Tens().shard, 15) == Ok(1)
    ensures FindForKey(Tens().shard, 5) == Ok(0)
  {
    assert MakeList(3, 3) == [] && MakeList(2, 3) == [2] && MakeList(1, 3) == [1, 2] && MakeList(0, 3) == [0, 1, 2];
    var shards := Tens().shard.shards;
    forall k | FindForKey(Tens().shard, k).Ok? ensures FindForKey(Tens().shard, k).value in Tens().indexes {
      ScanFinds(shards, k, 0);
    }
    ScanFinds(shards, 25, 0);
    ScanFinds(shards, 15, 0);
    ScanFinds(shards, 5, 0);
    assert shards[2].Contains(25) && shards[1].Contains(15) && shards[0].Contains(5);
  }

  /** `NOT BETWEEN 25 AND 5` excludes no key and leaves the middle table out. */
  lemma ReversedBoundsExample()
    ensures ValidRule(Tens()) && RangeBetween(Tens(), Literal(Int(25)), Literal(Int(5)), true).Ok?
    ensures !NotBetweenSound(Tens(), 25, 5)
  {
    TensValid();
    assert RangeBetween(Tens(), Literal(Int(25)), Literal(Int(5)), true).Ok?;
    NotBetweenTables(Tens(), 25, 5, 1);
  }
}
