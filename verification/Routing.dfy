/** WHERE-clause routing and rewriting: `proxy/plan/plan_select.go`,
    `decorator_pattern_in_expr.go` and `decorator_between_expr.go`. */
module Routing {
  import opened Lists
  import opened Rules

  datatype Op = EQ | NE | GT | GE | LT | LE

  /** `Other` is any operand that is neither a column nor a literal. */
  datatype Operand =
    | Column(name: string, qualified: bool)
    | Literal(value: Value)
    | Other(id: nat)

  /** The condition tree. `Atom` is every node the planner leaves alone, `Absent` a statement without
      WHERE; `SplitIn` is the decorator that an IN node on the sharded table becomes, with its values
      per table index. */
  datatype Expr =
    | And(l: Expr, r: Expr)
    | Or(l: Expr, r: Expr)
    | Paren(e: Expr)
    | Compare(op: Op, left: Operand, right: Operand)
    | In(target: Operand, list: seq<Operand>, negated: bool)
    | Between(target: Operand, lo: Operand, hi: Operand, negated: bool)
    | Atom(id: nat)
    | Absent
    | SplitIn(target: Operand, values: map<int, seq<Operand>>, negated: bool)

  /** Indexes and per-index values of one IN list. */
  datatype Split = Split(indexes: seq<int>, values: map<int, seq<Operand>>)

  /** What handling a node yields: hasRoutingResult, route and the node to keep. */
  datatype Routed = Routed(has: bool, route: seq<int>, expr: Expr)

  // ---------------------------------------------------------------- planner

  /** A column of the table is decorated when it is qualified or is the sharding column. */
  predicate NeedsDecorator(rule: Rule, c: Operand) {
    c.Column? && (c.qualified || c.name == rule.column)
  }

  function InverseOperator(op: Op): Op {
    match op
    case GT => LT
    case GE => LE
    case LT => GT
    case LE => GE
    case _ => op
  }

  function AdjustShardIndex(shards: seq<NumKeyRange>, v: int, index: int): int
    requires 0 <= index < |shards|
  {
    if EqualStart(shards, v, index) then index - 1 else index
  }

  /** The tables a comparison `name op v` can match (getFindTableIndexesFunc). */
  function FindTableIndexes(rule: Rule, op: Op, name: string, v: Value): Result<seq<int>>
    requires ValidRule(rule)
  {
    if rule.column != name then Ok(rule.indexes)
    else if op == EQ then
      var index :- FindTableIndex(rule, v);
      Ok([index])
    else if op == NE || rule.shard.Hashed? then Ok(rule.indexes)
    else
      var index :- FindTableIndex(rule, v);
      if op == LT then
        Ok(MakeList(FirstIndex(rule), AdjustShardIndex(rule.shard.shards, v.v, index) + 1))
      else if op == LE then Ok(MakeList(FirstIndex(rule), index + 1))
      else Ok(MakeList(index, LastIndex(rule) + 1))
  }

  function FirstIndex(rule: Rule): int requires rule.indexes != [] { rule.indexes[0] }

  function LastIndex(rule: Rule): int requires rule.indexes != [] { rule.indexes[|rule.indexes| - 1] }

  /** A BETWEEN on the sharding column of a range rule (getShardBetweenExprRouteResult). */
  function RangeBetween(rule: Rule, lo: Operand, hi: Operand, negated: bool): Result<seq<int>>
    requires ValidRule(rule) && rule.shard.NumRange?
  {
    if !lo.Literal? || !hi.Literal? then Rejected
    else
      var start :- FindTableIndex(rule, lo.value);
      var last :- FindTableIndex(rule, hi.value);
      var shards := rule.shard.shards;
      if negated then
        var (s, t) := if start > last then (AdjustShardIndex(shards, hi.value.v, last), start)
                      else (AdjustShardIndex(shards, lo.value.v, start), last);
        Ok(Union(MakeList(FirstIndex(rule), s + 1), MakeList(t, LastIndex(rule) + 1)))
      else if start > last then Ok(MakeList(last, start + 1))
      else Ok(MakeList(start, last + 1))
  }

  function BetweenRoute(rule: Rule, name: string, lo: Operand, hi: Operand, negated: bool): Result<seq<int>>
    requires ValidRule(rule)
  {
    if rule.column == name && rule.shard.NumRange? then RangeBetween(rule, lo, hi, negated)
    else Ok(rule.indexes)
  }

  /** Each literal goes to the list of the table its value maps to. */
  function SplitValues(rule: Rule, list: seq<Operand>): Result<Split>
  {
    if list == [] then Ok(Split([], map[]))
    else
      var n := |list| - 1;
      var s :- SplitValues(rule, list[..n]);
      if !list[n].Literal? then Rejected
      else
        var idx :- FindTableIndex(rule, list[n].value);
        var bucket := if idx in s.values then s.values[idx] else [];
        Ok(Split(Union(s.indexes, [idx]), s.values[idx := bucket + [list[n]]]))
  }

  predicate AllLiterals(list: seq<Operand>) {
    forall i :: 0 <= i < |list| ==> list[i].Literal?
  }

  /** The value of getPatternInRouteResult. */
  function PatternInRoute(rule: Rule, name: string, negated: bool, list: seq<Operand>): Result<Split>
  {
    if !AllLiterals(list) then Rejected
    else if negated || rule.column != name then
      Ok(Split(rule.indexes, map i | i in rule.indexes :: list))
    else SplitValues(rule, list)
  }

  function HandleCompare(rule: Rule, e: Expr): Result<Routed>
    requires ValidRule(rule) && e.Compare?
  {
    if NeedsDecorator(rule, e.left) && e.right.Literal? then
      var route :- FindTableIndexes(rule, e.op, e.left.name, e.right.value);
      Ok(Routed(true, route, e))
    else if NeedsDecorator(rule, e.right) && e.left.Literal? then
      var route :- FindTableIndexes(rule, InverseOperator(e.op), e.right.name, e.left.value);
      Ok(Routed(true, route, e))
    else Ok(Routed(false, [], e))
  }

  /** mergeBinaryOperationRouteResult, and the node with both children replaced. */
  function MergeLogic(e: Expr, l: Routed, r: Routed): Routed
    requires e.And? || e.Or?
  {
    if e.And? then
      Routed(l.has || r.has,
             if l.has && r.has then Inter(l.route, r.route)
             else if l.has then l.route
             else if r.has then r.route else [],
             And(l.expr, r.expr))
    else
      Routed(l.has && r.has,
             if l.has && r.has then Union(l.route, r.route) else [],
             Or(l.expr, r.expr))
  }

  /** handleComparisonExpr. */
  function Handle(rule: Rule, e: Expr): Result<Routed>
    requires ValidRule(rule)
  {
    match e
    case And(l, r) =>
      var lr :- Handle(rule, l);
      var rr :- Handle(rule, r);
      Ok(MergeLogic(e, lr, rr))
    case Or(l, r) =>
      var lr :- Handle(rule, l);
      var rr :- Handle(rule, r);
      Ok(MergeLogic(e, lr, rr))
    case Paren(x) =>
      var xr :- Handle(rule, x);
      Ok(Routed(xr.has, xr.route, Paren(xr.expr)))
    case Compare(_, _, _) => HandleCompare(rule, e)
    case In(target, list, negated) =>
      if !NeedsDecorator(rule, target) then Ok(Routed(false, [], e))
      else
        var s :- PatternInRoute(rule, target.name, negated, list);
        Ok(Routed(true, s.indexes, SplitIn(target, s.values, negated)))
    case Between(target, lo, hi, negated) =>
      if !NeedsDecorator(rule, target) then Ok(Routed(false, [], e))
      else
        var route :- BetweenRoute(rule, target.name, lo, hi, negated);
        Ok(Routed(true, route, e))
    case Atom(_) => Ok(Routed(false, rule.indexes, e))
    case Absent => Ok(Routed(false, rule.indexes, e))
    case SplitIn(_, _, _) => Ok(Routed(false, rule.indexes, e))
  }

  /** handleWhere (also for UPDATE and DELETE): the full route narrowed by the condition. */
  function HandleWhere(rule: Rule, where: Expr): Result<Routed>
    requires ValidRule(rule)
  {
    var r :- Handle(rule, where);
    Ok(Routed(r.has, if r.has then Inter(rule.indexes, r.route) else rule.indexes, r.expr))
  }

  /** What Restore writes for one table index: a split IN keeps that index's values. */
  function Restore(e: Expr, index: int): Expr {
    match e
    case And(l, r) => And(Restore(l, index), Restore(r, index))
    case Or(l, r) => Or(Restore(l, index), Restore(r, index))
    case Paren(x) => Paren(Restore(x, index))
    case SplitIn(target, values, negated) =>
      In(target, if index in values then values[index] else [], negated)
    case _ => e
  }

  /** getPatternInRouteResult as the source runs it: a global table is sent the whole list everywhere;
      otherwise one pass that files the values and collects the new indexes, then a sort. */
  method GetPatternInRouteResult(rule: Rule, global: bool, name: string, negated: bool, list: seq<Operand>)
    returns (r: Result<Split>)
    ensures global ==> r.Ok? && r.value.indexes == rule.indexes && r.value.values.Keys == (set i | i in rule.indexes)
    ensures global ==> forall i :: i in rule.indexes ==> r.value.values[i] == list
    ensures !global ==> r == PatternInRoute(rule, name, negated, list)
  {
    if global {
      return Ok(Split(rule.indexes, map i | i in rule.indexes :: list));
    }
    if !AllLiterals(list) {
      return Rejected;
    }
    if negated || rule.column != name {
      return Ok(Split(rule.indexes, map i | i in rule.indexes :: list));
    }
    var indexes: seq<int> := [];
    var values: map<int, seq<Operand>> := map[];
    for k := 0 to |list|
      invariant SplitValues(rule, list[..k]).Ok?
      invariant values == SplitValues(rule, list[..k]).value.values
      invariant Distinct(indexes) && forall x :: x in indexes <==> x in values
    {
      assert list[..k + 1][..k] == list[..k];
      var found := FindTableIndex(rule, list[k].value);
      if found.Rejected? {
        SplitRejects(rule, list, k + 1);
        return Rejected;
      }
      var idx := found.value;
      if idx !in values {
        indexes := indexes + [idx];
      }
      values := values[idx := (if idx in values then values[idx] else []) + [list[k]]];
    }
    assert list[..|list|] == list;
    indexes := SortInts(indexes);
    SplitIndexes(rule, list);
    IncreasingUnique(indexes, SplitValues(rule, list).value.indexes);
    r := Ok(Split(indexes, values));
  }

  /** `sort.Ints` on a list without duplicates. */
  method SortInts(s: seq<int>) returns (r: seq<int>)
    requires Distinct(s)
    ensures Increasing(r) && forall x :: x in r <==> x in s
  {
    r := [];
    for k := 0 to |s|
      invariant Increasing(r) && forall x :: x in r <==> x in s[..k]
    {
      assert s[..k + 1] == s[..k] + [s[k]];
      r := InsertSorted(r, s[k]);
    }
    assert s[..|s|] == s;
  }

  lemma {:induction false} SplitRejects(rule: Rule, list: seq<Operand>, k: nat)
    requires k <= |list| && SplitValues(rule, list[..k]).Rejected?
    ensures SplitValues(rule, list).Rejected?
    decreases |list| - k
  {
    if k < |list| {
      assert list[..k + 1][..k] == list[..k];
      SplitRejects(rule, list, k + 1);
    } else {
      assert list[..k] == list;
    }
  }

  /** The literals of a list that map to table `x`, in list order. */
  function Mapped(rule: Rule, list: seq<Operand>, x: int): seq<Operand>
  {
    if list == [] then []
    else
      var n := |list| - 1;
      Mapped(rule, list[..n], x) +
      (if list[n].Literal? && FindTableIndex(rule, list[n].value) == Ok(x) then [list[n]] else [])
  }

  lemma {:induction false} MappedMembers(rule: Rule, list: seq<Operand>, x: int, o: Operand)
    ensures o in Mapped(rule, list, x) <==>
            o in list && o.Literal? && FindTableIndex(rule, o.value) == Ok(x)
  {
    if list != [] {
      var n := |list| - 1;
      MappedMembers(rule, list[..n], x, o);
      assert list == list[..n] + [list[n]];
    }
  }

  /** A split cuts the list by table: table x is routed exactly when some literal maps to it, and gets
      exactly those literals in list order; a list is split only when every member has a table. */
  lemma {:induction false} SplitIsPartition(rule: Rule, list: seq<Operand>, x: int)
    requires SplitValues(rule, list).Ok?
    ensures var s := SplitValues(rule, list).value;
            && (x in s.values <==> Mapped(rule, list, x) != [])
            && (x in s.values ==> s.values[x] == Mapped(rule, list, x))
  {
    if list != [] {
      var n := |list| - 1;
      SplitIsPartition(rule, list[..n], x);
    }
  }

  lemma {:induction false} SplitIndexes(rule: Rule, list: seq<Operand>)
    requires SplitValues(rule, list).Ok?
    ensures var s := SplitValues(rule, list).value;
            Increasing(s.indexes) && forall x :: x in s.indexes <==> x in s.values
  {
    if list != [] {
      var n := |list| - 1;
      SplitIndexes(rule, list[..n]);
      UnionIsUnion(SplitValues(rule, list[..n]).value.indexes,
                   [FindTableIndex(rule, list[n].value).value]);
    }
  }

  lemma {:induction false} SplitMembersMap(rule: Rule, list: seq<Operand>, o: Operand)
    requires SplitValues(rule, list).Ok? && o in list
    ensures o.Literal? && FindTableIndex(rule, o.value).Ok?
  {
    var n := |list| - 1;
    if o != list[n] {
      assert list == list[..n] + [list[n]];
      SplitMembersMap(rule, list[..n], o);
    }
  }
}
