/** The meaning of a condition, and the theorem that the rewritten statements of the routed tables
    select what the original statement selects. */
module Semantics {
  import opened Lists
  import opened Rules
  import opened Routing

  datatype Truth = True | False | Unknown

  /** A stored row: the value of the sharding column and the other columns. */
  datatype Row = Row(key: int, cols: map<string, Value>)

  /** The parts of a condition the planner does not look into, as functions of the row. */
  datatype World = World(atom: (nat, Row) -> Truth, other: (nat, Row) -> Value)

  function And3(a: Truth, b: Truth): Truth {
    if a.False? || b.False? then False else if a.True? && b.True? then True else Unknown
  }

  function Not3(a: Truth): Truth {
    match a
    case True => False
    case False => True
    case Unknown => Unknown
  }

  function Or3(a: Truth, b: Truth): Truth { Not3(And3(Not3(a), Not3(b))) }

  function Bool3(b: bool): Truth { if b then True else False }

  function Cmp(op: Op, a: Value, b: Value): Truth {
    if a.Null? || b.Null? then Unknown
    else
      match op
      case EQ => Bool3(a.v == b.v)
      case NE => Bool3(a.v != b.v)
      case GT => Bool3(a.v > b.v)
      case GE => Bool3(a.v >= b.v)
      case LT => Bool3(a.v < b.v)
      case LE => Bool3(a.v <= b.v)
  }

  function OperandValue(w: World, rule: Rule, o: Operand, row: Row): Value {
    match o
    case Column(name, _) =>
      if name == rule.column then Int(row.key)
      else if name in row.cols then row.cols[name] else Null
    case Literal(v) => v
    case Other(id) => w.other(id, row)
  }

  /** `v IN (list)`: a disjunction of equalities; the empty list is false. */
  function InTruth(w: World, rule: Rule, v: Value, list: seq<Operand>, row: Row): Truth {
    if list == [] then False
    else
      var n := |list| - 1;
      Or3(InTruth(w, rule, v, list[..n], row), Cmp(EQ, v, OperandValue(w, rule, list[n], row)))
  }

  function Negate(negated: bool, t: Truth): Truth { if negated then Not3(t) else t }

  /** SQL truth of a condition on a row. A decorated IN has meaning only once it is restored. */
  function Eval(w: World, rule: Rule, e: Expr, row: Row): Truth {
    match e
    case And(l, r) => And3(Eval(w, rule, l, row), Eval(w, rule, r, row))
    case Or(l, r) => Or3(Eval(w, rule, l, row), Eval(w, rule, r, row))
    case Paren(x) => Eval(w, rule, x, row)
    case Compare(op, l, r) => Cmp(op, OperandValue(w, rule, l, row), OperandValue(w, rule, r, row))
    case In(target, list, negated) =>
      Negate(negated, InTruth(w, rule, OperandValue(w, rule, target, row), list, row))
    case Between(target, lo, hi, negated) =>
      var v := OperandValue(w, rule, target, row);
      Negate(negated, And3(Cmp(GE, v, OperandValue(w, rule, lo, row)),
                           Cmp(LE, v, OperandValue(w, rule, hi, row))))
    case Atom(id) => w.atom(id, row)
    case Absent => True
    case SplitIn(_, _, _) => Unknown
  }

  // ---------------------------------------------------------------- range order

  /** Order of keys and order of tables agree. */
  lemma FindMonotone(rule: Rule, k: int, v: int)
    requires ValidRule(rule) && rule.shard.NumRange?
    requires FindForKey(rule.shard, k).Ok? && FindForKey(rule.shard, v).Ok? && k <= v
    ensures FindForKey(rule.shard, k).value <= FindForKey(rule.shard, v).value
  {
    var shards := rule.shard.shards;
    ScanFinds(shards, k, 0);
    ScanFinds(shards, v, 0);
  }

  /** No smaller key shares a table with that table's start. */
  lemma BelowStart(rule: Rule, k: int, v: int)
    requires ValidRule(rule) && rule.shard.NumRange?
    requires FindForKey(rule.shard, k).Ok? && FindForKey(rule.shard, v).Ok? && k < v
    requires EqualStart(rule.shard.shards, v, FindForKey(rule.shard, v).value)
    ensures FindForKey(rule.shard, k).value < FindForKey(rule.shard, v).value
  {
    var shards := rule.shard.shards;
    ScanFinds(shards, k, 0);
    ScanFinds(shards, v, 0);
  }

  // ---------------------------------------------------------------- leaves

  /** A comparison on the sharding column is true only in routed tables. */
  lemma CompareLeafSound(rule: Rule, op: Op, v: Value, k: int)
    requires ValidRule(rule) && FindForKey(rule.shard, k).Ok?
    requires FindTableIndexes(rule, op, rule.column, v).Ok?
    requires Cmp(op, Int(k), v) == True
    ensures FindForKey(rule.shard, k).value in FindTableIndexes(rule, op, rule.column, v).value
  {
    var i := FindForKey(rule.shard, k).value;
    assert i in rule.indexes;
    if op != EQ && op != NE && rule.shard.NumRange? {
      if k <= v.v { FindMonotone(rule, k, v.v); } else { FindMonotone(rule, v.v, k); }
      if op == LT && EqualStart(rule.shard.shards, v.v, FindTableIndex(rule, v).value) {
        BelowStart(rule, k, v.v);
      }
      IndexBounds(rule);
    }
  }

  lemma IndexBounds(rule: Rule)
    requires ValidRule(rule) && rule.shard.NumRange?
    ensures FirstIndex(rule) == 0 && LastIndex(rule) == |rule.shard.shards| - 1
  {
    var n := |rule.shard.shards|;
    assert FirstIndex(rule) in rule.indexes && LastIndex(rule) in rule.indexes;
    assert n >= 1 && 0 in rule.indexes && n - 1 in rule.indexes;
  }

  lemma InverseFlips(op: Op, a: Value, b: Value)
    ensures Cmp(op, a, b) == Cmp(InverseOperator(op), b, a)
  {
  }

  /** The bounds for which a NOT BETWEEN route leaves no table out: ordered by table, or reversed by one
      table with the upper table's first key not excluded. */
  predicate GapFree(rule: Rule, lo: int, hi: int)
    requires rule.shard.NumRange?
  {
    var a, b := FindForKey(rule.shard, lo), FindForKey(rule.shard, hi);
    a.Ok? && b.Ok? ==>
      a.value <= b.value
      || (a.value == b.value + 1 && 0 <= b.value < |rule.shard.shards| && !EqualStart(rule.shard.shards, hi, b.value))
  }

  ghost predicate NotBetweenSound(rule: Rule, lo: int, hi: int)
    requires ValidRule(rule) && rule.shard.NumRange?
    requires RangeBetween(rule, Literal(Int(lo)), Literal(Int(hi)), true).Ok?
  {
    forall k :: FindForKey(rule.shard, k).Ok? && !(lo <= k <= hi) ==>
      FindForKey(rule.shard, k).value in RangeBetween(rule, Literal(Int(lo)), Literal(Int(hi)), true).value
  }

  /** The ends of the two parts of a NOT BETWEEN route. */
  function NotBetweenEnds(rule: Rule, lo: int, hi: int): (int, int)
    requires ValidRule(rule) && rule.shard.NumRange?
    requires FindForKey(rule.shard, lo).Ok? && FindForKey(rule.shard, hi).Ok?
  {
    var a, b := FindForKey(rule.shard, lo).value, FindForKey(rule.shard, hi).value;
    if a > b then (AdjustShardIndex(rule.shard.shards, hi, b), a) else (AdjustShardIndex(rule.shard.shards, lo, a), b)
  }

  lemma NotBetweenParts(rule: Rule, lo: int, hi: int)
    requires ValidRule(rule) && rule.shard.NumRange?
    requires RangeBetween(rule, Literal(Int(lo)), Literal(Int(hi)), true).Ok?
    ensures FindForKey(rule.shard, lo).Ok? && FindForKey(rule.shard, hi).Ok?
    ensures var (s, t) := NotBetweenEnds(rule, lo, hi);
            RangeBetween(rule, Literal(Int(lo)), Literal(Int(hi)), true).value ==
            Union(MakeList(FirstIndex(rule), s + 1), MakeList(t, LastIndex(rule) + 1))
  {
  }

  /** The tables of a NOT BETWEEN route. */
  lemma NotBetweenTables(rule: Rule, lo: int, hi: int, i: int)
    requires ValidRule(rule) && rule.shard.NumRange? && i in rule.indexes
    requires RangeBetween(rule, Literal(Int(lo)), Literal(Int(hi)), true).Ok?
    ensures FindForKey(rule.shard, lo).Ok? && FindForKey(rule.shard, hi).Ok?
    ensures var (s, t) := NotBetweenEnds(rule, lo, hi);
            i in RangeBetween(rule, Literal(Int(lo)), Literal(Int(hi)), true).value <==> i <= s || t <= i
  {
    NotBetweenParts(rule, lo, hi);
    var ends := NotBetweenEnds(rule, lo, hi);
    assert FirstIndex(rule) <= i <= LastIndex(rule) by { IndexBounds(rule); }
    BothSides(FirstIndex(rule), ends.0, ends.1, LastIndex(rule), i);
  }

  lemma BothSides(first: int, s: int, t: int, last: int, i: int)
    ensures i in Union(MakeList(first, s + 1), MakeList(t, last + 1)) <==> first <= i <= s || t <= i <= last
  {
    UnionIsUnion(MakeList(first, s + 1), MakeList(t, last + 1));
  }

  lemma NotBetweenKeyRouted(rule: Rule, lo: int, hi: int, k: int)
    requires ValidRule(rule) && rule.shard.NumRange? && GapFree(rule, lo, hi)
    requires RangeBetween(rule, Literal(Int(lo)), Literal(Int(hi)), true).Ok?
    requires FindForKey(rule.shard, k).Ok? && !(lo <= k <= hi)
    ensures FindForKey(rule.shard, k).value in RangeBetween(rule, Literal(Int(lo)), Literal(Int(hi)), true).value
  {
    NotBetweenTables(rule, lo, hi, FindForKey(rule.shard, k).value);
    if FindForKey(rule.shard, lo).value <= FindForKey(rule.shard, hi).value {
      if k < lo {
        FindMonotone(rule, k, lo);
        if EqualStart(rule.shard.shards, lo, FindForKey(rule.shard, lo).value) { BelowStart(rule, k, lo); }
      } else {
        FindMonotone(rule, hi, k);
      }
    }
  }

  /** The first key of a table maps to that table. */
  lemma StartMaps(rule: Rule, i: int)
    requires ValidRule(rule) && rule.shard.NumRange? && i in rule.indexes
    ensures 0 <= i < |rule.shard.shards|
    ensures FindForKey(rule.shard, rule.shard.shards[i].start) == Ok(i)
  {
    ScanFinds(rule.shard.shards, rule.shard.shards[i].start, 0);
  }

  /** NOT BETWEEN routing reaches every table with a matching key exactly for gap-free bounds. */
  lemma NotBetweenSoundIff(rule: Rule, lo: int, hi: int)
    requires ValidRule(rule) && rule.shard.NumRange?
    requires RangeBetween(rule, Literal(Int(lo)), Literal(Int(hi)), true).Ok?
    ensures NotBetweenSound(rule, lo, hi) <==> GapFree(rule, lo, hi)
  {
    if GapFree(rule, lo, hi) {
      forall k | FindForKey(rule.shard, k).Ok? && !(lo <= k <= hi)
        ensures FindForKey(rule.shard, k).value in RangeBetween(rule, Literal(Int(lo)), Literal(Int(hi)), true).value
      {
        NotBetweenKeyRouted(rule, lo, hi, k);
      }
    } else {
      var a, b := FindForKey(rule.shard, lo).value, FindForKey(rule.shard, hi).value;
      if lo <= hi { FindMonotone(rule, lo, hi); }
      var m := AdjustShardIndex(rule.shard.shards, hi, b) + 1;
      assert m in rule.indexes;
      StartMaps(rule, m);
      NotBetweenTables(rule, lo, hi, m);
    }
  }

  /** A BETWEEN on the sharding column is true only in routed tables, in either bound order. */
  lemma BetweenKeyRouted(rule: Rule, lo: int, hi: int, k: int)
    requires ValidRule(rule) && rule.shard.NumRange?
    requires RangeBetween(rule, Literal(Int(lo)), Literal(Int(hi)), false).Ok?
    requires FindForKey(rule.shard, k).Ok? && lo <= k <= hi
    ensures FindForKey(rule.shard, k).value in RangeBetween(rule, Literal(Int(lo)), Literal(Int(hi)), false).value
  {
    FindMonotone(rule, lo, k);
    FindMonotone(rule, k, hi);
  }

  // ---------------------------------------------------------------- whole trees

  /** Every NOT BETWEEN on the sharding column of a range rule has gap-free bounds. */
  predicate BoundsOk(rule: Rule, e: Expr) {
    match e
    case And(l, r) => BoundsOk(rule, l) && BoundsOk(rule, r)
    case Or(l, r) => BoundsOk(rule, l) && BoundsOk(rule, r)
    case Paren(x) => BoundsOk(rule, x)
    case Between(target, lo, hi, negated) =>
      (&& negated && rule.shard.NumRange?
       && target.Column? && target.name == rule.column
       && lo.Literal? && lo.value.Int? && hi.Literal? && hi.value.Int?)
      ==> GapFree(rule, lo.value.v, hi.value.v)
    case _ => true
  }

  ghost predicate RouteShape(rule: Rule, route: seq<int>) {
    Increasing(route) && forall i :: i in route ==> i in rule.indexes
  }

  lemma BetweenRouteShape(rule: Rule, lo: Operand, hi: Operand, negated: bool)
    requires ValidRule(rule) && rule.shard.NumRange? && RangeBetween(rule, lo, hi, negated).Ok?
    ensures RouteShape(rule, RangeBetween(rule, lo, hi, negated).value)
  {
    IndexBounds(rule);
    var a, b := FindTableIndex(rule, lo.value).value, FindTableIndex(rule, hi.value).value;
    assert a in rule.indexes && b in rule.indexes;
    if negated {
      var (s, t) := if a > b then (AdjustShardIndex(rule.shard.shards, hi.value.v, b), a)
                    else (AdjustShardIndex(rule.shard.shards, lo.value.v, a), b);
      UnionShape(rule, MakeList(FirstIndex(rule), s + 1), MakeList(t, LastIndex(rule) + 1));
    }
  }

  lemma UnionShape(rule: Rule, l: seq<int>, r: seq<int>)
    requires RouteShape(rule, l) && RouteShape(rule, r)
    ensures RouteShape(rule, Union(l, r))
  {
    UnionIsUnion(l, r);
  }

  lemma CompareRouteShape(rule: Rule, op: Op, name: string, v: Value)
    requires ValidRule(rule) && FindTableIndexes(rule, op, name, v).Ok?
    ensures RouteShape(rule, FindTableIndexes(rule, op, name, v).value)
  {
    if rule.shard.NumRange? {
      IndexBounds(rule);
    }
  }

  lemma InRouteShape(rule: Rule, name: string, negated: bool, list: seq<Operand>)
    requires ValidRule(rule) && PatternInRoute(rule, name, negated, list).Ok?
    ensures RouteShape(rule, PatternInRoute(rule, name, negated, list).value.indexes)
  {
    if !negated && rule.column == name {
      SplitIndexes(rule, list);
      var s := SplitValues(rule, list).value;
      forall i | i in s.indexes ensures i in rule.indexes {
        SplitIsPartition(rule, list, i);
        assert Mapped(rule, list, i)[0] in Mapped(rule, list, i);
        MappedMembers(rule, list, i, Mapped(rule, list, i)[0]);
      }
    }
  }

  /** Every route the planner computes is an increasing list of the rule's tables. */
  lemma {:induction false} HandleShape(rule: Rule, e: Expr)
    requires ValidRule(rule) && Handle(rule, e).Ok? && Handle(rule, e).value.has
    ensures RouteShape(rule, Handle(rule, e).value.route)
  {
    match e
    case And(l, r) =>
      var lr, rr := Handle(rule, l).value, Handle(rule, r).value;
      if lr.has { HandleShape(rule, l); }
      if rr.has { HandleShape(rule, r); }
      if lr.has && rr.has { InterIsIntersection(lr.route, rr.route); }
    case Or(l, r) =>
      HandleShape(rule, l);
      HandleShape(rule, r);
      UnionIsUnion(Handle(rule, l).value.route, Handle(rule, r).value.route);
    case Paren(x) => HandleShape(rule, x);
    case Compare(op, l, r) =>
      if NeedsDecorator(rule, l) && r.Literal? {
        CompareRouteShape(rule, op, l.name, r.value);
      } else {
        CompareRouteShape(rule, InverseOperator(op), r.name, l.value);
      }
    case In(target, list, negated) => InRouteShape(rule, target.name, negated, list);
    case Between(target, lo, hi, negated) =>
      if rule.column == target.name && rule.shard.NumRange? { BetweenRouteShape(rule, lo, hi, negated); }
    case _ =>
  }

  /** `v IN (list)` over non-NULL literals: true when some literal equals v, else false. */
  lemma {:induction false} InTruthIsMembership(w: World, rule: Rule, k: int, list: seq<Operand>, row: Row)
    requires forall o :: o in list ==> o.Literal? && o.value.Int?
    ensures InTruth(w, rule, Int(k), list, row) == Bool3(Literal(Int(k)) in list)
  {
    if list != [] {
      var n := |list| - 1;
      assert list == list[..n] + [list[n]];
      assert list[n] in list;
      InTruthIsMembership(w, rule, k, list[..n], row);
    }
  }

  /** Cutting an IN list by table changes nothing for the rows of each table. */
  lemma SplitInExact(w: World, rule: Rule, list: seq<Operand>, row: Row, i: int)
    requires ValidRule(rule) && SplitValues(rule, list).Ok?
    requires FindForKey(rule.shard, row.key) == Ok(i)
    ensures var s := SplitValues(rule, list).value;
            && InTruth(w, rule, Int(row.key), if i in s.values then s.values[i] else [], row)
               == InTruth(w, rule, Int(row.key), list, row)
            && (InTruth(w, rule, Int(row.key), list, row) == True ==> i in s.indexes)
  {
    var part := Mapped(rule, list, i);
    SplitIsPartition(rule, list, i);
    SplitIndexes(rule, list);
    forall o | o in list ensures o.Literal? && o.value.Int? { SplitMembersMap(rule, list, o); }
    forall o | o in part ensures o.Literal? && o.value.Int? { MappedMembers(rule, list, i, o); }
    MappedMembers(rule, list, i, Literal(Int(row.key)));
    InTruthIsMembership(w, rule, row.key, list, row);
    InTruthIsMembership(w, rule, row.key, part, row);
  }

  lemma CompareSound(w: World, rule: Rule, e: Expr, row: Row, i: int)
    requires ValidRule(rule) && e.Compare? && Handle(rule, e).Ok? && Handle(rule, e).value.has
    requires FindForKey(rule.shard, row.key) == Ok(i) && Eval(w, rule, e, row) == True
    ensures i in Handle(rule, e).value.route
  {
    if NeedsDecorator(rule, e.left) && e.right.Literal? {
      if e.left.name == rule.column { CompareLeafSound(rule, e.op, e.right.value, row.key); }
    } else {
      InverseFlips(e.op, e.left.value, OperandValue(w, rule, e.right, row));
      if e.right.name == rule.column {
        CompareLeafSound(rule, InverseOperator(e.op), e.left.value, row.key);
      }
    }
  }

  lemma BetweenSound(w: World, rule: Rule, e: Expr, row: Row, i: int)
    requires ValidRule(rule) && e.Between? && Handle(rule, e).Ok? && Handle(rule, e).value.has
    requires BoundsOk(rule, e)
    requires FindForKey(rule.shard, row.key) == Ok(i) && Eval(w, rule, e, row) == True
    ensures i in Handle(rule, e).value.route
  {
    if e.target.name == rule.column && rule.shard.NumRange? {
      var lo, hi := e.lo.value, e.hi.value;
      assert lo.Int? && hi.Int?;
      if e.negated {
        NotBetweenKeyRouted(rule, lo.v, hi.v, row.key);
      } else {
        BetweenKeyRouted(rule, lo.v, hi.v, row.key);
      }
    }
  }

  /** A row on which the condition holds sits in a routed table. */
  lemma {:induction false} RouteSound(w: World, rule: Rule, e: Expr, row: Row, i: int)
    requires ValidRule(rule) && Handle(rule, e).Ok? && Handle(rule, e).value.has && BoundsOk(rule, e)
    requires FindForKey(rule.shard, row.key) == Ok(i) && Eval(w, rule, e, row) == True
    ensures i in Handle(rule, e).value.route
  {
    match e
    case And(l, r) =>
      var lr, rr := Handle(rule, l).value, Handle(rule, r).value;
      if lr.has { RouteSound(w, rule, l, row, i); HandleShape(rule, l); }
      if rr.has { RouteSound(w, rule, r, row, i); HandleShape(rule, r); }
      if lr.has && rr.has { InterIsIntersection(lr.route, rr.route); }
    case Or(l, r) =>
      if Eval(w, rule, l, row) == True { RouteSound(w, rule, l, row, i); } else { RouteSound(w, rule, r, row, i); }
      HandleShape(rule, l);
      HandleShape(rule, r);
      UnionIsUnion(Handle(rule, l).value.route, Handle(rule, r).value.route);
    case Paren(x) => RouteSound(w, rule, x, row, i);
    case Compare(_, _, _) => CompareSound(w, rule, e, row, i);
    case In(target, list, negated) =>
      if !negated && target.name == rule.column { SplitInExact(w, rule, list, row, i); }
    case Between(_, _, _, _) => BetweenSound(w, rule, e, row, i);
    case _ =>
  }

  predicate Undecorated(e: Expr) {
    match e
    case And(l, r) => Undecorated(l) && Undecorated(r)
    case Or(l, r) => Undecorated(l) && Undecorated(r)
    case Paren(x) => Undecorated(x)
    case SplitIn(_, _, _) => false
    case _ => true
  }

  /** The statement restored for a table means, on that table's rows, what the original means: the same
      one of true, false and unknown. */
  lemma {:induction false} RestoreExact(w: World, rule: Rule, e: Expr, row: Row, i: int)
    requires ValidRule(rule) && Handle(rule, e).Ok? && Undecorated(e)
    requires FindForKey(rule.shard, row.key) == Ok(i)
    ensures Eval(w, rule, Restore(Handle(rule, e).value.expr, i), row) == Eval(w, rule, e, row)
  {
    match e
    case And(l, r) => RestoreExact(w, rule, l, row, i); RestoreExact(w, rule, r, row, i);
    case Or(l, r) => RestoreExact(w, rule, l, row, i); RestoreExact(w, rule, r, row, i);
    case Paren(x) => RestoreExact(w, rule, x, row, i);
    case In(target, list, negated) =>
      assert i in rule.indexes;
      if NeedsDecorator(rule, target) && !negated && target.name == rule.column {
        SplitInExact(w, rule, list, row, i);
      }
    case _ =>
  }

  // ---------------------------------------------------------------- stores

  /** One sequence of rows per sub-table. */
  type Store = map<int, seq<Row>>

  /** Each row sits in the table its key maps to. */
  ghost predicate Placed(rule: Rule, store: Store) {
    && (forall i :: i in rule.indexes ==> i in store)
    && (forall i, row :: i in store && row in store[i] ==> FindForKey(rule.shard, row.key) == Ok(i))
  }

  function Select(w: World, rule: Rule, e: Expr, rows: seq<Row>): seq<Row> {
    if rows == [] then []
    else (if Eval(w, rule, e, rows[0]) == True then [rows[0]] else []) + Select(w, rule, e, rows[1..])
  }

  /** The logical table: all sub-tables, in index order. */
  function Logical(store: Store, indexes: seq<int>): seq<Row>
    requires forall i :: i in indexes ==> i in store
  {
    if indexes == [] then []
    else
      var i := indexes[0];
      assert i in indexes;
      assert i in store;
      store[i] + Logical(store, indexes[1..])
  }

  /** The concatenated answers to the statements generated for `route`. */
  function ShardedSelect(w: World, rule: Rule, e: Expr, store: Store, route: seq<int>): seq<Row>
    requires forall i :: i in route ==> i in store
  {
    if route == [] then []
    else Select(w, rule, Restore(e, route[0]), store[route[0]]) + ShardedSelect(w, rule, e, store, route[1..])
  }

  lemma {:induction false} SelectConcat(w: World, rule: Rule, e: Expr, a: seq<Row>, b: seq<Row>)
    ensures Select(w, rule, e, a + b) == Select(w, rule, e, a) + Select(w, rule, e, b)
  {
    if a == [] {
      assert a + b == b;
    } else {
      assert (a + b)[1..] == a[1..] + b;
      SelectConcat(w, rule, e, a[1..], b);
    }
  }

  lemma {:induction false} TableSelectExact(w: World, rule: Rule, e: Expr, rows: seq<Row>, i: int)
    requires ValidRule(rule) && Handle(rule, e).Ok? && Undecorated(e)
    requires forall row :: row in rows ==> FindForKey(rule.shard, row.key) == Ok(i)
    ensures Select(w, rule, Restore(Handle(rule, e).value.expr, i), rows) == Select(w, rule, e, rows)
  {
    if rows != [] {
      RestoreExact(w, rule, e, rows[0], i);
      TableSelectExact(w, rule, e, rows[1..], i);
    }
  }

  /** A table off the route has no row the original condition selects. */
  lemma {:induction false} OffRouteEmpty(w: World, rule: Rule, e: Expr, rows: seq<Row>, i: int)
    requires ValidRule(rule) && HandleWhere(rule, e).Ok? && BoundsOk(rule, e)
    requires i in rule.indexes && i !in HandleWhere(rule, e).value.route
    requires forall row :: row in rows ==> FindForKey(rule.shard, row.key) == Ok(i)
    ensures Select(w, rule, e, rows) == []
  {
    if rows != [] {
      var r := Handle(rule, e).value;
      assert r.has;
      HandleShape(rule, e);
      InterIsIntersection(rule.indexes, r.route);
      if Eval(w, rule, e, rows[0]) == True {
        RouteSound(w, rule, e, rows[0], i);
        assert false;
      }
      OffRouteEmpty(w, rule, e, rows[1..], i);
    }
  }

  /** The members of `all` that are routed, in order. */
  ghost function Keep(all: seq<int>, routed: seq<int>): (r: seq<int>)
    ensures forall x :: x in r <==> x in all && x in routed
  {
    if all == [] then []
    else (if all[0] in routed then [all[0]] else []) + Keep(all[1..], routed)
  }

  lemma {:induction false} KeepIsRoute(all: seq<int>, routed: seq<int>)
    requires Increasing(all)
    ensures Increasing(Keep(all, routed))
  {
    if all != [] {
      KeepIsRoute(all[1..], routed);
      HeadStays(all[0], Keep(all[1..], routed));
    }
  }

  /** Table by table: routed tables answer the original statement, the others have no answer. */
  lemma {:induction false} RoutedPart(w: World, rule: Rule, e: Expr, expr: Expr, store: Store,
                                      all: seq<int>, routed: seq<int>)
    requires forall i :: i in all ==> i in store
    requires forall i :: i in all ==> i in routed ==>
               Select(w, rule, Restore(expr, i), store[i]) == Select(w, rule, e, store[i])
    requires forall i :: i in all ==> i !in routed ==> Select(w, rule, e, store[i]) == []
    ensures ShardedSelect(w, rule, expr, store, Keep(all, routed)) == Select(w, rule, e, Logical(store, all))
  {
    if all != [] {
      var i, rest := all[0], all[1..];
      assert i in all && forall j :: j in rest ==> j in all;
      RoutedPart(w, rule, e, expr, store, rest, routed);
      var kept, others := Keep(rest, routed), Select(w, rule, e, Logical(store, rest));
      assert Select(w, rule, e, Logical(store, all)) == Select(w, rule, e, store[i]) + others by {
        SelectConcat(w, rule, e, store[i], Logical(store, rest));
      }
      KeepHead(all, routed);
      if i in routed {
        ShardedHead(w, rule, expr, store, i, kept);
      } else {
        assert [] + others == others;
      }
    }
  }

  lemma KeepHead(all: seq<int>, routed: seq<int>)
    requires all != []
    ensures Keep(all, routed) == if all[0] in routed then [all[0]] + Keep(all[1..], routed) else Keep(all[1..], routed)
  {
    assert [] + Keep(all[1..], routed) == Keep(all[1..], routed);
  }

  lemma ShardedHead(w: World, rule: Rule, expr: Expr, store: Store, i: int, rest: seq<int>)
    requires i in store && forall j :: j in rest ==> j in store
    ensures ShardedSelect(w, rule, expr, store, [i] + rest) ==
            Select(w, rule, Restore(expr, i), store[i]) + ShardedSelect(w, rule, expr, store, rest)
  {
    assert ([i] + rest)[1..] == rest;
  }

  /** The union of the rewritten statements on the routed tables is the original statement on the
      logical table: the same rows, each as often, in table order. */
  lemma ShardedSelectIsSelect(w: World, rule: Rule, e: Expr, store: Store)
    requires ValidRule(rule) && HandleWhere(rule, e).Ok? && BoundsOk(rule, e) && Undecorated(e)
    requires Placed(rule, store)
    ensures RouteShape(rule, HandleWhere(rule, e).value.route)
    ensures ShardedSelect(w, rule, HandleWhere(rule, e).value.expr, store, HandleWhere(rule, e).value.route)
            == Select(w, rule, e, Logical(store, rule.indexes))
  {
    var r := Handle(rule, e).value;
    if r.has {
      HandleShape(rule, e);
      InterIsIntersection(rule.indexes, r.route);
    }
    var route := HandleWhere(rule, e).value.route;
    forall i | i in route ensures Select(w, rule, Restore(r.expr, i), store[i]) == Select(w, rule, e, store[i]) {
      TableSelectExact(w, rule, e, store[i], i);
    }
    forall i | i in rule.indexes && i !in route ensures Select(w, rule, e, store[i]) == [] {
      OffRouteEmpty(w, rule, e, store[i], i);
    }
    RoutedPart(w, rule, e, r.expr, store, rule.indexes, route);
    KeepIsRoute(rule.indexes, route);
    IncreasingUnique(Keep(rule.indexes, route), route);
  }

  // ---------------------------------------------------------------- empty IN lists

  /** MySQL accepts an IN only with a non-empty list. */
  predicate Writable(e: Expr) {
    match e
    case And(l, r) => Writable(l) && Writable(r)
    case Or(l, r) => Writable(l) && Writable(r)
    case Paren(x) => Writable(x)
    case In(_, list, _) => list != []
    case _ => true
  }

  /** Every IN list on the sharding column names a value of table `i`. */
  predicate InListsReach(rule: Rule, e: Expr, i: int) {
    match e
    case And(l, r) => InListsReach(rule, l, i) && InListsReach(rule, r, i)
    case Or(l, r) => InListsReach(rule, l, i) && InListsReach(rule, r, i)
    case Paren(x) => InListsReach(rule, x, i)
    case In(target, list, negated) =>
      target.Column? && target.name == rule.column && !negated ==>
        exists k :: 0 <= k < |list| && list[k].Literal? && FindTableIndex(rule, list[k].value) == Ok(i)
    case _ => true
  }

  predicate NoOr(e: Expr) {
    match e
    case And(l, r) => NoOr(l) && NoOr(r)
    case Or(_, _) => false
    case Paren(x) => NoOr(x)
    case _ => true
  }

  lemma InRestoredNonEmpty(rule: Rule, target: Operand, list: seq<Operand>, i: int)
    requires ValidRule(rule) && i in rule.indexes && list != []
    requires Handle(rule, In(target, list, false)).Ok?
    requires target.Column? && target.name == rule.column
    ensures Writable(Restore(Handle(rule, In(target, list, false)).value.expr, i)) <==>
            InListsReach(rule, In(target, list, false), i)
    ensures i in Handle(rule, In(target, list, false)).value.route ==> InListsReach(rule, In(target, list, false), i)
  {
    SplitIsPartition(rule, list, i);
    SplitIndexes(rule, list);
    MappedReached(rule, list, i);
  }

  lemma MappedReached(rule: Rule, list: seq<Operand>, i: int)
    ensures Mapped(rule, list, i) != [] <==>
            exists k :: 0 <= k < |list| && list[k].Literal? && FindTableIndex(rule, list[k].value) == Ok(i)
  {
    var part := Mapped(rule, list, i);
    if part != [] {
      assert part[0] in part;
      MappedMembers(rule, list, i, part[0]);
    }
    forall k | 0 <= k < |list| && list[k].Literal? && FindTableIndex(rule, list[k].value) == Ok(i)
      ensures list[k] in part
    {
      MappedMembers(rule, list, i, list[k]);
    }
  }

  /** A restored statement is accepted exactly when every IN list reaches its table: the claim beside
      PatternInExprDecorator, that a list left empty by an OR is harmless, does not hold. */
  lemma {:induction false} RestoredWritableIff(rule: Rule, e: Expr, i: int)
    requires ValidRule(rule) && Handle(rule, e).Ok? && Undecorated(e) && Writable(e) && i in rule.indexes
    ensures Writable(Restore(Handle(rule, e).value.expr, i)) <==> InListsReach(rule, e, i)
  {
    match e
    case And(l, r) => RestoredWritableIff(rule, l, i); RestoredWritableIff(rule, r, i);
    case Or(l, r) => RestoredWritableIff(rule, l, i); RestoredWritableIff(rule, r, i);
    case Paren(x) => RestoredWritableIff(rule, x, i);
    case In(target, list, negated) =>
      if target.Column? && target.name == rule.column && !negated {
        InRestoredNonEmpty(rule, target, list, i);
      }
    case _ =>
  }

  /** A condition without OR never leaves an IN list empty in a routed table. */
  lemma {:induction false} ConjunctionsReach(rule: Rule, e: Expr, i: int)
    requires ValidRule(rule) && Handle(rule, e).Ok? && Writable(e) && NoOr(e) && i in rule.indexes
    requires Handle(rule, e).value.has ==> i in Handle(rule, e).value.route
    ensures InListsReach(rule, e, i)
  {
    match e
    case And(l, r) =>
      var lr, rr := Handle(rule, l).value, Handle(rule, r).value;
      if lr.has && rr.has {
        HandleShape(rule, l);
        HandleShape(rule, r);
        InterIsIntersection(lr.route, rr.route);
      }
      ConjunctionsReach(rule, l, i);
      ConjunctionsReach(rule, r, i);
    case Paren(x) => ConjunctionsReach(rule, x, i);
    case In(target, list, negated) =>
      if target.Column? && target.name == rule.column && !negated {
        InRestoredNonEmpty(rule, target, list, i);
      }
    case _ =>
  }

  /** Two tables, even and odd keys. */
  function ParityRule(): Rule {
    Rule("id", [0, 1], map[0 := 0, 1 := 0], ["s"], map[], Hashed(k => Ok(k % 2)))
  }

  function ParityCondition(): Expr {
    Or(Compare(EQ, Column("id", false), Literal(Int(0))), In(Column("id", false), [Literal(Int(1))], false))
  }

  lemma ParityRoutes()
    ensures ValidRule(ParityRule())
    ensures Handle(ParityRule(), ParityCondition()).Ok?
    ensures Handle(ParityRule(), ParityCondition()).value.has
    ensures Handle(ParityRule(), ParityCondition()).value.route == [0, 1]
  {
    assert [Literal(Int(1))][..0] == [];
    assert SplitValues(ParityRule(), []) == Ok(Split([], map[]));
    assert FindTableIndex(ParityRule(), Int(1)) == Ok(1);
    assert SplitValues(ParityRule(), [Literal(Int(1))]).value.indexes == [1];
    assert Union([0], [1]) == [0, 1];
  }

  /** `id = 0 OR id IN (1)` over two tables by parity: table 0 is sent an empty IN list. */
  lemma EmptyInListExample()
    ensures ValidRule(ParityRule()) && Writable(ParityCondition())
    ensures HandleWhere(ParityRule(), ParityCondition()).Ok?
    ensures HandleWhere(ParityRule(), ParityCondition()).value.route == [0, 1]
    ensures !Writable(Restore(HandleWhere(ParityRule(), ParityCondition()).value.expr, 0))
  {
    ParityRoutes();
    RestoredWritableIff(ParityRule(), ParityCondition(), 0);
    InterIsIntersection([0, 1], [0, 1]);
    IncreasingUnique(Inter([0, 1], [0, 1]), [0, 1]);
  }
}
