/** Merging grouped and aggregated shard results (`proxy/plan/merge_result.go`). */
module GroupMerge {
  import opened Lists
  import opened Decimal

  /** A result cell; numeric kinds are integers without overflow. */
  datatype Cell = Null | Int(v: int) | Text(bytes: seq<Byte>)

  type Row = seq<Cell>

  datatype AggOp = Count | Sum | Max | Min

  // ---------------------------------------------------------------- map keys

  const NULL_TEXT: seq<Byte> := [78, 85, 76, 76]

  /** formatValue. */
  function FormatValue(c: Cell): seq<Byte> {
    match c
    case Null => NULL_TEXT
    case Int(v) => Format(v)
    case Text(bytes) => bytes
  }

  /** generateMapKey: the formatted cells, each followed by "+". */
  function MapKey(cells: seq<Cell>): seq<Byte> {
    if cells == [] then [] else FormatValue(cells[0]) + [PLUS] + MapKey(cells[1..])
  }

  /** Among the cells of an `n`-tuple, one whose text cannot be mistaken: not the text of NULL, and no separator
      inside unless the cell stands alone. */
  predicate Clean(n: nat, c: Cell) { c.Text? ==> c.bytes != NULL_TEXT && (n == 1 || PLUS !in c.bytes) }

  /** Two cells one column can hold. */
  predicate Alike(a: Cell, b: Cell) { a.Null? || b.Null? || (a.Int? <==> b.Int?) }

  lemma FormatInjective(a: Cell, b: Cell)
    requires Clean(1, a) && Clean(1, b) && Alike(a, b) && FormatValue(a) == FormatValue(b)
    ensures a == b
  {
    if a.Int? { ParseInverse(a.v); }
    if b.Int? { ParseInverse(b.v); }
  }

  /** A text is determined by where its first separator is. */
  lemma PrefixUnique(a: seq<Byte>, b: seq<Byte>, x: seq<Byte>, y: seq<Byte>)
    requires PLUS !in a && PLUS !in b && a + [PLUS] + x == b + [PLUS] + y
    ensures a == b && x == y
  {
    var s := a + [PLUS] + x;
    assert s[|a|] == PLUS && (b + [PLUS] + y)[|b|] == PLUS;
    forall k | 0 <= k < |a| ensures s[k] == a[k] && s[k] != PLUS { assert a[k] in a; }
    forall k | 0 <= k < |b| ensures s[k] == b[k] && s[k] != PLUS { assert (b + [PLUS] + y)[k] == b[k] && b[k] in b; }
    assert a == s[..|a|] && b == s[..|b|] && x == s[|a| + 1..] && y == s[|b| + 1..];
  }

  /** Distinct clean key tuples never share a map key; every tuple of nullable integers is clean. */
  lemma {:induction false} MapKeyInjective(a: seq<Cell>, b: seq<Cell>)
    requires |a| == |b| && forall i :: 0 <= i < |a| ==> Clean(|a|, a[i]) && Clean(|a|, b[i]) && Alike(a[i], b[i])
    requires MapKey(a) == MapKey(b)
    ensures a == b
  {
    if |a| == 1 {
      var x, y := FormatValue(a[0]), FormatValue(b[0]);
      assert MapKey(a[1..]) == MapKey(b[1..]) == [];
      assert x == (x + [PLUS] + [])[..|x|] && y == (y + [PLUS] + [])[..|y|];
      FormatInjective(a[0], b[0]);
    } else if a != [] {
      assert PLUS !in FormatValue(a[0]) && PLUS !in FormatValue(b[0]);
      PrefixUnique(FormatValue(a[0]), FormatValue(b[0]), MapKey(a[1..]), MapKey(b[1..]));
      FormatInjective(a[0], b[0]);
      MapKeyInjective(a[1..], b[1..]);
    }
  }

  /** `n` nullable texts over the alphabet `bytes`. */
  ghost predicate TextTuple(bytes: set<Byte>, n: nat, cells: seq<Cell>) {
    |cells| == n && forall i :: 0 <= i < n ==> TextCell(bytes, cells[i])
  }

  ghost predicate TextCell(bytes: set<Byte>, c: Cell) {
    c.Null? || (c.Text? && forall x :: x in c.bytes ==> x in bytes)
  }

  ghost predicate Unambiguous(bytes: set<Byte>, n: nat) {
    forall a, b :: TextTuple(bytes, n, a) && TextTuple(bytes, n, b) && MapKey(a) == MapKey(b) ==> a == b
  }

  /** Two tuples with the same head and `n` empty texts after it. */
  lemma PaddedCollision(bytes: set<Byte>, a: seq<Cell>, b: seq<Cell>, n: nat)
    requires |a| == |b| && a != b && TextTuple(bytes, |a|, a) && TextTuple(bytes, |a|, b)
    requires MapKey(a + Repeat(Text([]), n)) == MapKey(b + Repeat(Text([]), n))
    ensures !Unambiguous(bytes, |a| + n)
  {
    var pad := Repeat(Text([]), n);
    assert (a + pad)[..|a|] == a && (b + pad)[..|a|] == b;
    assert TextTuple(bytes, |a| + n, a + pad) && TextTuple(bytes, |a| + n, b + pad);
  }

  lemma NullTextCollides(rest: seq<Cell>)
    ensures MapKey([Text(NULL_TEXT)] + rest) == MapKey([Null] + rest)
  {
    assert ([Text(NULL_TEXT)] + rest)[1..] == rest && ([Null] + rest)[1..] == rest;
  }

  lemma SeparatorCollides(rest: seq<Cell>)
    ensures MapKey([Text([PLUS]), Text([])] + rest) == MapKey([Text([]), Text([PLUS])] + rest)
  {
    var a, b := [Text([PLUS]), Text([])] + rest, [Text([]), Text([PLUS])] + rest;
    assert a[1..] == [Text([])] + rest && b[1..] == [Text([PLUS])] + rest;
    assert ([Text([])] + rest)[1..] == rest && ([Text([PLUS])] + rest)[1..] == rest;
    assert MapKey(a[1..]) == [PLUS] + MapKey(rest);
    assert MapKey(b[1..]) == [PLUS, PLUS] + MapKey(rest);
    assert MapKey(a) == [PLUS, PLUS, PLUS] + MapKey(rest);
    assert MapKey(b) == [PLUS, PLUS, PLUS] + MapKey(rest);
  }

  /** GROUP BY over `n` nullable text columns: no two different groups share a map key exactly when the alphabet
      cannot spell NULL and, beyond one column, has no separator. */
  lemma UnambiguousIff(bytes: set<Byte>, n: nat)
    ensures Unambiguous(bytes, n) <==>
            n == 0 || (!({78, 85, 76} <= bytes) && (n == 1 || PLUS !in bytes))
  {
    if n > 0 && {78, 85, 76} <= bytes {
      NullTextCollides(Repeat(Text([]), n - 1));
      assert [Text(NULL_TEXT)][0] != [Null][0];
      PaddedCollision(bytes, [Text(NULL_TEXT)], [Null], n - 1);
    } else if n > 1 && PLUS in bytes {
      SeparatorCollides(Repeat(Text([]), n - 2));
      assert [Text([PLUS]), Text([])][1] != [Text([]), Text([PLUS])][1];
      PaddedCollision(bytes, [Text([PLUS]), Text([])], [Text([]), Text([PLUS])], n - 2);
    } else {
      forall a, b | TextTuple(bytes, n, a) && TextTuple(bytes, n, b) && MapKey(a) == MapKey(b) ensures a == b {
        forall i | 0 <= i < n ensures Clean(n, a[i]) && Clean(n, b[i]) && Alike(a[i], b[i]) {
          assert TextCell(bytes, a[i]) && TextCell(bytes, b[i]);
          if n > 0 { CleanOver(bytes, n, a[i]); CleanOver(bytes, n, b[i]); }
        }
        MapKeyInjective(a, b);
      }
    }
  }

  lemma CleanOver(bytes: set<Byte>, n: nat, c: Cell)
    requires TextCell(bytes, c) && !({78, 85, 76} <= bytes) && (n == 1 || PLUS !in bytes)
    ensures Clean(n, c)
  {
    assert 78 in NULL_TEXT && 85 in NULL_TEXT && 76 in NULL_TEXT;
  }

  /** Text keys can collide: ("a+", "b") and ("a", "+b"), and the text "NULL" with NULL itself. */
  lemma MapKeyCollisions()
    ensures MapKey([Text([97, PLUS]), Text([98])]) == MapKey([Text([97]), Text([PLUS, 98])])
    ensures MapKey([Text(NULL_TEXT)]) == MapKey([Null])
  {
    var a, b := Text([97, PLUS]), Text([98]);
    var c, d := Text([97]), Text([PLUS, 98]);
    assert [a, b][1..] == [b] && [b][1..] == [] && [c, d][1..] == [d] && [d][1..] == [];
    assert MapKey([b]) == [98, PLUS] && MapKey([d]) == [PLUS, 98, PLUS];
    assert MapKey([a, b]) == [97, PLUS, PLUS, 98, PLUS];
    assert MapKey([c, d]) == [97, PLUS, PLUS, 98, PLUS];
  }

  // ---------------------------------------------------------------- aggregates

  /** The non-NULL cells. */
  function Present(s: seq<Cell>): seq<Cell> {
    if s == [] then [] else Present(s[..|s| - 1]) + (if s[|s| - 1].Null? then [] else [s[|s| - 1]])
  }

  /** The numbers among them. */
  function Numbers(s: seq<Cell>): seq<int> {
    if s == [] then [] else Numbers(s[..|s| - 1]) + (if s[|s| - 1].Int? then [s[|s| - 1].v] else [])
  }

  function MaxOf(xs: seq<int>): (m: int)
    requires xs != []
    ensures m in xs && forall i :: 0 <= i < |xs| ==> xs[i] <= m
  {
    if |xs| == 1 then xs[0]
    else
      var m := MaxOf(xs[..|xs| - 1]);
      if xs[|xs| - 1] > m then xs[|xs| - 1] else m
  }

  function MinOf(xs: seq<int>): (m: int)
    requires xs != []
    ensures m in xs && forall i :: 0 <= i < |xs| ==> xs[i] >= m
  {
    if |xs| == 1 then xs[0]
    else
      var m := MinOf(xs[..|xs| - 1]);
      if xs[|xs| - 1] < m then xs[|xs| - 1] else m
  }

  /** What one server computes over a column: COUNT of the non-NULL cells; SUM, MAX and MIN of the numbers, NULL
      when there is none. */
  function Agg(op: AggOp, s: seq<Cell>): Cell {
    var xs := Numbers(s);
    if op == Count then Int(|Present(s)|)
    else if xs == [] then Null
    else if op == Sum then Int(Lists.Sum(xs))
    else if op == Max then Int(MaxOf(xs))
    else Int(MinOf(xs))
  }

  function GetInt(c: Cell): int { if c.Int? then c.v else 0 }

  /** The mergers' MergeTo on one cell. */
  function Combine(op: AggOp, from: Cell, to: Cell): Cell {
    if op == Count then Int(GetInt(to) + GetInt(from))
    else if from.Null? then to
    else if op == Sum then Int(GetInt(to) + GetInt(from))
    else if to.Null? then from
    else if op == Max then if GetInt(from) > GetInt(to) then from else to
    else if GetInt(from) < GetInt(to) then from else to
  }

  lemma {:induction false} PresentConcat(a: seq<Cell>, b: seq<Cell>)
    ensures Present(a + b) == Present(a) + Present(b) && Numbers(a + b) == Numbers(a) + Numbers(b)
  {
    if b == [] {
      assert a + b == a;
    } else {
      var n := |b| - 1;
      assert (a + b)[..|a + b| - 1] == a + b[..n];
      PresentConcat(a, b[..n]);
    }
  }

  lemma {:induction false} SumConcat(a: seq<int>, b: seq<int>)
    ensures Lists.Sum(a + b) == Lists.Sum(a) + Lists.Sum(b)
  {
    if b == [] {
      assert a + b == a;
    } else {
      var n := |b| - 1;
      assert (a + b)[..|a + b| - 1] == a + b[..n];
      SumConcat(a, b[..n]);
    }
  }

  /** Merging two partial aggregates gives the aggregate of both parts, NULLs included. */
  lemma AggConcat(op: AggOp, a: seq<Cell>, b: seq<Cell>)
    ensures Agg(op, a + b) == Combine(op, Agg(op, b), Agg(op, a))
  {
    var x, y := Numbers(a), Numbers(b);
    PresentConcat(a, b);
    if op == Count {
    } else if x == [] {
      assert x + y == y;
    } else if y == [] {
      assert x + y == x;
    } else if op == Sum {
      SumConcat(x, y);
    } else {
      ExtremesConcat(x, y);
    }
  }

  lemma ExtremesConcat(x: seq<int>, y: seq<int>)
    requires x != [] && y != []
    ensures MaxOf(x + y) == if MaxOf(y) > MaxOf(x) then MaxOf(y) else MaxOf(x)
    ensures MinOf(x + y) == if MinOf(y) < MinOf(x) then MinOf(y) else MinOf(x)
  {
    var z := x + y;
    assert forall v :: v in z <==> v in x || v in y;
    assert forall i :: 0 <= i < |x| ==> z[i] == x[i];
    assert forall i :: 0 <= i < |y| ==> z[|x| + i] == y[i];
  }

  /** An aggregate does not depend on the order of its cells. */
  lemma {:induction false} AggPerm(op: AggOp, a: seq<Cell>, b: seq<Cell>)
    requires multiset(a) == multiset(b)
    ensures Agg(op, a) == Agg(op, b)
  {
    if a == [] {
      assert |multiset(b)| == 0;
    } else {
      var l, r := SplitAtHead(a, b);
      AggPerm(op, a[1..], l + r);
      assert a == [a[0]] + a[1..];
      AggMove(op, a[0], a[1..], l, r);
    }
  }

  /** A cell moved to the front. */
  lemma AggMove(op: AggOp, x: Cell, t: seq<Cell>, l: seq<Cell>, r: seq<Cell>)
    requires Agg(op, t) == Agg(op, l + r)
    ensures Agg(op, [x] + t) == Agg(op, l + ([x] + r))
  {
    AggConcat(op, [x], t);
    AggConcat(op, l, r);
    AggConcat(op, l, [x] + r);
    AggConcat(op, [x], r);
    CombineRotate(op, Agg(op, [x]), Agg(op, l), Agg(op, r));
  }

  lemma CombineRotate(op: AggOp, x: Cell, l: Cell, r: Cell)
    requires !x.Text? && !l.Text? && !r.Text? && (op == Count ==> x.Int? && l.Int? && r.Int?)
    ensures Combine(op, Combine(op, r, l), x) == Combine(op, Combine(op, r, x), l)
  {
  }

  // ---------------------------------------------------------------- grouping

  /** The statement's shape: group-by columns, the aggregate of each aggregated column, and which columns hold
      texts. */
  datatype Query = Query(width: nat, keyCols: seq<nat>, aggs: map<nat, AggOp>, texts: set<nat>)

  ghost predicate ValidQuery(q: Query) {
    && (forall i :: 0 <= i < |q.keyCols| ==> q.keyCols[i] < q.width && q.keyCols[i] !in q.aggs)
    && (forall c :: c in q.aggs ==> c < q.width)
  }

  function KeyOf(q: Query, row: Row): seq<Cell>
    requires |row| == q.width && forall i :: 0 <= i < |q.keyCols| ==> q.keyCols[i] < q.width
  {
    seq(|q.keyCols|, i requires 0 <= i < |q.keyCols| => row[q.keyCols[i]])
  }

  /** All mergers on one row. */
  function MergeRow(q: Query, from: Row, to: Row): (r: Row)
    requires |from| == |to|
    ensures |r| == |to|
  {
    seq(|to|, i requires 0 <= i < |to| => if i in q.aggs then Combine(q.aggs[i], from[i], to[i]) else to[i])
  }

  /** The first row with the others merged into it. */
  function MergeRows(q: Query, rows: seq<Row>): (r: Row)
    requires rows != [] && forall i :: 0 <= i < |rows| ==> |rows[i]| == q.width
    ensures |r| == q.width
  {
    if |rows| == 1 then rows[0] else MergeRow(q, rows[|rows| - 1], MergeRows(q, rows[..|rows| - 1]))
  }

  /** The rows filed under one map key, in arrival order. */
  function RowsWith(q: Query, values: seq<Row>, mk: seq<Byte>): (r: seq<Row>)
    requires ValidQuery(q) && forall i :: 0 <= i < |values| ==> |values[i]| == q.width
    ensures forall i :: 0 <= i < |r| ==> |r[i]| == q.width
  {
    if values == [] then []
    else
      var n := |values| - 1;
      RowsWith(q, values[..n], mk) + (if MapKey(KeyOf(q, values[n])) == mk then [values[n]] else [])
  }

  /** One round of the loop over aggregateFuncs: the mergers run in any order. */
  method MergeInto(q: Query, from: Row, to: Row) returns (r: Row)
    requires ValidQuery(q) && |from| == |to| == q.width
    ensures r == MergeRow(q, from, to)
  {
    r := to;
    var todo := q.aggs.Keys;
    while todo != {}
      invariant |r| == |to| && todo <= q.aggs.Keys
      invariant forall i :: 0 <= i < |to| ==>
                  r[i] == if i in q.aggs && i !in todo then Combine(q.aggs[i], from[i], to[i]) else to[i]
      decreases |todo|
    {
      var c :| c in todo;
      r := r[c := Combine(q.aggs[c], from[c], r[c])];
      todo := todo - {c};
    }
  }

  lemma RowsWithStep(q: Query, values: seq<Row>, row: Row, mk: seq<Byte>)
    requires ValidQuery(q) && |row| == q.width && forall i :: 0 <= i < |values| ==> |values[i]| == q.width
    ensures RowsWith(q, values + [row], mk) ==
            RowsWith(q, values, mk) + if MapKey(KeyOf(q, row)) == mk then [row] else []
  {
    assert (values + [row])[..|values|] == values;
  }

  lemma MergeRowsStep(q: Query, rows: seq<Row>, row: Row)
    requires rows != [] && |row| == q.width && forall i :: 0 <= i < |rows| ==> |rows[i]| == q.width
    ensures MergeRows(q, rows + [row]) == MergeRow(q, row, MergeRows(q, rows))
  {
    assert (rows + [row])[..|rows|] == rows;
  }

  /** The result row of a map key: present iff some row is filed under it, and then their merge. */
  ghost predicate Filed(q: Query, values: seq<Row>, result: map<seq<Byte>, Row>, mk: seq<Byte>)
    requires ValidQuery(q) && forall i :: 0 <= i < |values| ==> |values[i]| == q.width
  {
    var rows := RowsWith(q, values, mk);
    if mk in result then rows != [] && result[mk] == MergeRows(q, rows) else rows == []
  }

  lemma FiledStep(q: Query, values: seq<Row>, row: Row, before: map<seq<Byte>, Row>, result: map<seq<Byte>, Row>,
                  mk: seq<Byte>)
    requires ValidQuery(q) && |row| == q.width && forall i :: 0 <= i < |values| ==> |values[i]| == q.width
    requires Filed(q, values, before, mk)
    requires var k := MapKey(KeyOf(q, row));
             if mk != k then (mk in result <==> mk in before) && (mk in before ==> result[mk] == before[mk])
             else mk in result && result[mk] ==
                  if mk in before && |before[mk]| == |row| then MergeRow(q, row, before[mk]) else row
    ensures Filed(q, values + [row], result, mk)
  {
    RowsWithStep(q, values, row, mk);
    var rows := RowsWith(q, values, mk);
    assert rows + [] == rows;
    if rows != [] { MergeRowsStep(q, rows, row); } else { assert rows + [row] == [row]; }
  }

  /** buildSelectGroupByResult: the first row of a key is the result row, later ones are merged into it. */
  method BuildSelectGroupByResult(q: Query, values: seq<Row>) returns (result: map<seq<Byte>, Row>)
    requires ValidQuery(q) && forall i :: 0 <= i < |values| ==> |values[i]| == q.width
    ensures forall mk :: Filed(q, values, result, mk)
  {
    result := map[];
    for k := 0 to |values|
      invariant forall mk :: Filed(q, values[..k], result, mk)
    {
      var row := values[k];
      var mk := MapKey(KeyOf(q, row));
      ghost var done, before := values[..k], result;
      assert Filed(q, done, before, mk);
      if mk !in result {
        result := result[mk := row];
      } else {
        var merged := MergeInto(q, row, result[mk]);
        result := result[mk := merged];
      }
      assert values[..k + 1] == done + [row];
      forall m ensures Filed(q, done + [row], result, m) {
        assert Filed(q, done, before, m);
        FiledStep(q, done, row, before, result, m);
      }
    }
    assert values[..|values|] == values;
  }

  /** buildSelectOnlyResult with aggregates: every row merged into the first; a nil row when there is none. */
  method BuildSelectOnlyResult(q: Query, values: seq<Row>) returns (r: Row)
    requires ValidQuery(q) && forall i :: 0 <= i < |values| ==> |values[i]| == q.width
    ensures r == if values == [] then [] else MergeRows(q, values)
  {
    if values == [] { return []; }
    r := values[0];
    for k := 1 to |values|
      invariant r == MergeRows(q, values[..k])
    {
      assert values[..k + 1] == values[..k] + [values[k]];
      MergeRowsStep(q, values[..k], values[k]);
      r := MergeInto(q, values[k], r);
    }
    assert values[..|values|] == values;
  }

  // ---------------------------------------------------------------- the whole table

  /** The cells of one column. */
  function Column(rows: seq<Row>, c: nat): (r: seq<Cell>)
    requires forall i :: 0 <= i < |rows| ==> c < |rows[i]|
  {
    seq(|rows|, i requires 0 <= i < |rows| => rows[i][c])
  }

  ghost predicate Wide(q: Query, rows: seq<Row>) {
    && (forall i :: 0 <= i < |rows| ==> |rows[i]| == q.width)
    && (forall i :: 0 <= i < |rows| ==> CleanKey(q, rows[i]))
  }

  /** A value that group-by column `c` can hold and that cannot be mistaken. */
  ghost predicate KeyCell(q: Query, c: nat, x: Cell) {
    Clean(|q.keyCols|, x) && (x.Null? || (x.Text? <==> c in q.texts))
  }

  /** The group-by values of a row: nullable integers, and nullable clean texts. */
  ghost predicate CleanKey(q: Query, row: Row)
    requires |row| == q.width
  {
    forall i :: 0 <= i < |q.keyCols| && q.keyCols[i] < q.width ==> KeyCell(q, q.keyCols[i], row[q.keyCols[i]])
  }

  ghost predicate CleanRow(q: Query, row: Row) { |row| == q.width && CleanKey(q, row) }

  /** What the backends compare keys by: keys with the same image are in one group. */
  type Collation = seq<Cell> -> seq<Cell>

  /** The collation that compares byte by byte. */
  function Bytewise(): Collation { (key: seq<Cell>) => key }

  ghost function ClassOf(q: Query, fold: Collation, row: Row): seq<Cell>
    requires ValidQuery(q) && |row| == q.width
  {
    fold(KeyOf(q, row))
  }

  /** The rows of one group. */
  ghost function Group(q: Query, fold: Collation, base: seq<Row>, class_: seq<Cell>): (r: seq<Row>)
    requires ValidQuery(q) && Wide(q, base)
    ensures forall i :: 0 <= i < |r| ==> |r[i]| == q.width
  {
    if base == [] then []
    else
      var n := |base| - 1;
      Group(q, fold, base[..n], class_) + (if ClassOf(q, fold, base[n]) == class_ then [base[n]] else [])
  }

  /** The row has the key of one of the rows. */
  ghost predicate KeyFrom(q: Query, rows: seq<Row>, row: Row)
    requires ValidQuery(q) && |row| == q.width && forall i :: 0 <= i < |rows| ==> |rows[i]| == q.width
  {
    exists i :: 0 <= i < |rows| && KeyOf(q, rows[i]) == KeyOf(q, row)
  }

  /** `row` is what one server returns for a group of `base`: a key of the group and its aggregates. */
  ghost predicate Answers(q: Query, fold: Collation, base: seq<Row>, class_: seq<Cell>, row: Row)
    requires ValidQuery(q) && Wide(q, base)
  {
    && |row| == q.width && ClassOf(q, fold, row) == class_
    && KeyFrom(q, Group(q, fold, base, class_), row)
    && forall c :: c in q.aggs ==> row[c] == Agg(q.aggs[c], Column(Group(q, fold, base, class_), c))
  }

  /** `out` is what one server returns for the grouped statement over `base`: each group once. */
  ghost predicate Grouped(q: Query, fold: Collation, base: seq<Row>, out: seq<Row>)
    requires ValidQuery(q) && Wide(q, base) && Wide(q, out)
  {
    && (forall i :: 0 <= i < |out| ==> Answers(q, fold, base, ClassOf(q, fold, out[i]), out[i]))
    && (forall i, j :: 0 <= i < j < |out| ==> ClassOf(q, fold, out[i]) != ClassOf(q, fold, out[j]))
    && (forall i :: 0 <= i < |base| ==> HasClass(q, fold, out, ClassOf(q, fold, base[i])))
  }

  ghost predicate HasClass(q: Query, fold: Collation, out: seq<Row>, class_: seq<Cell>)
    requires ValidQuery(q) && Wide(q, out)
  {
    exists j :: 0 <= j < |out| && ClassOf(q, fold, out[j]) == class_
  }

  /** A shard's rows, and its answer. */
  datatype Shard = Shard(base: seq<Row>, out: seq<Row>)

  ghost function Bases(shards: seq<Shard>): seq<Row> {
    if shards == [] then [] else Bases(shards[..|shards| - 1]) + shards[|shards| - 1].base
  }

  ghost function Outs(shards: seq<Shard>): seq<Row> {
    if shards == [] then [] else Outs(shards[..|shards| - 1]) + shards[|shards| - 1].out
  }

  ghost predicate Answered(q: Query, fold: Collation, shards: seq<Shard>)
    requires ValidQuery(q)
  {
    forall i :: 0 <= i < |shards| ==> ShardAnswers(q, fold, shards[i])
  }

  ghost predicate ShardAnswers(q: Query, fold: Collation, s: Shard)
    requires ValidQuery(q)
  {
    Wide(q, s.base) && Wide(q, s.out) && Grouped(q, fold, s.base, s.out)
  }

  lemma {:induction false} ShardsWide(q: Query, fold: Collation, shards: seq<Shard>)
    requires ValidQuery(q) && Answered(q, fold, shards)
    ensures Wide(q, Bases(shards)) && Wide(q, Outs(shards))
  {
    if shards != [] { ShardsWide(q, fold, shards[..|shards| - 1]); }
  }

  lemma {:induction false} GroupConcat(q: Query, fold: Collation, a: seq<Row>, b: seq<Row>, class_: seq<Cell>)
    requires ValidQuery(q) && Wide(q, a) && Wide(q, b) && Wide(q, a + b)
    ensures Group(q, fold, a + b, class_) == Group(q, fold, a, class_) + Group(q, fold, b, class_)
  {
    if b == [] {
      assert a + b == a;
    } else {
      var n := |b| - 1;
      assert (a + b)[..|a + b| - 1] == a + b[..n];
      GroupConcat(q, fold, a, b[..n], class_);
    }
  }

  lemma WideParts(q: Query, a: seq<Row>, b: seq<Row>)
    ensures Wide(q, a + b) <==> Wide(q, a) && Wide(q, b)
  {
    var s := a + b;
    if Wide(q, s) {
      forall i | 0 <= i < |a| ensures |a[i]| == q.width && CleanKey(q, a[i]) { assert a[i] == s[i]; }
      forall i | 0 <= i < |b| ensures |b[i]| == q.width && CleanKey(q, b[i]) { assert b[i] == s[|a| + i]; }
    }
  }

  lemma {:induction false} GroupEmpty(q: Query, fold: Collation, rows: seq<Row>, class_: seq<Cell>)
    requires ValidQuery(q) && Wide(q, rows)
    ensures Group(q, fold, rows, class_) == [] <==> !HasClass(q, fold, rows, class_)
  {
    if rows != [] {
      var n := |rows| - 1;
      GroupEmpty(q, fold, rows[..n], class_);
      assert forall i :: 0 <= i < n ==> rows[..n][i] == rows[i];
    }
  }

  /** Rows of pairwise different classes have at most one row in a group. */
  lemma {:induction false} GroupSingle(q: Query, fold: Collation, rows: seq<Row>, class_: seq<Cell>)
    requires ValidQuery(q) && Wide(q, rows)
    requires forall i, j :: 0 <= i < j < |rows| ==> ClassOf(q, fold, rows[i]) != ClassOf(q, fold, rows[j])
    ensures |Group(q, fold, rows, class_)| <= 1
    ensures Group(q, fold, rows, class_) != [] ==>
              Group(q, fold, rows, class_)[0] in rows && ClassOf(q, fold, Group(q, fold, rows, class_)[0]) == class_
  {
    if rows != [] {
      var n := |rows| - 1;
      assert forall i :: 0 <= i < n ==> rows[..n][i] == rows[i];
      GroupSingle(q, fold, rows[..n], class_);
      GroupEmpty(q, fold, rows[..n], class_);
    }
  }

  /** One shard adds the group's partial answer, or nothing when it has no row of the group. */
  lemma ShardGroup(q: Query, fold: Collation, s: Shard, class_: seq<Cell>)
    requires ValidQuery(q) && ShardAnswers(q, fold, s)
    ensures Group(q, fold, s.base, class_) == [] ==> Group(q, fold, s.out, class_) == []
    ensures Group(q, fold, s.base, class_) != [] ==>
              |Group(q, fold, s.out, class_)| == 1
              && Answers(q, fold, s.base, class_, Group(q, fold, s.out, class_)[0])
  {
    GroupSingle(q, fold, s.out, class_);
    GroupEmpty(q, fold, s.out, class_);
    GroupEmpty(q, fold, s.base, class_);
  }

  lemma ColumnConcat(a: seq<Row>, b: seq<Row>, c: nat)
    requires (forall i :: 0 <= i < |a| ==> c < |a[i]|) && (forall i :: 0 <= i < |b| ==> c < |b[i]|)
    ensures forall i :: 0 <= i < |a + b| ==> c < |(a + b)[i]|
    ensures Column(a + b, c) == Column(a, c) + Column(b, c)
  {
  }

  /** Merging one more shard's partial answer. */
  lemma AnswerStep(q: Query, fold: Collation, a: seq<Row>, b: seq<Row>, class_: seq<Cell>, x: Row, y: Row)
    requires ValidQuery(q) && Wide(q, a) && Wide(q, b) && Wide(q, a + b)
    requires Answers(q, fold, a, class_, x) && Answers(q, fold, b, class_, y)
    ensures Answers(q, fold, a + b, class_, MergeRow(q, y, x))
  {
    GroupConcat(q, fold, a, b, class_);
    var r := MergeRow(q, y, x);
    assert KeyOf(q, r) == KeyOf(q, x);
    var ga, gb := Group(q, fold, a, class_), Group(q, fold, b, class_);
    assert KeyFrom(q, ga + gb, r) by {
      var i :| 0 <= i < |ga| && KeyOf(q, ga[i]) == KeyOf(q, x);
      assert (ga + gb)[i] == ga[i];
    }
    forall c | c in q.aggs ensures r[c] == Agg(q.aggs[c], Column(ga + gb, c)) {
      ColumnConcat(ga, gb, c);
      AggConcat(q.aggs[c], Column(ga, c), Column(gb, c));
    }
  }

  lemma SameGroup(q: Query, fold: Collation, a: seq<Row>, b: seq<Row>, class_: seq<Cell>, row: Row)
    requires ValidQuery(q) && Wide(q, a) && Wide(q, b) && Group(q, fold, a, class_) == Group(q, fold, b, class_)
    requires Answers(q, fold, a, class_, row)
    ensures Answers(q, fold, b, class_, row)
  {
  }

  /** The partial answers `x` for one group, merged, answer the group over `base`. */
  ghost predicate Partial(q: Query, fold: Collation, base: seq<Row>, class_: seq<Cell>, x: seq<Row>)
    requires ValidQuery(q) && Wide(q, base) && forall i :: 0 <= i < |x| ==> |x[i]| == q.width
  {
    if x == [] then Group(q, fold, base, class_) == [] else Answers(q, fold, base, class_, MergeRows(q, x))
  }

  lemma PartialBoth(q: Query, fold: Collation, a: seq<Row>, b: seq<Row>, class_: seq<Cell>, x: seq<Row>, y: Row)
    requires ValidQuery(q) && Wide(q, a) && Wide(q, b) && Wide(q, a + b)
    requires x != [] && forall i :: 0 <= i < |x| ==> |x[i]| == q.width
    requires Answers(q, fold, a, class_, MergeRows(q, x)) && Answers(q, fold, b, class_, y)
    ensures Partial(q, fold, a + b, class_, x + [y])
  {
    MergeRowsStep(q, x, y);
    AnswerStep(q, fold, a, b, class_, MergeRows(q, x), y);
  }

  /** Rows beside that are not of the group. */
  lemma PartialBeside(q: Query, fold: Collation, from: seq<Row>, all: seq<Row>, class_: seq<Cell>, x: seq<Row>)
    requires ValidQuery(q) && Wide(q, from) && Wide(q, all) && forall i :: 0 <= i < |x| ==> |x[i]| == q.width
    requires Group(q, fold, all, class_) == Group(q, fold, from, class_) && Partial(q, fold, from, class_, x)
    ensures Partial(q, fold, all, class_, x)
  {
    if x != [] { SameGroup(q, fold, from, all, class_, MergeRows(q, x)); }
  }

  lemma PartialStep(q: Query, fold: Collation, a: seq<Row>, b: seq<Row>, class_: seq<Cell>, x: seq<Row>, y: seq<Row>)
    requires ValidQuery(q) && Wide(q, a) && Wide(q, b) && Wide(q, a + b)
    requires forall i :: 0 <= i < |x| ==> |x[i]| == q.width
    requires |y| <= 1 && forall i :: 0 <= i < |y| ==> |y[i]| == q.width
    requires Partial(q, fold, a, class_, x) && Partial(q, fold, b, class_, y)
    ensures Partial(q, fold, a + b, class_, x + y)
  {
    GroupConcat(q, fold, a, b, class_);
    if y == [] {
      assert x + y == x;
      PartialBeside(q, fold, a, a + b, class_, x);
    } else if x == [] {
      assert x + y == y;
      PartialBeside(q, fold, b, a + b, class_, y);
    } else {
      assert y == [y[0]];
      PartialBoth(q, fold, a, b, class_, x, y[0]);
    }
  }

  /** The rows of one group, merged over any number of shards, answer the group over all their rows. */
  lemma {:induction false} GroupMerged(q: Query, fold: Collation, shards: seq<Shard>, class_: seq<Cell>)
    requires ValidQuery(q) && Answered(q, fold, shards)
    requires Wide(q, Bases(shards)) && Wide(q, Outs(shards))
    ensures Partial(q, fold, Bases(shards), class_, Group(q, fold, Outs(shards), class_))
  {
    if shards != [] {
      var n := |shards| - 1;
      var s, t := shards[..n], shards[n];
      assert ShardAnswers(q, fold, t);
      ShardsWide(q, fold, s);
      GroupMerged(q, fold, s, class_);
      ShardGroup(q, fold, t, class_);
      GroupConcat(q, fold, Outs(s), t.out, class_);
      PartialStep(q, fold, Bases(s), t.base, class_, Group(q, fold, Outs(s), class_), Group(q, fold, t.out, class_));
    }
  }

  /** Moving a block of rows to the front keeps a group's rows. */
  lemma GroupMove(q: Query, fold: Collation, l: seq<Row>, h: seq<Row>, r: seq<Row>, class_: seq<Cell>)
    requires ValidQuery(q) && Wide(q, l) && Wide(q, h) && Wide(q, r)
    ensures Wide(q, l + (h + r)) && Wide(q, l + r)
    ensures multiset(Group(q, fold, l + (h + r), class_)) ==
            multiset(Group(q, fold, h, class_)) + multiset(Group(q, fold, l + r, class_))
  {
    WideParts(q, l, r);
    WideParts(q, h, r);
    WideParts(q, l, h + r);
    GroupConcat(q, fold, l, r, class_);
    GroupConcat(q, fold, h, r, class_);
    GroupConcat(q, fold, l, h + r, class_);
  }

  /** A group does not depend on the order of the table, as a multiset. */
  lemma {:induction false} GroupPerm(q: Query, fold: Collation, a: seq<Row>, b: seq<Row>, class_: seq<Cell>)
    requires ValidQuery(q) && Wide(q, a) && Wide(q, b) && multiset(a) == multiset(b)
    ensures multiset(Group(q, fold, a, class_)) == multiset(Group(q, fold, b, class_))
  {
    if a == [] {
      assert |multiset(b)| == 0;
    } else {
      var l, r := SplitAtHead(a, b);
      var h, t := [a[0]], a[1..];
      assert a == [] + (h + t) && [] + t == t && b == l + (h + r);
      WideParts(q, h, t);
      WideParts(q, l, h + r);
      WideParts(q, h, r);
      GroupMove(q, fold, [], h, t, class_);
      GroupMove(q, fold, l, h, r, class_);
      GroupPerm(q, fold, t, l + r, class_);
    }
  }

  lemma {:induction false} ColumnMultiset(a: seq<Row>, b: seq<Row>, c: nat)
    requires forall row :: row in a ==> c < |row|
    requires forall row :: row in b ==> c < |row|
    requires multiset(a) == multiset(b)
    ensures multiset(Column(a, c)) == multiset(Column(b, c))
  {
    if a == [] {
      assert |multiset(b)| == 0;
    } else {
      var l, r := SplitAtHead(a, b);
      var h, t := [a[0]], a[1..];
      assert a == h + t && b == l + (h + r);
      assert forall row :: row in b <==> row in l || row in h || row in r;
      ColumnMultiset(t, l + r, c);
      ColumnConcat(h, t, c);
      ColumnConcat(l, r, c);
      ColumnConcat(h, r, c);
      ColumnConcat(l, h + r, c);
    }
  }

  lemma KeyFromPerm(q: Query, x: seq<Row>, y: seq<Row>, row: Row)
    requires ValidQuery(q) && |row| == q.width && multiset(x) == multiset(y)
    requires forall i :: 0 <= i < |x| ==> |x[i]| == q.width
    requires forall i :: 0 <= i < |y| ==> |y[i]| == q.width
    requires KeyFrom(q, x, row)
    ensures KeyFrom(q, y, row)
  {
    var i :| 0 <= i < |x| && KeyOf(q, x[i]) == KeyOf(q, row);
    assert x[i] in multiset(y);
    var j :| 0 <= j < |y| && y[j] == x[i];
  }

  lemma AnswersPerm(q: Query, fold: Collation, a: seq<Row>, b: seq<Row>, class_: seq<Cell>, row: Row)
    requires ValidQuery(q) && Wide(q, a) && Wide(q, b) && multiset(a) == multiset(b)
    requires Answers(q, fold, a, class_, row)
    ensures Answers(q, fold, b, class_, row)
  {
    GroupPerm(q, fold, a, b, class_);
    var x, y := Group(q, fold, a, class_), Group(q, fold, b, class_);
    KeyFromPerm(q, x, y, row);
    forall c | c in q.aggs ensures Agg(q.aggs[c], Column(x, c)) == Agg(q.aggs[c], Column(y, c)) {
      ColumnMultiset(x, y, c);
      AggPerm(q.aggs[c], Column(x, c), Column(y, c));
    }
  }

  // ---------------------------------------------------------------- map keys and groups

  /** The collation tells apart whatever keys the columns can hold. */
  ghost predicate Discerning(q: Query, fold: Collation)
    requires ValidQuery(q)
  {
    forall r, s :: CleanRow(q, r) && CleanRow(q, s) && ClassOf(q, fold, r) == ClassOf(q, fold, s) ==>
                   KeyOf(q, r) == KeyOf(q, s)
  }

  /** Clean rows share a map key exactly when they have the same key. */
  lemma KeyMatch(q: Query, r: Row, s: Row)
    requires ValidQuery(q) && CleanRow(q, r) && CleanRow(q, s)
    ensures MapKey(KeyOf(q, r)) == MapKey(KeyOf(q, s)) <==> KeyOf(q, r) == KeyOf(q, s)
  {
    var k, l := KeyOf(q, r), KeyOf(q, s);
    if MapKey(k) == MapKey(l) {
      forall i | 0 <= i < |k| ensures Clean(|k|, k[i]) && Clean(|k|, l[i]) && Alike(k[i], l[i]) {
        assert KeyCell(q, q.keyCols[i], k[i]) && KeyCell(q, q.keyCols[i], l[i]);
      }
      MapKeyInjective(k, l);
    }
  }

  /** The rows filed under a clean row's map key are the rows of its group. */
  lemma {:induction false} RowsWithIsGroup(q: Query, fold: Collation, rows: seq<Row>, row: Row)
    requires ValidQuery(q) && Wide(q, rows) && CleanRow(q, row) && Discerning(q, fold)
    ensures RowsWith(q, rows, MapKey(KeyOf(q, row))) == Group(q, fold, rows, ClassOf(q, fold, row))
  {
    if rows != [] {
      var n := |rows| - 1;
      assert Wide(q, rows[..n]) by { WideParts(q, rows[..n], rows[n..]); assert rows == rows[..n] + rows[n..]; }
      RowsWithIsGroup(q, fold, rows[..n], row);
      KeyMatch(q, rows[n], row);
      assert CleanRow(q, rows[n]);
    }
  }

  lemma {:induction false} MergedKey(q: Query, rows: seq<Row>)
    requires ValidQuery(q) && rows != [] && forall i :: 0 <= i < |rows| ==> |rows[i]| == q.width
    ensures KeyOf(q, MergeRows(q, rows)) == KeyOf(q, rows[0])
  {
    if |rows| > 1 { MergedKey(q, rows[..|rows| - 1]); }
  }

  lemma {:induction false} RowsWithMembers(q: Query, values: seq<Row>, mk: seq<Byte>, row: Row)
    requires ValidQuery(q) && Wide(q, values) && row in RowsWith(q, values, mk)
    ensures |row| == q.width && CleanKey(q, row) && MapKey(KeyOf(q, row)) == mk
  {
    var n := |values| - 1;
    if row in RowsWith(q, values[..n], mk) { RowsWithMembers(q, values[..n], mk, row); }
  }

  ghost predicate AllFiled(q: Query, values: seq<Row>, result: map<seq<Byte>, Row>)
    requires ValidQuery(q) && forall i :: 0 <= i < |values| ==> |values[i]| == q.width
  {
    forall mk :: Filed(q, values, result, mk)
  }

  /** The result row of a map key has the key of a clean row filed under it. */
  lemma ResultKey(q: Query, values: seq<Row>, result: map<seq<Byte>, Row>, mk: seq<Byte>) returns (row: Row)
    requires ValidQuery(q) && Wide(q, values) && Filed(q, values, result, mk) && mk in result
    ensures CleanRow(q, row) && MapKey(KeyOf(q, row)) == mk
    ensures |result[mk]| == q.width && KeyOf(q, result[mk]) == KeyOf(q, row)
  {
    var rows := RowsWith(q, values, mk);
    row := rows[0];
    MergedKey(q, rows);
    RowsWithMembers(q, values, mk, row);
  }

  ghost predicate HasResult(q: Query, fold: Collation, result: map<seq<Byte>, Row>, class_: seq<Cell>)
    requires ValidQuery(q)
  {
    exists mk :: mk in result && |result[mk]| == q.width && ClassOf(q, fold, result[mk]) == class_
  }

  /** A merged row for every group of the whole table, and no other. */
  ghost predicate WholeGroups(q: Query, fold: Collation, table: seq<Row>, result: map<seq<Byte>, Row>)
    requires ValidQuery(q) && Wide(q, table)
  {
    && (forall mk :: mk in result ==> |result[mk]| == q.width)
    && (forall i :: 0 <= i < |table| ==> HasResult(q, fold, result, ClassOf(q, fold, table[i])))
    && (forall mk :: mk in result ==>
          && MapKey(KeyOf(q, result[mk])) == mk
          && Answers(q, fold, table, ClassOf(q, fold, result[mk]), result[mk]))
    && (forall m, n :: m in result && n in result && ClassOf(q, fold, result[m]) == ClassOf(q, fold, result[n]) ==>
          m == n)
  }

  /** A store of `shards` and their merged answers. */
  ghost predicate Merged(q: Query, fold: Collation, shards: seq<Shard>, table: seq<Row>, result: map<seq<Byte>, Row>)
    requires ValidQuery(q)
  {
    && Answered(q, fold, shards)
    && Wide(q, table) && multiset(table) == multiset(Bases(shards))
    && Wide(q, Outs(shards)) && AllFiled(q, Outs(shards), result)
  }

  lemma ResultRow(q: Query, fold: Collation, shards: seq<Shard>, table: seq<Row>, result: map<seq<Byte>, Row>, row: Row)
    requires ValidQuery(q) && Merged(q, fold, shards, table, result) && Discerning(q, fold) && CleanRow(q, row)
    ensures MapKey(KeyOf(q, row)) in result <==> Group(q, fold, table, ClassOf(q, fold, row)) != []
    ensures MapKey(KeyOf(q, row)) in result ==>
              Answers(q, fold, table, ClassOf(q, fold, row), result[MapKey(KeyOf(q, row))])
  {
    var mk, class_ := MapKey(KeyOf(q, row)), ClassOf(q, fold, row);
    ShardsWide(q, fold, shards);
    assert Filed(q, Outs(shards), result, mk);
    RowsWithIsGroup(q, fold, Outs(shards), row);
    GroupMerged(q, fold, shards, class_);
    GroupPerm(q, fold, Bases(shards), table, class_);
    assert |multiset(Group(q, fold, Bases(shards), class_))| == |multiset(Group(q, fold, table, class_))|;
    if mk in result { AnswersPerm(q, fold, Bases(shards), table, class_, result[mk]); }
  }

  /** Grouping by nullable integers and clean texts, under a collation that tells them apart: merging what the shards
      return, in whatever order they arrive, gives one row per group of the whole table, with the aggregates of the
      whole group. */
  lemma GroupedMergeExact(q: Query, fold: Collation, shards: seq<Shard>, table: seq<Row>, result: map<seq<Byte>, Row>)
    requires ValidQuery(q) && Merged(q, fold, shards, table, result) && Discerning(q, fold)
    ensures WholeGroups(q, fold, table, result)
  {
    forall mk | mk in result
      ensures |result[mk]| == q.width && MapKey(KeyOf(q, result[mk])) == mk
      ensures Answers(q, fold, table, ClassOf(q, fold, result[mk]), result[mk])
    {
      assert Filed(q, Outs(shards), result, mk);
      var row := ResultKey(q, Outs(shards), result, mk);
      ResultRow(q, fold, shards, table, result, row);
    }
    forall i | 0 <= i < |table| ensures HasResult(q, fold, result, ClassOf(q, fold, table[i])) {
      assert HasClass(q, fold, table, ClassOf(q, fold, table[i]));
      GroupEmpty(q, fold, table, ClassOf(q, fold, table[i]));
      ResultRow(q, fold, shards, table, result, table[i]);
      assert MapKey(KeyOf(q, table[i])) in result;
    }
    forall m, n | m in result && n in result && ClassOf(q, fold, result[m]) == ClassOf(q, fold, result[n])
      ensures m == n
    {
      assert Filed(q, Outs(shards), result, m) && Filed(q, Outs(shards), result, n);
      var r := ResultKey(q, Outs(shards), result, m);
      var s := ResultKey(q, Outs(shards), result, n);
      assert ClassOf(q, fold, r) == ClassOf(q, fold, s);
    }
  }

  lemma BytewiseDiscerning(q: Query)
    requires ValidQuery(q)
    ensures Discerning(q, Bytewise())
  {
  }

  // ---------------------------------------------------------------- one shard

  /** A map key under which rows are filed is the map key of a row's group, and of the merged row's. */
  lemma FiledKey(q: Query, values: seq<Row>, mk: seq<Byte>) returns (i: nat)
    requires ValidQuery(q) && Wide(q, values) && RowsWith(q, values, mk) != []
    ensures i < |values| && MapKey(KeyOf(q, values[i])) == mk
  {
    var n := |values| - 1;
    if MapKey(KeyOf(q, values[n])) == mk { i := n; } else { i := FiledKey(q, values[..n], mk); }
  }

  /** Each row of one shard's answer is a result row of its own. */
  lemma OneShardRow(q: Query, fold: Collation, s: Shard, result: map<seq<Byte>, Row>, j: nat)
    requires ValidQuery(q) && ShardAnswers(q, fold, s) && AllFiled(q, s.out, result) && j < |s.out|
    ensures MapKey(KeyOf(q, s.out[j])) in result && result[MapKey(KeyOf(q, s.out[j]))] == s.out[j]
  {
    var row, mk := s.out[j], MapKey(KeyOf(q, s.out[j]));
    BytewiseDiscerning(q);
    assert CleanRow(q, row);
    RowsWithIsGroup(q, Bytewise(), s.out, row);
    forall i, k | 0 <= i < k < |s.out|
      ensures ClassOf(q, Bytewise(), s.out[i]) != ClassOf(q, Bytewise(), s.out[k])
    {
      assert ClassOf(q, fold, s.out[i]) != ClassOf(q, fold, s.out[k]);
    }
    GroupSingle(q, Bytewise(), s.out, KeyOf(q, row));
    GroupEmpty(q, Bytewise(), s.out, KeyOf(q, row));
    assert ClassOf(q, Bytewise(), s.out[j]) == KeyOf(q, row);
    assert Filed(q, s.out, result, mk);
    var only := Group(q, Bytewise(), s.out, KeyOf(q, row));
    assert only == [only[0]];
    var i :| 0 <= i < |s.out| && s.out[i] == only[0];
    assert i == j;
  }

  /** And there are no others. */
  lemma OneShardKey(q: Query, fold: Collation, s: Shard, result: map<seq<Byte>, Row>, mk: seq<Byte>) returns (j: nat)
    requires ValidQuery(q) && ShardAnswers(q, fold, s) && AllFiled(q, s.out, result) && mk in result
    ensures j < |s.out| && MapKey(KeyOf(q, s.out[j])) == mk && result[mk] == s.out[j]
  {
    assert Filed(q, s.out, result, mk);
    j := FiledKey(q, s.out, mk);
    OneShardRow(q, fold, s, result, j);
  }

  lemma OneShardOnce(q: Query, fold: Collation, s: Shard, result: map<seq<Byte>, Row>, m: seq<Byte>, n: seq<Byte>)
    requires ValidQuery(q) && ShardAnswers(q, fold, s) && AllFiled(q, s.out, result) && m in result && n in result
    requires |result[m]| == |result[n]| == q.width && ClassOf(q, fold, result[m]) == ClassOf(q, fold, result[n])
    ensures m == n
  {
    var i := OneShardKey(q, fold, s, result, m);
    var j := OneShardKey(q, fold, s, result, n);
    assert i == j;
  }

  lemma OneShardHas(q: Query, fold: Collation, s: Shard, result: map<seq<Byte>, Row>, row: Row)
    requires ValidQuery(q) && ShardAnswers(q, fold, s) && AllFiled(q, s.out, result)
    requires |row| == q.width && row in s.base
    ensures HasResult(q, fold, result, ClassOf(q, fold, row))
  {
    var k :| 0 <= k < |s.base| && s.base[k] == row;
    assert HasClass(q, fold, s.out, ClassOf(q, fold, s.base[k]));
    var j :| 0 <= j < |s.out| && ClassOf(q, fold, s.out[j]) == ClassOf(q, fold, row);
    OneShardRow(q, fold, s, result, j);
  }

  /** With one shard the backend has grouped already, and the merge is exact under any collation. */
  lemma OneShardExact(q: Query, fold: Collation, s: Shard, table: seq<Row>, result: map<seq<Byte>, Row>)
    requires ValidQuery(q) && ShardAnswers(q, fold, s) && AllFiled(q, s.out, result)
    requires Wide(q, table) && multiset(table) == multiset(s.base)
    ensures WholeGroups(q, fold, table, result)
  {
    forall mk | mk in result
      ensures |result[mk]| == q.width && MapKey(KeyOf(q, result[mk])) == mk
      ensures Answers(q, fold, table, ClassOf(q, fold, result[mk]), result[mk])
    {
      var j := OneShardKey(q, fold, s, result, mk);
      AnswersPerm(q, fold, s.base, table, ClassOf(q, fold, s.out[j]), s.out[j]);
    }
    forall i | 0 <= i < |table| ensures HasResult(q, fold, result, ClassOf(q, fold, table[i])) {
      assert table[i] in multiset(s.base);
      OneShardHas(q, fold, s, result, table[i]);
    }
    forall m, n | m in result && n in result && ClassOf(q, fold, result[m]) == ClassOf(q, fold, result[n])
      ensures m == n
    {
      OneShardOnce(q, fold, s, result, m, n);
    }
  }

  // ---------------------------------------------------------------- when the merge is exact

  /** Over every store of `n` shards the merge has one row per group, with the group's aggregates. */
  ghost predicate ExactOver(q: Query, fold: Collation, n: nat)
    requires ValidQuery(q)
  {
    forall shards, table, result :: |shards| == n && Merged(q, fold, shards, table, result) ==>
                                    WholeGroups(q, fold, table, result)
  }

  /** What a server answers over one row. */
  function Solo(q: Query, row: Row): (r: Row)
    requires ValidQuery(q) && |row| == q.width
    ensures |r| == q.width && KeyOf(q, r) == KeyOf(q, row)
  {
    var r := seq(|row|, i requires 0 <= i < |row| => if i in q.aggs then Agg(q.aggs[i], [row[i]]) else row[i]);
    assert KeyOf(q, r) == KeyOf(q, row);
    r
  }

  lemma SoloClean(q: Query, row: Row)
    requires ValidQuery(q) && CleanRow(q, row)
    ensures CleanRow(q, Solo(q, row)) && Wide(q, [row]) && Wide(q, [Solo(q, row)])
  {
    var r := Solo(q, row);
    forall i | 0 <= i < |q.keyCols| && q.keyCols[i] < q.width ensures KeyCell(q, q.keyCols[i], r[q.keyCols[i]]) {
      assert r[q.keyCols[i]] == row[q.keyCols[i]];
    }
  }

  lemma SoloGroup(q: Query, fold: Collation, row: Row)
    requires ValidQuery(q) && CleanRow(q, row) && Wide(q, [row])
    ensures Answers(q, fold, [row], ClassOf(q, fold, row), Solo(q, row))
  {
    var r, class_ := Solo(q, row), ClassOf(q, fold, row);
    assert Group(q, fold, [row], class_) == [row] by { assert [row][..0] == []; }
    assert KeyOf(q, [row][0]) == KeyOf(q, r);
    forall c | c in q.aggs ensures r[c] == Agg(q.aggs[c], Column([row], c)) { assert Column([row], c) == [row[c]]; }
  }

  lemma SoloAnswers(q: Query, fold: Collation, row: Row)
    requires ValidQuery(q) && CleanRow(q, row)
    ensures CleanRow(q, Solo(q, row)) && ShardAnswers(q, fold, Shard([row], [Solo(q, row)]))
  {
    SoloClean(q, row);
    SoloGroup(q, fold, row);
    var r, class_ := Solo(q, row), ClassOf(q, fold, row);
    assert HasClass(q, fold, [r], class_) by { assert ClassOf(q, fold, [r][0]) == class_; }
  }

  /** Two shards of one row each, and empty ones after them. */
  ghost function TwoAndEmpty(q: Query, r: Row, s: Row, k: nat): seq<Shard>
    requires ValidQuery(q) && |r| == |s| == q.width
  {
    [Shard([r], [Solo(q, r)]), Shard([s], [Solo(q, s)])] + Repeat(Shard([], []), k)
  }

  lemma ShardsStep(shards: seq<Shard>, s: Shard)
    ensures Bases(shards + [s]) == Bases(shards) + s.base && Outs(shards + [s]) == Outs(shards) + s.out
  {
    assert (shards + [s])[..|shards|] == shards;
  }

  lemma TwoShards(first: Shard, second: Shard)
    ensures Bases([first, second]) == first.base + second.base && Outs([first, second]) == first.out + second.out
  {
    ShardsStep([], first);
    ShardsStep([first], second);
    assert [] + [first] == [first] && [first] + [second] == [first, second];
    assert [] + first.base == first.base && [] + first.out == first.out;
  }

  lemma {:induction false} EmptyAfter(shards: seq<Shard>, k: nat)
    ensures Bases(shards + Repeat(Shard([], []), k)) == Bases(shards)
    ensures Outs(shards + Repeat(Shard([], []), k)) == Outs(shards)
  {
    var none := Shard([], []);
    if k == 0 {
      assert shards + Repeat(none, k) == shards;
    } else {
      var less := shards + Repeat(none, k - 1);
      EmptyAfter(shards, k - 1);
      ShardsStep(less, none);
      assert shards + Repeat(none, k) == less + [none];
      assert Bases(less) + [] == Bases(less) && Outs(less) + [] == Outs(less);
    }
  }

  lemma TwoAndEmptyRows(q: Query, r: Row, s: Row, k: nat)
    requires ValidQuery(q) && |r| == |s| == q.width
    ensures Bases(TwoAndEmpty(q, r, s, k)) == [r, s] && Outs(TwoAndEmpty(q, r, s, k)) == [Solo(q, r), Solo(q, s)]
  {
    var first, second := Shard([r], [Solo(q, r)]), Shard([s], [Solo(q, s)]);
    EmptyAfter([first, second], k);
    TwoShards(first, second);
  }

  lemma TwoAndEmptyAnswer(q: Query, fold: Collation, r: Row, s: Row, k: nat)
    requires ValidQuery(q) && CleanRow(q, r) && CleanRow(q, s)
    ensures Answered(q, fold, TwoAndEmpty(q, r, s, k))
  {
    SoloAnswers(q, fold, r);
    SoloAnswers(q, fold, s);
    var shards := TwoAndEmpty(q, r, s, k);
    forall i | 0 <= i < |shards| ensures ShardAnswers(q, fold, shards[i]) {
      if i >= 2 { assert shards[i] == Shard([], []); }
    }
  }

  lemma FiledApart(q: Query, r: Row, s: Row, mk: seq<Byte>)
    requires ValidQuery(q) && |r| == |s| == q.width && MapKey(KeyOf(q, r)) != MapKey(KeyOf(q, s))
    ensures Filed(q, [r, s], map[MapKey(KeyOf(q, r)) := r, MapKey(KeyOf(q, s)) := s], mk)
  {
    RowsWithStep(q, [], r, mk);
    RowsWithStep(q, [r], s, mk);
    assert [] + [r] == [r] && [r] + [s] == [r, s];
    assert RowsWith(q, [r], mk) == if MapKey(KeyOf(q, r)) == mk then [r] else [];
  }

  /** The two result rows of two rows with different keys. */
  ghost function Apart(q: Query, r: Row, s: Row): map<seq<Byte>, Row>
    requires ValidQuery(q) && |r| == |s| == q.width
  {
    map[MapKey(KeyOf(q, r)) := Solo(q, r), MapKey(KeyOf(q, s)) := Solo(q, s)]
  }

  lemma ApartFiled(q: Query, r: Row, s: Row)
    requires ValidQuery(q) && CleanRow(q, r) && CleanRow(q, s) && KeyOf(q, r) != KeyOf(q, s)
    ensures MapKey(KeyOf(q, r)) != MapKey(KeyOf(q, s)) && AllFiled(q, [Solo(q, r), Solo(q, s)], Apart(q, r, s))
  {
    KeyMatch(q, r, s);
    forall mk ensures Filed(q, [Solo(q, r), Solo(q, s)], Apart(q, r, s), mk) {
      FiledApart(q, Solo(q, r), Solo(q, s), mk);
    }
  }

  /** A row on each of two shards, in one group for the backends, ends in two result rows. */
  lemma SplitGroup(q: Query, fold: Collation, r: Row, s: Row, k: nat)
    requires ValidQuery(q) && CleanRow(q, r) && CleanRow(q, s) && KeyOf(q, r) != KeyOf(q, s)
    ensures Merged(q, fold, TwoAndEmpty(q, r, s, k), [r, s], Apart(q, r, s))
    ensures ClassOf(q, fold, r) == ClassOf(q, fold, s) ==> !WholeGroups(q, fold, [r, s], Apart(q, r, s))
  {
    var m, n, result := MapKey(KeyOf(q, r)), MapKey(KeyOf(q, s)), Apart(q, r, s);
    TwoAndEmptyAnswer(q, fold, r, s, k);
    ShardsWide(q, fold, TwoAndEmpty(q, r, s, k));
    TwoAndEmptyRows(q, r, s, k);
    ApartFiled(q, r, s);
    if ClassOf(q, fold, r) == ClassOf(q, fold, s) {
      assert ClassOf(q, fold, result[m]) == ClassOf(q, fold, result[n]);
    }
  }

  lemma NoShardExact(q: Query, fold: Collation, table: seq<Row>, result: map<seq<Byte>, Row>)
    requires ValidQuery(q) && Merged(q, fold, [], table, result)
    ensures WholeGroups(q, fold, table, result)
  {
    assert |multiset(table)| == 0;
    forall mk ensures mk !in result { assert Filed(q, [], result, mk); }
  }

  lemma OneShardCase(q: Query, fold: Collation, shards: seq<Shard>, table: seq<Row>, result: map<seq<Byte>, Row>)
    requires ValidQuery(q) && |shards| == 1 && Merged(q, fold, shards, table, result)
    ensures WholeGroups(q, fold, table, result)
  {
    assert ShardAnswers(q, fold, shards[0]);
    assert shards[..0] == [] && Bases(shards) == shards[0].base && Outs(shards) == shards[0].out;
    OneShardExact(q, fold, shards[0], table, result);
  }

  /** Backends that group under a collation, a proxy that files keys byte by byte: over every store of n shards the
      merge is exact if and only if n is at most 1 or the collation tells apart all keys the columns can hold. */
  lemma MergeExactIff(q: Query, fold: Collation, n: nat)
    requires ValidQuery(q)
    ensures ExactOver(q, fold, n) <==> n <= 1 || Discerning(q, fold)
  {
    if n <= 1 || Discerning(q, fold) {
      forall shards, table, result | |shards| == n && Merged(q, fold, shards, table, result)
        ensures WholeGroups(q, fold, table, result)
      {
        if n == 0 {
          assert shards == [];
          NoShardExact(q, fold, table, result);
        } else if n == 1 {
          OneShardCase(q, fold, shards, table, result);
        } else {
          GroupedMergeExact(q, fold, shards, table, result);
        }
      }
    } else {
      var r, s :| CleanRow(q, r) && CleanRow(q, s) && ClassOf(q, fold, r) == ClassOf(q, fold, s)
                  && KeyOf(q, r) != KeyOf(q, s);
      SplitGroup(q, fold, r, s, n - 2);
      assert |TwoAndEmpty(q, r, s, n - 2)| == n;
    }
  }

  // ---------------------------------------------------------------- inputs

  /** Grouping by one text column with a NULL and a text "NULL": both rows end in one result row. */
  lemma NullTextMerged(result: map<seq<Byte>, Row>)
    requires forall mk :: Filed(NameCount(), NameRows(), result, mk)
    ensures result == map[NULL_TEXT + [PLUS] := [Null, Int(2)]]
  {
    var q, mk := NameCount(), NULL_TEXT + [PLUS];
    var first, second := NameRows()[0], NameRows()[1];
    assert KeyOf(q, first) == [Null] && KeyOf(q, second) == [Text(NULL_TEXT)];
    NullTextCollides([]);
    assert [Null] + [] == [Null] && [Text(NULL_TEXT)] + [] == [Text(NULL_TEXT)];
    assert MapKey([Null]) == mk;
    assert NameRows() == [] + [first] + [second];
    forall m ensures RowsWith(q, NameRows(), m) == if m == mk then [first, second] else [] {
      RowsWithStep(q, [], first, m);
      RowsWithStep(q, [] + [first], second, m);
    }
    MergeRowsStep(q, [first], second);
    assert [first] + [second] == [first, second];
    assert Filed(q, NameRows(), result, mk);
    assert MergeRow(q, second, first) == [Null, Int(2)];
    forall m ensures m in result <==> m == mk { assert Filed(q, NameRows(), result, m); }
  }

  /** SELECT name, COUNT(*) ... GROUP BY name. */
  function NameCount(): (q: Query)
    ensures ValidQuery(q)
  {
    Query(2, [0], map[1 := Count], {0})
  }

  function NameRows(): (rows: seq<Row>)
    ensures |rows| == 2 && forall i :: 0 <= i < |rows| ==> |rows[i]| == NameCount().width
  {
    [[Null, Int(1)], [Text(NULL_TEXT), Int(1)]]
  }

  lemma FiledUnique(q: Query, values: seq<Row>, a: map<seq<Byte>, Row>, b: map<seq<Byte>, Row>)
    requires ValidQuery(q) && forall i :: 0 <= i < |values| ==> |values[i]| == q.width
    requires AllFiled(q, values, a) && AllFiled(q, values, b)
    ensures a == b
  {
    forall mk ensures (mk in a <==> mk in b) && (mk in a ==> a[mk] == b[mk]) {
      assert Filed(q, values, a, mk) && Filed(q, values, b, mk);
    }
  }

  const LOWER_A: Row := [Text([97]), Int(1)]
  const UPPER_A: Row := [Text([65]), Int(1)]

  /** Names 'a' and 'A' on two shards, counted under a collation that ignores case: the backends' one group of two
      ends in two result rows of one each. */
  lemma CaseGroupsExample(fold: Collation, result: map<seq<Byte>, Row>)
    requires fold([Text([97])]) == fold([Text([65])])
    requires AllFiled(NameCount(), [LOWER_A, UPPER_A], result)
    ensures Answered(NameCount(), fold, [Shard([LOWER_A], [LOWER_A]), Shard([UPPER_A], [UPPER_A])])
    ensures result == map[[97, PLUS] := LOWER_A, [65, PLUS] := UPPER_A]
    ensures Wide(NameCount(), [LOWER_A, UPPER_A]) && !WholeGroups(NameCount(), fold, [LOWER_A, UPPER_A], result)
  {
    var q := NameCount();
    CaseRows();
    SplitGroup(q, fold, LOWER_A, UPPER_A, 0);
    assert TwoAndEmpty(q, LOWER_A, UPPER_A, 0) == [Shard([LOWER_A], [LOWER_A]), Shard([UPPER_A], [UPPER_A])];
    TwoAndEmptyRows(q, LOWER_A, UPPER_A, 0);
    FiledUnique(q, [LOWER_A, UPPER_A], result, Apart(q, LOWER_A, UPPER_A));
  }

  lemma CaseRows()
    ensures var q := NameCount();
            && CleanRow(q, LOWER_A) && CleanRow(q, UPPER_A) && KeyOf(q, LOWER_A) != KeyOf(q, UPPER_A)
            && Solo(q, LOWER_A) == LOWER_A && Solo(q, UPPER_A) == UPPER_A
            && KeyOf(q, LOWER_A) == [Text([97])] && KeyOf(q, UPPER_A) == [Text([65])]
            && MapKey([Text([97])]) == [97, PLUS] && MapKey([Text([65])]) == [65, PLUS]
  {
    var q := NameCount();
    assert KeyOf(q, LOWER_A) == [Text([97])] && KeyOf(q, UPPER_A) == [Text([65])];
    assert [Text([97])][0] != [Text([65])][0];
    assert [Int(1)][..0] == [] && Present([Int(1)]) == [Int(1)];
    assert Solo(q, LOWER_A)[1] == Int(1) && Solo(q, UPPER_A)[1] == Int(1);
    assert [Text([97])][1..] == [] && [Text([65])][1..] == [];
  }

  // ---------------------------------------------------------------- no GROUP BY

  lemma {:induction false} FlattenWide(bases: seq<seq<Row>>, w: nat)
    requires forall i, j :: 0 <= i < |bases| && 0 <= j < |bases[i]| ==> |bases[i][j]| == w
    ensures forall i :: 0 <= i < |Flatten(bases)| ==> |Flatten(bases)[i]| == w
  {
    if bases != [] { FlattenWide(bases[..|bases| - 1], w); }
  }

  /** Without GROUP BY every shard returns one row, even over no rows: merging gives the table's aggregates. */
  lemma {:induction false} UngroupedMergeExact(q: Query, bases: seq<seq<Row>>, outs: seq<Row>, c: nat)
    requires c in q.aggs && c < q.width && |bases| == |outs| > 0
    requires forall i :: 0 <= i < |outs| ==> |outs[i]| == q.width
    requires forall i, j :: 0 <= i < |bases| && 0 <= j < |bases[i]| ==> |bases[i][j]| == q.width
    requires forall i :: 0 <= i < |outs| ==> outs[i][c] == Agg(q.aggs[c], Column(bases[i], c))
    ensures forall i :: 0 <= i < |Flatten(bases)| ==> |Flatten(bases)[i]| == q.width
    ensures MergeRows(q, outs)[c] == Agg(q.aggs[c], Column(Flatten(bases), c))
  {
    FlattenWide(bases, q.width);
    var n := |bases| - 1;
    var a, b := Flatten(bases[..n]), bases[n];
    if n == 0 {
      assert a == [] && [] + b == b;
    } else {
      UngroupedMergeExact(q, bases[..n], outs[..n], c);
      assert Flatten(bases) == a + b;
      ColumnConcat(a, b, c);
      AggConcat(q.aggs[c], Column(a, c), Column(b, c));
    }
  }
}
