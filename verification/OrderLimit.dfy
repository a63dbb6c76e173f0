/** ORDER BY with LIMIT over several shards: the limit rewrite of `proxy/plan/decorator_limit.go`, the row
    order of `mysql/resultset_sort.go` and the merge steps of `proxy/plan/merge_result.go`. */
module OrderLimit {
  import opened Lists

  /** A result cell. All numeric kinds are reals; a column holds cells of one kind (on mixed kinds, which
      the source refuses, numbers come first). */
  datatype Cell = Null | Num(v: real) | Text(bytes: seq<nat>)

  type Row = seq<Cell>

  datatype SortKey = SortKey(column: nat, desc: bool)

  function Sign(less: bool, greater: bool): int { if less then -1 else if greater then 1 else 0 }

  /** bytes.Compare. */
  function CmpBytes(a: seq<nat>, b: seq<nat>): int {
    if a == [] || b == [] then Sign(|a| < |b|, |a| > |b|)
    else if a[0] != b[0] then Sign(a[0] < b[0], a[0] > b[0])
    else CmpBytes(a[1..], b[1..])
  }

  function Kind(c: Cell): int { match c case Null => 0 case Num(_) => 1 case Text(_) => 2 }

  /** cmpValue: NULL before everything, equal NULLs. */
  function CmpCell(a: Cell, b: Cell): int {
    if Kind(a) != Kind(b) then Sign(Kind(a) < Kind(b), Kind(a) > Kind(b))
    else
      match a
      case Null => 0
      case Num(v) => Sign(v < b.v, v > b.v)
      case Text(bytes) => CmpBytes(bytes, b.bytes)
  }

  function CellAt(r: Row, column: nat): Cell { if column < |r| then r[column] else Null }

  /** The comparison loop of Less: the first key on which the rows differ decides. */
  function CmpRows(keys: seq<SortKey>, a: Row, b: Row): int {
    if keys == [] then 0
    else
      var c := CmpCell(CellAt(a, keys[0].column), CellAt(b, keys[0].column));
      var d := if keys[0].desc then -c else c;
      if d != 0 then d else CmpRows(keys[1..], a, b)
  }

  predicate Le(keys: seq<SortKey>, a: Row, b: Row) { CmpRows(keys, a, b) <= 0 }

  // ---------------------------------------------------------------- a total preorder

  lemma {:induction false} CmpBytesOrder(a: seq<nat>, b: seq<nat>, c: seq<nat>)
    ensures CmpBytes(a, b) == -CmpBytes(b, a) && CmpBytes(a, a) == 0
    ensures CmpBytes(a, b) <= 0 && CmpBytes(b, c) <= 0 ==> CmpBytes(a, c) <= 0
    ensures CmpBytes(a, b) == 0 && CmpBytes(b, c) <= 0 ==> CmpBytes(a, c) == CmpBytes(b, c)
    ensures CmpBytes(a, b) < 0 && CmpBytes(b, c) <= 0 ==> CmpBytes(a, c) < 0
    ensures CmpBytes(a, b) <= 0 && CmpBytes(b, c) < 0 ==> CmpBytes(a, c) < 0
    decreases |a| + |b| + |c|
  {
    if a != [] && b != [] && c != [] {
      CmpBytesOrder(a[1..], b[1..], c[1..]);
    } else if a != [] && b != [] {
      CmpBytesOrder(a[1..], b[1..], []);
    } else if a != [] {
      CmpBytesOrder(a[1..], [], []);
    }
  }

  lemma CmpCellOrder(a: Cell, b: Cell, c: Cell)
    ensures CmpCell(a, b) == -CmpCell(b, a) && CmpCell(a, a) == 0
    ensures CmpCell(a, b) == 0 && CmpCell(b, c) <= 0 ==> CmpCell(a, c) == CmpCell(b, c)
    ensures CmpCell(a, b) < 0 && CmpCell(b, c) <= 0 ==> CmpCell(a, c) < 0
    ensures CmpCell(a, b) <= 0 && CmpCell(b, c) < 0 ==> CmpCell(a, c) < 0
  {
    if a.Text? && b.Text? {
      CmpBytesOrder(a.bytes, b.bytes, if c.Text? then c.bytes else []);
    }
    if a.Text? { CmpBytesOrder(a.bytes, a.bytes, a.bytes); }
  }

  /** Rows compare as a total preorder for every list of sort keys and directions. */
  lemma {:induction false} RowOrder(keys: seq<SortKey>, a: Row, b: Row, c: Row)
    ensures CmpRows(keys, a, b) == -CmpRows(keys, b, a)
    ensures Le(keys, a, b) && Le(keys, b, c) ==> Le(keys, a, c)
  {
    if keys != [] {
      var k := keys[0].column;
      CmpCellOrder(CellAt(a, k), CellAt(b, k), CellAt(c, k));
      CmpCellOrder(CellAt(c, k), CellAt(b, k), CellAt(a, k));
      CmpCellOrder(CellAt(a, k), CellAt(c, k), CellAt(b, k));
      RowOrder(keys[1..], a, b, c);
    }
  }

  /** Bytes compare as a dictionary does: at the first difference, or by length after a common prefix. */
  lemma {:induction false} CmpBytesIsDictionary(a: seq<nat>, b: seq<nat>)
    ensures CmpBytes(a, b) == 0 <==> a == b
    ensures CmpBytes(a, b) < 0 <==> exists k: nat :: DictionaryBelow(a, b, k)
  {
    if a != [] && b != [] && a[0] == b[0] {
      CmpBytesIsDictionary(a[1..], b[1..]);
      assert a == [a[0]] + a[1..] && b == [b[0]] + b[1..];
      TailBelow(a, b);
    } else {
      assert DictionaryBelow(a, b, 0) <==> CmpBytes(a, b) < 0;
      assert forall k: nat :: k > 0 && DictionaryBelow(a, b, k) ==> a[..k][0] == a[0] && b[..k][0] == b[0];
    }
  }

  lemma TailBelow(a: seq<nat>, b: seq<nat>)
    requires a != [] && b != [] && a[0] == b[0]
    ensures (exists k: nat :: DictionaryBelow(a, b, k)) <==> exists k: nat :: DictionaryBelow(a[1..], b[1..], k)
  {
    if k: nat :| DictionaryBelow(a, b, k) {
      assert a[1..][..k - 1] == a[..k][1..] && b[1..][..k - 1] == b[..k][1..];
      assert DictionaryBelow(a[1..], b[1..], k - 1);
    }
    if k: nat :| DictionaryBelow(a[1..], b[1..], k) {
      assert a[..k + 1] == [a[0]] + a[1..][..k] && b[..k + 1] == [b[0]] + b[1..][..k];
      assert DictionaryBelow(a, b, k + 1);
    }
  }

  /** The texts agree on their first k bytes, and there `a` ends or has the smaller byte. */
  ghost predicate DictionaryBelow(a: seq<nat>, b: seq<nat>, k: nat) {
    k <= |a| && k < |b| && a[..k] == b[..k] && (k == |a| || a[k] < b[k])
  }

  /** The order of the proxy's sort. */
  function ByKeys(keys: seq<SortKey>): (Row, Row) -> bool { (a, b) => Le(keys, a, b) }

  lemma ByKeysTotal(keys: seq<SortKey>)
    ensures TotalPreorder(ByKeys(keys))
  {
    forall a, b ensures Le(keys, a, b) || Le(keys, b, a) { RowOrder(keys, a, b, a); }
    forall a, b, c ensures Transits(ByKeys(keys), a, b, c) { RowOrder(keys, a, b, c); }
  }

  // ---------------------------------------------------------------- sorted results, for any order

  /** An ORDER BY: any two rows compare, equal ones may differ. */
  ghost predicate TotalPreorder<T(!new)>(le: (T, T) -> bool) {
    && (forall a, b :: le(a, b) || le(b, a))
    && (forall a, b, c :: Transits(le, a, b, c))
  }

  ghost predicate Transits<T>(le: (T, T) -> bool, a: T, b: T, c: T) { le(a, b) && le(b, c) ==> le(a, c) }

  ghost predicate Sorted<T>(le: (T, T) -> bool, s: seq<T>) {
    forall i, j :: 0 <= i < j < |s| ==> le(s[i], s[j])
  }

  /** Any outcome of sort.Sort or of a backend's ORDER BY: ties in any order. */
  ghost predicate IsSortOf<T>(le: (T, T) -> bool, r: seq<T>, s: seq<T>) {
    Sorted(le, r) && multiset(r) == multiset(s)
  }

  ghost function CountLe<T>(le: (T, T) -> bool, s: seq<T>, x: T): nat {
    if s == [] then 0 else (if le(s[0], x) then 1 else 0) + CountLe(le, s[1..], x)
  }

  lemma {:induction false} CountConcat<T>(le: (T, T) -> bool, a: seq<T>, b: seq<T>, x: T)
    ensures CountLe(le, a + b, x) == CountLe(le, a, x) + CountLe(le, b, x)
  {
    if a == [] {
      assert a + b == b;
    } else {
      assert (a + b)[1..] == a[1..] + b;
      CountConcat(le, a[1..], b, x);
    }
  }

  lemma {:induction false} CountPerm<T>(le: (T, T) -> bool, a: seq<T>, b: seq<T>, x: T)
    requires multiset(a) == multiset(b)
    ensures CountLe(le, a, x) == CountLe(le, b, x)
  {
    if a == [] {
      assert |multiset(b)| == 0;
    } else {
      var l, r := SplitAtHead(a, b);
      CountPerm(le, a[1..], l + r, x);
      CountConcat(le, l, r, x);
      CountConcat(le, l, [a[0]] + r, x);
      assert ([a[0]] + r)[1..] == r;
    }
  }

  /** A list of small rows, and one of large rows. */
  lemma {:induction false} CountBounds<T>(le: (T, T) -> bool, s: seq<T>, x: T)
    ensures CountLe(le, s, x) <= |s|
    ensures (forall k :: 0 <= k < |s| ==> le(s[k], x)) ==> CountLe(le, s, x) == |s|
    ensures (forall k :: 0 <= k < |s| ==> !le(s[k], x)) ==> CountLe(le, s, x) == 0
  {
    if s != [] { CountBounds(le, s[1..], x); }
  }

  /** In a sorted list, the row at position p is at most x exactly when more than p rows are. */
  lemma SortedCount<T(!new)>(le: (T, T) -> bool, s: seq<T>, x: T, p: nat)
    requires TotalPreorder(le) && Sorted(le, s) && p < |s|
    ensures le(s[p], x) <==> CountLe(le, s, x) > p
  {
    var front, back := s[..p + 1], s[p..];
    assert s == s[..p] + back && s == front + s[p + 1..];
    if le(s[p], x) {
      forall k | 0 <= k < |front| ensures le(front[k], x) { assert Transits(le, s[k], s[p], x); }
      CountConcat(le, front, s[p + 1..], x);
      CountBounds(le, front, x);
    } else {
      forall k | 0 <= k < |back| ensures !le(back[k], x) { assert Transits(le, s[p], s[p + k], x); }
      CountConcat(le, s[..p], back, x);
      CountBounds(le, s[..p], x);
      CountBounds(le, back, x);
    }
  }

  lemma SameLength<T>(a: seq<T>, b: seq<T>)
    requires multiset(a) == multiset(b)
    ensures |a| == |b|
  {
    assert |a| == |multiset(a)| == |multiset(b)| == |b|;
  }

  /** Same length and, row by row, equal in the order. */
  ghost predicate SameKeys<T>(le: (T, T) -> bool, a: seq<T>, b: seq<T>) {
    |a| == |b| && forall p :: 0 <= p < |a| ==> le(a[p], b[p]) && le(b[p], a[p])
  }

  /** Two sorts of the same rows differ among ties only. */
  lemma SortsAgree<T(!new)>(le: (T, T) -> bool, a: seq<T>, b: seq<T>)
    requires TotalPreorder(le) && Sorted(le, a) && Sorted(le, b) && multiset(a) == multiset(b)
    ensures SameKeys(le, a, b)
  {
    SameLength(a, b);
    forall p | 0 <= p < |a| ensures le(a[p], b[p]) && le(b[p], a[p]) {
      CountPerm(le, a, b, a[p]);
      CountPerm(le, a, b, b[p]);
      SortedCount(le, a, a[p], p);
      SortedCount(le, a, b[p], p);
      SortedCount(le, b, a[p], p);
      SortedCount(le, b, b[p], p);
      assert le(a[p], a[p]) && le(b[p], b[p]);
    }
  }

  lemma InsertedRows<T>(s: seq<T>, k: nat, x: T)
    requires k <= |s|
    ensures multiset(s[..k] + [x] + s[k..]) == multiset(s) + multiset{x}
  {
    assert s == s[..k] + s[k..];
  }

  lemma InsertedSorted<T(!new)>(le: (T, T) -> bool, s: seq<T>, k: nat, x: T)
    requires TotalPreorder(le) && Sorted(le, s) && k <= |s| && (k > 0 ==> le(s[k - 1], x))
    requires forall i :: k <= i < |s| ==> le(x, s[i])
    ensures Sorted(le, s[..k] + [x] + s[k..])
  {
    var r := s[..k] + [x] + s[k..];
    forall i | 0 <= i < k ensures le(s[i], x) { assert Transits(le, s[i], s[k - 1], x); }
    forall i, j | 0 <= i < j < |r| ensures le(r[i], r[j]) {
      if i > k { assert r[i] == s[i - 1] && r[j] == s[j - 1]; }
      else if j > k { assert r[j] == s[j - 1] && (i < k ==> r[i] == s[i]); }
    }
  }

  lemma {:induction false} InsertPlace<T(!new)>(le: (T, T) -> bool, s: seq<T>, k: nat, x: T) returns (p: nat)
    requires TotalPreorder(le) && k <= |s| && forall i :: k <= i < |s| ==> le(x, s[i])
    ensures p <= k && (p > 0 ==> le(s[p - 1], x)) && forall i :: p <= i < |s| ==> le(x, s[i])
    decreases k
  {
    if k == 0 || le(s[k - 1], x) {
      p := k;
    } else {
      assert le(x, s[k - 1]);
      p := InsertPlace(le, s, k - 1, x);
    }
  }

  /** Every list can be sorted. */
  lemma {:induction false} SortExists<T(!new)>(le: (T, T) -> bool, s: seq<T>) returns (r: seq<T>)
    requires TotalPreorder(le)
    ensures IsSortOf(le, r, s)
  {
    if s == [] {
      r := [];
    } else {
      var k := |s| - 1;
      var t := SortExists(le, s[..k]);
      var p := InsertPlace(le, t, |t|, s[k]);
      r := t[..p] + [s[k]] + t[p..];
      InsertedSorted(le, t, p, s[k]);
      InsertedRows(t, p, s[k]);
      assert s == s[..k] + [s[k]];
    }
  }

  // ---------------------------------------------------------------- truncation

  function Truncate<T>(s: seq<T>, n: nat): seq<T> { if |s| <= n then s else s[..n] }

  function TruncateAll<T>(rs: seq<seq<T>>, n: nat): seq<seq<T>> {
    seq(|rs|, i requires 0 <= i < |rs| => Truncate(rs[i], n))
  }

  function Beyond<T>(s: seq<T>, n: nat): seq<T> { if |s| <= n then [] else s[n..] }

  /** The rows the shards do not send. */
  function Dropped<T>(rs: seq<seq<T>>, n: nat): seq<T> {
    if rs == [] then [] else Dropped(rs[..|rs| - 1], n) + Beyond(rs[|rs| - 1], n)
  }

  lemma TruncatedStep<T>(rs: seq<seq<T>>, n: nat)
    requires rs != []
    ensures Flatten(TruncateAll(rs, n)) == Flatten(TruncateAll(rs[..|rs| - 1], n)) + Truncate(rs[|rs| - 1], n)
  {
    assert TruncateAll(rs, n)[..|rs| - 1] == TruncateAll(rs[..|rs| - 1], n);
  }

  lemma BothParts<T>(sent: seq<T>, dropped: seq<T>, s: seq<T>, n: nat)
    ensures multiset(sent + Truncate(s, n)) + multiset(dropped + Beyond(s, n))
            == multiset(sent) + multiset(dropped) + multiset(s)
  {
    assert s == Truncate(s, n) + Beyond(s, n);
  }

  /** The rows sent and the rows dropped are all rows; none is dropped unless n are sent. */
  lemma {:induction false} Conserved<T>(rs: seq<seq<T>>, n: nat)
    ensures multiset(Flatten(TruncateAll(rs, n))) + multiset(Dropped(rs, n)) == multiset(Flatten(rs))
    ensures Dropped(rs, n) == [] || |Flatten(TruncateAll(rs, n))| >= n
  {
    if rs != [] {
      var k := |rs| - 1;
      Conserved(rs[..k], n);
      var sent := TruncateAll(rs[..k], n);
      TruncatedStep(rs, n);
      BothParts(Flatten(sent), Dropped(rs[..k], n), rs[k], n);
    }
  }

  /** Below a dropped row at least n rows are sent: those of its own shard. */
  lemma {:induction false} SentBelow<T(!new)>(le: (T, T) -> bool, rs: seq<seq<T>>, n: nat, x: T)
    requires forall i :: 0 <= i < |rs| ==> Sorted(le, rs[i])
    requires x in Dropped(rs, n)
    ensures CountLe(le, Flatten(TruncateAll(rs, n)), x) >= n
  {
    var k := |rs| - 1;
    var t := Truncate(rs[k], n);
    assert TruncateAll(rs, n)[..k] == TruncateAll(rs[..k], n);
    CountConcat(le, Flatten(TruncateAll(rs[..k], n)), t, x);
    if x in Dropped(rs[..k], n) {
      SentBelow(le, rs[..k], n, x);
    } else {
      assert x in Beyond(rs[k], n);
      var j :| n <= j < |rs[k]| && rs[k][j] == x;
      forall i | 0 <= i < |t| ensures le(t[i], x) { assert t[i] == rs[k][i]; }
      CountBounds(le, t, x);
    }
  }

  lemma GluedSorted<T(!new)>(le: (T, T) -> bool, front: seq<T>, back: seq<T>)
    requires TotalPreorder(le) && Sorted(le, front) && Sorted(le, back)
    requires front != [] ==> forall j :: 0 <= j < |back| ==> le(front[|front| - 1], back[j])
    ensures Sorted(le, front + back)
  {
    var m := |front|;
    forall i, j | 0 <= i < m && 0 <= j < |back| ensures le(front[i], back[j]) {
      assert Transits(le, front[i], front[m - 1], back[j]);
    }
    forall i, j | 0 <= i < j < |front + back| ensures le((front + back)[i], (front + back)[j]) {
    }
  }

  /** Appending rows that are not below the first `m`, and sorting them in behind those. */
  lemma SortBehind<T(!new)>(le: (T, T) -> bool, s: seq<T>, m: nat, more: seq<T>) returns (all: seq<T>)
    requires TotalPreorder(le) && Sorted(le, s) && m <= |s|
    requires m > 0 ==> forall x :: x in more ==> le(s[m - 1], x)
    ensures Sorted(le, all) && multiset(all) == multiset(s) + multiset(more) && m <= |all| && all[..m] == s[..m]
  {
    var front, back := s[..m], s[m..];
    var r := SortExists(le, back + more);
    assert s == front + back;
    forall j | 0 <= j < |r| && m > 0 ensures le(s[m - 1], r[j]) {
      assert r[j] in multiset(back + more);
      if r[j] in back {
        var i :| 0 <= i < |back| && back[i] == r[j];
        assert le(s[m - 1], s[m + i]);
      } else {
        assert r[j] in more;
      }
    }
    GluedSorted(le, front, r);
    all := front + r;
  }

  lemma MergedBelow<T(!new)>(le: (T, T) -> bool, rs: seq<seq<T>>, n: nat, merged: seq<T>, x: T)
    requires TotalPreorder(le) && forall i :: 0 <= i < |rs| ==> Sorted(le, rs[i])
    requires IsSortOf(le, merged, Flatten(TruncateAll(rs, n))) && x in Dropped(rs, n) && 0 < n <= |merged|
    ensures le(merged[n - 1], x)
  {
    SentBelow(le, rs, n, x);
    CountPerm(le, merged, Flatten(TruncateAll(rs, n)), x);
    SortedCount(le, merged, x, n - 1);
  }

  /** The first n rows of the merge are the first n rows of some sort of all rows. */
  lemma TopRows<T(!new)>(le: (T, T) -> bool, rs: seq<seq<T>>, n: nat, merged: seq<T>) returns (all: seq<T>)
    requires TotalPreorder(le) && forall i :: 0 <= i < |rs| ==> Sorted(le, rs[i])
    requires IsSortOf(le, merged, Flatten(TruncateAll(rs, n)))
    ensures IsSortOf(le, all, Flatten(rs))
    ensures Truncate(all, n) == Truncate(merged, n)
  {
    Conserved(rs, n);
    SameLength(merged, Flatten(TruncateAll(rs, n)));
    var more := Dropped(rs, n);
    if |merged| < n {
      all := merged;
    } else {
      forall x | x in more && n > 0 ensures le(merged[n - 1], x) { MergedBelow(le, rs, n, merged, x); }
      all := SortBehind(le, merged, n, more);
      assert n < |all| || all == all[..n];
    }
  }

  // ---------------------------------------------------------------- the limit clause

  /** LIMIT in a statement: none, or a count with an optional offset. */
  datatype Limit = NoLimit | Limit(offset: nat, count: nat)

  /** The outcome of NeedRewriteLimitOrCreateRewrite: rewrite?, the plan's offset and count (-1 without a
      limit), and the limit sent to the backends. */
  datatype LimitPlan = LimitPlan(rewrite: bool, offset: int, count: int, backend: Limit)

  function PlanLimit(limit: Limit): LimitPlan {
    match limit
    case NoLimit => LimitPlan(false, -1, -1, NoLimit)
    case Limit(offset, count) =>
      if offset == 0 then LimitPlan(false, 0, count, limit)
      else LimitPlan(true, offset, count, Limit(0, count + offset))
  }

  /** What a server answers under its limit clause. */
  function BackendRows<T>(s: seq<T>, limit: Limit): seq<T> {
    match limit
    case NoLimit => s
    case Limit(offset, count) => Window(s, offset, count)
  }

  function BackendAnswers<T>(rs: seq<seq<T>>, limit: Limit): seq<seq<T>> {
    seq(|rs|, i requires 0 <= i < |rs| => BackendRows(rs[i], limit))
  }

  lemma AnswersTruncated<T>(rs: seq<seq<T>>, n: nat)
    ensures BackendAnswers(rs, Limit(0, n)) == TruncateAll(rs, n)
  {
    forall i | 0 <= i < |rs| ensures Window(rs[i], 0, n) == Truncate(rs[i], n) {
    }
  }

  lemma AnswersAll<T>(rs: seq<seq<T>>)
    ensures BackendAnswers(rs, NoLimit) == rs
  {
  }

  /** Rows [offset, offset + count), as far as there are any. */
  function Window<T>(s: seq<T>, offset: nat, count: nat): seq<T> {
    if offset >= |s| then [] else s[offset..if offset + count < |s| then offset + count else |s|]
  }

  /** limitSelectResult. */
  function LimitSelectResult<T>(values: seq<T>, plan: LimitPlan): seq<T> {
    if plan.count == -1 then values
    else
      var end := if plan.offset + plan.count < |values| then plan.offset + plan.count else |values|;
      if plan.offset >= |values| || plan.offset < 0 || end < plan.offset then [] else values[plan.offset..end]
  }

  lemma LimitIsWindow<T>(values: seq<T>, limit: Limit)
    requires limit.Limit?
    ensures LimitSelectResult(values, PlanLimit(limit)) == Window(values, limit.offset, limit.count)
  {
  }

  lemma WindowsAgree<T>(a: seq<T>, b: seq<T>, offset: nat, count: nat)
    requires Truncate(a, offset + count) == Truncate(b, offset + count)
    ensures Window(a, offset, count) == Window(b, offset, count)
  {
    var n := offset + count;
    assert Window(a, offset, count) == Window(Truncate(a, n), offset, count);
    assert Window(b, offset, count) == Window(Truncate(b, n), offset, count);
  }

  // ---------------------------------------------------------------- pushdown

  /** `r` is an answer one server holding `store` may give. */
  ghost predicate IsAnswer<T(!new)>(le: (T, T) -> bool, store: seq<T>, limit: Limit, r: seq<T>) {
    exists all :: IsSortOf(le, all, store) && r == BackendRows(all, limit)
  }

  lemma OneAnswer<T(!new)>(le: (T, T) -> bool, store: seq<T>, limit: Limit, all: seq<T>)
    requires IsSortOf(le, all, store)
    ensures IsAnswer(le, store, limit, BackendRows(all, limit))
  {
  }

  /** Any two such answers differ among ties only. */
  lemma AnswersAgree<T(!new)>(le: (T, T) -> bool, store: seq<T>, limit: Limit, r: seq<T>, r': seq<T>)
    requires TotalPreorder(le) && IsAnswer(le, store, limit, r) && IsAnswer(le, store, limit, r')
    ensures SameKeys(le, r, r')
  {
    var a :| IsSortOf(le, a, store) && r == BackendRows(a, limit);
    var b :| IsSortOf(le, b, store) && r' == BackendRows(b, limit);
    SortsAgree(le, a, b);
  }

  lemma LimitedExact<T(!new)>(le: (T, T) -> bool, rs: seq<seq<T>>, offset: nat, count: nat, merged: seq<T>)
    requires TotalPreorder(le) && forall i :: 0 <= i < |rs| ==> Sorted(le, rs[i])
    requires IsSortOf(le, merged, Flatten(TruncateAll(rs, offset + count)))
    ensures IsAnswer(le, Flatten(rs), Limit(offset, count), Window(merged, offset, count))
  {
    var all := TopRows(le, rs, offset + count, merged);
    WindowsAgree(merged, all, offset, count);
    OneAnswer(le, Flatten(rs), Limit(offset, count), all);
  }

  lemma LimitedCase<T(!new)>(le: (T, T) -> bool, rs: seq<seq<T>>, limit: Limit, merged: seq<T>)
    requires TotalPreorder(le) && forall i :: 0 <= i < |rs| ==> Sorted(le, rs[i])
    requires limit.Limit? && IsSortOf(le, merged, Flatten(TruncateAll(rs, limit.offset + limit.count)))
    ensures IsAnswer(le, Flatten(rs), limit, Window(merged, limit.offset, limit.count))
  {
    assert limit == Limit(limit.offset, limit.count);
    LimitedExact(le, rs, limit.offset, limit.count, merged);
  }

  lemma UnlimitedExact<T(!new)>(le: (T, T) -> bool, rs: seq<seq<T>>, merged: seq<T>)
    requires IsSortOf(le, merged, Flatten(BackendAnswers(rs, NoLimit)))
    ensures IsAnswer(le, Flatten(rs), NoLimit, merged)
  {
    AnswersAll(rs);
    OneAnswer(le, Flatten(rs), NoLimit, merged);
  }

  /** The backends' cut is at the end of the window. */
  lemma BackendCut<T>(rs: seq<seq<T>>, limit: Limit)
    requires limit.Limit?
    ensures BackendAnswers(rs, PlanLimit(limit).backend) == TruncateAll(rs, limit.offset + limit.count)
  {
    AnswersTruncated(rs, limit.offset + limit.count);
  }

  /** LIMIT pushdown is exact. Each backend sorts its rows and cuts them at its rewritten limit; the proxy
      concatenates, sorts and cuts. For any number of shards, any rows, any one order and any outcome of the
      sorts among ties, the answer is one a single server may give. */
  lemma LimitPushdownExact<T(!new)>(le: (T, T) -> bool, rs: seq<seq<T>>, limit: Limit, merged: seq<T>)
    requires TotalPreorder(le) && forall i :: 0 <= i < |rs| ==> Sorted(le, rs[i])
    requires IsSortOf(le, merged, Flatten(BackendAnswers(rs, PlanLimit(limit).backend)))
    ensures IsAnswer(le, Flatten(rs), limit, LimitSelectResult(merged, PlanLimit(limit)))
  {
    if limit.NoLimit? {
      UnlimitedExact(le, rs, merged);
    } else {
      BackendCut(rs, limit);
      LimitIsWindow(merged, limit);
      LimitedCase(le, rs, limit, merged);
    }
  }

  /** The proxy tells apart, in the same direction, whatever the backends' order `le` does. */
  ghost predicate Refines(keys: seq<SortKey>, le: (Row, Row) -> bool) {
    forall a, b :: !le(b, a) ==> CmpRows(keys, a, b) < 0
  }

  /** Backends that order by `le`, the proxy by its own comparison: every answer is one server's. */
  ghost predicate PushdownExact(keys: seq<SortKey>, le: (Row, Row) -> bool) {
    forall rs, limit, merged ::
      (forall i :: 0 <= i < |rs| ==> Sorted(le, rs[i]))
      && IsSortOf(ByKeys(keys), merged, Flatten(BackendAnswers(rs, PlanLimit(limit).backend)))
      ==> IsAnswer(le, Flatten(rs), limit, LimitSelectResult(merged, PlanLimit(limit)))
  }

  lemma RefinedSort(keys: seq<SortKey>, le: (Row, Row) -> bool, r: seq<Row>)
    requires Refines(keys, le) && Sorted(ByKeys(keys), r)
    ensures Sorted(le, r)
  {
    forall i, j | 0 <= i < j < |r| ensures le(r[i], r[j]) {
      assert Le(keys, r[i], r[j]);
      RowOrder(keys, r[i], r[j], r[j]);
    }
  }

  lemma TwoShards(a: Row, b: Row)
    ensures Flatten([[a], [b]]) == [a, b] && BackendAnswers([[a], [b]], Limit(0, 1)) == [[a], [b]]
  {
    assert [[a], [b]][..1] == [[a]] && [[a]][..0] == [];
    assert Flatten([[a]]) == [a];
    AnswersTruncated([[a], [b]], 1);
    assert TruncateAll([[a], [b]], 1) == [[a], [b]];
  }

  lemma FirstOfTwo(le: (Row, Row) -> bool, a: Row, b: Row, all: seq<Row>)
    requires TotalPreorder(le) && !le(b, a) && IsSortOf(le, all, [a, b])
    ensures all == [a, b]
  {
    SameLength(all, [a, b]);
    assert all == [all[0], all[1]] && le(all[0], all[1]);
    assert all[0] in multiset(all) && all[1] in multiset(all) && a in multiset(all) && b in multiset(all);
    assert le(a, a);
  }

  /** Rows `a` below `b` for the backends only: one on each shard, LIMIT 1. */
  lemma Misordered(keys: seq<SortKey>, le: (Row, Row) -> bool, a: Row, b: Row)
    requires TotalPreorder(le) && !le(b, a) && CmpRows(keys, a, b) >= 0
    ensures IsSortOf(ByKeys(keys), [b, a], [a, b])
    ensures LimitSelectResult([b, a], PlanLimit(Limit(0, 1))) == [b]
    ensures !IsAnswer(le, [a, b], Limit(0, 1), [b])
  {
    RowOrder(keys, a, b, a);
    forall all | IsSortOf(le, all, [a, b]) ensures BackendRows(all, Limit(0, 1)) != [b] {
      FirstOfTwo(le, a, b, all);
      assert BackendRows(all, Limit(0, 1)) == [a];
    }
  }

  /** Against backends with an order of their own (a collation), pushdown is exact for every store and every outcome
      of the sorts exactly when the proxy's comparison refines that order. */
  lemma PushdownExactIff(keys: seq<SortKey>, le: (Row, Row) -> bool)
    requires TotalPreorder(le)
    ensures PushdownExact(keys, le) <==> Refines(keys, le)
  {
    if Refines(keys, le) {
      forall rs, limit, merged |
        (forall i :: 0 <= i < |rs| ==> Sorted(le, rs[i]))
        && IsSortOf(ByKeys(keys), merged, Flatten(BackendAnswers(rs, PlanLimit(limit).backend)))
        ensures IsAnswer(le, Flatten(rs), limit, LimitSelectResult(merged, PlanLimit(limit)))
      {
        RefinedSort(keys, le, merged);
        LimitPushdownExact(le, rs, limit, merged);
      }
    } else {
      var a, b :| !le(b, a) && CmpRows(keys, a, b) >= 0;
      TwoShards(a, b);
      Misordered(keys, le, a, b);
      assert PlanLimit(Limit(0, 1)).backend == Limit(0, 1);
      assert forall i :: 0 <= i < 2 ==> Sorted(le, [[a], [b]][i]);
    }
  }

  // ---------------------------------------------------------------- a case-insensitive collation

  function Upper(x: nat): nat { if 97 <= x <= 122 then x - 32 else x }

  function Folded(c: Cell): Cell {
    match c
    case Text(bytes) => Text(seq(|bytes|, i requires 0 <= i < |bytes| => Upper(bytes[i])))
    case _ => c
  }

  /** ORDER BY the first column under a case-insensitive collation. */
  function CaseInsensitive(): (Row, Row) -> bool {
    (a, b) => CmpCell(Folded(CellAt(a, 0)), Folded(CellAt(b, 0))) <= 0
  }

  lemma CaseInsensitiveTotal()
    ensures TotalPreorder(CaseInsensitive())
  {
    var le := CaseInsensitive();
    forall a, b ensures le(a, b) || le(b, a) {
      var x, y := Folded(CellAt(a, 0)), Folded(CellAt(b, 0));
      CmpCellOrder(x, y, x);
    }
    forall a, b, c ensures Transits(le, a, b, c) {
      CmpCellOrder(Folded(CellAt(a, 0)), Folded(CellAt(b, 0)), Folded(CellAt(c, 0)));
    }
  }

  const LOWER_B: Row := [Text([98])]
  const UPPER_C: Row := [Text([67])]

  lemma CollationOrder()
    ensures CaseInsensitive()(LOWER_B, UPPER_C) && !CaseInsensitive()(UPPER_C, LOWER_B)
    ensures CmpRows([SortKey(0, false)], LOWER_B, UPPER_C) == 1
    ensures CmpRows([SortKey(0, false)], UPPER_C, LOWER_B) == -1
  {
    assert Folded(Text([98])) == Text([66]) && Folded(Text([67])) == Text([67]);
  }

  /** Names 'b' and 'C' on two shards, ORDER BY name LIMIT 1: a server that ignores case answers 'b'; the proxy
      answers 'C', whatever its sort does, and no such server may. */
  lemma CollationExample(merged: seq<Row>)
    requires IsSortOf(ByKeys([SortKey(0, false)]), merged,
                      Flatten(BackendAnswers([[LOWER_B], [UPPER_C]], PlanLimit(Limit(0, 1)).backend)))
    ensures LimitSelectResult(merged, PlanLimit(Limit(0, 1))) == [UPPER_C]
    ensures IsAnswer(CaseInsensitive(), [LOWER_B, UPPER_C], Limit(0, 1), [LOWER_B])
    ensures !IsAnswer(CaseInsensitive(), [LOWER_B, UPPER_C], Limit(0, 1), [UPPER_C])
  {
    var keys, le := [SortKey(0, false)], CaseInsensitive();
    CollationOrder();
    CaseInsensitiveTotal();
    TwoShards(LOWER_B, UPPER_C);
    Misordered(keys, le, LOWER_B, UPPER_C);
    assert BackendRows([LOWER_B, UPPER_C], Limit(0, 1)) == [LOWER_B];
    OneAnswer(le, [LOWER_B, UPPER_C], Limit(0, 1), [LOWER_B, UPPER_C]);
    ByKeysTotal(keys);
    FirstOfTwo(ByKeys(keys), UPPER_C, LOWER_B, merged);
  }

  // ---------------------------------------------------------------- the merge

  /** mergeMultiResultSet: the rows of every shard, appended to the first. */
  method MergeMultiResultSet(rs: seq<seq<Row>>) returns (values: seq<Row>)
    ensures values == Flatten(rs)
  {
    values := [];
    for i := 0 to |rs|
      invariant values == Flatten(rs[..i])
    {
      assert rs[..i + 1][..i] == rs[..i];
      values := values + rs[i];
    }
    assert rs[..|rs|] == rs;
  }

  /** SortWithoutColumnName, as an insertion sort. */
  method SortRows(keys: seq<SortKey>, values: seq<Row>) returns (r: seq<Row>)
    ensures IsSortOf(ByKeys(keys), r, values)
  {
    r := [];
    for i := 0 to |values|
      invariant IsSortOf(ByKeys(keys), r, values[..i])
    {
      assert values[..i + 1] == values[..i] + [values[i]];
      r := InsertRow(keys, r, values[i]);
    }
    assert values[..|values|] == values;
  }

  method InsertRow(keys: seq<SortKey>, s: seq<Row>, x: Row) returns (r: seq<Row>)
    requires Sorted(ByKeys(keys), s)
    ensures Sorted(ByKeys(keys), r) && multiset(r) == multiset(s) + multiset{x}
  {
    var k := |s|;
    while k > 0 && !Le(keys, s[k - 1], x)
      invariant 0 <= k <= |s|
      invariant forall i :: k <= i < |s| ==> Le(keys, x, s[i])
    {
      k := k - 1;
      RowOrder(keys, x, s[k], x);
    }
    r := s[..k] + [x] + s[k..];
    ByKeysTotal(keys);
    InsertedSorted(ByKeys(keys), s, k, x);
    InsertedRows(s, k, x);
  }

  /** MergeSelectResult for a statement without grouping, aggregates or DISTINCT: concatenate, sort, cut. On what
      backends with the order `le` answered for their sorted rows `rs`, an answer of one server. */
  method MergeSelectResult(answers: seq<seq<Row>>, keys: seq<SortKey>, limit: Limit,
                           ghost le: (Row, Row) -> bool, ghost rs: seq<seq<Row>>)
    returns (r: seq<Row>)
    ensures exists merged :: IsSortOf(ByKeys(keys), merged, Flatten(answers))
                             && r == LimitSelectResult(merged, PlanLimit(limit))
    ensures TotalPreorder(le) && Refines(keys, le) && answers == BackendAnswers(rs, PlanLimit(limit).backend)
            && (forall i :: 0 <= i < |rs| ==> Sorted(le, rs[i])) ==>
              IsAnswer(le, Flatten(rs), limit, r)
  {
    var values := MergeMultiResultSet(answers);
    var merged := SortRows(keys, values);
    r := LimitSelectResult(merged, PlanLimit(limit));
    if TotalPreorder(le) && Refines(keys, le) { PushdownExactIff(keys, le); }
  }
}
