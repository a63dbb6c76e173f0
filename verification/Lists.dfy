/** The sorted index lists of the planner (`proxy/plan/util.go`). */
module Lists {

  /** Strictly increasing: the shape every route keeps. */
  ghost predicate Increasing(s: seq<int>) {
    forall i, j :: 0 <= i < j < |s| ==> s[i] < s[j]
  }

  ghost predicate Distinct<T>(s: seq<T>) { forall i, j :: 0 <= i < j < |s| ==> s[i] != s[j] }

  /** The value of `interList`: one merge step per pair of heads. */
  function Inter(a: seq<int>, b: seq<int>): seq<int>
    decreases |a| + |b|
  {
    if a == [] || b == [] then []
    else if a[0] == b[0] then [a[0]] + Inter(a[1..], b[1..])
    else if a[0] < b[0] then Inter(a[1..], b)
    else Inter(a, b[1..])
  }

  /** The value of `unionList`. */
  function Union(a: seq<int>, b: seq<int>): seq<int>
    decreases |a| + |b|
  {
    if a == [] then b
    else if b == [] then a
    else if a[0] < b[0] then [a[0]] + Union(a[1..], b)
    else if a[0] > b[0] then [b[0]] + Union(a, b[1..])
    else [a[0]] + Union(a[1..], b[1..])
  }

  /** The value of `makeList`: the integers of `[start, end)`. */
  function MakeList(start: int, end: int): (r: seq<int>)
    ensures Increasing(r)
    ensures forall x :: x in r <==> start <= x < end
    decreases end - start
  {
    if start >= end then [] else
      var rest := MakeList(start + 1, end);
      assert forall j :: 0 <= j < |rest| ==> rest[j] in rest;
      [start] + rest
  }

  lemma {:induction false} InterIsIntersection(a: seq<int>, b: seq<int>)
    requires Increasing(a) && Increasing(b)
    ensures Increasing(Inter(a, b))
    ensures forall x :: x in Inter(a, b) <==> x in a && x in b
    decreases |a| + |b|
  {
    if a != [] && b != [] {
      assert a == [a[0]] + a[1..] && b == [b[0]] + b[1..];
      if a[0] == b[0] {
        InterIsIntersection(a[1..], b[1..]);
        HeadStays(a[0], Inter(a[1..], b[1..]));
      } else if a[0] < b[0] {
        InterIsIntersection(a[1..], b);
        assert a[0] !in b;
      } else {
        InterIsIntersection(a, b[1..]);
        assert b[0] !in a;
      }
    }
  }

  lemma {:induction false} UnionIsUnion(a: seq<int>, b: seq<int>)
    requires Increasing(a) && Increasing(b)
    ensures Increasing(Union(a, b))
    ensures forall x :: x in Union(a, b) <==> x in a || x in b
    decreases |a| + |b|
  {
    if a != [] && b != [] {
      assert a == [a[0]] + a[1..] && b == [b[0]] + b[1..];
      if a[0] < b[0] {
        UnionIsUnion(a[1..], b);
        HeadStays(a[0], Union(a[1..], b));
      } else if a[0] > b[0] {
        UnionIsUnion(a, b[1..]);
        HeadStays(b[0], Union(a, b[1..]));
      } else {
        UnionIsUnion(a[1..], b[1..]);
        HeadStays(a[0], Union(a[1..], b[1..]));
      }
    }
  }

  lemma HeadStays(x: int, s: seq<int>)
    requires Increasing(s) && forall y :: y in s ==> x < y
    ensures Increasing([x] + s)
  {
    forall i, j | 0 <= i < j < |s| + 1 ensures ([x] + s)[i] < ([x] + s)[j] {
      assert s[j - 1] in s;
    }
  }

  /** A strictly increasing list is determined by its members. */
  lemma {:induction false} IncreasingUnique(a: seq<int>, b: seq<int>)
    requires Increasing(a) && Increasing(b)
    requires forall x :: x in a <==> x in b
    ensures a == b
  {
    if b != [] {
      assert b[0] in b;
    }
    if a != [] {
      assert a[0] in a;
      assert a[0] == b[0];
      assert a == [a[0]] + a[1..] && b == [b[0]] + b[1..];
      forall x ensures x in a[1..] <==> x in b[1..] {
        assert x in a <==> x == a[0] || x in a[1..];
        assert x in b <==> x == b[0] || x in b[1..];
        assert a[0] !in a[1..] && b[0] !in b[1..];
      }
      IncreasingUnique(a[1..], b[1..]);
    }
  }

  /** `interList`, the merge loop over two sorted lists. */
  method InterList(l1: seq<int>, l2: seq<int>) returns (l3: seq<int>)
    ensures l3 == Inter(l1, l2)
  {
    if |l1| == 0 || |l2| == 0 {
      return [];
    }
    l3 := [];
    var i, j := 0, 0;
    while i < |l1| && j < |l2|
      invariant 0 <= i <= |l1| && 0 <= j <= |l2|
      invariant l3 + Inter(l1[i..], l2[j..]) == Inter(l1, l2)
      decreases |l1| - i + |l2| - j
    {
      assert l1[i..][1..] == l1[i + 1..] && l2[j..][1..] == l2[j + 1..];
      if l1[i] == l2[j] {
        l3 := l3 + [l1[i]];
        i, j := i + 1, j + 1;
      } else if l1[i] < l2[j] {
        i := i + 1;
      } else {
        j := j + 1;
      }
    }
  }

  lemma Regroup<T>(s: seq<T>, x: T, t: seq<T>)
    ensures s + ([x] + t) == (s + [x]) + t
  {
  }

  /** One round of `unionList`, on the unread suffixes. */
  lemma UnionStep(l1: seq<int>, i: nat, l2: seq<int>, j: nat)
    requires i < |l1| && j < |l2|
    ensures Union(l1[i..], l2[j..]) ==
            if l1[i] < l2[j] then [l1[i]] + Union(l1[i + 1..], l2[j..])
            else if l1[i] > l2[j] then [l2[j]] + Union(l1[i..], l2[j + 1..])
            else [l1[i]] + Union(l1[i + 1..], l2[j + 1..])
  {
    assert l1[i..][1..] == l1[i + 1..] && l2[j..][1..] == l2[j + 1..];
  }

  /** `unionList`, the merge loop over two sorted lists with the tail appended at the end. */
  method UnionList(l1: seq<int>, l2: seq<int>) returns (l3: seq<int>)
    ensures l3 == Union(l1, l2)
  {
    if |l1| == 0 {
      return l2;
    } else if |l2| == 0 {
      return l1;
    }
    l3 := [];
    var i, j := 0, 0;
    while i < |l1| && j < |l2|
      invariant 0 <= i <= |l1| && 0 <= j <= |l2|
      invariant l3 + Union(l1[i..], l2[j..]) == Union(l1, l2)
      decreases |l1| - i + |l2| - j
    {
      UnionStep(l1, i, l2, j);
      if l1[i] < l2[j] {
        Regroup(l3, l1[i], Union(l1[i + 1..], l2[j..]));
        l3 := l3 + [l1[i]];
        i := i + 1;
      } else if l1[i] > l2[j] {
        Regroup(l3, l2[j], Union(l1[i..], l2[j + 1..]));
        l3 := l3 + [l2[j]];
        j := j + 1;
      } else {
        Regroup(l3, l1[i], Union(l1[i + 1..], l2[j + 1..]));
        l3 := l3 + [l1[i]];
        i, j := i + 1, j + 1;
      }
    }
    if i != |l1| {
      l3 := l3 + l1[i..];
    } else if j != |l2| {
      l3 := l3 + l2[j..];
    }
  }

  /** Insertion of a value that is not there yet into an increasing list (`sort.Ints`). */
  method InsertSorted(s: seq<int>, x: int) returns (r: seq<int>)
    requires Increasing(s) && x !in s
    ensures Increasing(r)
    ensures forall y :: y in r <==> y == x || y in s
  {
    var k := 0;
    while k < |s| && s[k] < x
      invariant 0 <= k <= |s|
      invariant forall i :: 0 <= i < k ==> s[i] < x
    {
      k := k + 1;
    }
    InsertedAt(s, x, k);
    r := s[..k] + [x] + s[k..];
  }

  lemma InsertedAt(s: seq<int>, x: int, k: nat)
    requires Increasing(s) && x !in s && k <= |s| && (k < |s| ==> s[k] >= x)
    requires forall i :: 0 <= i < k ==> s[i] < x
    ensures Increasing(s[..k] + [x] + s[k..])
    ensures forall y :: y in s[..k] + [x] + s[k..] <==> y == x || y in s
  {
    assert k < |s| ==> s[k] in s;
    assert forall i :: k <= i < |s| ==> s[i] > x;
    assert s == s[..k] + s[k..];
  }

  function Sum(s: seq<int>): int {
    if s == [] then 0 else Sum(s[..|s| - 1]) + s[|s| - 1]
  }

  function Repeat<T>(x: T, n: nat): (s: seq<T>)
    ensures |s| == n && forall i :: 0 <= i < n ==> s[i] == x
  {
    seq(n, _ => x)
  }

  lemma {:induction false} RepeatCount<T>(x: T, n: nat, y: T)
    ensures multiset(Repeat(x, n))[y] == if y == x then n else 0
    decreases n
  {
    if n == 0 {
      assert Repeat(x, n) == [];
    } else {
      RepeatCount(x, n - 1, y);
      assert Repeat(x, n) == Repeat(x, n - 1) + [x];
    }
  }

  /** The parts one after the other. */
  function Flatten<T>(parts: seq<seq<T>>): seq<T> {
    if parts == [] then [] else Flatten(parts[..|parts| - 1]) + parts[|parts| - 1]
  }

  lemma FlattenStep<T>(parts: seq<seq<T>>, i: nat)
    requires i < |parts|
    ensures Flatten(parts[..i + 1]) == Flatten(parts[..i]) + parts[i]
  {
    assert parts[..i + 1][..i] == parts[..i];
  }

  lemma {:induction false} FlattenConcat<T>(a: seq<seq<T>>, b: seq<seq<T>>)
    ensures Flatten(a + b) == Flatten(a) + Flatten(b)
  {
    if b == [] {
      assert a + b == a;
    } else {
      var n := |b| - 1;
      assert (a + b)[..|a + b| - 1] == a + b[..n];
      FlattenConcat(a, b[..n]);
      assert Flatten(a) + Flatten(b[..n]) + b[n] == Flatten(a) + (Flatten(b[..n]) + b[n]);
    }
  }

  /** The parts around one of them. */
  lemma FlattenSplit<T>(parts: seq<seq<T>>, i: nat)
    requires i < |parts|
    ensures Flatten(parts) == Flatten(parts[..i]) + parts[i] + Flatten(parts[i + 1..])
  {
    FlattenStep(parts, i);
    assert parts == parts[..i + 1] + parts[i + 1..];
    FlattenConcat(parts[..i + 1], parts[i + 1..]);
  }

  /** Where the head of one sequence sits in a permutation of it. */
  lemma SplitAtHead<T>(a: seq<T>, c: seq<T>) returns (l: seq<T>, r: seq<T>)
    requires a != [] && multiset(a) == multiset(c)
    ensures c == l + ([a[0]] + r) && multiset(a[1..]) == multiset(l + r)
  {
    var x := a[0];
    assert x in multiset(a);
    var k :| 0 <= k < |c| && c[k] == x;
    l, r := c[..k], c[k + 1..];
    assert a == [x] + a[1..] && c == l + ([x] + r);
    CancelHead(multiset{x}, multiset(a[1..]), multiset(l) + multiset(r));
  }

  lemma CancelHead<T>(x: multiset<T>, a: multiset<T>, b: multiset<T>)
    requires x + a == x + b
    ensures a == b
  {
    assert a == x + a - x;
  }

  /** The results for each element, one after the other. */
  function FlatMap<S, T>(f: S -> seq<T>, xs: seq<S>): seq<T> {
    if xs == [] then [] else f(xs[0]) + FlatMap(f, xs[1..])
  }

  lemma {:induction false} FlatMapConcat<S, T>(f: S -> seq<T>, a: seq<S>, c: seq<S>)
    ensures FlatMap(f, a + c) == FlatMap(f, a) + FlatMap(f, c)
  {
    if a == [] {
      assert a + c == c;
    } else {
      assert (a + c)[1..] == a[1..] + c;
      FlatMapConcat(f, a[1..], c);
    }
  }

  lemma FlatMapExtract<S, T>(f: S -> seq<T>, l: seq<S>, x: S, r: seq<S>)
    ensures multiset(FlatMap(f, l + ([x] + r))) == multiset(f(x)) + multiset(FlatMap(f, l + r))
  {
    FlatMapConcat(f, l, r);
    FlatMapConcat(f, l, [x] + r);
    assert ([x] + r)[1..] == r;
    assert FlatMap(f, [x] + r) == f(x) + FlatMap(f, r);
  }

  /** As a multiset, they do not depend on the order of the elements. */
  lemma {:induction false} FlatMapPerm<S, T>(f: S -> seq<T>, a: seq<S>, c: seq<S>)
    requires multiset(a) == multiset(c)
    ensures multiset(FlatMap(f, a)) == multiset(FlatMap(f, c))
  {
    if a == [] {
      assert |multiset(c)| == 0;
    } else {
      var l, r := SplitAtHead(a, c);
      FlatMapPerm(f, a[1..], l + r);
      FlatMapExtract(f, l, a[0], r);
    }
  }
}
