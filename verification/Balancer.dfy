/** Weighted round robin over slaves (`backend/balancer.go`). */
module Balancer {
  import opened Options
  import opened Arithmetic
  import opened Lists

  predicate Positive(weights: seq<nat>) { forall i :: 0 <= i < |weights| ==> weights[i] > 0 }

  predicate Divides(d: nat, weights: seq<nat>)
    requires d > 0
  {
    forall i :: 0 <= i < |weights| ==> weights[i] % d == 0
  }

  ghost predicate IsGcd(d: nat, weights: seq<nat>) {
    d > 0 && Divides(d, weights) && forall e :: e > d ==> !Divides(e, weights)
  }

  lemma TooBig(d: nat, weights: seq<nat>, i: nat)
    requires i < |weights| && Positive(weights) && d > weights[i]
    ensures !Divides(d, weights)
  {
    assert weights[i] % d == weights[i];
  }

  /** gcd: the smallest weight counted down to a common divisor. */
  method Gcd(weights: seq<nat>) returns (min: nat)
    requires weights != [] && Positive(weights)
    ensures IsGcd(min, weights)
  {
    min := weights[0];
    ghost var at := 0;
    for i := 0 to |weights|
      invariant at < |weights| && min == weights[at]
      invariant forall k :: 0 <= k < i ==> min <= weights[k]
    {
      if weights[i] < min { min, at := weights[i], i; }
    }
    forall e | e > min ensures !Divides(e, weights) { TooBig(e, weights, at); }
    while true
      invariant min > 0 && forall e :: e > min ==> !Divides(e, weights)
      decreases min
    {
      var isCommon, i := true, 0;
      while i < |weights|
        invariant 0 <= i <= |weights|
        invariant isCommon ==> forall k :: 0 <= k < i ==> weights[k] % min == 0
        invariant !isCommon ==> !Divides(min, weights)
      {
        if weights[i] % min != 0 {
          isCommon := false;
          break;
        }
        i := i + 1;
      }
      if isCommon { break; }
      min := min - 1;
      if min < 1 { break; }
    }
  }

  // ---------------------------------------------------------------- the queue

  /** Slave `i` repeated `weights[i] / g` times. */
  function Expanded(weights: seq<nat>, g: nat): seq<nat>
    requires g > 0
  {
    if weights == [] then []
    else
      var n := |weights| - 1;
      Expanded(weights[..n], g) + Repeat(n, weights[n] / g)
  }

  lemma {:induction false} ExpandedCount(weights: seq<nat>, g: nat, i: nat)
    requires g > 0
    ensures multiset(Expanded(weights, g))[i] == if i < |weights| then weights[i] / g else 0
  {
    if weights != [] {
      var n := |weights| - 1;
      ExpandedCount(weights[..n], g, i);
      RepeatCount(n, weights[n] / g, i);
    }
  }

  lemma ExpandedMembers(weights: seq<nat>, g: nat, queue: seq<nat>)
    requires g > 0 && multiset(queue) == multiset(Expanded(weights, g))
    ensures forall k :: 0 <= k < |queue| ==> queue[k] < |weights|
  {
    forall k | 0 <= k < |queue| ensures queue[k] < |weights| {
      assert queue[k] in multiset(queue);
      ExpandedCount(weights, g, queue[k]);
    }
  }

  /** The selections of `n` calls in a row, starting at position `start` of the queue. */
  function Turns(queue: seq<nat>, start: nat, n: nat): (r: seq<nat>)
    requires queue != []
    ensures |r| == n
  {
    seq(n, k requires 0 <= k < n => queue[(start + k) % |queue|])
  }

  lemma TurnAt(queue: seq<nat>, start: nat, k: nat)
    requires start < |queue| && k < |queue|
    ensures Turns(queue, start, |queue|)[k] == (queue[start..] + queue[..start])[k]
  {
    var n := |queue|;
    if start + k < n { Remainder(start + k, n, 0, start + k); } else { Remainder(start + k, n, 1, start + k - n); }
  }

  /** Any whole turn selects every entry of the queue once, wherever it starts. */
  lemma WholeTurn(queue: seq<nat>, start: nat)
    requires start < |queue|
    ensures multiset(Turns(queue, start, |queue|)) == multiset(queue)
  {
    forall k | 0 <= k < |queue| { TurnAt(queue, start, k); }
    assert Turns(queue, start, |queue|) == queue[start..] + queue[..start];
    assert queue == queue[..start] + queue[start..];
  }

  // ---------------------------------------------------------------- calls in any order

  datatype Call = Ordinary | Statistic

  /** The two cursors: `LastSlaveIndex` and `LastStatisticSlaveIndex`. */
  datatype Cursors = Cursors(last: nat, statistic: nat)

  /** A successful call on queues of `n` and `m` entries. A statistic call writes both cursors. */
  function After(n: nat, m: nat, c: Cursors, call: Call): Cursors {
    match call
    case Ordinary => if n <= 1 then c else c.(last := (c.last % n + 1) % n)
    case Statistic => if m <= 1 then c else Cursors(c.statistic % m, (c.statistic + 1) % m)
  }

  function AfterAll(n: nat, m: nat, c: Cursors, calls: seq<Call>): Cursors
    decreases |calls|
  {
    if calls == [] then c else AfterAll(n, m, After(n, m, c, calls[0]), calls[1..])
  }

  /** What the ordinary calls select. */
  function Picks(queue: seq<nat>, m: nat, c: Cursors, calls: seq<Call>): seq<nat>
    requires queue != []
    decreases |calls|
  {
    if calls == [] then []
    else
      var rest := Picks(queue, m, After(|queue|, m, c, calls[0]), calls[1..]);
      if calls[0].Ordinary? then [queue[c.last % |queue|]] + rest else rest
  }

  function Ordinaries(calls: seq<Call>): nat {
    if calls == [] then 0 else (if calls[0].Ordinary? then 1 else 0) + Ordinaries(calls[1..])
  }

  class Slice {
    const weights: seq<nat>
    const statisticWeights: seq<nat>
    /** The numbers of connection pools. */
    const slaves: nat
    const statisticSlaves: nat
    var queue: seq<nat>
    var statisticQueue: seq<nat>
    var lastIndex: nat
    var lastStatisticIndex: nat

    constructor (weights: seq<nat>, statisticWeights: seq<nat>, slaves: nat, statisticSlaves: nat)
      ensures this.weights == weights && this.statisticWeights == statisticWeights
      ensures this.slaves == slaves && this.statisticSlaves == statisticSlaves
      ensures queue == [] && statisticQueue == [] && At() == Cursors(0, 0)
    {
      this.weights, this.statisticWeights := weights, statisticWeights;
      this.slaves, this.statisticSlaves := slaves, statisticSlaves;
      queue, statisticQueue, lastIndex, lastStatisticIndex := [], [], 0, 0;
    }

    ghost function At(): Cursors
      reads this
    {
      Cursors(lastIndex, lastStatisticIndex)
    }

    /** initBalancer. */
    method InitBalancer(random: nat -> nat)
      requires weights != [] && Positive(weights)
      modifies `queue, `lastIndex
      ensures Balanced(weights, queue) && lastIndex == 0
      ensures queue != [] && forall k :: 0 <= k < |queue| ==> queue[k] < |weights|
    {
      lastIndex := 0;
      queue := BuildQueue(weights, random);
      BalancedMembers(weights, queue);
    }

    /** initStatisticSlaveBalancer. */
    method InitStatisticSlaveBalancer(random: nat -> nat)
      requires statisticWeights != [] && Positive(statisticWeights)
      modifies `statisticQueue, `lastStatisticIndex
      ensures Balanced(statisticWeights, statisticQueue) && lastStatisticIndex == 0
      ensures statisticQueue != [] && forall k :: 0 <= k < |statisticQueue| ==> statisticQueue[k] < |statisticWeights|
    {
      lastStatisticIndex := 0;
      statisticQueue := BuildQueue(statisticWeights, random);
      BalancedMembers(statisticWeights, statisticQueue);
    }

    /** getNextSlave. */
    method GetNextSlave() returns (r: Option<nat>)
      requires |queue| == 1 ==> queue[0] < slaves
      modifies `lastIndex
      ensures queue == [] ==> r.None?
      ensures queue != [] ==>
                var at := old(lastIndex) % |queue|;
                if queue[at] < slaves then
                  r == Some(queue[at]) && At() == After(|queue|, |statisticQueue|, old(At()), Ordinary)
                else r.None? && lastIndex == at
    {
      if |queue| == 0 { return None; }
      if |queue| == 1 { return Some(queue[0]); }
      lastIndex := lastIndex % |queue|;
      var index := queue[lastIndex];
      if slaves <= index { return None; }
      lastIndex := lastIndex + 1;
      lastIndex := lastIndex % |queue|;
      return Some(index);
    }

    /** getNextStatisticSlave, which parks the other cursor on the way. */
    method GetNextStatisticSlave() returns (r: Option<nat>)
      requires |statisticQueue| == 1 ==> statisticQueue[0] < statisticSlaves
      requires |statisticQueue| > 1 ==> lastStatisticIndex < |statisticQueue|
      modifies `lastIndex, `lastStatisticIndex
      ensures statisticQueue == [] ==> r.None? && At() == old(At())
      ensures |statisticQueue| == 1 ==> r == Some(statisticQueue[0]) && At() == old(At())
      ensures |statisticQueue| > 1 ==>
                var index := statisticQueue[old(lastStatisticIndex)];
                if index < statisticSlaves then
                  r == Some(index) && At() == After(|queue|, |statisticQueue|, old(At()), Statistic)
                else r.None? && At() == Cursors(old(lastStatisticIndex), old(lastStatisticIndex))
    {
      if |statisticQueue| == 0 { return None; }
      if |statisticQueue| == 1 { return Some(statisticQueue[0]); }
      Remainder(lastStatisticIndex, |statisticQueue|, 0, lastStatisticIndex);
      lastIndex := lastStatisticIndex % |statisticQueue|;
      var index := statisticQueue[lastStatisticIndex];
      if statisticSlaves <= index { return None; }
      lastStatisticIndex := lastStatisticIndex + 1;
      lastStatisticIndex := lastStatisticIndex % |statisticQueue|;
      return Some(index);
    }

    /** Calls of both kinds in any order. */
    method Serve(calls: seq<Call>) returns (picks: seq<nat>)
      requires queue != [] && forall k :: 0 <= k < |queue| ==> queue[k] < slaves
      requires statisticQueue != [] ==> lastStatisticIndex < |statisticQueue|
      requires forall k :: 0 <= k < |statisticQueue| ==> statisticQueue[k] < statisticSlaves
      modifies `lastIndex, `lastStatisticIndex
      ensures picks == Picks(queue, |statisticQueue|, old(At()), calls)
      ensures At() == AfterAll(|queue|, |statisticQueue|, old(At()), calls)
    {
      picks := [];
      ghost var first := At();
      assert calls[0..] == calls;
      for i := 0 to |calls|
        invariant statisticQueue != [] ==> lastStatisticIndex < |statisticQueue|
        invariant AfterAll(|queue|, |statisticQueue|, first, calls) ==
                  AfterAll(|queue|, |statisticQueue|, At(), calls[i..])
        invariant Picks(queue, |statisticQueue|, first, calls) ==
                  picks + Picks(queue, |statisticQueue|, At(), calls[i..])
      {
        assert calls[i..][1..] == calls[i + 1..];
        if calls[i].Ordinary? {
          var next := GetNextSlave();
          picks := picks + [next.value];
        } else {
          var next := GetNextStatisticSlave();
        }
      }
    }

    /** A queue as InitBalancer leaves it, and calls in which no statistic one moves the cursor: with as many
        ordinary calls as the queue is long, slave i is picked exactly weight / gcd times. */
    method ServeTurn(calls: seq<Call>) returns (picks: seq<nat>)
      requires weights != [] && Positive(weights) && Balanced(weights, queue) && |weights| <= slaves
      requires statisticQueue != [] ==> lastStatisticIndex < |statisticQueue|
      requires forall k :: 0 <= k < |statisticQueue| ==> statisticQueue[k] < statisticSlaves
      requires queue != [] && Steady(|queue|, |statisticQueue|, At(), calls) && Ordinaries(calls) == |queue|
      modifies `lastIndex, `lastStatisticIndex
      ensures multiset(picks) == multiset(queue)
      ensures forall g, i :: IsGcd(g, weights) && 0 <= i < |weights| ==> multiset(picks)[i] == weights[i] / g
    {
      BalancedMembers(weights, queue);
      ghost var c := At();
      picks := Serve(calls);
      Undisturbed(queue, |statisticQueue|, c, calls);
      WholeTurn(queue, c.last % |queue|);
      forall g, i | IsGcd(g, weights) && 0 <= i < |weights| ensures multiset(queue)[i] == weights[i] / g {
        QueueShare(weights, queue, g, i);
      }
    }
  }

  /** The queue holds every slave as often as its reduced weight says. */
  ghost predicate Balanced(weights: seq<nat>, queue: seq<nat>) {
    exists g :: IsGcd(g, weights) && multiset(queue) == multiset(Expanded(weights, g))
  }

  lemma BalancedMembers(weights: seq<nat>, queue: seq<nat>)
    requires weights != [] && Positive(weights) && Balanced(weights, queue)
    ensures queue != [] && forall k :: 0 <= k < |queue| ==> queue[k] < |weights|
    ensures forall i :: 0 <= i < |weights| ==> i in queue
  {
    var g :| IsGcd(g, weights) && multiset(queue) == multiset(Expanded(weights, g));
    ExpandedMembers(weights, g, queue);
    forall i | 0 <= i < |weights| ensures i in queue {
      ExpandedCount(weights, g, i);
      SharePositive(weights[i], g);
      assert i in multiset(queue);
    }
    assert 0 in queue;
  }

  lemma SharePositive(w: nat, g: nat)
    requires w > 0 && g > 0 && w % g == 0
    ensures w / g > 0
  {
  }

  /** The queue in slave order. */
  method FillQueue(weights: seq<nat>, g: nat) returns (queue: seq<nat>)
    requires g > 0
    ensures queue == Expanded(weights, g)
  {
    queue := [];
    for index := 0 to |weights|
      invariant queue == Expanded(weights[..index], g)
    {
      assert weights[..index + 1][..index] == weights[..index];
      for j := 0 to weights[index] / g
        invariant queue == Expanded(weights[..index], g) + Repeat(index, j)
      {
        queue := queue + [index];
        assert Repeat(index, j + 1) == Repeat(index, j) + [index];
      }
    }
    assert weights[..|weights|] == weights;
  }

  /** The random order: as many swaps as the queue is long; `random(i)` decides the generator's i-th Intn. */
  method Shuffle(order: seq<nat>, random: nat -> nat) returns (queue: seq<nat>)
    ensures multiset(queue) == multiset(order)
  {
    queue := order;
    var sum := |order|;
    for i := 0 to sum
      invariant |queue| == sum && multiset(queue) == multiset(order)
    {
      var x := random(i) % sum;
      var other := sum % (x + 1);
      SwapKeeps(queue, x, other);
      queue := queue[x := queue[other]][other := queue[x]];
    }
  }

  /** What both init functions build. */
  method BuildQueue(weights: seq<nat>, random: nat -> nat) returns (queue: seq<nat>)
    requires weights != [] && Positive(weights)
    ensures Balanced(weights, queue)
  {
    var g := Gcd(weights);
    queue := FillQueue(weights, g);
    if 1 < |weights| { queue := Shuffle(queue, random); }
  }

  lemma SwapKeeps(queue: seq<nat>, x: nat, y: nat)
    requires x < |queue| && y < |queue|
    ensures multiset(queue[x := queue[y]][y := queue[x]]) == multiset(queue)
  {
  }

  lemma NextPlace(x: nat, n: nat)
    requires n > 0
    ensures (x % n + 1) % n % n == (x + 1) % n && (n == 1 ==> x % n == 0)
  {
    var q, r := x / n, x % n;
    if r + 1 < n {
      Remainder(x + 1, n, q, r + 1);
      Remainder(r + 1, n, 0, r + 1);
    } else {
      Remainder(n, n, 1, 0);
      NextTurn(x, n, q, r);
      Remainder(0, n, 0, 0);
    }
  }

  lemma NextTurn(x: nat, n: nat, q: nat, r: nat)
    requires n > 0 && x == n * q + r && r + 1 == n
    ensures (x + 1) % n == 0
  {
    assert n * (q + 1) == n * q + n;
    Remainder(x + 1, n, q + 1, 0);
  }

  // ---------------------------------------------------------------- shares

  /** No statistic call moves the cursor of the ordinary ones. */
  predicate Steady(n: nat, m: nat, c: Cursors, calls: seq<Call>)
    requires n > 0
    decreases |calls|
  {
    calls != [] ==>
      && (calls[0].Statistic? ==> After(n, m, c, calls[0]).last % n == c.last % n)
      && Steady(n, m, After(n, m, c, calls[0]), calls[1..])
  }

  /** While no statistic call moves the cursor, the ordinary calls walk the queue. */
  lemma {:induction false} Undisturbed(queue: seq<nat>, m: nat, c: Cursors, calls: seq<Call>)
    requires queue != [] && Steady(|queue|, m, c, calls)
    ensures Picks(queue, m, c, calls) == Turns(queue, c.last % |queue|, Ordinaries(calls))
    decreases |calls|
  {
    if calls != [] {
      var n := |queue|;
      Undisturbed(queue, m, After(n, m, c, calls[0]), calls[1..]);
      if calls[0].Ordinary? { TurnsStep(queue, c.last, Ordinaries(calls[1..])); }
    }
  }

  lemma {:induction false} AtMostOne(n: nat, m: nat, c: Cursors, calls: seq<Call>)
    requires n > 0 && m <= 1
    ensures Steady(n, m, c, calls)
    decreases |calls|
  {
    if calls != [] { AtMostOne(n, m, After(n, m, c, calls[0]), calls[1..]); }
  }

  /** Any such window with as many ordinary calls as the queue is long selects slave `i` exactly `weights[i] / gcd`
      times. */
  lemma SteadyShare(weights: seq<nat>, g: nat, queue: seq<nat>, m: nat, c: Cursors, calls: seq<Call>, i: nat)
    requires Balanced(weights, queue) && IsGcd(g, weights) && i < |weights|
    requires queue != [] && Steady(|queue|, m, c, calls) && Ordinaries(calls) == |queue|
    ensures multiset(Picks(queue, m, c, calls)) == multiset(queue)
    ensures multiset(Picks(queue, m, c, calls))[i] == weights[i] / g
  {
    Undisturbed(queue, m, c, calls);
    WholeTurn(queue, c.last % |queue|);
    QueueShare(weights, queue, g, i);
  }

  lemma GcdUnique(weights: seq<nat>, g: nat, h: nat)
    requires IsGcd(g, weights) && IsGcd(h, weights)
    ensures g == h
  {
    assert Divides(g, weights) && Divides(h, weights);
  }

  /** A balanced queue holds slave i exactly weight / gcd times. */
  lemma QueueShare(weights: seq<nat>, queue: seq<nat>, g: nat, i: nat)
    requires Balanced(weights, queue) && IsGcd(g, weights) && i < |weights|
    ensures multiset(queue)[i] == weights[i] / g
  {
    var h :| IsGcd(h, weights) && multiset(queue) == multiset(Expanded(weights, h));
    GcdUnique(weights, g, h);
    ExpandedCount(weights, g, i);
  }

  /** Queue [0, 1] and two statistic slaves: slave, statistic, slave selects slave 0 twice. */
  lemma StatisticCallRewinds()
    ensures Picks([0, 1], 2, Cursors(0, 0), [Ordinary, Statistic, Ordinary]) == [0, 0]
  {
    var c1 := After(2, 2, Cursors(0, 0), Ordinary);
    var c2 := After(2, 2, c1, Statistic);
    assert c1 == Cursors(1, 0) && c2 == Cursors(0, 1);
    assert [Ordinary, Statistic, Ordinary][1..] == [Statistic, Ordinary] && [Statistic, Ordinary][1..] == [Ordinary];
    assert [Ordinary][1..] == [];
    assert Picks([0, 1], 2, c2, [Ordinary]) == [0];
    assert Picks([0, 1], 2, c1, [Statistic, Ordinary]) == [0];
  }

  /** After any calls, every window with as many ordinary calls as the queue is long has the weighted shares. */
  ghost predicate FairWindows(queue: seq<nat>, m: nat)
    requires queue != []
  {
    forall before, calls :: Ordinaries(calls) == |queue| ==> FairWindow(queue, m, before, calls)
  }

  ghost predicate FairWindow(queue: seq<nat>, m: nat, before: seq<Call>, calls: seq<Call>)
    requires queue != []
  {
    multiset(Picks(queue, m, AfterAll(|queue|, m, Cursors(0, 0), before), calls)) == multiset(queue)
  }

  lemma {:induction false} OrdinaryOnly(n: nat, m: nat, c: Cursors, k: nat)
    requires n > 0
    ensures Steady(n, m, c, Repeat(Ordinary, k)) && Ordinaries(Repeat(Ordinary, k)) == k
    ensures var d := AfterAll(n, m, c, Repeat(Ordinary, k));
            d.statistic == c.statistic && d.last % n == (c.last % n + k) % n
    decreases k
  {
    var calls := Repeat(Ordinary, k);
    if k == 0 {
      assert calls == [];
      Remainder(c.last % n, n, 0, c.last % n);
    } else {
      assert calls[1..] == Repeat(Ordinary, k - 1);
      OrdinaryOnly(n, m, After(n, m, c, Ordinary), k - 1);
      ShiftedPlace(c.last, n, k - 1);
    }
  }

  /** From position `a` of the queue: one ordinary call, a statistic call that rewinds, and the rest of a window. */
  lemma RewoundWindow(queue: seq<nat>, m: nat, c: Cursors, a: nat)
    requires |queue| >= 2 && m >= 2 && c.statistic == 0 && c.last % |queue| == a
    ensures var calls := [Ordinary, Statistic] + Repeat(Ordinary, |queue| - 1);
            Ordinaries(calls) == |queue| && Picks(queue, m, c, calls) == [queue[a]] + queue[..|queue| - 1]
  {
    var n := |queue|;
    var rest := Repeat(Ordinary, n - 1);
    var calls := [Ordinary, Statistic] + rest;
    var c1 := After(n, m, c, Ordinary);
    var c2 := After(n, m, c1, Statistic);
    Remainder(0, m, 0, 0);
    Remainder(0, n, 0, 0);
    assert c2.last == 0;
    assert calls[1..] == [Statistic] + rest && ([Statistic] + rest)[1..] == rest;
    OrdinaryOnly(n, m, c2, n - 1);
    Undisturbed(queue, m, c2, rest);
    assert Turns(queue, 0, n - 1) == queue[..n - 1] by {
      forall k | 0 <= k < n - 1 ensures Turns(queue, 0, n - 1)[k] == queue[k] { Remainder(k, n, 0, k); }
    }
    assert Picks(queue, m, c1, [Statistic] + rest) == queue[..n - 1];
    assert Ordinaries([Statistic] + rest) == n - 1;
  }

  lemma UnfairWindow(queue: seq<nat>, m: nat, a: nat)
    requires |queue| >= 2 && m >= 2 && a < |queue| && queue[a] != queue[|queue| - 1]
    ensures !FairWindows(queue, m)
  {
    var n := |queue|;
    var before := Repeat(Ordinary, a);
    var c := AfterAll(n, m, Cursors(0, 0), before);
    OrdinaryOnly(n, m, Cursors(0, 0), a);
    Remainder(0, n, 0, 0);
    Remainder(a, n, 0, a);
    RewoundWindow(queue, m, c, a);
    var calls := [Ordinary, Statistic] + Repeat(Ordinary, n - 1);
    assert queue == queue[..n - 1] + [queue[n - 1]];
    assert multiset(queue)[queue[a]] == multiset(queue[..n - 1])[queue[a]];
    assert !FairWindow(queue, m, before, calls);
  }

  /** With two slaves or more, every window is fair whatever statistic calls come between exactly when the statistic
      queue has at most one entry. */
  lemma FairWindowsIff(weights: seq<nat>, queue: seq<nat>, m: nat)
    requires |weights| >= 2 && Positive(weights) && Balanced(weights, queue)
    ensures queue != [] && (FairWindows(queue, m) <==> m <= 1)
  {
    BalancedMembers(weights, queue);
    var g :| IsGcd(g, weights) && multiset(queue) == multiset(Expanded(weights, g));
    if m <= 1 {
      forall before, calls | Ordinaries(calls) == |queue| ensures FairWindow(queue, m, before, calls) {
        var c := AfterAll(|queue|, m, Cursors(0, 0), before);
        AtMostOne(|queue|, m, c, calls);
        SteadyShare(weights, g, queue, m, c, calls, 0);
      }
    } else {
      var last := queue[|queue| - 1];
      var other := if last == 0 then 1 else 0;
      assert other in queue;
      var a :| 0 <= a < |queue| && queue[a] == other;
      UnfairWindow(queue, m, a);
    }
  }

  lemma TurnsStep(queue: seq<nat>, last: nat, k: nat)
    requires queue != []
    ensures var n := |queue|;
            var next := if n <= 1 then last else (last % n + 1) % n;
            Turns(queue, last % n, k + 1) == [queue[last % n]] + Turns(queue, next % n, k)
  {
    var n := |queue|;
    var at, next := last % n, if n <= 1 then last else (last % n + 1) % n;
    var long, short := Turns(queue, at, k + 1), Turns(queue, next % n, k);
    assert long[0] == queue[at] by { Remainder(at, n, 0, at); }
    forall j | 0 <= j < k ensures long[j + 1] == short[j] { ShiftedPlace(last, n, j); }
    assert long == [queue[at]] + short;
  }

  lemma ShiftedPlace(last: nat, n: nat, j: nat)
    requires n > 0
    ensures var next := if n <= 1 then last else (last % n + 1) % n;
            (last % n + (j + 1)) % n == (next % n + j) % n
  {
    if n == 1 {
      AllZero(last % n + (j + 1));
      AllZero(last % n + j);
    } else {
      var at := last % n;
      NextPlace(at, n);
      Remainder(at, n, 0, at);
      assert (at + 1) % n % n == (at + 1) % n;
      RemainderSum(at + 1, n, j);
    }
  }

  lemma AllZero(x: nat)
    ensures x % 1 == 0
  {
  }

  lemma RemainderSum(x: nat, n: nat, j: nat)
    requires n > 0
    ensures (x + j) % n == (x % n + j) % n
  {
    var q, y := x / n, x % n + j;
    var p := y / n;
    assert n * q + n * p == n * (q + p);
    Remainder(x + j, n, q + p, y % n);
  }
}
