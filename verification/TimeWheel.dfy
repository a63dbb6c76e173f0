/** The time wheel (`util/time_wheel.go`) as a refinement of a map from keys to the ticks still to wait. */
module TimeWheel {
  import opened Arithmetic

  datatype Task = Task(delay: nat, round: nat)

  // ---------------------------------------------------------------- the deadline map

  /** What the wheel's goroutine receives: a task, a removal, or a tick. */
  datatype Event<K> = Add(key: K, wait: nat) | Remove(key: K) | Tick

  /** One event on the map of waiting times. */
  function After<K>(due: map<K, nat>, e: Event<K>): map<K, nat> {
    match e
    case Add(k, wait) => due[k := wait]
    case Remove(k) => due - {k}
    case Tick => map k | k in due && due[k] > 0 :: due[k] - 1
  }

  /** The keys a tick fires. */
  function Fires<K>(due: map<K, nat>): set<K> { set k | k in due && due[k] == 0 }

  function Replay<K>(due: map<K, nat>, events: seq<Event<K>>): map<K, nat> {
    if events == [] then due else After(Replay(due, events[..|events| - 1]), events[|events| - 1])
  }

  /** The keys fired by each tick of a run, in order. */
  function Log<K>(due: map<K, nat>, events: seq<Event<K>>): seq<set<K>> {
    if events == [] then []
    else
      var n := |events| - 1;
      Log(due, events[..n]) + if events[n].Tick? then [Fires(Replay(due, events[..n]))] else []
  }

  ghost predicate Untouched<K(!new)>(events: seq<Event<K>>, key: K) {
    forall e :: e in events ==> e.Tick? || e.key != key
  }

  /** A key added to wait `wait` ticks fires on exactly the tick number `wait + 1`, counted from the add, and on no
      other tick, as long as it is neither added again nor removed. */
  lemma {:induction false} FiresExactlyOnce<K(!new)>(due: map<K, nat>, key: K, wait: nat, events: seq<Event<K>>)
    requires Untouched(events, key)
    ensures var log := Log(due[key := wait], events);
            && (forall j :: 0 <= j < |log| ==> (key in log[j] <==> j == wait))
            && (key in Replay(due[key := wait], events) <==> |log| <= wait)
            && (key in Replay(due[key := wait], events) ==> Replay(due[key := wait], events)[key] == wait - |log|)
  {
    if events != [] {
      var n := |events| - 1;
      FiresExactlyOnce(due, key, wait, events[..n]);
      assert events[n] in events;
    }
  }

  // ---------------------------------------------------------------- the wheel

  /** Ticks until the wheel's cursor `cur` stands on bucket `index`. */
  function Distance(n: nat, cur: nat, index: nat): int { if index >= cur then index - cur else index - cur + n }

  ghost predicate WellPlaced<K(!new)>(n: nat, cur: nat, buckets: seq<map<K, Task>>, indexes: map<K, nat>) {
    && cur < n == |buckets|
    && (forall k :: k in indexes ==> indexes[k] < n && k in buckets[indexes[k]])
    && (forall i, k :: 0 <= i < n && k in buckets[i] ==> k in indexes && indexes[k] == i)
  }

  /** The ticks of `round` whole turns. */
  function Turns(n: nat, round: nat): nat { if round == 0 then 0 else n + Turns(n, round - 1) }

  /** The waiting time of a task: the way to its bucket, and a whole turn per round. */
  function Wait(n: nat, cur: nat, index: nat, round: nat): nat
    requires cur < n && index < n
  {
    Distance(n, cur, index) + Turns(n, round)
  }

  ghost function Waiting<K(!new)>(n: nat, cur: nat, buckets: seq<map<K, Task>>, indexes: map<K, nat>): map<K, nat>
    requires WellPlaced(n, cur, buckets, indexes)
  {
    map k | k in indexes :: Wait(n, cur, indexes[k], buckets[indexes[k]][k].round)
  }

  lemma {:induction false} TurnsProduct(n: nat, round: nat)
    ensures Turns(n, round) == n * round
  {
    if round > 0 { TurnsProduct(n, round - 1); }
  }

  /** The cursor and the round counter together encode the delay. */
  lemma DelayEncoded(n: nat, cur: nat, ticks: nat)
    requires cur < n
    ensures Wait(n, cur, (cur + ticks) % n, ticks / n) == ticks
  {
    var q, r := ticks / n, ticks % n;
    TurnsProduct(n, q);
    if cur + r < n {
      Remainder(cur + ticks, n, q, cur + r);
    } else {
      assert n * (q + 1) == n * q + n;
      Remainder(cur + ticks, n, q + 1, cur + r - n);
    }
  }

  /** A tick brings every task one tick nearer, by the cursor's step or by the round counter. */
  lemma TickNearer(n: nat, cur: nat, index: nat, round: nat)
    requires cur < n && index < n && (index != cur || round > 0)
    ensures var next := if cur == n - 1 then 0 else cur + 1;
            Wait(n, next, index, if index == cur then round - 1 else round) == Wait(n, cur, index, round) - 1
  {
  }

  /** Taking a task out of its bucket and out of the index. */
  lemma Unplaced<K(!new)>(n: nat, cur: nat, b: seq<map<K, Task>>, ix: map<K, nat>, key: K)
    requires WellPlaced(n, cur, b, ix) && key in ix
    ensures var out := b[ix[key] := b[ix[key]] - {key}];
            && WellPlaced(n, cur, out, ix - {key})
            && Waiting(n, cur, out, ix - {key}) == Waiting(n, cur, b, ix) - {key}
  {
    var at := ix[key];
    var out := b[at := b[at] - {key}];
    assert forall k :: k in ix && k != key ==> k in out[ix[k]] && out[ix[k]][k] == b[ix[k]][k];
  }

  /** Putting a new task into a bucket and into the index. */
  lemma Placed<K(!new)>(n: nat, cur: nat, b: seq<map<K, Task>>, ix: map<K, nat>, key: K, at: nat, task: Task)
    requires WellPlaced(n, cur, b, ix) && key !in ix && at < n
    ensures var out := b[at := b[at][key := task]];
            && WellPlaced(n, cur, out, ix[key := at])
            && Waiting(n, cur, out, ix[key := at]) == Waiting(n, cur, b, ix)[key := Wait(n, cur, at, task.round)]
  {
    var out := b[at := b[at][key := task]];
    assert forall k :: k in ix ==> k in out[ix[k]] && out[ix[k]][k] == b[ix[k]][k];
  }

  /** Adding a task whether or not its key is already there. */
  lemma Replaced<K(!new)>(n: nat, cur: nat, b: seq<map<K, Task>>, ix: map<K, nat>, key: K, at: nat, task: Task)
    requires WellPlaced(n, cur, b, ix) && at < n
    ensures var rest := if key in ix then b[ix[key] := b[ix[key]] - {key}] else b;
            var out := rest[at := rest[at][key := task]];
            && WellPlaced(n, cur, out, ix[key := at])
            && Waiting(n, cur, out, ix[key := at]) == Waiting(n, cur, b, ix)[key := Wait(n, cur, at, task.round)]
  {
    if key in ix {
      Unplaced(n, cur, b, ix, key);
      var rest := b[ix[key] := b[ix[key]] - {key}];
      Placed(n, cur, rest, ix - {key}, key, at, task);
      MapReplaced(ix, key, at);
      MapReplaced(Waiting(n, cur, b, ix), key, Wait(n, cur, at, task.round));
    } else {
      Placed(n, cur, b, ix, key, at, task);
    }
  }

  lemma MapReplaced<K>(m: map<K, nat>, key: K, x: nat)
    ensures (m - {key})[key := x] == m[key := x]
  {
  }

  /** The bucket under the cursor once a tick has passed over it. */
  function Ticked<K>(bucket: map<K, Task>): map<K, Task> {
    map k | k in bucket && bucket[k].round > 0 :: bucket[k].(round := bucket[k].round - 1)
  }

  /** The bucket while the keys `todo` are still to be visited. */
  ghost function PartTicked<K(!new)>(bucket: map<K, Task>, todo: set<K>): map<K, Task> {
    map k | k in bucket && (k in todo || bucket[k].round > 0) ::
      if k in todo then bucket[k] else bucket[k].(round := bucket[k].round - 1)
  }

  lemma PartTickedStep<K(!new)>(bucket: map<K, Task>, todo: set<K>, k: K)
    requires k in todo && k in bucket
    ensures k in PartTicked(bucket, todo) && PartTicked(bucket, todo)[k] == bucket[k]
    ensures PartTicked(bucket, todo - {k}) ==
            if bucket[k].round > 0 then PartTicked(bucket, todo)[k := bucket[k].(round := bucket[k].round - 1)]
            else PartTicked(bucket, todo) - {k}
    ensures Expired(bucket) - (todo - {k}) == (Expired(bucket) - todo) + if bucket[k].round == 0 then {k} else {}
  {
  }

  lemma RemovedTwice<K(!new)>(m: map<K, nat>, a: set<K>, b: set<K>)
    ensures m - a - b == m - (a + b)
  {
  }

  lemma UpdatedTwice<K(!new)>(all: seq<map<K, Task>>, i: nat, a: map<K, Task>, b: map<K, Task>)
    requires i < |all|
    ensures all[i := a][i] == a && all[i := a][i := b] == all[i := b]
  {
  }

  lemma PartTickedEnds<K(!new)>(bucket: map<K, Task>)
    ensures PartTicked(bucket, bucket.Keys) == bucket && PartTicked(bucket, {}) == Ticked(bucket)
    ensures Expired(bucket) - bucket.Keys == {} && Expired(bucket) - {} == Expired(bucket)
  {
  }

  function Expired<K>(bucket: map<K, Task>): set<K> { set k | k in bucket && bucket[k].round == 0 }

  lemma TickedKey<K(!new)>(n: nat, cur: nat, b: seq<map<K, Task>>, ix: map<K, nat>, k: K)
    requires WellPlaced(n, cur, b, ix) && k in ix
    ensures k in Expired(b[cur]) <==> Waiting(n, cur, b, ix)[k] == 0
    ensures k !in Expired(b[cur]) ==>
              var out := b[cur := Ticked(b[cur])];
              && k in out[ix[k]]
              && Wait(n, if cur == n - 1 then 0 else cur + 1, ix[k], out[ix[k]][k].round)
                 == Waiting(n, cur, b, ix)[k] - 1
  {
    if k !in Expired(b[cur]) { TickNearer(n, cur, ix[k], b[ix[k]][k].round); }
  }

  lemma TickedWheel<K(!new)>(n: nat, cur: nat, b: seq<map<K, Task>>, ix: map<K, nat>)
    requires WellPlaced(n, cur, b, ix)
    ensures var out, left := b[cur := Ticked(b[cur])], ix - Expired(b[cur]);
            var next := if cur == n - 1 then 0 else cur + 1;
            && WellPlaced(n, next, out, left)
            && Waiting(n, next, out, left) == After(Waiting(n, cur, b, ix), Tick)
            && Expired(b[cur]) == Fires(Waiting(n, cur, b, ix))
  {
    forall k | k in ix { TickedKey(n, cur, b, ix, k); }
  }

  class Wheel<K(==, !new)> {
    const tickSeconds: nat
    const bucketsNum: nat
    var buckets: seq<map<K, Task>>
    var bucketIndexes: map<K, nat>
    var currentIndex: nat

    ghost predicate Valid()
      reads this
    {
      && tickSeconds >= 1
      && WellPlaced(bucketsNum, currentIndex, buckets, bucketIndexes)
    }

    /** The abstract state. */
    ghost function Due(): map<K, nat>
      requires Valid()
      reads this
    {
      Waiting(bucketsNum, currentIndex, buckets, bucketIndexes)
    }

    /** NewTimeWheel, which refuses a tick under a second and an empty wheel. */
    constructor (tickSeconds: nat, bucketsNum: nat)
      requires tickSeconds >= 1 && bucketsNum > 0
      ensures Valid() && Due() == map[]
      ensures this.tickSeconds == tickSeconds && this.bucketsNum == bucketsNum
    {
      this.tickSeconds, this.bucketsNum := tickSeconds, bucketsNum;
      buckets := seq(bucketsNum, _ => map[]);
      bucketIndexes := map[];
      currentIndex := 0;
    }

    /** add: a timer joins the bucket its delay points at, after leaving the one it was in. */
    method Add(key: K, delaySeconds: nat)
      requires Valid()
      modifies this
      ensures Valid() && Due() == After(old(Due()), Event.Add(key, delaySeconds / tickSeconds))
    {
      var task := Task(delaySeconds, CalculateRound(delaySeconds));
      var index := CalculateIndex(delaySeconds);
      Replaced(bucketsNum, currentIndex, buckets, bucketIndexes, key, index, task);
      if key in bucketIndexes {
        var origin := bucketIndexes[key];
        buckets := buckets[origin := buckets[origin] - {key}];
      }
      bucketIndexes := bucketIndexes[key := index];
      buckets := buckets[index := buckets[index][key := task]];
    }

    function CalculateRound(delaySeconds: nat): nat
      requires Valid()
      reads this
    {
      delaySeconds / tickSeconds / bucketsNum
    }

    function CalculateIndex(delaySeconds: nat): (index: nat)
      requires Valid()
      reads this
      ensures index < bucketsNum
      ensures Wait(bucketsNum, currentIndex, index, CalculateRound(delaySeconds)) == delaySeconds / tickSeconds
    {
      DelayEncoded(bucketsNum, currentIndex, delaySeconds / tickSeconds);
      (currentIndex + delaySeconds / tickSeconds) % bucketsNum
    }

    /** remove. */
    method Remove(key: K)
      requires Valid()
      modifies this
      ensures Valid() && Due() == After(old(Due()), Event.Remove(key))
    {
      if key in bucketIndexes {
        Unplaced(bucketsNum, currentIndex, buckets, bucketIndexes, key);
        var index := bucketIndexes[key];
        bucketIndexes := bucketIndexes - {key};
        buckets := buckets[index := buckets[index] - {key}];
      }
    }

    /** One task of the bucket under the cursor loses a round, or fires and leaves the wheel. */
    method TickTask(k: K) returns (fired: set<K>)
      requires currentIndex < |buckets| && k in buckets[currentIndex]
      modifies `buckets, `bucketIndexes
      ensures fired == if old(buckets[currentIndex][k].round) == 0 then {k} else {}
      ensures bucketIndexes == old(bucketIndexes) - fired
      ensures var now, task := old(buckets[currentIndex]), old(buckets[currentIndex][k]);
              buckets == old(buckets)[currentIndex :=
                if task.round > 0 then now[k := task.(round := task.round - 1)] else now - {k}]
    {
      var bucket := buckets[currentIndex];
      if bucket[k].round > 0 {
        buckets := buckets[currentIndex := bucket[k := bucket[k].(round := bucket[k].round - 1)]];
        return {};
      }
      fired := {k};
      buckets := buckets[currentIndex := bucket - {k}];
      bucketIndexes := bucketIndexes - {k};
    }

    /** The loop of handleTick, in any order. */
    method TickBucket() returns (fired: set<K>)
      requires currentIndex < |buckets|
      modifies `buckets, `bucketIndexes
      ensures fired == Expired(old(buckets[currentIndex])) && bucketIndexes == old(bucketIndexes) - fired
      ensures buckets == old(buckets)[currentIndex := Ticked(old(buckets[currentIndex]))]
    {
      ghost var bucket, all, indexes := buckets[currentIndex], buckets, bucketIndexes;
      var todo := buckets[currentIndex].Keys;
      fired := {};
      PartTickedEnds(bucket);
      while todo != {}
        invariant todo <= bucket.Keys && fired == Expired(bucket) - todo
        invariant buckets == all[currentIndex := PartTicked(bucket, todo)] && bucketIndexes == indexes - fired
        decreases |todo|
      {
        var k :| k in todo;
        PartTickedStep(bucket, todo, k);
        UpdatedTwice(all, currentIndex, PartTicked(bucket, todo), PartTicked(bucket, todo - {k}));
        var expired := TickTask(k);
        RemovedTwice(indexes, fired, expired);
        fired := fired + expired;
        todo := todo - {k};
      }
    }

    /** handleTick. */
    method HandleTick() returns (fired: set<K>)
      requires Valid()
      modifies this
      ensures Valid() && Due() == After(old(Due()), Tick)
      ensures fired == Fires(old(Due()))
    {
      TickedWheel(bucketsNum, currentIndex, buckets, bucketIndexes);
      fired := TickBucket();
      if currentIndex == bucketsNum - 1 {
        currentIndex := 0;
        return;
      }
      currentIndex := currentIndex + 1;
    }

    /** start: the goroutine's loop over whatever order of ticks, tasks and removals its channels deliver. */
    method Start(events: seq<Event<K>>) returns (log: seq<set<K>>)
      requires Valid()
      modifies this
      ensures Valid() && Due() == Replay(old(Due()), InTicks(events))
      ensures log == Log(old(Due()), InTicks(events))
    {
      log := [];
      ghost var first := Due();
      for i := 0 to |events|
        invariant Valid() && Due() == Replay(first, InTicks(events[..i])) && log == Log(first, InTicks(events[..i]))
      {
        InTicksStep(events, i);
        match events[i]
        case Add(key, delay) => Add(key, delay);
        case Remove(key) => Remove(key);
        case Tick =>
          var fired := HandleTick();
          log := log + [fired];
      }
      assert events[..|events|] == events;
    }

    /** The events as the deadline map sees them: delays in seconds become delays in ticks. */
    ghost function InTicks(events: seq<Event<K>>): seq<Event<K>>
      requires tickSeconds >= 1
    {
      seq(|events|, i requires 0 <= i < |events| =>
        if events[i].Add? then events[i].(wait := events[i].wait / tickSeconds) else events[i])
    }

    lemma InTicksStep(events: seq<Event<K>>, i: nat)
      requires tickSeconds >= 1 && i < |events|
      ensures var next := InTicks(events[..i + 1]);
              next != [] && next[..|next| - 1] == InTicks(events[..i]) && next[|next| - 1] == InTicks(events)[i]
    {
    }
  }
}
