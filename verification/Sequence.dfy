/** Global sequence numbers handed out in batches (`proxy/sequence/mysql.go`). */
module Sequence {
  import opened Options

  /** A batch granted by the database: the numbers after `curr` up to `curr + incr`. */
  datatype Grant = Grant(curr: int, incr: int) {
    predicate Contains(x: int) { curr < x <= curr + incr }
  }

  /** One proxy's sequence: numbers after `curr` up to `max` are still to be returned. */
  datatype Batch = Batch(curr: int, max: int) {
    predicate Contains(x: int) { curr < x <= max }
  }

  const FRESH := Batch(0, 0)

  /** NextSeq under its lock; `reply` is the database's answer, used only when the batch is spent. */
  class MySQLSequence {
    var curr: int
    var max: int

    constructor ()
      ensures Now() == FRESH
    {
      curr, max := 0, 0;
    }

    ghost function Now(): Batch
      reads this
    {
      Batch(curr, max)
    }

    /** getSeqFromDB. */
    method GetSeqFromDB(reply: Option<Grant>) returns (ok: bool)
      modifies this
      ensures ok == reply.Some?
      ensures Now() == if ok then Batch(reply.value.curr, reply.value.curr + reply.value.incr) else old(Now())
    {
      if reply.None? { return false; }
      max := reply.value.curr + reply.value.incr;
      curr := reply.value.curr;
      return true;
    }

    /** NextSeq. */
    method NextSeq(reply: Option<Grant>) returns (r: Option<int>)
      modifies this
      ensures r == Next(old(Now()), reply).1 && Now() == Next(old(Now()), reply).0
    {
      if curr >= max {
        var ok := GetSeqFromDB(reply);
        if !ok { return None; }
      }
      curr := curr + 1;
      return Some(curr);
    }
  }

  predicate Spent(b: Batch) { b.curr >= b.max }

  /** One call: the batch afterwards, and the number returned, if any. */
  function Next(b: Batch, reply: Option<Grant>): (Batch, Option<int>) {
    if Spent(b) && reply.None? then (b, None)
    else
      var from := if Spent(b) then Batch(reply.value.curr, reply.value.curr + reply.value.incr) else b;
      (from.(curr := from.curr + 1), Some(from.curr + 1))
  }

  // ---------------------------------------------------------------- many proxies

  /** Proxy `proxy` calls NextSeq; `reply` is the grant it would get. */
  datatype Call = Call(proxy: nat, reply: Option<Grant>)

  /** Every proxy's batch, the grants given to each, and the numbers returned by each, in order. */
  datatype World = World(batches: map<nat, Batch>, grants: seq<(nat, Grant)>, returned: seq<(nat, int)>)

  function BatchOf(w: World, proxy: nat): Batch { if proxy in w.batches then w.batches[proxy] else FRESH }

  function Step(w: World, c: Call): World {
    var b := BatchOf(w, c.proxy);
    var (after, number) := Next(b, c.reply);
    World(w.batches[c.proxy := after],
          if Spent(b) && c.reply.Some? then w.grants + [(c.proxy, c.reply.value)] else w.grants,
          if number.Some? then w.returned + [(c.proxy, number.value)] else w.returned)
  }

  const START := World(map[], [], [])

  function Run(calls: seq<Call>): World {
    if calls == [] then START else Step(Run(calls[..|calls| - 1]), calls[|calls| - 1])
  }

  /** The database's promise: batches are not empty and no two share a number. */
  ghost predicate Disjoint(grants: seq<(nat, Grant)>) {
    && (forall i :: 0 <= i < |grants| ==> grants[i].1.incr >= 1)
    && (forall i, j, x :: 0 <= i < j < |grants| && grants[i].1.Contains(x) ==> !grants[j].1.Contains(x))
  }

  /** Some grant to the proxy holds the number. */
  ghost predicate Owned(grants: seq<(nat, Grant)>, proxy: nat, x: int) {
    exists i :: 0 <= i < |grants| && grants[i].0 == proxy && grants[i].1.Contains(x)
  }

  ghost predicate Returned(returned: seq<(nat, int)>, proxy: nat, x: int) { (proxy, x) in returned }

  ghost predicate Inv(w: World) {
    && (forall i, x :: 0 <= i < |w.grants| && w.grants[i].1.Contains(x) ==>
          Returned(w.returned, w.grants[i].0, x) || BatchOf(w, w.grants[i].0).Contains(x))
    && (forall k :: 0 <= k < |w.returned| ==> Owned(w.grants, w.returned[k].0, w.returned[k].1))
    && (forall p, x :: BatchOf(w, p).Contains(x) ==> Owned(w.grants, p, x))
    && (forall p, k :: 0 <= k < |w.returned| ==> !BatchOf(w, p).Contains(w.returned[k].1))
    && (forall j, k :: 0 <= j < k < |w.returned| ==> w.returned[j].1 != w.returned[k].1)
  }

  /** Distinct proxies never hold the same number. */
  lemma OwnersDiffer(grants: seq<(nat, Grant)>, p: nat, q: nat, x: int)
    requires Disjoint(grants) && Owned(grants, p, x) && Owned(grants, q, x)
    ensures p == q
  {
    var i :| 0 <= i < |grants| && grants[i].0 == p && grants[i].1.Contains(x);
    var j :| 0 <= j < |grants| && grants[j].0 == q && grants[j].1.Contains(x);
  }

  /** A number of a new grant was in no earlier one. */
  lemma NewGrantIsNew(grants: seq<(nat, Grant)>, g: (nat, Grant), p: nat, x: int)
    requires Disjoint(grants + [g]) && g.1.Contains(x)
    ensures !Owned(grants, p, x) && Owned(grants + [g], g.0, x)
  {
    var all := grants + [g];
    assert all[|grants|] == g;
    forall i | 0 <= i < |grants| ensures !grants[i].1.Contains(x) {
      assert all[i] == grants[i];
    }
  }

  lemma OwnedGrows(grants: seq<(nat, Grant)>, g: (nat, Grant), p: nat, x: int)
    requires Owned(grants, p, x)
    ensures Owned(grants + [g], p, x)
  {
    var i :| 0 <= i < |grants| && grants[i].0 == p && grants[i].1.Contains(x);
    assert (grants + [g])[i] == grants[i];
  }

  /** The two halves of a call: a spent batch is refilled, then a number is taken. */
  function Refill(w: World, p: nat, g: Grant): World {
    w.(batches := w.batches[p := Batch(g.curr, g.curr + g.incr)], grants := w.grants + [(p, g)])
  }

  function Take(w: World, p: nat): World {
    var b := BatchOf(w, p);
    w.(batches := w.batches[p := b.(curr := b.curr + 1)], returned := w.returned + [(p, b.curr + 1)])
  }

  lemma StepHalves(w: World, c: Call)
    ensures var b := BatchOf(w, c.proxy);
            if !Spent(b) then Step(w, c) == Take(w, c.proxy)
            else if c.reply.Some? then Step(w, c) == Take(Refill(w, c.proxy, c.reply.value), c.proxy)
            else Step(w, c) == w.(batches := w.batches[c.proxy := b])
  {
    var b := BatchOf(w, c.proxy);
    if Spent(b) && c.reply.Some? {
      var r := Refill(w, c.proxy, c.reply.value);
      assert Take(r, c.proxy).batches == Step(w, c).batches;
    }
  }

  lemma RefillKeeps(w: World, p: nat, g: Grant)
    requires Inv(w) && Disjoint(w.grants + [(p, g)]) && Spent(BatchOf(w, p))
    ensures Inv(Refill(w, p, g))
  {
    var r := Refill(w, p, g);
    forall i, x | 0 <= i < |r.grants| && r.grants[i].1.Contains(x)
      ensures Returned(r.returned, r.grants[i].0, x) || BatchOf(r, r.grants[i].0).Contains(x)
    {
      if i < |w.grants| { assert w.grants[i].1.Contains(x); }
    }
    forall k | 0 <= k < |r.returned| ensures Owned(r.grants, r.returned[k].0, r.returned[k].1) {
      OwnedGrows(w.grants, (p, g), w.returned[k].0, w.returned[k].1);
    }
    forall q, x | BatchOf(r, q).Contains(x) ensures Owned(r.grants, q, x) {
      if q == p {
        NewGrantIsNew(w.grants, (p, g), p, x);
      } else {
        assert BatchOf(w, q).Contains(x);
        OwnedGrows(w.grants, (p, g), q, x);
      }
    }
    forall q, k | 0 <= k < |r.returned| ensures !BatchOf(r, q).Contains(r.returned[k].1) {
      if q == p && g.Contains(w.returned[k].1) {
        NewGrantIsNew(w.grants, (p, g), w.returned[k].0, w.returned[k].1);
      } else {
        assert q != p ==> !BatchOf(w, q).Contains(w.returned[k].1);
      }
    }
  }

  lemma TakeKeeps(w: World, p: nat)
    requires Inv(w) && Disjoint(w.grants) && !Spent(BatchOf(w, p))
    ensures Inv(Take(w, p))
  {
    var r, x := Take(w, p), BatchOf(w, p).curr + 1;
    assert BatchOf(w, p).Contains(x);
    forall i, y | 0 <= i < |r.grants| && r.grants[i].1.Contains(y)
      ensures Returned(r.returned, r.grants[i].0, y) || BatchOf(r, r.grants[i].0).Contains(y)
    {
      assert w.grants[i].1.Contains(y);
      assert r.returned[|w.returned|] == (p, x);
    }
    forall q, y | BatchOf(r, q).Contains(y) ensures Owned(r.grants, q, y) { assert BatchOf(w, q).Contains(y); }
    forall q, k | 0 <= k < |r.returned| ensures !BatchOf(r, q).Contains(r.returned[k].1) {
      if k < |w.returned| {
        assert !BatchOf(w, q).Contains(w.returned[k].1);
      } else if BatchOf(r, q).Contains(x) {
        assert BatchOf(w, q).Contains(x);
        OwnersDiffer(w.grants, p, q, x);
      }
    }
  }

  lemma {:induction false} RunKeeps(calls: seq<Call>)
    requires Disjoint(Run(calls).grants)
    ensures Inv(Run(calls))
  {
    if calls != [] {
      var n := |calls| - 1;
      var w, c := Run(calls[..n]), calls[n];
      StepHalves(w, c);
      PrefixDisjoint(w.grants, Run(calls).grants);
      RunKeeps(calls[..n]);
      if !Spent(BatchOf(w, c.proxy)) {
        TakeKeeps(w, c.proxy);
      } else if c.reply.Some? {
        var g := c.reply.value;
        assert Run(calls).grants[|w.grants|].1 == g;
        RefillKeeps(w, c.proxy, g);
        TakeKeeps(Refill(w, c.proxy, g), c.proxy);
      } else {
        assert forall q :: BatchOf(Run(calls), q) == BatchOf(w, q);
      }
    }
  }

  lemma PrefixDisjoint(a: seq<(nat, Grant)>, b: seq<(nat, Grant)>)
    requires a <= b && Disjoint(b)
    ensures Disjoint(a)
  {
    forall i, j, x | 0 <= i < j < |a| && a[i].1.Contains(x) ensures !a[j].1.Contains(x) {
      assert b[i] == a[i] && b[j] == a[j];
    }
  }

  /** Over every interleaving of calls by any number of proxies: if the granted batches are disjoint and not empty, no
      number is returned twice, each lies in a batch granted to the proxy that returned it, and of a granted number
      none is lost: it has been returned by its proxy or is still in its batch. */
  lemma NumbersUnique(calls: seq<Call>)
    requires Disjoint(Run(calls).grants)
    ensures var r := Run(calls).returned;
            && (forall j, k :: 0 <= j < k < |r| ==> r[j].1 != r[k].1)
            && (forall k :: 0 <= k < |r| ==> Owned(Run(calls).grants, r[k].0, r[k].1))
            && (forall i, x :: 0 <= i < |Run(calls).grants| && Run(calls).grants[i].1.Contains(x) ==>
                  var p := Run(calls).grants[i].0;
                  Returned(r, p, x) || BatchOf(Run(calls), p).Contains(x))
  {
    RunKeeps(calls);
  }

  /** The first number of a batch lies in the batch exactly when the batch is not empty. */
  lemma FirstOfGrantIff(b: Batch, g: Grant)
    requires Spent(b)
    ensures g.Contains(Next(b, Some(g)).1.value) <==> g.incr >= 1
  {
  }
}
