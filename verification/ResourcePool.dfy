/** The connection pool of `util/resource_pool.go` as interleaved atomic steps: one step per channel
    operation or counter update, for any number of goroutines. */
module ResourcePool {

  import opened Options

  /** Resources are named by the order the factory made them. */
  type Resource = nat

  /** Where a goroutine stands. Wrappers are optional resources. */
  datatype PC =
    | Idle
    // get
    | GetGot(w: Option<Resource>)      // received a wrapper
    | GetFailed                        // factory error, token to be sent back
    | GetMade(r: Resource)             // factory done, active not yet raised
    | GetReady(r: Resource)            // available not yet lowered
    | GetCounted(r: Resource)          // inUse not yet raised
    | Using(r: Resource)               // checked out by a client
    // Put
    | PutNil                           // Put(nil): the client closed its resource
    | PutSend(w: Option<Resource>)     // about to send
    | PutSent                          // inUse not yet lowered
    | PutReturned                      // available not yet raised
    // closeIdleResources
    | Sweep(n: int)                    // n rounds left
    | SweepGot(n: int, w: Option<Resource>)
    // SetCapacity
    | ResizeRead(c: int, oldcap: int)  // before the compare-and-swap
    | Shrink(c: int, k: int)           // k tokens still to receive
    | ShrinkGot(c: int, k: int, w: Option<Resource>)
    | Grow(c: int, k: int)             // k tokens still to send
    | GrowSent(c: int, k: int)         // available not yet raised
    | Closing                          // drained to zero, channel not yet closed

  datatype Pool = Pool(
    chan_: seq<Option<Resource>>, maxCap: int, closed: bool,
    capacity: int, available: int, active: int, inUse: int,
    stopped: bool,          // the idle timer has been stopped
    nextId: nat,            // resources made so far
    dead: set<Resource>,    // resources closed so far
    threads: seq<PC>,
    panicked: bool)

  datatype Action =
    | Receive | FactoryOk | FactoryFail | PutLive | PutDead
    | StartSweep | Expire | StopSweeps | StartResize(c: int) | Advance

  datatype Outcome<T> = Next(s: T) | Blocked

  // ---------------------------------------------------------------- weights

  function Total(f: PC -> int, ts: seq<PC>): int {
    if ts == [] then 0 else Total(f, ts[..|ts| - 1]) + f(ts[|ts| - 1])
  }

  /** What a goroutine contributes: tokens in hand; tokens its resize has still to take out (negative: to
      put in); what `available`, `inUse` and `active` count for it beyond the channel; whether it
      resizes or sweeps. */
  datatype Weight = Weight(tok: int, pending: int, avl: int, inU: int, act: int, resizer: int, sweeper: int)

  function Weigh(pc: PC): Weight {
    match pc
    case Idle => Weight(0, 0, 0, 0, 0, 0, 0)
    case GetGot(w) => Weight(1, 0, 1, 0, Full(w), 0, 0)
    case GetFailed => Weight(1, 0, 1, 0, 0, 0, 0)
    case GetMade(_) => Weight(1, 0, 1, 0, 0, 0, 0)
    case GetReady(_) => Weight(1, 0, 1, 0, 1, 0, 0)
    case GetCounted(_) => Weight(1, 0, 0, 0, 1, 0, 0)
    case Using(_) => Weight(1, 0, 0, 1, 1, 0, 0)
    case PutNil => Weight(1, 0, 0, 1, 1, 0, 0)
    case PutSend(w) => Weight(1, 0, 0, 1, Full(w), 0, 0)
    case PutSent => Weight(0, 0, -1, 1, 0, 0, 0)
    case PutReturned => Weight(0, 0, -1, 0, 0, 0, 0)
    case Sweep(_) => Weight(0, 0, 0, 0, 0, 0, 1)
    case SweepGot(_, w) => Weight(1, 0, 1, 0, Full(w), 0, 1)
    case ResizeRead(_, _) => Weight(0, 0, 0, 0, 0, 1, 0)
    case Shrink(_, k) => Weight(0, k, 0, 0, 0, 1, 0)
    case ShrinkGot(_, k, w) => Weight(0, k, 1, 0, Full(w), 1, 0)
    case Grow(_, k) => Weight(0, -k, 0, 0, 0, 1, 0)
    case GrowSent(_, k) => Weight(0, -k, -1, 0, 0, 1, 0)
    case Closing => Weight(0, 0, 0, 0, 0, 1, 0)
  }

  function Full(w: Option<Resource>): int { if w.Some? then 1 else 0 }

  function Tok(pc: PC): int { Weigh(pc).tok }
  function Pending(pc: PC): int { Weigh(pc).pending }
  function Avl(pc: PC): int { Weigh(pc).avl }
  function InU(pc: PC): int { Weigh(pc).inU }
  function Act(pc: PC): int { Weigh(pc).act }
  function Resizer(pc: PC): int { Weigh(pc).resizer }
  function Sweeper(pc: PC): int { Weigh(pc).sweeper }

  function HoldsIt(r: Resource, pc: PC): int {
    match pc
    case GetGot(w) => if w == Some(r) then 1 else 0
    case GetMade(x) => if x == r then 1 else 0
    case GetReady(x) => if x == r then 1 else 0
    case GetCounted(x) => if x == r then 1 else 0
    case Using(x) => if x == r then 1 else 0
    case PutSend(w) => if w == Some(r) then 1 else 0
    case SweepGot(_, w) => if w == Some(r) then 1 else 0
    case ShrinkGot(_, _, w) => if w == Some(r) then 1 else 0
    case _ => 0
  }

  function Holds(r: Resource): PC -> int { pc => HoldsIt(r, pc) }

  function Live(ch: seq<Option<Resource>>): int {
    if ch == [] then 0 else Full(ch[0]) + Live(ch[1..])
  }

  function Copies(ch: seq<Option<Resource>>, r: Resource): nat {
    if ch == [] then 0 else (if ch[0] == Some(r) then 1 else 0) + Copies(ch[1..], r)
  }

  // ---------------------------------------------------------------- steps

  datatype ChanOp = Keep | Recv | Push(w: Option<Resource>)

  /** An ordinary step: the goroutine's next place, its channel operation, its counter updates, the
      resource it closes and whether it takes the factory's next one. */
  datatype Move = Move(to: PC, op: ChanOp, dAvailable: int, dActive: int, dInUse: int, kill: set<Resource>, makes: bool)

  function Quiet(to: PC): Move { Move(to, Keep, 0, 0, 0, {}, false) }

  /** get, with `head` the wrapper a receive yields and `fresh` the factory's next resource. */
  function GetMove(pc: PC, a: Action, head: Option<Resource>, fresh_: Resource): Option<Move> {
    if pc.Idle? && a.Receive? then Some(Quiet(GetGot(head)).(op := Recv))
    else if pc.GetGot? && pc.w.None? && a.FactoryOk? then Some(Quiet(GetMade(fresh_)).(makes := true))
    else if pc.GetGot? && pc.w.None? && a.FactoryFail? then Some(Quiet(GetFailed))
    else if !a.Advance? then None
    else if pc.GetGot? && pc.w.Some? then Some(Quiet(GetReady(pc.w.value)))
    else if pc.GetFailed? then Some(Quiet(Idle).(op := Push(None)))
    else if pc.GetMade? then Some(Quiet(GetReady(pc.r)).(dActive := 1))
    else if pc.GetReady? then Some(Quiet(GetCounted(pc.r)).(dAvailable := -1))
    else if pc.GetCounted? then Some(Quiet(Using(pc.r)).(dInUse := 1))
    else None
  }

  function PutMove(pc: PC, a: Action): Option<Move> {
    if pc.Using? && a.PutLive? then Some(Quiet(PutSend(Some(pc.r))))
    else if pc.Using? && a.PutDead? then Some(Quiet(PutNil).(kill := {pc.r}))
    else if !a.Advance? then None
    else if pc.PutNil? then Some(Quiet(PutSend(None)).(dActive := -1))
    else if pc.PutSend? then Some(Quiet(PutSent).(op := Push(pc.w)))
    else if pc.PutSent? then Some(Quiet(PutReturned).(dInUse := -1))
    else if pc.PutReturned? then Some(Quiet(Idle).(dAvailable := 1))
    else None
  }

  /** closeIdleResources. */
  function SweepMove(pc: PC, a: Action, head: Option<Resource>, available: int, stopped: bool): Option<Move> {
    if pc.Idle? && a.StartSweep? && !stopped then Some(Quiet(Sweep(available)))
    else if pc.SweepGot? && pc.w.Some? && a.Expire? then
      Some(Quiet(SweepGot(pc.n, None)).(dActive := -1, kill := {pc.w.value}))
    else if pc.Sweep? && a.Advance? then
      if pc.n <= 0 then Some(Quiet(Idle)) else Some(Quiet(SweepGot(pc.n - 1, head)).(op := Recv))
    else if pc.SweepGot? && a.Advance? then Some(Quiet(Sweep(pc.n)).(op := Push(pc.w)))
    else None
  }

  /** The loops of SetCapacity. */
  function ResizeMove(pc: PC, a: Action, head: Option<Resource>): Option<Move> {
    if !a.Advance? then None
    else if pc.Shrink? && pc.k > 0 then Some(Quiet(ShrinkGot(pc.c, pc.k - 1, head)).(op := Recv))
    else if pc.Shrink? then Some(Quiet(if pc.c == 0 then Closing else Idle))
    else if pc.ShrinkGot? && pc.w.Some? then
      Some(Quiet(ShrinkGot(pc.c, pc.k, None)).(dActive := -1, kill := {pc.w.value}))
    else if pc.ShrinkGot? then Some(Quiet(Shrink(pc.c, pc.k)).(dAvailable := -1))
    else if pc.Grow? && pc.k > 0 then Some(Quiet(GrowSent(pc.c, pc.k - 1)).(op := Push(None)))
    else if pc.Grow? then Some(Quiet(Idle))
    else if pc.GrowSent? then Some(Quiet(Grow(pc.c, pc.k)).(dAvailable := 1))
    else None
  }

  function Head(s: Pool): Option<Resource> { if s.chan_ == [] then None else s.chan_[0] }

  function MoveOf(s: Pool, pc: PC, a: Action): Option<Move> {
    if Resizer(pc) == 1 then ResizeMove(pc, a, Head(s))
    else if Sweeper(pc) == 1 || a.StartSweep? then SweepMove(pc, a, Head(s), s.available, s.stopped)
    else if InU(pc) == 1 || pc.PutReturned? then PutMove(pc, a)
    else GetMove(pc, a, Head(s), s.nextId)
  }

  function Apply(s: Pool, t: nat, m: Move): Pool
    requires t < |s.threads| && (m.op.Recv? ==> s.chan_ != [])
  {
    s.(threads := s.threads[t := m.to],
       chan_ := match m.op case Keep => s.chan_ case Recv => s.chan_[1..] case Push(w) => s.chan_ + [w],
       available := s.available + m.dAvailable, active := s.active + m.dActive, inUse := s.inUse + m.dInUse,
       dead := s.dead + m.kill, nextId := if m.makes then s.nextId + 1 else s.nextId)
  }

  function Goto(s: Pool, t: nat, pc: PC): Pool
    requires t < |s.threads|
  {
    s.(threads := s.threads[t := pc])
  }

  /** An ordinary step against the channel. A send on a closed channel panics; on a full one it panics for
      Put and blocks otherwise. A receive from a closed and empty channel yields a zero wrapper, which only
      get tells apart (ErrClosed); from an open empty one it blocks, except that a sweep ends. */
  function Perform(s: Pool, t: nat, pc: PC, m: Move): Outcome<Pool>
    requires t < |s.threads|
  {
    if m.op.Push? && (s.closed || (|s.chan_| >= s.maxCap && pc.PutSend?)) then Next(s.(panicked := true))
    else if m.op.Push? && |s.chan_| >= s.maxCap then Blocked
    else if m.op.Recv? && s.chan_ == [] then
      if s.closed then Next(if pc.Idle? then s else Goto(s, t, m.to))
      else if pc.Sweep? then Next(Goto(s, t, Idle))
      else Blocked
    else Next(Apply(s, t, m))
  }

  /** Reading the capacity at the top of the compare-and-swap loop. */
  function ReadCapacity(s: Pool, t: nat, c: int): Pool
    requires t < |s.threads|
  {
    if s.capacity == 0 || s.capacity == c then Goto(s, t, Idle) else Goto(s, t, ResizeRead(c, s.capacity))
  }

  function CompareAndSwap(s: Pool, t: nat, pc: PC): Pool
    requires t < |s.threads| && pc.ResizeRead?
  {
    if s.capacity != pc.oldcap then ReadCapacity(s, t, pc.c)
    else if pc.c < pc.oldcap then Goto(s, t, Shrink(pc.c, pc.oldcap - pc.c)).(capacity := pc.c)
    else Goto(s, t, Grow(pc.c, pc.c - pc.oldcap)).(capacity := pc.c)
  }

  /** The steps that change the capacity, close the channel or stop the timer; the timer's Stop waits for a
      running sweep. */
  function ControlStep(s: Pool, t: nat, pc: PC, a: Action): Outcome<Pool>
    requires t < |s.threads|
  {
    if pc.Idle? && a.StopSweeps? then
      if Total(Sweeper, s.threads) != 0 then Blocked else Next(s.(stopped := true))
    else if pc.Idle? && a.StartResize? then
      if a.c < 0 || a.c > s.maxCap then Next(s) else Next(ReadCapacity(s, t, a.c))
    else if pc.ResizeRead? && a.Advance? then Next(CompareAndSwap(s, t, pc))
    else if pc.Closing? && a.Advance? then
      if s.closed then Next(s.(panicked := true)) else Next(Goto(s, t, Idle).(closed := true))
    else Blocked
  }

  /** The step of goroutine t for action a; a blocked step does not happen. */
  function Step(s: Pool, t: nat, a: Action): Outcome<Pool>
    requires t < |s.threads|
  {
    var pc := s.threads[t];
    match MoveOf(s, pc, a)
    case Some(m) => Perform(s, t, pc, m)
    case None => ControlStep(s, t, pc, a)
  }

  /** The two caller obligations: resizes are serialised (the mutex of `backend/connection_pool.go`), and
      the idle timer is stopped before the pool is drained to zero (as Close does). Each can be waived. */
  ghost predicate AllowedUnder(serial: bool, stopFirst: bool, s: Pool, t: nat, a: Action) {
    && t < |s.threads|
    && (serial && a.StartResize? ==> Total(Resizer, s.threads) == 0)
    && (stopFirst && a.StartResize? && a.c == 0 ==> s.stopped)
  }

  ghost predicate Allowed(s: Pool, t: nat, a: Action) { AllowedUnder(true, true, s, t, a) }

  function Init(capacity: int, maxCap: int, n: nat): Pool {
    Pool(seq(if capacity < 0 then 0 else capacity, _ => None), maxCap, false, capacity, capacity, 0, 0, false, 0, {},
         seq(n, _ => Idle), false)
  }

  /** The pool after a sequence of scheduled actions; blocked ones leave it as it is. */
  function Run(s: Pool, trace: seq<(nat, Action)>): Pool {
    if trace == [] then s
    else
      var (t, a) := trace[|trace| - 1];
      var s' := Run(s, trace[..|trace| - 1]);
      if t >= |s'.threads| then s'
      else match Step(s', t, a)
        case Next(s'') => s''
        case Blocked => s'
  }

  ghost predicate DisciplinedUnder(serial: bool, stopFirst: bool, s: Pool, trace: seq<(nat, Action)>) {
    forall k :: 0 <= k < |trace| ==> AllowedUnder(serial, stopFirst, Run(s, trace[..k]), trace[k].0, trace[k].1)
  }

  ghost predicate Disciplined(s: Pool, trace: seq<(nat, Action)>) { DisciplinedUnder(true, true, s, trace) }

  // ---------------------------------------------------------------- invariant

  ghost predicate PcOk(s: Pool, pc: PC) {
    && (pc.ResizeRead? ==> 0 <= pc.c <= s.maxCap && pc.oldcap != pc.c && (pc.c == 0 ==> s.stopped))
    && (pc.Shrink? || pc.ShrinkGot? ==> pc.c == s.capacity && pc.k >= 0 && pc.c + pc.k <= s.maxCap)
    && (pc.Grow? || pc.GrowSent? ==> pc.c == s.capacity && pc.c > 0 && pc.k >= 0)
    && (pc.Closing? ==> s.capacity == 0)
  }

  ghost predicate Counters(s: Pool) {
    && |s.chan_| + Total(Tok, s.threads) == s.capacity + Total(Pending, s.threads)
    && s.available == |s.chan_| + Total(Avl, s.threads)
    && s.inUse == Total(InU, s.threads)
    && s.active == Live(s.chan_) + Total(Act, s.threads)
  }

  ghost predicate Control(s: Pool) {
    && 0 <= s.capacity <= s.maxCap && !s.panicked
    && Total(Resizer, s.threads) <= 1
    && (s.stopped ==> Total(Sweeper, s.threads) == 0)
    && (s.capacity == 0 ==> s.stopped)
    && (s.closed ==> s.capacity == 0 && Total(Resizer, s.threads) == 0)
    && forall t :: 0 <= t < |s.threads| ==> PcOk(s, s.threads[t])
  }

  ghost predicate Inv(s: Pool) { Counters(s) && Control(s) }

  // ---------------------------------------------------------------- sums

  lemma {:induction false} TotalUpdate(f: PC -> int, ts: seq<PC>, i: nat, x: PC)
    requires i < |ts|
    ensures Total(f, ts[i := x]) == Total(f, ts) - f(ts[i]) + f(x)
  {
    var n := |ts| - 1;
    if i == n {
      assert ts[i := x][..n] == ts[..n];
    } else {
      assert ts[i := x][..n] == ts[..n][i := x];
      TotalUpdate(f, ts[..n], i, x);
    }
  }

  /** A sum of non-negative weights is at least each of them. */
  lemma {:induction false} TotalAtLeast(f: PC -> int, ts: seq<PC>, i: nat)
    requires forall k :: 0 <= k < |ts| ==> f(ts[k]) >= 0
    ensures Total(f, ts) >= 0
    ensures i < |ts| ==> Total(f, ts) >= f(ts[i])
    decreases |ts|
  {
    if ts != [] {
      var n := |ts| - 1;
      assert forall k :: 0 <= k < n ==> ts[..n][k] == ts[k];
      TotalAtLeast(f, ts[..n], i);
    }
  }

  lemma {:induction false} TotalZero(f: PC -> int, ts: seq<PC>)
    requires forall k :: 0 <= k < |ts| ==> f(ts[k]) == 0
    ensures Total(f, ts) == 0
  {
    if ts != [] {
      var n := |ts| - 1;
      assert forall k :: 0 <= k < n ==> ts[..n][k] == ts[k];
      TotalZero(f, ts[..n]);
    }
  }

  lemma GotoTotals(s: Pool, t: nat, pc: PC)
    requires t < |s.threads|
    ensures var ts, was := s.threads[t := pc], s.threads[t];
            && Total(Tok, ts) == Total(Tok, s.threads) - Tok(was) + Tok(pc)
            && Total(Pending, ts) == Total(Pending, s.threads) - Pending(was) + Pending(pc)
            && Total(Avl, ts) == Total(Avl, s.threads) - Avl(was) + Avl(pc)
            && Total(InU, ts) == Total(InU, s.threads) - InU(was) + InU(pc)
            && Total(Act, ts) == Total(Act, s.threads) - Act(was) + Act(pc)
            && Total(Resizer, ts) == Total(Resizer, s.threads) - Resizer(was) + Resizer(pc)
            && Total(Sweeper, ts) == Total(Sweeper, s.threads) - Sweeper(was) + Sweeper(pc)
  {
    TotalUpdate(Tok, s.threads, t, pc);
    TotalUpdate(Pending, s.threads, t, pc);
    TotalUpdate(Avl, s.threads, t, pc);
    TotalUpdate(InU, s.threads, t, pc);
    TotalUpdate(Act, s.threads, t, pc);
    TotalUpdate(Resizer, s.threads, t, pc);
    TotalUpdate(Sweeper, s.threads, t, pc);
  }

  /** Without a resize in progress no token is pending. */
  lemma NoResizer(ts: seq<PC>)
    requires Total(Resizer, ts) == 0
    ensures Total(Pending, ts) == 0
    ensures forall k :: 0 <= k < |ts| ==> Resizer(ts[k]) == 0
  {
    forall k | 0 <= k < |ts| ensures Resizer(ts[k]) == 0 { TotalAtLeast(Resizer, ts, k); }
    TotalZero(Pending, ts);
  }

  /** With one resize in progress the pending tokens are its own. */
  lemma OneResizer(ts: seq<PC>, t: nat)
    requires t < |ts| && Resizer(ts[t]) == 1 && Total(Resizer, ts) <= 1
    ensures Total(Resizer, ts) == 1 && Total(Pending, ts) == Pending(ts[t])
    ensures forall k :: 0 <= k < |ts| && k != t ==> Resizer(ts[k]) == 0
  {
    var rest := ts[t := Idle];
    TotalUpdate(Resizer, ts, t, Idle);
    TotalUpdate(Pending, ts, t, Idle);
    TotalAtLeast(Resizer, rest, 0);
    NoResizer(rest);
    assert forall k :: 0 <= k < |ts| && k != t ==> rest[k] == ts[k];
  }

  lemma {:induction false} SomeResizer(ts: seq<PC>) returns (t: nat)
    requires Total(Resizer, ts) != 0
    ensures t < |ts| && Resizer(ts[t]) == 1
  {
    var n := |ts| - 1;
    if Resizer(ts[n]) == 1 { t := n; } else { t := SomeResizer(ts[..n]); }
  }

  // ---------------------------------------------------------------- room

  /** Tokens never exceed the channel's size, and a closed pool has none. */
  lemma TokensFit(s: Pool)
    requires Inv(s)
    ensures |s.chan_| + Total(Tok, s.threads) <= s.maxCap
    ensures s.closed ==> |s.chan_| + Total(Tok, s.threads) == 0
  {
    if Total(Resizer, s.threads) == 0 {
      NoResizer(s.threads);
    } else {
      var t := SomeResizer(s.threads);
      OneResizer(s.threads, t);
      assert PcOk(s, s.threads[t]);
    }
  }

  // ---------------------------------------------------------------- preservation

  lemma LiveAppend(ch: seq<Option<Resource>>, w: Option<Resource>)
    ensures Live(ch + [w]) == Live(ch) + Full(w)
  {
    if ch == [] {
      assert ch + [w] == [w];
    } else {
      assert (ch + [w])[1..] == ch[1..] + [w];
      LiveAppend(ch[1..], w);
    }
  }

  /** How a move changes the channel's length and its count of live resources. */
  function DLen(op: ChanOp): int { match op case Keep => 0 case Recv => -1 case Push(_) => 1 }

  function DLive(op: ChanOp, head: Option<Resource>): int {
    match op case Keep => 0 case Recv => -Full(head) case Push(w) => Full(w)
  }

  /** A move's counter updates are the change of its goroutine's weights and of the channel. */
  ghost predicate Balanced(pc: PC, m: Move, head: Option<Resource>) {
    var a, b := Weigh(pc), Weigh(m.to);
    && DLen(m.op) + b.tok - a.tok == b.pending - a.pending
    && m.dAvailable == DLen(m.op) + b.avl - a.avl
    && m.dInUse == b.inU - a.inU
    && m.dActive == DLive(m.op, head) + b.act - a.act
    && b.resizer <= a.resizer
  }

  lemma GetBalanced(pc: PC, a: Action, head: Option<Resource>, fresh_: Resource)
    requires GetMove(pc, a, head, fresh_).Some?
    ensures Balanced(pc, GetMove(pc, a, head, fresh_).value, head)
  {
  }

  lemma PutBalanced(pc: PC, a: Action, head: Option<Resource>)
    requires PutMove(pc, a).Some?
    ensures Balanced(pc, PutMove(pc, a).value, head)
  {
  }

  lemma SweepBalanced(pc: PC, a: Action, head: Option<Resource>, available: int, stopped: bool)
    requires SweepMove(pc, a, head, available, stopped).Some?
    ensures Balanced(pc, SweepMove(pc, a, head, available, stopped).value, head)
  {
  }

  lemma ResizeBalanced(pc: PC, a: Action, head: Option<Resource>)
    requires ResizeMove(pc, a, head).Some?
    requires pc.Shrink? || pc.Grow? ==> pc.k >= 0
    ensures Balanced(pc, ResizeMove(pc, a, head).value, head)
  {
  }

  lemma MoveBalanced(s: Pool, pc: PC, a: Action)
    requires MoveOf(s, pc, a).Some? && PcOk(s, pc)
    ensures Balanced(pc, MoveOf(s, pc, a).value, Head(s))
  {
    if Resizer(pc) == 1 { ResizeBalanced(pc, a, Head(s)); }
    else if Sweeper(pc) == 1 || a.StartSweep? { SweepBalanced(pc, a, Head(s), s.available, s.stopped); }
    else if InU(pc) == 1 || pc.PutReturned? { PutBalanced(pc, a, Head(s)); }
    else { GetBalanced(pc, a, Head(s), s.nextId); }
  }

  lemma ApplyKeepsCounters(s: Pool, t: nat, m: Move)
    requires Counters(s) && t < |s.threads| && (m.op.Recv? ==> s.chan_ != [])
    requires Balanced(s.threads[t], m, Head(s))
    ensures Counters(Apply(s, t, m))
  {
    GotoTotals(s, t, m.to);
    if m.op.Push? { LiveAppend(s.chan_, m.op.w); }
  }

  lemma ApplyKeepsControl(s: Pool, t: nat, m: Move)
    requires Control(s) && t < |s.threads| && (m.op.Recv? ==> s.chan_ != [])
    requires Resizer(m.to) <= Resizer(s.threads[t]) && PcOk(s, m.to)
    requires Sweeper(m.to) <= Sweeper(s.threads[t]) || !s.stopped
    ensures Control(Apply(s, t, m))
  {
    GotoTotals(s, t, m.to);
    TotalAtLeast(Sweeper, s.threads[t := m.to], 0);
    TotalAtLeast(Resizer, s.threads[t := m.to], 0);
    var s' := Apply(s, t, m);
    forall u | 0 <= u < |s'.threads| ensures PcOk(s', s'.threads[u]) {
      assert PcOk(s, if u == t then m.to else s.threads[u]);
    }
  }

  lemma MoveTarget(s: Pool, pc: PC, a: Action)
    requires MoveOf(s, pc, a).Some? && PcOk(s, pc)
    ensures PcOk(s, MoveOf(s, pc, a).value.to)
    ensures Sweeper(MoveOf(s, pc, a).value.to) <= Sweeper(pc) || !s.stopped
    ensures MoveOf(s, pc, a).value.op.Push? ==> Tok(pc) == 1 || (pc.Grow? && pc.k > 0)
    ensures MoveOf(s, pc, a).value.op.Recv? ==> pc.Idle? || Sweeper(pc) == 1 || Resizer(pc) == 1
  {
  }

  lemma PerformKeepsInv(s: Pool, t: nat, m: Move)
    requires Inv(s) && t < |s.threads| && Perform(s, t, s.threads[t], m).Next?
    requires Balanced(s.threads[t], m, Head(s)) && PcOk(s, m.to)
    requires Sweeper(m.to) <= Sweeper(s.threads[t]) || !s.stopped
    requires m.op.Push? ==> !s.closed && |s.chan_| < s.maxCap
    requires m.op.Recv? && s.chan_ == [] && s.closed ==> s.threads[t].Idle?
    ensures Inv(Perform(s, t, s.threads[t], m).s)
  {
    if m.op.Recv? && s.chan_ == [] {
      if !s.closed {
        ApplyKeepsCounters(s, t, Quiet(Idle));
        ApplyKeepsControl(s, t, Quiet(Idle));
        assert Apply(s, t, Quiet(Idle)) == Goto(s, t, Idle);
      }
    } else {
      ApplyKeepsCounters(s, t, m);
      ApplyKeepsControl(s, t, m);
    }
  }

  lemma PushHasRoom(s: Pool, t: nat, a: Action)
    requires Inv(s) && t < |s.threads| && MoveOf(s, s.threads[t], a).Some?
    ensures MoveOf(s, s.threads[t], a).value.op.Push? ==> !s.closed && |s.chan_| < s.maxCap
  {
    if MoveOf(s, s.threads[t], a).value.op.Push? { SenderHasRoom(s, t); }
  }

  /** On a closed channel no sweep and no resize runs. */
  lemma ClosedIsQuiet(s: Pool, t: nat)
    requires Inv(s) && s.closed && t < |s.threads|
    ensures Sweeper(s.threads[t]) != 1 && Resizer(s.threads[t]) != 1
  {
    TotalAtLeast(Sweeper, s.threads, t);
    TotalAtLeast(Resizer, s.threads, t);
  }

  lemma StepIsPerform(s: Pool, t: nat, a: Action)
    requires t < |s.threads| && MoveOf(s, s.threads[t], a).Some?
    ensures Step(s, t, a) == Perform(s, t, s.threads[t], MoveOf(s, s.threads[t], a).value)
  {
  }

  /** An ordinary step never panics and keeps the invariant. */
  lemma MovePreserves(s: Pool, t: nat, a: Action)
    requires Inv(s) && t < |s.threads| && MoveOf(s, s.threads[t], a).Some? && Step(s, t, a).Next?
    ensures Inv(Step(s, t, a).s)
  {
    var m := MoveOf(s, s.threads[t], a).value;
    StepIsPerform(s, t, a);
    PushHasRoom(s, t, a);
    assert PcOk(s, s.threads[t]);
    MoveBalanced(s, s.threads[t], a);
    MoveTarget(s, s.threads[t], a);
    if s.closed { ClosedIsQuiet(s, t); }
    PerformKeepsInv(s, t, m);
  }

  /** Whoever holds a token, and a growing resize, finds the channel open and with room: no Put panics. */
  lemma SenderHasRoom(s: Pool, t: nat)
    requires Inv(s) && t < |s.threads|
    requires Tok(s.threads[t]) == 1 || (s.threads[t].Grow? && s.threads[t].k > 0)
    ensures !s.closed && |s.chan_| < s.maxCap
  {
    if Tok(s.threads[t]) == 1 {
      TokensFit(s);
      TotalAtLeast(Tok, s.threads, t);
    } else {
      OneResizer(s.threads, t);
      TotalAtLeast(Tok, s.threads, t);
      assert PcOk(s, s.threads[t]);
    }
  }

  /** A jump of goroutine t that carries no token, with a new capacity and closed flag. */
  lemma JumpKeepsInv(s: Pool, t: nat, pc: PC, capacity: int, closed: bool)
    requires Inv(s) && t < |s.threads| && 0 <= capacity <= s.maxCap
    requires var was, to := Weigh(s.threads[t]), Weigh(pc);
             && was.tok == to.tok && was.avl == to.avl && was.inU == to.inU && was.act == to.act
             && was.sweeper == to.sweeper && to.pending - was.pending == s.capacity - capacity
             && Total(Resizer, s.threads) - was.resizer + to.resizer <= 1
             && (closed ==> capacity == 0 && Total(Resizer, s.threads) - was.resizer + to.resizer == 0)
    requires capacity == 0 ==> s.stopped
    requires PcOk(s.(capacity := capacity), pc)
    requires capacity != s.capacity ==> forall u :: 0 <= u < |s.threads| && u != t ==> Resizer(s.threads[u]) == 0
    ensures Inv(Goto(s, t, pc).(capacity := capacity, closed := closed))
  {
    GotoTotals(s, t, pc);
    var s' := Goto(s, t, pc).(capacity := capacity, closed := closed);
    assert Counters(s');
    OthersStayOk(s, t, pc, s');
  }

  lemma OthersStayOk(s: Pool, t: nat, pc: PC, s': Pool)
    requires Control(s) && t < |s.threads| && s'.threads == s.threads[t := pc] && PcOk(s', pc)
    requires s'.maxCap == s.maxCap && s'.stopped == s.stopped
    requires s'.capacity != s.capacity ==> forall u :: 0 <= u < |s.threads| && u != t ==> Resizer(s.threads[u]) == 0
    ensures forall u :: 0 <= u < |s'.threads| ==> PcOk(s', s'.threads[u])
  {
    forall u | 0 <= u < |s'.threads| ensures PcOk(s', s'.threads[u]) {
      if u != t { assert PcOk(s, s.threads[u]); }
    }
  }

  lemma ReadKeepsInv(s: Pool, t: nat, c: int)
    requires Inv(s) && t < |s.threads| && 0 <= c <= s.maxCap && (c == 0 ==> s.stopped)
    requires (s.threads[t].Idle? && Total(Resizer, s.threads) == 0) || s.threads[t].ResizeRead?
    ensures Inv(ReadCapacity(s, t, c))
  {
    TotalAtLeast(Resizer, s.threads, t);
    if s.threads[t].ResizeRead? { OneResizer(s.threads, t); }
    var pc := if s.capacity == 0 || s.capacity == c then Idle else ResizeRead(c, s.capacity);
    JumpKeepsInv(s, t, pc, s.capacity, s.closed);
    assert ReadCapacity(s, t, c) == Goto(s, t, pc).(capacity := s.capacity, closed := s.closed);
  }

  lemma SwapKeepsInv(s: Pool, t: nat)
    requires Inv(s) && t < |s.threads| && s.threads[t].ResizeRead?
    ensures Inv(CompareAndSwap(s, t, s.threads[t]))
  {
    var pc := s.threads[t];
    assert PcOk(s, pc);
    if s.capacity != pc.oldcap {
      ReadKeepsInv(s, t, pc.c);
    } else {
      OneResizer(s.threads, t);
      var to := if pc.c < pc.oldcap then Shrink(pc.c, pc.oldcap - pc.c) else Grow(pc.c, pc.c - pc.oldcap);
      JumpKeepsInv(s, t, to, pc.c, s.closed);
      assert CompareAndSwap(s, t, pc) == Goto(s, t, to).(capacity := pc.c, closed := s.closed);
    }
  }

  /** Steps that change the capacity, close the channel or stop the timer keep the invariant. */
  lemma ControlPreserves(s: Pool, t: nat, a: Action)
    requires Inv(s) && Allowed(s, t, a) && MoveOf(s, s.threads[t], a).None? && Step(s, t, a).Next?
    ensures Inv(Step(s, t, a).s)
  {
    var pc := s.threads[t];
    assert PcOk(s, pc);
    if pc.Idle? && a.StopSweeps? {
      var s' := s.(stopped := true);
      forall u | 0 <= u < |s'.threads| ensures PcOk(s', s'.threads[u]) { assert PcOk(s, s.threads[u]); }
    } else if pc.Idle? && a.StartResize? {
      if 0 <= a.c <= s.maxCap { ReadKeepsInv(s, t, a.c); }
    } else if pc.ResizeRead? {
      SwapKeepsInv(s, t);
    } else {
      OneResizer(s.threads, t);
      JumpKeepsInv(s, t, Idle, 0, true);
      assert Goto(s, t, Idle).(closed := true) == Goto(s, t, Idle).(capacity := 0, closed := true);
    }
  }

  lemma StepPreserves(s: Pool, t: nat, a: Action)
    requires Inv(s) && Allowed(s, t, a) && Step(s, t, a).Next?
    ensures Inv(Step(s, t, a).s)
  {
    if MoveOf(s, s.threads[t], a).Some? { MovePreserves(s, t, a); } else { ControlPreserves(s, t, a); }
  }

  // ---------------------------------------------------------------- runs

  lemma IdleTotals(ts: seq<PC>)
    requires forall k :: 0 <= k < |ts| ==> ts[k].Idle?
    ensures Total(Tok, ts) == Total(Pending, ts) == Total(Avl, ts) == 0
    ensures Total(InU, ts) == Total(Act, ts) == Total(Resizer, ts) == Total(Sweeper, ts) == 0
  {
    TotalZero(Tok, ts);
    TotalZero(Pending, ts);
    TotalZero(Avl, ts);
    TotalZero(InU, ts);
    TotalZero(Act, ts);
    TotalZero(Resizer, ts);
    TotalZero(Sweeper, ts);
  }

  /** A pool of empty tokens and idle goroutines. */
  lemma FreshInv(s: Pool)
    requires forall k :: 0 <= k < |s.threads| ==> s.threads[k].Idle?
    requires forall k :: 0 <= k < |s.chan_| ==> s.chan_[k].None?
    requires 0 < |s.chan_| == s.capacity == s.available <= s.maxCap && s.active == s.inUse == 0
    requires !s.closed && !s.stopped && !s.panicked
    ensures Inv(s)
  {
    IdleTotals(s.threads);
    LiveNone(s.chan_);
    assert Counters(s);
  }

  lemma InitInv(capacity: int, maxCap: int, n: nat)
    requires 0 < capacity <= maxCap
    ensures Inv(Init(capacity, maxCap, n))
  {
    FreshInv(Init(capacity, maxCap, n));
  }

  lemma {:induction false} LiveNone(ch: seq<Option<Resource>>)
    requires forall k :: 0 <= k < |ch| ==> ch[k].None?
    ensures Live(ch) == 0
  {
    if ch != [] { LiveNone(ch[1..]); }
  }

  lemma DisciplinedPrefix(s0: Pool, trace: seq<(nat, Action)>)
    requires trace != [] && Disciplined(s0, trace)
    ensures var k := |trace| - 1;
            Disciplined(s0, trace[..k]) && Allowed(Run(s0, trace[..k]), trace[k].0, trace[k].1)
  {
    var k := |trace| - 1;
    forall j | 0 <= j < k ensures Allowed(Run(s0, trace[..k][..j]), trace[..k][j].0, trace[..k][j].1) {
      assert trace[..k][..j] == trace[..j] && trace[..k][j] == trace[j];
    }
  }

  lemma RunKeepsInv(s: Pool, t: nat, a: Action)
    requires Inv(s) && Allowed(s, t, a)
    ensures Step(s, t, a).Next? ==> Inv(Step(s, t, a).s)
  {
    if Step(s, t, a).Next? { StepPreserves(s, t, a); }
  }

  lemma {:induction false} RunFrom(s0: Pool, trace: seq<(nat, Action)>)
    requires Inv(s0) && Disciplined(s0, trace)
    ensures Inv(Run(s0, trace))
  {
    if trace != [] {
      var k := |trace| - 1;
      DisciplinedPrefix(s0, trace);
      RunFrom(s0, trace[..k]);
      RunKeepsInv(Run(s0, trace[..k]), trace[k].0, trace[k].1);
    }
  }

  /** Under every interleaving of any number of goroutines, with factory failures, sweeps and serialised
      resizes: the counters and tokens balance, and nothing ever panics. */
  lemma RunSafe(capacity: int, maxCap: int, n: nat, trace: seq<(nat, Action)>)
    requires 0 < capacity <= maxCap && Disciplined(Init(capacity, maxCap, n), trace)
    ensures Inv(Run(Init(capacity, maxCap, n), trace))
  {
    InitInv(capacity, maxCap, n);
    RunFrom(Init(capacity, maxCap, n), trace);
  }

  /** No operation is under way: goroutines are idle or hold a checked-out resource. */
  ghost predicate Quiescent(s: Pool) {
    forall t :: 0 <= t < |s.threads| ==> s.threads[t].Idle? || s.threads[t].Using?
  }

  lemma {:induction false} UsingTotals(ts: seq<PC>)
    requires forall t :: 0 <= t < |ts| ==> ts[t].Idle? || ts[t].Using?
    ensures Total(Tok, ts) == Total(InU, ts) == Total(Act, ts) && Total(Pending, ts) == Total(Avl, ts) == 0
  {
    if ts != [] {
      var n := |ts| - 1;
      assert forall k :: 0 <= k < n ==> ts[..n][k] == ts[k];
      UsingTotals(ts[..n]);
    }
  }

  /** Whenever no operation is under way, the statistics are exact. */
  lemma QuiescentStatistics(capacity: int, maxCap: int, n: nat, trace: seq<(nat, Action)>)
    requires 0 < capacity <= maxCap && Disciplined(Init(capacity, maxCap, n), trace)
    requires Quiescent(Run(Init(capacity, maxCap, n), trace))
    ensures var s := Run(Init(capacity, maxCap, n), trace);
            && s.available == |s.chan_| == s.capacity - s.inUse
            && s.active == Live(s.chan_) + s.inUse
            && !s.panicked
  {
    RunSafe(capacity, maxCap, n, trace);
    UsingTotals(Run(Init(capacity, maxCap, n), trace).threads);
  }

  // ---------------------------------------------------------------- ownership

  /** How often resource r is in the channel or in a goroutine's hands. */
  function Owners(s: Pool, r: Resource): int { Copies(s.chan_, r) + Total(Holds(r), s.threads) }

  /** A resource is in at most one place; before it is made and once it is closed it is nowhere. */
  ghost predicate OwnedOnce(s: Pool, r: Resource) {
    && Owners(s, r) <= 1
    && (r >= s.nextId ==> Owners(s, r) == 0)
    && (r in s.dead ==> Owners(s, r) == 0 && r < s.nextId)
  }

  function DCopies(op: ChanOp, head: Option<Resource>, r: Resource): int {
    match op
    case Keep => 0
    case Recv => if head == Some(r) then -1 else 0
    case Push(w) => if w == Some(r) then 1 else 0
  }

  /** A move passes a resource on, except that it may make one or close the one it holds. */
  ghost predicate Conserves(pc: PC, m: Move, head: Option<Resource>, fresh_: Resource, r: Resource) {
    && DCopies(m.op, head, r) + HoldsIt(r, m.to) - HoldsIt(r, pc)
       == (if m.makes && r == fresh_ then 1 else 0) - (if r in m.kill then 1 else 0)
    && (r in m.kill ==> HoldsIt(r, pc) == 1 && !m.makes)
  }

  lemma GetConserves(pc: PC, a: Action, head: Option<Resource>, fresh_: Resource, r: Resource)
    requires GetMove(pc, a, head, fresh_).Some?
    ensures Conserves(pc, GetMove(pc, a, head, fresh_).value, head, fresh_, r)
  {
  }

  lemma PutConserves(pc: PC, a: Action, head: Option<Resource>, fresh_: Resource, r: Resource)
    requires PutMove(pc, a).Some?
    ensures Conserves(pc, PutMove(pc, a).value, head, fresh_, r)
  {
  }

  lemma SweepConserves(s: Pool, pc: PC, a: Action, r: Resource)
    requires SweepMove(pc, a, Head(s), s.available, s.stopped).Some?
    ensures Conserves(pc, SweepMove(pc, a, Head(s), s.available, s.stopped).value, Head(s), s.nextId, r)
  {
  }

  lemma ResizeConserves(pc: PC, a: Action, head: Option<Resource>, fresh_: Resource, r: Resource)
    requires ResizeMove(pc, a, head).Some?
    ensures Conserves(pc, ResizeMove(pc, a, head).value, head, fresh_, r)
  {
  }

  lemma MoveConserves(s: Pool, pc: PC, a: Action, r: Resource)
    requires MoveOf(s, pc, a).Some?
    ensures Conserves(pc, MoveOf(s, pc, a).value, Head(s), s.nextId, r)
  {
    if Resizer(pc) == 1 { ResizeConserves(pc, a, Head(s), s.nextId, r); }
    else if Sweeper(pc) == 1 || a.StartSweep? { SweepConserves(s, pc, a, r); }
    else if InU(pc) == 1 || pc.PutReturned? { PutConserves(pc, a, Head(s), s.nextId, r); }
    else { GetConserves(pc, a, Head(s), s.nextId, r); }
  }

  lemma {:induction false} CopiesAppend(ch: seq<Option<Resource>>, w: Option<Resource>, r: Resource)
    ensures Copies(ch + [w], r) == Copies(ch, r) + if w == Some(r) then 1 else 0
  {
    if ch == [] {
      assert ch + [w] == [w];
    } else {
      assert (ch + [w])[1..] == ch[1..] + [w];
      CopiesAppend(ch[1..], w, r);
    }
  }

  lemma ApplyOwnedOnce(s: Pool, t: nat, m: Move, r: Resource)
    requires OwnedOnce(s, r) && t < |s.threads| && (m.op.Recv? ==> s.chan_ != [])
    requires Conserves(s.threads[t], m, Head(s), s.nextId, r)
    ensures OwnedOnce(Apply(s, t, m), r)
  {
    TotalUpdate(Holds(r), s.threads, t, m.to);
    TotalAtLeast(Holds(r), s.threads, t);
    if m.op.Push? { CopiesAppend(s.chan_, m.op.w, r); }
  }

  lemma GotoOwnedOnce(s: Pool, s': Pool, t: nat, pc: PC, r: Resource)
    requires OwnedOnce(s, r) && t < |s.threads| && HoldsIt(r, pc) == HoldsIt(r, s.threads[t])
    requires s'.threads == s.threads[t := pc] && s'.chan_ == s.chan_ && s'.dead == s.dead && s'.nextId == s.nextId
    ensures OwnedOnce(s', r)
  {
    TotalUpdate(Holds(r), s.threads, t, pc);
  }

  lemma PerformOwnedOnce(s: Pool, t: nat, m: Move, r: Resource)
    requires OwnedOnce(s, r) && t < |s.threads| && Perform(s, t, s.threads[t], m).Next?
    requires Conserves(s.threads[t], m, Head(s), s.nextId, r)
    requires m.op.Recv? ==> HoldsIt(r, s.threads[t]) == 0 && !m.makes && m.kill == {}
    ensures OwnedOnce(Perform(s, t, s.threads[t], m).s, r)
  {
    if m.op.Push? && (s.closed || |s.chan_| >= s.maxCap) {
    } else if m.op.Recv? && s.chan_ == [] {
      GotoOwnedOnce(s, Goto(s, t, Idle), t, Idle, r);
      GotoOwnedOnce(s, Goto(s, t, m.to), t, m.to, r);
    } else {
      ApplyOwnedOnce(s, t, m, r);
    }
  }

  lemma ReceiversEmptyHanded(s: Pool, pc: PC, a: Action, r: Resource)
    requires MoveOf(s, pc, a).Some? && MoveOf(s, pc, a).value.op.Recv?
    ensures HoldsIt(r, pc) == 0 && !MoveOf(s, pc, a).value.makes && MoveOf(s, pc, a).value.kill == {}
  {
  }

  lemma ReadOwnedOnce(s: Pool, t: nat, c: int, r: Resource)
    requires OwnedOnce(s, r) && t < |s.threads| && HoldsIt(r, s.threads[t]) == 0
    ensures OwnedOnce(ReadCapacity(s, t, c), r)
  {
    GotoOwnedOnce(s, Goto(s, t, Idle), t, Idle, r);
    GotoOwnedOnce(s, Goto(s, t, ResizeRead(c, s.capacity)), t, ResizeRead(c, s.capacity), r);
  }

  lemma ControlOwnedOnce(s: Pool, t: nat, a: Action, r: Resource)
    requires OwnedOnce(s, r) && t < |s.threads| && ControlStep(s, t, s.threads[t], a).Next?
    ensures OwnedOnce(ControlStep(s, t, s.threads[t], a).s, r)
  {
    var pc := s.threads[t];
    if pc.ResizeRead? {
      ReadOwnedOnce(s, t, pc.c, r);
      if s.capacity == pc.oldcap {
        var to := if pc.c < pc.oldcap then Shrink(pc.c, pc.oldcap - pc.c) else Grow(pc.c, pc.c - pc.oldcap);
        GotoOwnedOnce(s, CompareAndSwap(s, t, pc), t, to, r);
      }
    } else if a.StartResize? {
      ReadOwnedOnce(s, t, a.c, r);
    } else if pc.Closing? {
      GotoOwnedOnce(s, Goto(s, t, Idle).(closed := true), t, Idle, r);
    }
  }

  lemma StepOwnedOnce(s: Pool, t: nat, a: Action, r: Resource)
    requires OwnedOnce(s, r) && t < |s.threads| && Step(s, t, a).Next?
    ensures OwnedOnce(Step(s, t, a).s, r)
  {
    var pc := s.threads[t];
    if MoveOf(s, pc, a).Some? {
      MoveConserves(s, pc, a, r);
      if MoveOf(s, pc, a).value.op.Recv? { ReceiversEmptyHanded(s, pc, a, r); }
      PerformOwnedOnce(s, t, MoveOf(s, pc, a).value, r);
    } else {
      ControlOwnedOnce(s, t, a, r);
    }
  }

  lemma {:induction false} RunOwnedOnce(capacity: int, maxCap: int, n: nat, trace: seq<(nat, Action)>, r: Resource)
    ensures OwnedOnce(Run(Init(capacity, maxCap, n), trace), r)
  {
    var s0 := Init(capacity, maxCap, n);
    if trace == [] {
      TotalZero(Holds(r), s0.threads);
      CopiesNone(s0.chan_, r);
    } else {
      var k := |trace| - 1;
      RunOwnedOnce(capacity, maxCap, n, trace[..k], r);
      var s := Run(s0, trace[..k]);
      if trace[k].0 < |s.threads| && Step(s, trace[k].0, trace[k].1).Next? {
        StepOwnedOnce(s, trace[k].0, trace[k].1, r);
      }
    }
  }

  lemma {:induction false} CopiesNone(ch: seq<Option<Resource>>, r: Resource)
    requires forall k :: 0 <= k < |ch| ==> ch[k].None?
    ensures Copies(ch, r) == 0
  {
    if ch != [] { CopiesNone(ch[1..], r); }
  }

  /** In every run, disciplined or not, no two goroutines hold the same connection, none that is held is
      also in the channel, and a connection once closed is never held again. */
  lemma CheckedOutExclusive(capacity: int, maxCap: int, n: nat, trace: seq<(nat, Action)>, t: nat, u: nat)
    requires var s := Run(Init(capacity, maxCap, n), trace);
             t < |s.threads| && u < |s.threads| && t != u && s.threads[t].Using?
    ensures var s := Run(Init(capacity, maxCap, n), trace);
            var r := s.threads[t].r;
            HoldsIt(r, s.threads[u]) == 0 && Some(r) !in s.chan_ && r !in s.dead
  {
    var s := Run(Init(capacity, maxCap, n), trace);
    var r := s.threads[t].r;
    RunOwnedOnce(capacity, maxCap, n, trace, r);
    var rest := s.threads[t := Idle];
    TotalUpdate(Holds(r), s.threads, t, Idle);
    assert rest[u] == s.threads[u];
    TotalAtLeast(Holds(r), rest, u);
    if Some(r) in s.chan_ { CopiesPositive(s.chan_, r); }
  }

  lemma {:induction false} CopiesPositive(ch: seq<Option<Resource>>, r: Resource)
    requires Some(r) in ch
    ensures Copies(ch, r) >= 1
  {
    if ch[0] != Some(r) { CopiesPositive(ch[1..], r); }
  }

  // ---------------------------------------------------------------- why the discipline is needed

  /** Some schedule that keeps the obligations asked for panics. */
  ghost predicate Panics(serial: bool, stopFirst: bool, s: Pool) {
    exists trace :: DisciplinedUnder(serial, stopFirst, s, trace) && Run(s, trace).panicked
  }

  /** The two pools agree, field by field. */
  ghost predicate Same(s: Pool, s': Pool) {
    && s.threads == s'.threads && s.chan_ == s'.chan_ && s.dead == s'.dead
    && s.(threads := s'.threads, chan_ := s'.chan_, dead := s'.dead) == s'
  }

  lemma {:induction false} RunCons(s: Pool, t: nat, a: Action, next: Pool, trace: seq<(nat, Action)>)
    requires t < |s.threads| && Step(s, t, a) == Next(next)
    ensures Run(s, [(t, a)] + trace) == Run(next, trace)
  {
    var k := |trace|;
    var longer := [(t, a)] + trace;
    if k == 0 {
      assert longer == [(t, a)] && longer[..0] == [] && trace == [];
    } else {
      assert longer[..k] == [(t, a)] + trace[..k - 1] && longer[k] == trace[k - 1];
      RunCons(s, t, a, next, trace[..k - 1]);
    }
  }

  lemma Earlier(serial: bool, stopFirst: bool, s: Pool, t: nat, a: Action, next: Pool)
    requires AllowedUnder(serial, stopFirst, s, t, a) && Step(s, t, a) == Next(next) && Panics(serial, stopFirst, next)
    ensures Panics(serial, stopFirst, s)
  {
    var trace :| DisciplinedUnder(serial, stopFirst, next, trace) && Run(next, trace).panicked;
    RunCons(s, t, a, next, trace);
    DisciplinedCons(serial, stopFirst, s, t, a, next, trace);
  }

  lemma DisciplinedCons(serial: bool, stopFirst: bool, s: Pool, t: nat, a: Action, next: Pool,
                        trace: seq<(nat, Action)>)
    requires AllowedUnder(serial, stopFirst, s, t, a) && Step(s, t, a) == Next(next)
    requires DisciplinedUnder(serial, stopFirst, next, trace)
    ensures DisciplinedUnder(serial, stopFirst, s, [(t, a)] + trace)
  {
    var longer := [(t, a)] + trace;
    forall k | 0 <= k < |longer|
      ensures AllowedUnder(serial, stopFirst, Run(s, longer[..k]), longer[k].0, longer[k].1)
    {
      if k == 0 {
        assert longer[..0] == [];
      } else {
        assert longer[..k] == [(t, a)] + trace[..k - 1] && longer[k] == trace[k - 1];
        RunCons(s, t, a, next, trace[..k - 1]);
      }
    }
  }

  lemma Panicked(serial: bool, stopFirst: bool, s: Pool)
    requires s.panicked
    ensures Panics(serial, stopFirst, s)
  {
    assert Run(s, []) == s && DisciplinedUnder(serial, stopFirst, s, []);
  }

  /** `bad` holds of a panicked pool, and of one that an allowed step leads to a bad one. */
  ghost predicate Fatal(serial: bool, stopFirst: bool, bad: Pool -> bool) {
    && (forall s: Pool :: s.panicked ==> bad(s))
    && (forall s, t: nat, a :: AllowedUnder(serial, stopFirst, s, t, a) && Step(s, t, a).Next? && bad(Step(s, t, a).s)
                               ==> bad(s))
  }

  lemma PanicsIsFatal(serial: bool, stopFirst: bool)
    ensures Fatal(serial, stopFirst, s => Panics(serial, stopFirst, s))
  {
    forall s: Pool | s.panicked ensures Panics(serial, stopFirst, s) { Panicked(serial, stopFirst, s); }
    forall s, t: nat, a | AllowedUnder(serial, stopFirst, s, t, a) && Step(s, t, a).Next?
                          && Panics(serial, stopFirst, Step(s, t, a).s)
      ensures Panics(serial, stopFirst, s)
    {
      Earlier(serial, stopFirst, s, t, a, Step(s, t, a).s);
    }
  }

  /** A panic after an ordinary step. */
  lemma MoveEarlier(serial: bool, stopFirst: bool, bad: Pool -> bool, s: Pool, t: nat, a: Action, m: Move, next: Pool)
    requires t < |s.threads| && !a.StartResize? && MoveOf(s, s.threads[t], a) == Some(m)
    requires Perform(s, t, s.threads[t], m).Next? && Same(Perform(s, t, s.threads[t], m).s, next)
    requires Fatal(serial, stopFirst, bad) && bad(next)
    ensures bad(s)
  {
    assert Step(s, t, a) == Next(next);
  }

  /** A panic after SetCapacity read the capacity. */
  lemma ReadEarlier(serial: bool, stopFirst: bool, bad: Pool -> bool, s: Pool, t: nat, c: int, next: Pool)
    requires AllowedUnder(serial, stopFirst, s, t, StartResize(c)) && s.threads[t].Idle? && 0 <= c <= s.maxCap
    requires Same(ReadCapacity(s, t, c), next)
    requires Fatal(serial, stopFirst, bad) && bad(next)
    ensures bad(s)
  {
    assert Step(s, t, StartResize(c)) == Next(next);
  }

  lemma SwapEarlier(serial: bool, stopFirst: bool, bad: Pool -> bool, s: Pool, t: nat, next: Pool)
    requires t < |s.threads| && s.threads[t].ResizeRead?
    requires Same(CompareAndSwap(s, t, s.threads[t]), next)
    requires Fatal(serial, stopFirst, bad) && bad(next)
    ensures bad(s)
  {
    assert Step(s, t, Advance) == Next(next);
  }

  lemma CloseEarlier(serial: bool, stopFirst: bool, bad: Pool -> bool, s: Pool, t: nat, next: Pool)
    requires t < |s.threads| && s.threads[t].Closing? && !s.closed
    requires Same(Goto(s, t, Idle).(closed := true), next)
    requires Fatal(serial, stopFirst, bad) && bad(next)
    ensures bad(s)
  {
    assert Step(s, t, Advance) == Next(next);
  }

  lemma StopEarlier(serial: bool, stopFirst: bool, bad: Pool -> bool, s: Pool, t: nat)
    requires t < |s.threads| && s.threads[t].Idle? && Total(Sweeper, s.threads) == 0
    requires Fatal(serial, stopFirst, bad) && bad(s.(stopped := true))
    ensures bad(s)
  {
    assert Step(s, t, StopSweeps) == Next(s.(stopped := true));
  }

  /** SetCapacity(0), past its swap, with one token to receive: the receive, the counter, the close. */
  lemma DrainEarlier(serial: bool, stopFirst: bool, bad: Pool -> bool, s: Pool, t: nat, next: Pool)
    requires t < |s.threads| && s.threads[t] == Shrink(0, 1) && s.chan_ == [None] && !s.closed
    requires Same(Goto(s, t, Idle).(chan_ := [], available := s.available - 1, closed := true), next)
    requires Fatal(serial, stopFirst, bad) && bad(next)
    ensures bad(s)
  {
    var s1 := Goto(s, t, ShrinkGot(0, 0, None)).(chan_ := []);
    var s2 := Goto(s, t, Shrink(0, 0)).(chan_ := [], available := s.available - 1);
    var s3 := Goto(s, t, Closing).(chan_ := [], available := s.available - 1);
    CloseEarlier(serial, stopFirst, bad, s3, t, next);
    MoveEarlier(serial, stopFirst, bad, s2, t, Advance, Quiet(Closing), s3);
    MoveEarlier(serial, stopFirst, bad, s1, t, Advance, Quiet(Shrink(0, 0)).(dAvailable := -1), s2);
    MoveEarlier(serial, stopFirst, bad, s, t, Advance, Quiet(ShrinkGot(0, 0, None)).(op := Recv), s1);
  }

  // Each schedule below is followed from its last state back to its first.

  /** A pool of one connection and two goroutines: the first sweeps, the second runs SetCapacity(0) with the
      timer still on. */
  function Tiny(ch: seq<Option<Resource>>, closed: bool, capacity: int, available: int, pc0: PC, pc1: PC): Pool {
    Pool(ch, 1, closed, capacity, available, 0, 0, false, 0, {}, [pc0, pc1], false)
  }

  lemma UnstoppedTake(bad: Pool -> bool)
    requires Fatal(true, false, bad)
    ensures bad(Tiny([], true, 0, 0, Sweep(1), Idle))
  {
    var s := Tiny([], true, 0, 0, SweepGot(0, None), Idle);
    MoveEarlier(true, false, bad, s, 0, Advance, Quiet(Sweep(0)).(op := Push(None)), s.(panicked := true));
    MoveEarlier(true, false, bad, Tiny([], true, 0, 0, Sweep(1), Idle), 0, Advance,
                Quiet(SweepGot(0, None)).(op := Recv), s);
  }

  lemma UnstoppedResize(bad: Pool -> bool)
    requires Fatal(true, false, bad)
    ensures bad(Tiny([None], false, 1, 1, Sweep(1), ResizeRead(0, 1)))
  {
    UnstoppedTake(bad);
    DrainEarlier(true, false, bad, Tiny([None], false, 0, 1, Sweep(1), Shrink(0, 1)), 1,
                 Tiny([], true, 0, 0, Sweep(1), Idle));
    SwapEarlier(true, false, bad, Tiny([None], false, 1, 1, Sweep(1), ResizeRead(0, 1)), 1,
                Tiny([None], false, 0, 1, Sweep(1), Shrink(0, 1)));
  }

  lemma UnstoppedStart(bad: Pool -> bool)
    requires Fatal(true, false, bad)
    ensures bad(Init(1, 1, 2))
  {
    var s := Tiny([None], false, 1, 1, Sweep(1), Idle);
    UnstoppedResize(bad);
    TotalZero(Resizer, s.threads);
    ReadEarlier(true, false, bad, s, 1, 0, Tiny([None], false, 1, 1, Sweep(1), ResizeRead(0, 1)));
    MoveEarlier(true, false, bad, Init(1, 1, 2), 0, StartSweep, Quiet(Sweep(1)), s);
  }

  /** Resizes one at a time, but SetCapacity(0) without stopping the timer first: the sweep takes a zero
      wrapper from the closed channel and panics sending it back. */
  lemma UnstoppedSweepPanics()
    ensures Panics(true, false, Init(1, 1, 2))
  {
    PanicsIsFatal(true, false);
    UnstoppedStart(s => Panics(true, false, s));
  }

  /** A pool of two connections and three goroutines: the first's connection attempt fails and it still holds
      its token, the second shrinks the pool by one, the third closes it before the second has received. */
  function Duo(ch: seq<Option<Resource>>, closed: bool, capacity: int, available: int, stopped: bool,
               pc0: PC, pc1: PC, pc2: PC): Pool {
    Pool(ch, 2, closed, capacity, available, 0, 0, stopped, 0, {}, [pc0, pc1, pc2], false)
  }

  lemma OverlapClose(bad: Pool -> bool)
    requires Fatal(false, true, bad)
    ensures bad(Duo([None], false, 1, 2, true, GetFailed, Shrink(1, 1), ResizeRead(0, 1)))
  {
    var s := Duo([], true, 0, 1, true, GetFailed, Shrink(1, 1), Idle);
    var s' := Duo([None], false, 0, 2, true, GetFailed, Shrink(1, 1), Shrink(0, 1));
    MoveEarlier(false, true, bad, s, 0, Advance, Quiet(Idle).(op := Push(None)), s.(panicked := true));
    DrainEarlier(false, true, bad, s', 2, s);
    SwapEarlier(false, true, bad, Duo([None], false, 1, 2, true, GetFailed, Shrink(1, 1), ResizeRead(0, 1)), 2, s');
  }

  lemma OverlapShrink(bad: Pool -> bool)
    requires Fatal(false, true, bad)
    ensures bad(Duo([None], false, 2, 2, true, GetFailed, Idle, Idle))
  {
    var s := Duo([None], false, 1, 2, true, GetFailed, Shrink(1, 1), Idle);
    var s' := Duo([None], false, 2, 2, true, GetFailed, ResizeRead(1, 2), Idle);
    OverlapClose(bad);
    ReadEarlier(false, true, bad, s, 2, 0, Duo([None], false, 1, 2, true, GetFailed, Shrink(1, 1), ResizeRead(0, 1)));
    SwapEarlier(false, true, bad, s', 1, s);
    ReadEarlier(false, true, bad, Duo([None], false, 2, 2, true, GetFailed, Idle, Idle), 1, 1, s');
  }

  lemma OverlapStart(bad: Pool -> bool)
    requires Fatal(false, true, bad)
    ensures bad(Init(2, 2, 3))
  {
    var s := Duo([None], false, 2, 2, false, GetFailed, Idle, Idle);
    var s' := Duo([None], false, 2, 2, false, GetGot(None), Idle, Idle);
    OverlapShrink(bad);
    TotalZero(Sweeper, s.threads);
    StopEarlier(false, true, bad, s, 2);
    MoveEarlier(false, true, bad, s', 0, FactoryFail, Quiet(GetFailed), s);
    MoveEarlier(false, true, bad, Init(2, 2, 3), 0, Receive, Quiet(GetGot(None)).(op := Recv), s');
  }

  /** The timer stopped first, but two resizes at once: the second closes the channel while a token is still
      out, and returning it panics. The pool's Close releases its lock before it drains the resource pool, so
      it can meet a SetCapacity in progress. */
  lemma OverlappingResizePanics()
    ensures Panics(false, true, Init(2, 2, 3))
  {
    PanicsIsFatal(false, true);
    OverlapStart(s => Panics(false, true, s));
  }

  /** Waiving an obligation only adds schedules. */
  lemma FewerObligations(serial: bool, stopFirst: bool, serial': bool, stopFirst': bool, s: Pool)
    requires (serial' ==> serial) && (stopFirst' ==> stopFirst) && Panics(serial, stopFirst, s)
    ensures Panics(serial', stopFirst', s)
  {
    var trace :| DisciplinedUnder(serial, stopFirst, s, trace) && Run(s, trace).panicked;
    assert DisciplinedUnder(serial', stopFirst', s, trace);
  }

  /** No schedule of any pool panics exactly when both obligations are kept. */
  lemma SafeIffDisciplined(serial: bool, stopFirst: bool)
    ensures (forall capacity, maxCap, n: nat :: 0 < capacity <= maxCap ==>
                                                !Panics(serial, stopFirst, Init(capacity, maxCap, n)))
            <==> serial && stopFirst
  {
    if serial && stopFirst {
      forall capacity, maxCap, n: nat | 0 < capacity <= maxCap
        ensures !Panics(true, true, Init(capacity, maxCap, n))
      {
        forall trace | Disciplined(Init(capacity, maxCap, n), trace)
          ensures !Run(Init(capacity, maxCap, n), trace).panicked
        {
          RunSafe(capacity, maxCap, n, trace);
        }
      }
    } else if stopFirst {
      OverlappingResizePanics();
    } else {
      UnstoppedSweepPanics();
      FewerObligations(true, false, serial, stopFirst, Init(1, 1, 2));
    }
  }
}
