/** The acceptor, the workers and the shutdown, in every interleaving of their steps. */
module ServerRuns {
  import opened ClientLimit
  import opened ConnQueue

  // ----- states -----

  /** The main thread: it accepts connections one at a time, and then stops the workers. */
  datatype Main =
    | Accepting
    | Took(c: Conn)       // accepted
    | Admitted(c: Conn)   // counted by client_limit
    | Full(c: Conn)       // refused by queue_push, still counted
    | Refused(c: Conn)    // about to be rejected and closed
    | Draining            // in stop_workers, holding the queue's lock
    | Drained(c: Conn)    // taken off the queue, no longer counted, about to be closed
    | Joining             // the lock is free again; waiting for the workers
    | Over

  datatype Worker =
    | Idle
    | Popped(c: Conn)
    | Serving(c: Conn)    // registered as w->socket
    | Closed(c: Conn)     // closed, still counted
    | Done

  datatype State = State(main: Main, workers: seq<Worker>, queue: seq<Conn>, table: seq<Slot>, next: nat,
                         closed: seq<nat>, order: seq<nat>)

  predicate Stopping(m: Main) { m.Draining? || m.Drained? || m.Joining? || m.Over? }

  predicate LockFree(m: Main) { !m.Draining? && !m.Drained? }

  // ----- steps -----

  datatype Event =
    | Accept(fd: nat, ip: nat)
    | NonblockFails
    | Admit(now: int)
    | Enqueue
    | Uncount(now: int)
    | Reject
    | Stop
    | DrainOne(now: int)
    | DrainClose
    | Unlock
    | Join
    | Pop(w: nat)
    | Leave(w: nat)
    | Register(w: nat)
    | Ask(w: nat, now: int)
    | Close(w: nat)
    | Release(w: nat, now: int)

  predicate Enabled(s: State, e: Event) {
    match e
    case Accept(_, _) => s.main.Accepting?
    case NonblockFails => s.main.Took?
    case Admit(_) => s.main.Took?
    case Enqueue => s.main.Admitted?
    case Uncount(_) => s.main.Full?
    case Reject => s.main.Refused?
    case Stop => s.main.Accepting?
    case DrainOne(_) => s.main.Draining? && s.queue != []
    case DrainClose => s.main.Drained?
    case Unlock => s.main.Draining? && s.queue == []
    case Join => s.main.Joining? && forall w :: 0 <= w < |s.workers| ==> s.workers[w].Done?
    case Pop(w) => w < |s.workers| && s.workers[w].Idle? && s.queue != [] && LockFree(s.main)
    case Leave(w) => w < |s.workers| && s.workers[w].Idle? && s.queue == [] && Stopping(s.main) && LockFree(s.main)
    case Register(w) => w < |s.workers| && s.workers[w].Popped? && LockFree(s.main)
    case Ask(w, _) => w < |s.workers| && s.workers[w].Serving?
    case Close(w) => w < |s.workers| && s.workers[w].Serving? && LockFree(s.main)
    case Release(w, _) => w < |s.workers| && s.workers[w].Closed?
  }

  function Apply(s: State, e: Event, l: Limits): State
    requires Enabled(s, e)
  {
    match e
    case Accept(fd, ip) => s.(main := Took(Conn(s.next, fd, ip)), next := s.next + 1)
    case NonblockFails => s.(main := Accepting, closed := s.closed + [s.main.c.id])
    case Admit(now) =>
      var r := Limit(s.table, s.main.c.ip, Connect, now, l);
      s.(main := if r.ok then Admitted(s.main.c) else Refused(s.main.c), table := r.table)
    case Enqueue =>
      if |s.queue| < SERVER_QUEUE then s.(main := Accepting, queue := s.queue + [s.main.c]) else s.(main := Full(s.main.c))
    case Uncount(now) => s.(main := Refused(s.main.c), table := Limit(s.table, s.main.c.ip, Disconnect, now, l).table)
    case Reject => s.(main := Accepting, closed := s.closed + [s.main.c.id])
    case Stop => s.(main := Draining)
    case DrainOne(now) =>
      s.(main := Drained(s.queue[0]), queue := s.queue[1..], order := s.order + [s.queue[0].id],
         table := Limit(s.table, s.queue[0].ip, Disconnect, now, l).table)
    case DrainClose => s.(main := Draining, closed := s.closed + [s.main.c.id])
    case Unlock => s.(main := Joining)
    case Join => s.(main := Over)
    case Pop(w) =>
      s.(workers := s.workers[w := Popped(s.queue[0])], queue := s.queue[1..], order := s.order + [s.queue[0].id])
    case Leave(w) => s.(workers := s.workers[w := Done])
    case Register(w) => s.(workers := s.workers[w := Serving(s.workers[w].c)])
    case Ask(w, now) => s.(table := Limit(s.table, s.workers[w].c.ip, Request, now, l).table)
    case Close(w) =>
      s.(workers := s.workers[w := Worker.Closed(s.workers[w].c)], closed := s.closed + [s.workers[w].c.id])
    case Release(w, now) =>
      s.(workers := s.workers[w := Idle], table := Limit(s.table, s.workers[w].c.ip, Disconnect, now, l).table)
  }

  // ----- who holds what -----

  function One(b: bool): nat { if b then 1 else 0 }

  function MainHolds(m: Main, id: nat): nat {
    One((m.Took? || m.Admitted? || m.Full? || m.Refused? || m.Drained?) && m.c.id == id)
  }

  function MainCounts(m: Main, ip: nat): nat { One((m.Admitted? || m.Full?) && m.c.ip == ip) }

  function WorkerHolds(w: Worker, id: nat): nat { One((w.Popped? || w.Serving?) && w.c.id == id) }

  function WorkerCounts(w: Worker, ip: nat): nat { One((w.Popped? || w.Serving? || w.Closed?) && w.c.ip == ip) }

  function IsId(c: Conn, id: nat): nat { One(c.id == id) }
  function IsIp(c: Conn, ip: nat): nat { One(c.ip == ip) }
  function IsNat(x: nat, id: nat): nat { One(x == id) }

  function Total<T>(ts: seq<T>, f: (T, nat) -> nat, k: nat): nat {
    if ts == [] then 0 else f(ts[0], k) + Total(ts[1..], f, k)
  }

  lemma {:induction false} TotalUpdate<T>(ts: seq<T>, f: (T, nat) -> nat, k: nat, i: nat, t: T)
    requires i < |ts|
    ensures Total(ts[i := t], f, k) + f(ts[i], k) == Total(ts, f, k) + f(t, k)
    decreases i
  {
    var us := ts[i := t];
    if i == 0 {
      assert us[1..] == ts[1..];
    } else {
      TotalUpdate(ts[1..], f, k, i - 1, t);
      assert us[1..] == ts[1..][i - 1 := t];
    }
  }

  lemma {:induction false} TotalAppend<T>(ts: seq<T>, f: (T, nat) -> nat, k: nat, t: T)
    ensures Total(ts + [t], f, k) == Total(ts, f, k) + f(t, k)
    decreases |ts|
  {
    if ts == [] {
      assert ts + [t] == [t] && [t][1..] == [];
      assert Total([t], f, k) == f(t, k) + Total([], f, k);
    } else {
      TotalAppend(ts[1..], f, k, t);
      assert (ts + [t])[1..] == ts[1..] + [t];
    }
  }

  lemma {:induction false} TotalNone<T>(ts: seq<T>, f: (T, nat) -> nat, k: nat)
    requires forall i :: 0 <= i < |ts| ==> f(ts[i], k) == 0
    ensures Total(ts, f, k) == 0
    decreases |ts|
  {
    if ts != [] { TotalNone(ts[1..], f, k); }
  }

  lemma TotalFront<T>(ts: seq<T>, f: (T, nat) -> nat, k: nat)
    requires ts != []
    ensures Total(ts, f, k) == f(ts[0], k) + Total(ts[1..], f, k)
  {
  }

  /** In how many places a connection is open. */
  function Open(s: State, id: nat): nat { MainHolds(s.main, id) + Total(s.workers, WorkerHolds, id) + Total(s.queue, IsId, id) }

  /** How many times it has been closed. */
  function Closings(s: State, id: nat): nat { Total(s.closed, IsNat, id) }

  /** How many connections of an address are queued, or held by the acceptor or a worker. */
  function Held(s: State, ip: nat): nat { MainCounts(s.main, ip) + Total(s.workers, WorkerCounts, ip) + Total(s.queue, IsIp, ip) }

  // ----- the invariant -----

  /** Every accepted connection is open in exactly one place, or closed exactly once. */
  ghost predicate Conserved(s: State) { forall id: nat :: Open(s, id) + Closings(s, id) == One(id < s.next) }

  /** The count of every address is the number of its connections that are queued or held. */
  ghost predicate Exact(s: State, l: Limits) {
    Within(s.table, l) && forall ip: nat :: Count(s.table, ip) == Held(s, ip)
  }

  /** Connections leave the queue in the order in which they were accepted. */
  predicate Ascending(a: seq<nat>) { forall i, j :: 0 <= i < j < |a| ==> a[i] < a[j] }

  function QueueIds(q: seq<Conn>): (a: seq<nat>)
    ensures |a| == |q| && forall k :: 0 <= k < |q| ==> a[k] == q[k].id
  {
    seq(|q|, k requires 0 <= k < |q| => q[k].id)
  }

  predicate Ordered(s: State) {
    var a := s.order + QueueIds(s.queue);
    && Ascending(a) && (forall k :: 0 <= k < |a| ==> a[k] < s.next)
    && (s.main.Took? || s.main.Admitted? || s.main.Full? || s.main.Refused? ==>
          s.main.c.id == s.next - 1 && forall k :: 0 <= k < |a| ==> a[k] < s.next - 1)
  }

  predicate Phases(s: State) {
    && |s.queue| <= SERVER_QUEUE
    && (s.main.Joining? || s.main.Over? ==> s.queue == [])
    && (s.main.Over? ==> forall w :: 0 <= w < |s.workers| ==> s.workers[w].Done?)
  }

  ghost predicate Inv(s: State, l: Limits) { Conserved(s) && Exact(s, l) && Ordered(s) && Phases(s) }

  function Start(workers: nat): State {
    State(Accepting, seq(workers, _ => Idle), [], seq(SLOTS, _ => Slot(0, false, 0, 0, 0)), 0, [], [])
  }

  lemma StartInv(workers: nat, l: Limits)
    ensures Inv(Start(workers), l)
  {
    hide Total, Count;
    var s := Start(workers);
    forall k: nat
      ensures Total(s.workers, WorkerHolds, k) == Total(s.queue, IsId, k) == Total(s.closed, IsNat, k) == 0
      ensures Total(s.workers, WorkerCounts, k) == Total(s.queue, IsIp, k) == Count(s.table, k) == 0
    {
      TotalNone(s.workers, WorkerHolds, k);
      TotalNone(s.queue, IsId, k);
      TotalNone(s.closed, IsNat, k);
      TotalNone(s.workers, WorkerCounts, k);
      TotalNone(s.queue, IsIp, k);
      CountNone(s.table, k);
    }
  }

  // ----- one step -----

  /** A step neither loses a connection nor closes one twice: what is open or closed changes by an acceptance only. */
  lemma StepBalance(s: State, e: Event, l: Limits, id: nat)
    requires Enabled(s, e)
    ensures var s' := Apply(s, e, l);
            Open(s', id) + Closings(s', id) == Open(s, id) + Closings(s, id) + One(e.Accept? && id == s.next)
  {
    hide Total, Limit;
    var s' := Apply(s, e, l);
    if e.NonblockFails? || e.Reject? || e.DrainClose? { TotalAppend(s.closed, IsNat, id, s.main.c.id); }
    if e.Enqueue? { TotalAppend(s.queue, IsId, id, s.main.c); }
    if e.DrainOne? || e.Pop? { TotalFront(s.queue, IsId, id); }
    if e.Close? { TotalAppend(s.closed, IsNat, id, s.workers[e.w].c.id); }
    if e.Pop? || e.Leave? || e.Register? || e.Close? || e.Release? {
      assert s'.workers == s.workers[e.w := s'.workers[e.w]];
      TotalUpdate(s.workers, WorkerHolds, id, e.w, s'.workers[e.w]);
    }
  }

  lemma StepConserves(s: State, e: Event, l: Limits)
    requires Conserved(s) && Enabled(s, e)
    ensures Conserved(Apply(s, e, l))
  {
    hide Open, Closings;
    var s' := Apply(s, e, l);
    forall id: nat ensures Open(s', id) + Closings(s', id) == One(id < s'.next) {
      assert Open(s, id) + Closings(s, id) == One(id < s.next);
      StepBalance(s, e, l, id);
    }
  }

  predicate ByWorker(e: Event) { e.Pop? || e.Leave? || e.Register? || e.Ask? || e.Close? || e.Release? }

  /** The connections that count change with a step by the one that comes or goes. */
  ghost function Change(s: State, e: Event, l: Limits, ip: nat): int
    requires Enabled(s, e)
  {
    match e
    case Admit(now) => One(Limit(s.table, s.main.c.ip, Connect, now, l).ok && ip == s.main.c.ip)
    case Uncount(_) => 0 - One(ip == s.main.c.ip)
    case DrainOne(_) => 0 - One(ip == s.queue[0].ip)
    case Release(w, _) => 0 - One(ip == s.workers[w].c.ip)
    case _ => 0
  }

  lemma MainStepHeld(s: State, e: Event, l: Limits, ip: nat)
    requires Enabled(s, e) && !ByWorker(e)
    ensures Held(Apply(s, e, l), ip) == Held(s, ip) + Change(s, e, l, ip)
  {
    hide Total, Limit;
    if e.Enqueue? { TotalAppend(s.queue, IsIp, ip, s.main.c); }
    if e.DrainOne? { TotalFront(s.queue, IsIp, ip); }
  }

  lemma WorkerStepHeld(s: State, e: Event, l: Limits, ip: nat)
    requires Enabled(s, e) && ByWorker(e)
    ensures Held(Apply(s, e, l), ip) == Held(s, ip) + Change(s, e, l, ip)
  {
    hide Total, Limit;
    var s' := Apply(s, e, l);
    if e.Pop? { TotalFront(s.queue, IsIp, ip); }
    if !e.Ask? {
      assert s'.workers == s.workers[e.w := s'.workers[e.w]];
      TotalUpdate(s.workers, WorkerCounts, ip, e.w, s'.workers[e.w]);
    }
  }

  /** client_limit moves the count of an address just as a step moves the connections held. */
  lemma CallKeepsBooks(s: State, s': State, ip: nat, action: Action, now: int, l: Limits)
    requires Exact(s, l) && s'.table == Limit(s.table, ip, action, now, l).table
    requires action.Connect? ==>
               forall k: nat :: Held(s', k) == Held(s, k) + One(Limit(s.table, ip, Connect, now, l).ok && k == ip)
    requires action.Disconnect? ==> forall k: nat :: Held(s, k) == Held(s', k) + One(k == ip)
    requires action.Request? ==> forall k: nat :: Held(s', k) == Held(s, k)
    ensures Exact(s', l)
  {
    hide Limit, Count, Within, Held;
    LimitCounts(s.table, ip, action, now, l);
    forall k: nat ensures Count(s'.table, k) == Held(s', k) {
      assert Count(s.table, k) == Held(s, k);
      if k != ip { assert Count(s'.table, k) == Count(s.table, k); }
    }
  }

  /** The counts stay exact and within the limit. */
  lemma StepExact(s: State, e: Event, l: Limits)
    requires Exact(s, l) && Enabled(s, e)
    ensures Exact(Apply(s, e, l), l)
  {
    hide Limit, Count, Within, Held;
    var s' := Apply(s, e, l);
    forall k: nat ensures Held(s', k) == Held(s, k) + Change(s, e, l, k) {
      if ByWorker(e) { WorkerStepHeld(s, e, l, k); } else { MainStepHeld(s, e, l, k); }
    }
    match e
    case Admit(now) => CallKeepsBooks(s, s', s.main.c.ip, Connect, now, l);
    case Uncount(now) => CallKeepsBooks(s, s', s.main.c.ip, Disconnect, now, l);
    case DrainOne(now) => CallKeepsBooks(s, s', s.queue[0].ip, Disconnect, now, l);
    case Release(w, now) => CallKeepsBooks(s, s', s.workers[w].c.ip, Disconnect, now, l);
    case Ask(w, now) => CallKeepsBooks(s, s', s.workers[w].c.ip, Request, now, l);
    case _ =>
  }

  lemma OrderMoves(order: seq<nat>, q: seq<Conn>)
    requires q != []
    ensures order + [q[0].id] + QueueIds(q[1..]) == order + QueueIds(q)
  {
  }

  lemma OrderGrows(order: seq<nat>, q: seq<Conn>, c: Conn)
    ensures order + QueueIds(q + [c]) == order + QueueIds(q) + [c.id]
  {
  }

  lemma StepOrdered(s: State, e: Event, l: Limits)
    requires Ordered(s) && Enabled(s, e)
    ensures Ordered(Apply(s, e, l))
  {
    hide Limit, QueueIds;
    var s' := Apply(s, e, l);
    if e.Pop? || e.DrainOne? {
      OrderMoves(s.order, s.queue);
    } else if e.Enqueue? && |s.queue| < SERVER_QUEUE {
      OrderGrows(s.order, s.queue, s.main.c);
    }
  }

  lemma StepPhases(s: State, e: Event, l: Limits)
    requires Phases(s) && Enabled(s, e)
    ensures Phases(Apply(s, e, l))
  {
    hide Limit;
  }

  // ----- every run -----

  ghost predicate IsRun(s: State, es: seq<Event>, l: Limits)
    decreases |es|
  {
    es == [] || (Enabled(s, es[0]) && IsRun(Apply(s, es[0], l), es[1..], l))
  }

  ghost function After(s: State, es: seq<Event>, l: Limits): State
    requires IsRun(s, es, l)
    decreases |es|
  {
    if es == [] then s else After(Apply(s, es[0], l), es[1..], l)
  }

  lemma {:induction false} RunInv(s: State, es: seq<Event>, l: Limits)
    requires Inv(s, l) && IsRun(s, es, l)
    ensures Inv(After(s, es, l), l)
    decreases |es|
  {
    hide Conserved, Exact, Ordered, Phases, Enabled, Apply;
    if es != [] {
      StepConserves(s, es[0], l);
      StepExact(s, es[0], l);
      StepOrdered(s, es[0], l);
      StepPhases(s, es[0], l);
      RunInv(Apply(s, es[0], l), es[1..], l);
    }
  }

  /**
   In every interleaving: no connection is closed twice and none that is closed is still held, the count of every
   address is exact and within its limit, and the queue is served in the order of acceptance.
   */
  lemma EveryRun(workers: nat, es: seq<Event>, l: Limits)
    requires IsRun(Start(workers), es, l)
    ensures var s := After(Start(workers), es, l);
            && (forall id: nat :: Open(s, id) + Closings(s, id) == if id < s.next then 1 else 0)
            && (forall ip: nat :: Count(s.table, ip) == Held(s, ip) <= l.connectionsPerIp)
            && Ascending(s.order)
  {
    hide Open, Closings, Held, Apply, Enabled, Count;
    StartInv(workers, l);
    RunInv(Start(workers), es, l);
    var s := After(Start(workers), es, l);
    Prefix(s.order, QueueIds(s.queue));
  }

  lemma Prefix(a: seq<nat>, b: seq<nat>)
    requires Ascending(a + b)
    ensures Ascending(a)
  {
    forall i, j | 0 <= i < j < |a| ensures a[i] < a[j] { assert (a + b)[i] < (a + b)[j]; }
  }

  /** When the server is over, every connection it ever accepted has been closed exactly once and none is counted. */
  lemma AtTheEnd(workers: nat, es: seq<Event>, l: Limits)
    requires IsRun(Start(workers), es, l) && After(Start(workers), es, l).main.Over?
    ensures var s := After(Start(workers), es, l);
            && (forall id: nat :: Closings(s, id) == if id < s.next then 1 else 0) && forall ip: nat :: Count(s.table, ip) == 0
  {
    hide Apply, Enabled, Count, Total;
    StartInv(workers, l);
    RunInv(Start(workers), es, l);
    var s := After(Start(workers), es, l);
    forall k: nat ensures Open(s, k) == 0 && Held(s, k) == 0 {
      TotalNone(s.workers, WorkerHolds, k);
      TotalNone(s.queue, IsId, k);
      TotalNone(s.workers, WorkerCounts, k);
      TotalNone(s.queue, IsIp, k);
    }
  }
}
