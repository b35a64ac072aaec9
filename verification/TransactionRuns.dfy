/** Every interleaving of threads over the shared connection. */
module TransactionRuns {
  import opened Bytes
  import opened Sqlite
  import opened Transactions

  /** A thread, and whether it is inside a call that took the lock at depth 0. */
  datatype Proc = Proc(t: Thread, inside: bool)

  datatype World<+D> = World(store: Store<D>, procs: seq<Proc>)

  datatype Op<+D> = Begin(fate: Fate) | Commit(fate: Fate) | Rollback(fate: Fate) | Abort(fate: Fate)
                  | Execute(o: Outcome<D>) | Script(o: Outcome<D>)

  /**
   Enter: a thread outside a transaction takes the free lock at the start of a call.  Call: a thread that holds the
   lock, inside a call or inside a transaction, does the work of the call.  Open and Close: db_open and db_close with
   the lock held.  Ends: SQLite ends the open transaction on its own.
   */
  datatype Event<+D> = Enter(p: nat) | Call(p: nat, op: Op<D>) | Open(p: nat) | Close(p: nat) | Ends

  predicate Holds(p: Proc) { p.inside || p.t.depth > 0 }

  predicate Enabled<D>(w: World<D>, e: Event<D>) {
    match e
    case Enter(p) => p < |w.procs| && !Holds(w.procs[p]) && w.store.lock.None?
    case Call(p, op) =>
      && p < |w.procs| && Holds(w.procs[p])
      && (op.Begin? ==> w.procs[p].t.depth < MAX_LEVELS)
      && (op.Abort? ==> w.procs[p].t.depth > 0 ==> w.store.db.Some?)
      && (!op.Begin? && !op.Execute? ==> w.procs[p].t.depth > 0)
    case Open(p) => p < |w.procs| && w.procs[p].inside && w.store.db.None?
    case Close(p) => p < |w.procs| && w.procs[p].inside
    case Ends => Live(w.store)
  }

  function Do<D>(s: Store<D>, t: Thread, op: Op<D>): Result<D>
    requires op.Abort? ==> t.depth > 0 ==> s.db.Some?
  {
    match op
    case Begin(f) => BeginBody(s, t, f)
    case Commit(f) => CommitBody(s, t, f)
    case Rollback(f) => RollbackBody(s, t, f)
    case Abort(f) => AbortBody(s, t, f)
    case Execute(o) => ExecuteBody(s, t, o)
    case Script(o) => ScriptBody(s, t, o)
  }

  function Step<D>(w: World<D>, e: Event<D>): (w': World<D>)
    requires Enabled(w, e)
    ensures |w'.procs| == |w.procs|
  {
    match e
    case Enter(p) => World(w.store.(lock := Some(p)), w.procs[p := Proc(w.procs[p].t, true)])
    case Call(p, op) =>
      var r := Do(w.store, w.procs[p].t, op);
      World(r.store, w.procs[p := Proc(r.thread, false)])
    case Open(p) => World(w.store.(db := Some(Idle), lock := None), w.procs[p := Proc(w.procs[p].t, false)])
    case Close(p) => World(w.store.(db := None, lock := None), w.procs[p := Proc(w.procs[p].t, false)])
    case Ends => World(w.store.(db := Some(Idle)), w.procs)
  }

  /** The lock has exactly one reason to be held, and the store is as its holder needs it. */
  predicate Inv<D>(w: World<D>) {
    && (forall p :: 0 <= p < |w.procs| ==> (Holds(w.procs[p]) <==> w.store.lock == Some(p)))
    && (forall p :: 0 <= p < |w.procs| ==> !(w.procs[p].inside && w.procs[p].t.depth > 0))
    && (w.store.lock.Some? ==> w.store.lock.value < |w.procs| && Good(w.store, w.procs[w.store.lock.value].t))
    && (w.store.lock.None? ==> !Live(w.store))
  }

  lemma DoGood<D>(s: Store<D>, t: Thread, op: Op<D>)
    requires Good(s, t) && (op.Begin? ==> t.depth < MAX_LEVELS) && (!op.Begin? && !op.Execute? ==> t.depth > 0)
    ensures op.Abort? ==> t.depth > 0 ==> s.db.Some?
    ensures var r := Do(s, t, op);
            && Good(r.store, r.thread)
            && (if r.thread.depth == 0 then r.store.lock == None else r.store.lock == s.lock)
  {
    match op
    case Begin(f) => BeginPushes(s, t, f);
    case Commit(f) => CommitPops(s, t, f);
    case Rollback(f) => RollbackRestoresLevel(s, t, f);
    case Abort(f) => AbortClears(s, t, f);
    case Execute(o) => ExecuteWrites(s, t, o);
    case Script(o) => ScriptWrites(s, t, o);
  }

  lemma StepInv<D>(w: World<D>, e: Event<D>)
    requires Inv(w) && Enabled(w, e)
    ensures Inv(Step(w, e))
  {
    if e.Call? {
      DoGood(w.store, w.procs[e.p].t, e.op);
    }
  }

  /** Before db_open: no connection, no lock, no thread in a transaction. */
  function Start<D>(disk: D, threads: nat): World<D> {
    World(Store(disk, None, None), seq(threads, _ => Proc(Thread(0, 0), false)))
  }

  lemma StartInv<D>(disk: D, threads: nat)
    ensures Inv(Start(disk, threads)) && FailedWithin(Start(disk, threads))
  {
  }

  // ----- runs -----

  ghost predicate Feasible<D>(w: World<D>, es: seq<Event<D>>)
    decreases |es|
  {
    es == [] || (Enabled(w, es[0]) && Feasible(Step(w, es[0]), es[1..]))
  }

  ghost function After<D>(w: World<D>, es: seq<Event<D>>): (v: World<D>)
    requires Feasible(w, es)
    ensures |v.procs| == |w.procs|
    decreases |es|
  {
    if es == [] then w else After(Step(w, es[0]), es[1..])
  }

  /** In every reachable state at most one thread is inside a transaction or a locked call, and it is the lock holder. */
  lemma {:induction false} MutualExclusion<D>(w: World<D>, es: seq<Event<D>>)
    requires Inv(w) && Feasible(w, es)
    ensures Inv(After(w, es))
    ensures var v := After(w, es);
            forall p, q :: 0 <= p < |v.procs| && 0 <= q < |v.procs| && Holds(v.procs[p]) && Holds(v.procs[q]) ==>
                             p == q && v.store.lock == Some(p)
    decreases |es|
  {
    if es != [] {
      StepInv(w, es[0]);
      MutualExclusion(Step(w, es[0]), es[1..]);
    }
  }

  /**
   The disk changes only at an outermost commit, at a statement outside any transaction, or at a statement of
   db_script issued after SQLite has ended the transaction on its own.
   */
  lemma DiskChanges<D>(w: World<D>, e: Event<D>)
    requires Inv(w) && Enabled(w, e) && Step(w, e).store.disk != w.store.disk
    ensures e.Call?
    ensures var t := w.procs[e.p].t;
            || (e.op.Commit? && t.depth == 1 && t.failed == 0 && Live(w.store)
                && Step(w, e).store.disk == Contents(w.store))
            || (e.op.Execute? && t.depth == 0 && w.procs[e.p].inside && e.op.o == Wrote(Step(w, e).store.disk))
            || (e.op.Script? && t.depth > 0 && !Live(w.store))
  {
    if e.Call? {
      var s, t := w.store, w.procs[e.p].t;
      match e.op
      case Begin(f) => BeginPushes(s, t, f);
      case Commit(f) => CommitPops(s, t, f);
      case Rollback(f) => RollbackRestoresLevel(s, t, f);
      case Abort(f) => AbortClears(s, t, f);
      case Execute(o) => ExecuteWrites(s, t, o);
      case Script(o) =>
    }
  }

  /** A step that may change the disk: an outermost commit, or a statement outside any transaction. */
  predicate MayWrite<D>(w: World<D>, e: Event<D>) {
    && e.Call? && e.p < |w.procs|
    && ((e.op.Commit? && w.procs[e.p].t.depth == 1) || (e.op.Execute? && w.procs[e.p].t.depth == 0))
  }

  /** A step breaks that rule exactly when it is a statement of db_script that writes after the transaction was lost. */
  lemma OnlyScripts<D>(w: World<D>, e: Event<D>)
    requires Inv(w) && Enabled(w, e)
    ensures Step(w, e).store.disk != w.store.disk && !MayWrite(w, e)
            <==> e.Call? && e.op.Script? && !Live(w.store) && e.op.o.Wrote? && e.op.o.contents != w.store.disk
  {
    if e.Call? { assert Holds(w.procs[e.p]); }
    if Step(w, e).store.disk != w.store.disk { DiskChanges(w, e); }
  }

  /** The third case is real: SQLite ends the transaction between two statements of a script, and the second one stays. */
  lemma ScriptEscapes()
    ensures var es := [Enter(0), Open(0), Enter(0), Call(0, Begin(AsAsked)), Ends, Call(0, Script(Wrote(7)))];
            Feasible(Start(0, 1), es) && After(Start(0, 1), es).store.disk == 7 && After(Start(0, 1), es).procs[0].t.depth == 1
  {
    var w0: World<int> := Start(0, 1);
    var w1 := Step(w0, Enter(0));
    var w2 := Step(w1, Open(0));
    var w3 := Step(w2, Enter(0));
    var w4 := Step(w3, Call(0, Begin(AsAsked)));
    var w5 := Step(w4, Ends);
    var last: Event<int> := Call(0, Script(Wrote(7)));
    var w6 := Step(w5, last);
    assert w6.store.disk == 7 && w6.procs[0].t.depth == 1;
    OneMore(w5, last, []);
    OneMore(w4, Ends, [last]);
    OneMore(w3, Call(0, Begin(AsAsked)), [Ends, last]);
    OneMore(w2, Enter(0), [Call(0, Begin(AsAsked)), Ends, last]);
    OneMore(w1, Open(0), [Enter(0), Call(0, Begin(AsAsked)), Ends, last]);
    OneMore(w0, Enter(0), [Open(0), Enter(0), Call(0, Begin(AsAsked)), Ends, last]);
  }

  lemma OneMore<D>(w: World<D>, e: Event<D>, es: seq<Event<D>>)
    requires Enabled(w, e) && Feasible(Step(w, e), es)
    ensures Feasible(w, [e] + es) && After(w, [e] + es) == After(Step(w, e), es)
  {
    assert ([e] + es)[1..] == es;
  }

  /** Thread p stays deeper than k through the whole run. */
  ghost predicate StaysDeep<D>(w: World<D>, es: seq<Event<D>>, p: nat, k: nat)
    requires Feasible(w, es)
    decreases |es|
  {
    && p < |w.procs| && w.procs[p].t.depth > k
    && (es != [] ==> StaysDeep(Step(w, es[0]), es[1..], p, k))
  }

  /** While a thread stays deeper than k, the snapshots of its levels up to k are kept, or the transaction is lost for good. */
  lemma {:induction false} LevelsKept<D>(w: World<D>, es: seq<Event<D>>, p: nat, k: nat)
    requires Inv(w) && Feasible(w, es) && StaysDeep(w, es, p, k)
    ensures var v := After(w, es);
            Live(v.store) ==> Live(w.store) && k < |Levels(w.store)| && k < |Levels(v.store)|
                              && Levels(v.store)[..k + 1] == Levels(w.store)[..k + 1]
    decreases |es|
  {
    assert Holds(w.procs[p]);
    if es != [] {
      var w' := Step(w, es[0]);
      StepInv(w, es[0]);
      LevelsKept(w', es[1..], p, k);
      StepKeepsLevels(w, es[0], p, k);
    }
  }

  lemma StepKeepsLevels<D>(w: World<D>, e: Event<D>, p: nat, k: nat)
    requires Inv(w) && Enabled(w, e) && p < |w.procs| && w.procs[p].t.depth > k && Step(w, e).procs[p].t.depth > k
    ensures Live(Step(w, e).store) ==>
              Live(w.store) && k < |Levels(w.store)| && k < |Levels(Step(w, e).store)|
              && Levels(Step(w, e).store)[..k + 1] == Levels(w.store)[..k + 1]
  {
    assert Holds(w.procs[p]);
    if e.Call? {
      assert e.p == p;
      var s, t := w.store, w.procs[p].t;
      match e.op
      case Begin(f) => BeginPushes(s, t, f);
      case Commit(f) => CommitPops(s, t, f);
      case Rollback(f) => RollbackRestoresLevel(s, t, f);
      case Abort(f) => AbortClears(s, t, f);
      case Execute(o) => ExecuteWrites(s, t, o);
      case Script(o) =>
        if o.Wrote? && Live(s) { assert Levels(Step(w, e).store) == Levels(s); }
    }
  }

  /**
   A rollback restores exactly the state at the matching begin: whatever any thread does in between, as long as the
   level stays open, and whichever levels inside it were committed or rolled back.
   */
  lemma RollbackRestores<D>(w: World<D>, begin: Fate, es: seq<Event<D>>, rollback: Fate, p: nat)
    requires Inv(w) && p < |w.procs|
    requires Enabled(w, Call(p, Begin(begin)))
    requires BeginBody(w.store, w.procs[p].t, begin).rc == 0
    requires var w1 := Step(w, Call(p, Begin(begin)));
             var k := w.procs[p].t.depth;
             && Feasible(w1, es) && StaysDeep(w1, es, p, k)
             && (var w2 := After(w1, es);
                 && Enabled(w2, Call(p, Rollback(rollback))) && w2.procs[p].t.depth == k + 1 && Live(w2.store)
                 && RollbackBody(w2.store, w2.procs[p].t, rollback).rc == 0)
    ensures var w2 := After(Step(w, Call(p, Begin(begin))), es);
            var w3 := Step(w2, Call(p, Rollback(rollback)));
            && Contents(w3.store) == Contents(w.store) && Levels(w3.store) == Levels(w.store)
            && w3.procs[p].t.depth == w.procs[p].t.depth
  {
    hide Feasible, After, StaysDeep, Levels, BeginBody, RollbackBody, Contents;
    var k := w.procs[p].t.depth;
    var w1 := Step(w, Call(p, Begin(begin)));
    StepInv(w, Call(p, Begin(begin)));
    BeginPushes(w.store, w.procs[p].t, begin);
    var w2 := After(w1, es);
    MutualExclusion(w1, es);
    LevelsKept(w1, es, p, k);
    assert Holds(w2.procs[p]) && Holds(w.procs[p]);
    RollbackRestoresLevel(w2.store, w2.procs[p].t, rollback);
    SameTop(Levels(w.store), Contents(w.store), Levels(w1.store), Levels(w2.store));
  }

  lemma SameTop<D>(before: seq<D>, top: D, pushed: seq<D>, later: seq<D>)
    requires pushed == before + [top] && |later| > |before| && later[..|before| + 1] == pushed[..|before| + 1]
    ensures later[|before|] == top && later[..|before|] == before
  {
    assert later[|before|] == later[..|before| + 1][|before|];
    assert later[..|before|] == later[..|before| + 1][..|before|];
  }

  // ----- a recorded failure -----

  /** The event takes thread p's failure away: a rollback of level l or further out, or an abort. */
  ghost predicate Forgives<D>(w: World<D>, e: Event<D>, p: nat, l: nat)
    requires Enabled(w, e)
  {
    && e.Call? && e.p == p
    && (e.op.Abort? || (e.op.Rollback? && w.procs[p].t.depth <= l && RollbackBody(w.store, w.procs[p].t, e.op.fate).rc == 0))
  }

  ghost predicate Unforgiven<D>(w: World<D>, es: seq<Event<D>>, p: nat, l: nat)
    requires Feasible(w, es)
    decreases |es|
  {
    es == [] || (!Forgives(w, es[0], p, l) && Unforgiven(Step(w, es[0]), es[1..], p, l))
  }

  ghost predicate NoCommit<D>(w: World<D>, es: seq<Event<D>>, p: nat)
    requires Feasible(w, es)
    decreases |es|
  {
    es == [] ||
    (&& (es[0].Call? && es[0].p == p && es[0].op.Commit? && p < |w.procs| ==>
           CommitBody(w.store, w.procs[p].t, es[0].op.fate).rc != 0)
     && NoCommit(Step(w, es[0]), es[1..], p))
  }

  /**
   While a failure is recorded at level l or further out, no commit of that thread succeeds until level l or an outer one
   is rolled back or all is aborted.
   */
  lemma {:induction false} FailureSticks<D>(w: World<D>, es: seq<Event<D>>, p: nat, l: nat)
    requires Inv(w) && Feasible(w, es) && p < |w.procs| && 0 < w.procs[p].t.failed <= l
    requires Unforgiven(w, es, p, l)
    ensures NoCommit(w, es, p) && After(w, es).procs[p].t.failed == w.procs[p].t.failed
    decreases |es|
  {
    if es != [] {
      StepInv(w, es[0]);
      assert Step(w, es[0]).procs[p].t.failed == w.procs[p].t.failed;
      FailureSticks(Step(w, es[0]), es[1..], p, l);
    }
  }

  /** The same when the thread can go no deeper: its transaction is lost, or it is at the last level. */
  lemma {:induction false} FailureStays<D>(w: World<D>, es: seq<Event<D>>, p: nat)
    requires Inv(w) && Feasible(w, es) && p < |w.procs| && w.procs[p].t.failed > 0
    requires var l := w.procs[p].t.depth; l > 0 && (Live(w.store) ==> l == MAX_LEVELS) && Unforgiven(w, es, p, l)
    ensures NoCommit(w, es, p)
    decreases |es|
  {
    if es != [] {
      StepInv(w, es[0]);
      StaysPut(w, es[0], p);
      FailureStays(Step(w, es[0]), es[1..], p);
    }
  }

  lemma StaysPut<D>(w: World<D>, e: Event<D>, p: nat)
    requires Inv(w) && Enabled(w, e) && p < |w.procs| && w.procs[p].t.failed > 0
    requires var l := w.procs[p].t.depth; l > 0 && (Live(w.store) ==> l == MAX_LEVELS) && !Forgives(w, e, p, l)
    ensures var t, w' := w.procs[p].t, Step(w, e);
            w'.procs[p].t == t && (Live(w'.store) ==> t.depth == MAX_LEVELS)
    ensures e.Call? && e.p == p && e.op.Commit? ==> CommitBody(w.store, w.procs[p].t, e.op.fate).rc != 0
  {
    assert Holds(w.procs[p]);
    if e.Call? { assert e.p == p; }
  }

  /** No commit of thread p can succeed before level l or an outer one is rolled back or all is aborted. */
  ghost predicate Forbidden<D(!new)>(w: World<D>, p: nat, l: nat) {
    forall es :: Feasible(w, es) && Unforgiven(w, es, p, l) ==> NoCommit(w, es, p)
  }

  /**
   A statement that fails at level l of a transaction forbids every commit until level l or an outer one is rolled back or
   all is aborted, exactly unless a failure of a deeper level is still recorded from an earlier transaction: rolling back
   that deeper level, begun anew, then clears the record of both.
   */
  lemma FailureForbidsCommit<D(!new)>(w: World<D>, p: nat, o: Outcome<D>)
    requires Inv(w) && Enabled(w, Call(p, Execute(o))) && w.procs[p].t.depth > 0
    requires ExecuteBody(w.store, w.procs[p].t, o).rc != 0
    ensures var t, v := w.procs[p].t, Step(w, Call(p, Execute(o)));
            Forbidden(v, p, t.depth) <==> !(t.failed > t.depth && t.depth < MAX_LEVELS && Live(v.store))
  {
    var l, v := w.procs[p].t.depth, Step(w, Call(p, Execute(o)));
    var f := w.procs[p].t.failed;
    assert Holds(w.procs[p]);
    ExecuteWrites(w.store, w.procs[p].t, o);
    StepInv(w, Call(p, Execute(o)));
    if f > l && l < MAX_LEVELS && Live(v.store) {
      Forgotten(v, p);
    } else {
      forall es | Feasible(v, es) && Unforgiven(v, es, p, l) ensures NoCommit(v, es, p) {
        if f <= l { FailureSticks(v, es, p, l); } else { FailureStays(v, es, p); }
      }
    }
  }

  /** The failure of a deeper level is recorded: begin, roll back, commit. */
  lemma Forgotten<D(!new)>(w: World<D>, p: nat)
    requires Inv(w) && p < |w.procs| && Live(w.store)
    requires var t := w.procs[p].t; 0 < t.depth < MAX_LEVELS && t.failed > t.depth
    ensures !Forbidden(w, p, w.procs[p].t.depth)
  {
    hide BeginBody, CommitBody, RollbackBody, Levels, Inv;
    var t := w.procs[p].t;
    HoldsLock(w, p);
    var b, r, c: Event<D> := Call(p, Begin(AsAsked)), Call(p, Rollback(AsAsked)), Call(p, Commit(AsAsked));
    BeginPushes(w.store, t, AsAsked);
    var w1 := Step(w, b);
    StepInv(w, b);
    RollbackRestoresLevel(w1.store, w1.procs[p].t, AsAsked);
    var w2 := Step(w1, r);
    StepInv(w1, r);
    assert w2.procs[p].t == Thread(t.depth, 0);
    HoldsLock(w2, p);
    CommitPops(w2.store, w2.procs[p].t, AsAsked);
    ThreeSteps(w, b, r, c, p, t.depth);
  }

  lemma HoldsLock<D>(w: World<D>, p: nat)
    requires Inv(w) && p < |w.procs| && w.procs[p].t.depth > 0
    ensures Holds(w.procs[p]) && w.store.lock == Some(p) && Good(w.store, w.procs[p].t)
  {
    assert Holds(w.procs[p]);
  }

  lemma ThreeSteps<D(!new)>(w: World<D>, a: Event<D>, b: Event<D>, c: Event<D>, p: nat, l: nat)
    requires Enabled(w, a) && Enabled(Step(w, a), b) && Enabled(Step(Step(w, a), b), c)
    requires !Forgives(w, a, p, l) && !Forgives(Step(w, a), b, p, l) && !Forgives(Step(Step(w, a), b), c, p, l)
    requires p < |w.procs| && c.Call? && c.p == p && c.op.Commit?
    requires CommitBody(Step(Step(w, a), b).store, Step(Step(w, a), b).procs[p].t, c.op.fate).rc == 0
    ensures !Forbidden(w, p, l)
  {
    hide CommitBody, Forgives, Step, Enabled, Feasible, Unforgiven, NoCommit;
    var w1 := Step(w, a);
    var w2 := Step(w1, b);
    NothingYet(Step(w2, c), p, l);
    LastCommit(w2, c, p, l);
    Before(w1, b, [c], p, l);
    Before(w, a, [b] + [c], p, l);
  }

  lemma NothingYet<D>(w: World<D>, p: nat, l: nat)
    ensures Feasible(w, []) && Unforgiven(w, [], p, l)
  {
  }

  lemma LastCommit<D>(w: World<D>, c: Event<D>, p: nat, l: nat)
    requires Enabled(w, c) && !Forgives(w, c, p, l) && p < |w.procs| && c.Call? && c.p == p && c.op.Commit?
    requires CommitBody(w.store, w.procs[p].t, c.op.fate).rc == 0
    requires Feasible(Step(w, c), []) && Unforgiven(Step(w, c), [], p, l)
    ensures Feasible(w, [c]) && Unforgiven(w, [c], p, l) && !NoCommit(w, [c], p)
  {
    hide CommitBody, Forgives, Step, Enabled;
    assert [c][1..] == [] && [c][0] == c;
  }

  lemma Before<D>(w: World<D>, e: Event<D>, es: seq<Event<D>>, p: nat, l: nat)
    requires Enabled(w, e) && !Forgives(w, e, p, l)
    requires Feasible(Step(w, e), es) && Unforgiven(Step(w, e), es, p, l) && !NoCommit(Step(w, e), es, p)
    ensures Feasible(w, [e] + es) && Unforgiven(w, [e] + es, p, l) && !NoCommit(w, [e] + es, p)
  {
    hide CommitBody, Forgives, Step, Enabled;
    assert ([e] + es)[1..] == es && ([e] + es)[0] == e;
  }

  // ----- a failure that is forgotten, step by step -----

  /** One thread over an open connection. */
  function Single(disk: int, c: Conn<int>, t: Thread, inside: bool): World<int> {
    World(Store(disk, Some(c), if inside || t.depth > 0 then Some(0) else None), [Proc(t, inside)])
  }

  lemma Chain<D>(w: World<D>, es: seq<Event<D>>, fs: seq<Event<D>>)
    requires Feasible(w, es) && Feasible(After(w, es), fs)
    ensures Feasible(w, es + fs) && After(w, es + fs) == After(After(w, es), fs)
    decreases |es|
  {
    hide Enabled, Step;
    if es == [] {
      assert es + fs == fs;
    } else {
      assert (es + fs)[1..] == es[1..] + fs;
      Chain(Step(w, es[0]), es[1..], fs);
    }
  }

  lemma OneStep<D>(w: World<D>, e: Event<D>)
    requires Enabled(w, e)
    ensures Feasible(w, [e]) && After(w, [e]) == Step(w, e)
  {
    assert [e][1..] == [];
  }

  /** Runs w by es to v. */
  ghost predicate Leads<D>(w: World<D>, es: seq<Event<D>>, v: World<D>) { Feasible(w, es) && After(w, es) == v }

  /** Level 2 fails, level 3 is begun, SQLite ends the transaction, level 3 is rolled back: the failure stays at level 2. */
  lemma StaleRun() returns (es: seq<Event<int>>)
    ensures Leads(Single(0, Idle, Thread(0, 0), true), es, Single(0, Idle, Thread(0, 2), false))
  {
    var b: Event<int> := Call(0, Begin(AsAsked));
    var w0 := Single(0, Idle, Thread(0, 0), true);
    var w1 := Single(0, Txn(0, []), Thread(1, 0), false);
    var w2 := Single(0, Txn(0, [Savepoint(2, 0)]), Thread(2, 0), false);
    var w3 := Single(0, Txn(0, [Savepoint(2, 0)]), Thread(2, 2), false);
    var w4 := Single(0, Txn(0, [Savepoint(2, 0), Savepoint(3, 0)]), Thread(3, 2), false);
    var w5 := Single(0, Idle, Thread(3, 2), false);
    var w6 := Single(0, Idle, Thread(0, 2), false);
    hide Feasible, After, Leads;
    SecondLevel(Thread(1, 0));
    Deeper(0, 0, [Savepoint(2, 0)], Thread(2, 2));
    assert [Savepoint(2, 0)] + [Savepoint(3, 0)] == [Savepoint(2, 0), Savepoint(3, 0)];
    es := NoStep(w0);
    es := Extend(w0, es, w0, b, w1);
    es := Extend(w0, es, w1, b, w2);
    es := Extend(w0, es, w2, Call(0, Execute(Failed(false))), w3);
    es := Extend(w0, es, w3, b, w4);
    es := Extend(w0, es, w4, Ends, w5);
    es := Extend(w0, es, w5, Call(0, Rollback(AsAsked)), w6);
  }

  /** A begin inside a live transaction. */
  lemma Deeper(disk: int, work: int, saves: seq<Savepoint<int>>, t: Thread)
    requires 0 < t.depth < MAX_LEVELS
    ensures var w, e: Event<int> := Single(disk, Txn(work, saves), t, false), Call(0, Begin(AsAsked));
            Enabled(w, e) && Step(w, e) == Single(disk, Txn(work, saves + [Savepoint(t.depth + 1, work)]), t.(depth := t.depth + 1), false)
  {
  }

  lemma SecondLevel(t: Thread)
    requires t.depth == 1
    ensures var w, e: Event<int> := Single(0, Txn(0, []), t, false), Call(0, Begin(AsAsked));
            Enabled(w, e) && Step(w, e) == Single(0, Txn(0, [Savepoint(2, 0)]), Thread(2, t.failed), false)
  {
    Deeper(0, 0, [], t);
    assert [] + [Savepoint(2, 0)] == [Savepoint(2, 0)];
  }

  lemma Extend<D>(w: World<D>, es: seq<Event<D>>, v: World<D>, e: Event<D>, v': World<D>) returns (more: seq<Event<D>>)
    requires Leads(w, es, v) && Enabled(v, e) && Step(v, e) == v'
    ensures more == es + [e] && Leads(w, more, v')
  {
    hide Enabled, Step;
    OneStep(v, e);
    Chain(w, es, [e]);
    more := es + [e];
  }

  lemma NoStep<D>(w: World<D>) returns (es: seq<Event<D>>)
    ensures es == [] && Leads(w, es, w)
  {
    es := [];
  }

  lemma LastLevelBack()
    ensures var w, e: Event<int> := Single(0, Txn(0, [Savepoint(2, 0)]), Thread(2, 2), false), Call(0, Rollback(AsAsked));
            Enabled(w, e) && Step(w, e) == Single(0, Txn(0, []), Thread(1, 0), false)
  {
    assert Find([Savepoint(2, 0)], 2) == 0;
  }

  lemma FailsAgain() returns (es: seq<Event<int>>)
    ensures Leads(Single(0, Idle, Thread(0, 2), false), es, Single(0, Txn(0, [Savepoint(2, 0)]), Thread(2, 2), false))
    ensures es == [Enter(0), Call(0, Begin(AsAsked)), Call(0, Execute(Failed(false))), Call(0, Begin(AsAsked))]
  {
    hide Feasible, After, Leads;
    var b: Event<int> := Call(0, Begin(AsAsked));
    var w0 := Single(0, Idle, Thread(0, 2), false);
    var w1 := Single(0, Idle, Thread(0, 2), true);
    var w2 := Single(0, Txn(0, []), Thread(1, 2), false);
    SecondLevel(Thread(1, 2));
    es := NoStep(w0);
    es := Extend(w0, es, w0, Enter(0), w1);
    es := Extend(w0, es, w1, b, w2);
    es := Extend(w0, es, w2, Call(0, Execute(Failed(false))), w2);
    es := Extend(w0, es, w2, b, Single(0, Txn(0, [Savepoint(2, 0)]), Thread(2, 2), false));
  }

  /** In the next transaction a statement fails at level 1, level 2 comes and goes, and the commit makes a write durable. */
  lemma ForgottenRun() returns (es: seq<Event<int>>)
    ensures Leads(Single(0, Idle, Thread(0, 2), false), es, Single(7, Idle, Thread(0, 0), false))
    ensures es == [Enter(0), Call(0, Begin(AsAsked)), Call(0, Execute(Failed(false))), Call(0, Begin(AsAsked)),
                   Call(0, Rollback(AsAsked)), Call(0, Execute(Wrote(7))), Call(0, Commit(AsAsked))]
  {
    hide Feasible, After, Leads;
    var w0 := Single(0, Idle, Thread(0, 2), false);
    var w3 := Single(0, Txn(0, [Savepoint(2, 0)]), Thread(2, 2), false);
    var w4 := Single(0, Txn(0, []), Thread(1, 0), false);
    var w5 := Single(0, Txn(7, []), Thread(1, 0), false);
    LastLevelBack();
    es := FailsAgain();
    es := Extend(w0, es, w3, Call(0, Rollback(AsAsked)), w4);
    es := Extend(w0, es, w4, Call(0, Execute(Wrote(7))), w5);
    es := Extend(w0, es, w5, Call(0, Commit(AsAsked)), Single(7, Idle, Thread(0, 0), false));
  }

  /** From a closed database: the transaction of the second lemma commits although its own statement has failed. */
  lemma FailureForgotten() returns (es: seq<Event<int>>)
    ensures Feasible(Start(0, 1), es) && After(Start(0, 1), es) == Single(7, Idle, Thread(0, 0), false)
    ensures var n := |es|; n > 7 && es[n - 6] == Call(0, Begin(AsAsked)) && es[n - 5] == Call(0, Execute(Failed(false)))
    ensures After(Start(0, 1), es).store.disk == 7
  {
    var w: World<int> := Start(0, 1);
    var entered := World(Store(0, None, Some(0)), [Proc(Thread(0, 0), true)]);
    es := [];
    es := Extend(w, es, w, Enter(0), entered);
    es := Extend(w, es, entered, Open(0), Single(0, Idle, Thread(0, 0), false));
    es := Extend(w, es, Single(0, Idle, Thread(0, 0), false), Enter(0), Single(0, Idle, Thread(0, 0), true));
    var stale := StaleRun();
    Chain(w, es, stale);
    es := es + stale;
    var last := ForgottenRun();
    Chain(w, es, last);
    es := es + last;
  }

  /** Once SQLite has ended the transaction, nothing prepared inside it takes effect. */
  lemma LostStep<D>(w: World<D>, e: Event<D>, p: nat)
    requires Inv(w) && Enabled(w, e) && p < |w.procs| && w.procs[p].t.depth > 0 && !Live(w.store)
    requires !(e.Call? && e.op.Script?)
    ensures var w' := Step(w, e);
            && w'.store.disk == w.store.disk && !Live(w'.store)
            && (e.Call? && e.op.Execute? ==> e.p == p && w'.store == w.store && ExecuteBody(w.store, w.procs[p].t, e.op.o).rc == -1)
  {
    assert Holds(w.procs[p]);
  }

  /** No statement of db_script is in the run, and every prepared statement in it is refused. */
  ghost predicate AllRefused<D>(w: World<D>, es: seq<Event<D>>)
    requires Feasible(w, es)
    decreases |es|
  {
    es == [] ||
    (&& (es[0].Call? && es[0].op.Execute? ==> ExecuteBody(w.store, w.procs[es[0].p].t, es[0].op.o).rc == -1)
     && AllRefused(Step(w, es[0]), es[1..]))
  }

  predicate NoScript<D>(es: seq<Event<D>>) { forall k :: 0 <= k < |es| ==> !(es[k].Call? && es[k].op.Script?) }

  /**
   Once SQLite has ended a transaction, every statement prepared in the process is refused and the disk stays as it is
   for as long as the thread is inside that transaction, whatever the threads do.
   */
  lemma {:induction false} LostTakesNoEffect<D>(w: World<D>, es: seq<Event<D>>, p: nat)
    requires Inv(w) && Feasible(w, es) && StaysDeep(w, es, p, 0) && !Live(w.store) && NoScript(es)
    ensures AllRefused(w, es) && After(w, es).store.disk == w.store.disk && !Live(After(w, es).store)
    decreases |es|
  {
    if es != [] {
      StepInv(w, es[0]);
      LostStep(w, es[0], p);
      LostTakesNoEffect(Step(w, es[0]), es[1..], p);
    }
  }

  // ----- the failed level -----

  predicate EndsNothing(fate: Fate) { fate != FailsAndEnds }

  /** A step in which SQLite does not end a transaction on its own. */
  predicate Calm<D>(e: Event<D>) {
    match e
    case Ends => false
    case Call(_, Begin(f)) => EndsNothing(f)
    case Call(_, Commit(f)) => EndsNothing(f)
    case Call(_, Rollback(f)) => EndsNothing(f)
    case Call(_, Abort(_)) => true
    case Call(_, Execute(o)) => !(o.Failed? && o.ended)
    case Call(_, Script(o)) => !(o.Failed? && o.ended)
    case _ => true
  }

  /** No thread has a failed level beyond its depth, and a thread inside a transaction has one. */
  ghost predicate FailedWithin<D>(w: World<D>) {
    forall p :: 0 <= p < |w.procs| ==>
      w.procs[p].t.failed <= w.procs[p].t.depth && (w.procs[p].t.depth > 0 ==> Live(w.store))
  }

  lemma CalmStep<D>(w: World<D>, e: Event<D>)
    requires Inv(w) && Enabled(w, e) && FailedWithin(w) && Calm(e)
    ensures FailedWithin(Step(w, e))
  {
    var w' := Step(w, e);
    forall p | 0 <= p < |w'.procs|
      ensures w'.procs[p].t.failed <= w'.procs[p].t.depth && (w'.procs[p].t.depth > 0 ==> Live(w'.store))
    {
      assert w.procs[p].t.failed <= w.procs[p].t.depth && (Holds(w.procs[p]) <==> w.store.lock == Some(p));
      if e.Call? {
        assert Holds(w.procs[e.p]);
        if p == e.p { CalmCall(w.store, w.procs[p].t, e.op); } else { assert !Holds(w.procs[p]); }
      }
    }
  }

  lemma CalmCall<D>(s: Store<D>, t: Thread, op: Op<D>)
    requires Good(s, t) && t.failed <= t.depth && (t.depth > 0 ==> Live(s)) && Calm(Call(0, op))
    requires (op.Begin? ==> t.depth < MAX_LEVELS) && (!op.Begin? && !op.Execute? ==> t.depth > 0)
    ensures op.Abort? ==> t.depth > 0 ==> s.db.Some?
    ensures var r := Do(s, t, op); r.thread.failed <= r.thread.depth && (r.thread.depth > 0 ==> Live(r.store))
  {
    if op.Rollback? && t.depth > 1 { FindLevel(s.db.value.saves, t.depth); }
    if op.Commit? && t.depth > 1 { FindLevel(s.db.value.saves, t.depth); }
  }

  /** Over every run in which SQLite ends no transaction on its own, the failed level of every thread is within its depth. */
  lemma {:induction false} FailedWithinRuns<D>(w: World<D>, es: seq<Event<D>>)
    requires Inv(w) && Feasible(w, es) && FailedWithin(w) && forall k :: 0 <= k < |es| ==> Calm(es[k])
    ensures FailedWithin(After(w, es))
    decreases |es|
  {
    if es != [] {
      StepInv(w, es[0]);
      CalmStep(w, es[0]);
      FailedWithinRuns(Step(w, es[0]), es[1..]);
    }
  }
}
