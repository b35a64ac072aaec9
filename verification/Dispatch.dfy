/**
 dispatch_route and the transaction scopes above the database: src/runtime/runtime_api.c.

 A handler is a program of statements, nested scopes, failures and throws.  Whatever the engine and the clock decide is
 written into the program, so a statement about every program is a statement about every run.  The contents of the
 database are the log of the writes that made it.
 */
module Dispatch {
  import opened Bytes
  import opened Sqlite
  import opened Transactions

  type Log = seq<nat>

  /** This thread's number. */
  const ME: nat := 0

  datatype Stmt =
      // db_execute of write `id`; `reports` says whether a failure also fails the request.
    | Exec(id: nat, granted: bool, works: bool, ended: bool, reports: bool)
      // $throw: fail the request and jump to the dispatcher.
    | Throw
      // request_fail and the like: fail the request and go on.
    | Fail
      // $transaction or a $transactional call, with the fates of its begin, its commit or rollback, and its abort.
    | Scope(granted: bool, begin: Fate, body: Block, commit: Fate, rollback: Fate, abort: Fate)
      // Leaving the innermost scope before its end, as break does.
    | Leave
      // Leaving the handler.
    | Return

  datatype Block = Stop | Then(stmt: Stmt, rest: Block)

  datatype Request = Request(store: Store<Log>, t: Thread, failed: bool)

  datatype Flow = Normal | Thrown | Left | Returned

  /**
   Where a run ends: the state, how control left, the writes that succeeded, and those of them that went straight to
   the disk although the handler was inside a scope.
   */
  datatype Out = Out(q: Request, flow: Flow, writes: Log, stray: Log)

  function Quiet(q: Request, flow: Flow): Out { Out(q, flow, [], []) }

  function Execute(q: Request, s: Stmt, inScope: bool): Out
    requires s.Exec?
  {
    if !CanLock(q.store, q.t, s.granted) then Quiet(q.(failed := q.failed || s.reports), Normal)
    else
      var o := if s.works then Wrote(Contents(q.store) + [s.id]) else Failed(s.ended);
      var r := ExecuteBody(Locked(q.store, q.t, ME), q.t, o);
      var q' := Request(r.store, r.thread, q.failed || (r.rc != 0 && s.reports));
      if r.rc == 0 then Out(q', Normal, [s.id], if inScope && q.t.depth == 0 then [s.id] else [])
      else Quiet(q', Normal)
  }

  predicate Sound(q: Request) {
    && Good(q.store, q.t)
    && q.store.lock == if q.t.depth > 0 then Some(ME) else None
  }

  function Abort(q: Request, fate: Fate): Request
    requires Sound(q)
  {
    var r := AbortBody(q.store, q.t, fate);
    q.(store := r.store, t := r.thread)
  }

  /** transaction_begin: the request after it, and whether the scope is live. */
  function BeginScope(q: Request, granted: bool, fate: Fate): Result<Log> {
    if q.t.depth >= MAX_LEVELS || !CanLock(q.store, q.t, granted) then Result(q.store, q.t, -1)
    else BeginBody(Locked(q.store, q.t, ME), q.t, fate)
  }

  /** transaction_end for a scope opened at `level`. */
  function EndScope(q: Request, level: nat, end: Fate, abort: Fate): (Request, Flow)
    requires Sound(q)
  {
    if level != q.t.depth then (Abort(q, abort).(failed := true), Thrown)
    else if q.failed then
      var r := RollbackBody(q.store, q.t, end);
      RollbackRestoresLevel(q.store, q.t, end);
      var q' := q.(store := r.store, t := r.thread);
      if r.rc != 0 then (Abort(q', abort), Normal) else (q', Normal)
    else
      var r := CommitBody(q.store, q.t, end);
      CommitPops(q.store, q.t, end);
      var q' := q.(store := r.store, t := r.thread);
      if r.rc != 0 then (Abort(q', abort).(failed := true), Thrown) else (q', Normal)
  }

  /** transaction_cleanup: what remains of `flow` once the scope has been aborted. */
  function CleanupScope(q: Request, flow: Flow, abort: Fate): (Request, Flow)
    requires Sound(q)
  {
    if q.failed then (Abort(q, abort), if flow == Left then Normal else flow)
    else (Abort(q, abort).(failed := true), Thrown)
  }

  lemma AbortSound(q: Request, fate: Fate)
    requires Sound(q)
    ensures Sound(Abort(q, fate)) && Abort(q, fate).t.depth == 0 && Abort(q, fate).store.disk == q.store.disk
  {
    AbortClears(q.store, q.t, fate);
  }

  function RunStmt(s: Stmt, q: Request, inScope: bool): (o: Out)
    requires Sound(q)
    ensures Sound(o.q)
    decreases s
  {
    match s
    case Exec(_, _, _, _, _) =>
      ExecuteWrites(Locked(q.store, q.t, ME), q.t, if s.works then Wrote(Contents(q.store) + [s.id]) else Failed(s.ended));
      Execute(q, s, inScope)
    case Throw => Quiet(q.(failed := true), Thrown)
    case Fail => Quiet(q.(failed := true), Normal)
    case Leave => Quiet(q, if inScope then Left else Normal)
    case Return => Quiet(q, Returned)
    case Scope(granted, begin, body, commit, rollback, abort) =>
      if q.failed then Quiet(q, Normal)
      else
        var r := BeginScope(q, granted, begin);
        BeginSound(q, granted, begin);
        var q1 := q.(store := r.store, t := r.thread);
        if r.rc != 0 then Quiet(q1.(failed := true), Thrown)
        else
          var b := RunBlock(body, q1, true);
          var end := if b.q.failed then rollback else commit;
          AbortSound(b.q, abort);
          EndSound(b.q, q1.t.depth, end, abort);
          if b.flow == Thrown then b
          else
            var e := if b.flow == Normal then EndScope(b.q, q1.t.depth, end, abort) else CleanupScope(b.q, b.flow, abort);
            Out(e.0, e.1, b.writes, b.stray)
  }

  function RunBlock(b: Block, q: Request, inScope: bool): (o: Out)
    requires Sound(q)
    ensures Sound(o.q)
    decreases b
  {
    if b.Stop? then Quiet(q, Normal)
    else
      var o := RunStmt(b.stmt, q, inScope);
      if o.flow != Normal then o
      else
        var p := RunBlock(b.rest, o.q, inScope);
        Out(p.q, p.flow, o.writes + p.writes, o.stray + p.stray)
  }

  /** dispatch_route: run the handler, then abort whatever it left open. */
  function Dispatched(b: Block, q: Request, abort: Fate): (q': Request)
    requires Sound(q)
  {
    var o := RunBlock(b, q, false);
    if o.q.t.depth > 0 then Abort(o.q, abort).(failed := true) else o.q
  }

  lemma BeginSound(q: Request, granted: bool, fate: Fate)
    requires Sound(q)
    ensures var r := BeginScope(q, granted, fate);
            Sound(q.(store := r.store, t := r.thread)) && r.store.disk == q.store.disk
  {
    if q.t.depth < MAX_LEVELS { BeginPushes(Locked(q.store, q.t, ME), q.t, fate); }
  }

  lemma EndSound(q: Request, level: nat, end: Fate, abort: Fate)
    requires Sound(q)
    ensures Sound(EndScope(q, level, end, abort).0)
  {
    RollbackRestoresLevel(q.store, q.t, end);
    CommitPops(q.store, q.t, end);
    AbortSound(q, abort);
    var r := RollbackBody(q.store, q.t, end);
    if r.rc != 0 { AbortSound(q.(store := r.store, t := r.thread), abort); }
    var c := CommitBody(q.store, q.t, end);
    if c.rc != 0 { AbortSound(q.(store := c.store, t := c.thread), abort); }
  }

  // ----- the calls of runtime_api.c -----

  datatype Transaction = Transaction(active: bool, level: nat)

  /** The request's failure status beside the database session of its thread. */
  class Runtime {
    const db: Session<Log>
    var failed: bool

    constructor (db: Session<Log>)
      ensures this.db == db && !failed
    {
      this.db, failed := db, false;
    }

    ghost function View(): Request
      reads this, db
    {
      Request(db.Shared(), db.Mine(), failed)
    }

    /** request_raise inside a dispatched handler: fail, then jump. */
    method Raise() returns (flow: Flow)
      modifies this
      ensures failed && flow == Thrown
    {
      failed := true;
      return Thrown;
    }

    method TransactionBegin(granted: bool, fate: Fate) returns (tx: Transaction, flow: Flow)
      requires db.me == ME
      modifies this, db
      ensures old(View().failed) ==> View() == old(View()) && !tx.active && flow == Normal
      ensures !old(View().failed) ==>
                var r := BeginScope(old(View()), granted, fate);
                && View() == Request(r.store, r.thread, r.rc != 0) && tx.active == (r.rc == 0)
                && (tx.active ==> tx.level == r.thread.depth) && flow == if r.rc == 0 then Normal else Thrown
    {
      tx, flow := Transaction(false, 0), Normal;
      if failed { return; }
      var rc := db.DbBegin(granted, fate);
      if rc != 0 {
        flow := Raise();
        return;
      }
      tx := Transaction(true, db.depth);
    }

    method TransactionEnd(tx: Transaction, end: Fate, abort: Fate) returns (flow: Flow)
      requires db.me == ME && Sound(View())
      modifies this, db
      ensures old(Sound(View())) && if tx.active then (View(), flow) == EndScope(old(View()), tx.level, end, abort)
                                    else View() == old(View()) && flow == Normal
    {
      if !tx.active { return Normal; }
      ghost var q := View();
      if tx.level != db.depth {
        db.DbAbortAll(abort);
        flow := Raise();
        return;
      }
      if failed {
        RollbackRestoresLevel(q.store, q.t, end);
        var rc := db.DbRollback(end);
        if rc != 0 { db.DbAbortAll(abort); }
        return Normal;
      }
      CommitPops(q.store, q.t, end);
      var rc := db.DbCommit(end);
      if rc != 0 {
        db.DbAbortAll(abort);
        flow := Raise();
        return;
      }
      return Normal;
    }

    /** transaction_cleanup of a scope that control leaves by `how`. */
    method TransactionCleanup(how: Flow, abort: Fate) returns (flow: Flow)
      requires db.me == ME && Sound(View())
      modifies this, db
      ensures old(Sound(View())) && (View(), flow) == CleanupScope(old(View()), how, abort)
    {
      db.DbAbortAll(abort);
      if !failed {
        flow := Raise();
        return;
      }
      return if how == Left then Normal else how;
    }
  }

  // ----- what every handler leaves behind -----

  /**
   When dispatch_route returns, no transaction is open, the depth is 0 and the lock is free; and a request that has not
   failed had left nothing open.
   */
  lemma NothingLeftOpen(b: Block, q: Request, abort: Fate)
    requires Sound(q)
    ensures var q' := Dispatched(b, q, abort); q'.t.depth == 0 && q'.store.lock == None && !Live(q'.store) && Sound(q')
    ensures !Dispatched(b, q, abort).failed ==>
              var o := RunBlock(b, q, false); !o.q.failed && o.q.t.depth == 0 && Dispatched(b, q, abort) == o.q
  {
    var o := RunBlock(b, q, false);
    AbortSound(o.q, abort);
  }

  // ----- all or nothing -----

  /** What a handler inside a scope can do to the state. */
  ghost predicate BodyKeeps(q: Request, o: Out) {
    && o.q.store.disk == q.store.disk + o.stray
    && (q.failed ==> o.q.failed) && (o.flow == Thrown ==> o.q.failed)
    && (o.q.failed || o.q.t.depth > 0)
    && (o.flow == Normal && !o.q.failed ==>
          && o.q.t.depth == q.t.depth && o.stray == []
          && (Live(o.q.store) ==> Live(q.store) && Contents(o.q.store) == Contents(q.store) + o.writes))
  }

  lemma ExecKeeps(s: Stmt, q: Request)
    requires s.Exec? && Sound(q) && (q.failed || q.t.depth > 0)
    ensures BodyKeeps(q, RunStmt(s, q, true))
  {
    var d := if s.works then Wrote(Contents(q.store) + [s.id]) else Failed(s.ended);
    ExecuteWrites(Locked(q.store, q.t, ME), q.t, d);
    assert q.store.disk + [] == q.store.disk && Contents(q.store) + [] == Contents(q.store);
    if q.t.depth == 0 { assert Contents(q.store) == q.store.disk; }
  }

  lemma ScopeKeeps(s: Stmt, q: Request)
    requires s.Scope? && Sound(q) && (q.failed || q.t.depth > 0)
    ensures BodyKeeps(q, RunStmt(s, q, true))
    decreases s, 0
  {
    hide Good, BeginBody, CommitBody, RollbackBody, AbortBody, RunBlock;
    assert q.store.disk + [] == q.store.disk && Contents(q.store) + [] == Contents(q.store);
    if !q.failed {
      BeginSound(q, s.granted, s.begin);
      BeginPushesScope(q, s.granted, s.begin);
      var r := BeginScope(q, s.granted, s.begin);
      var q1 := q.(store := r.store, t := r.thread);
      if r.rc == 0 {
        BlockKeeps(s.body, q1);
        var b := RunBlock(s.body, q1, true);
        EndKeeps(b.q, q1.t.depth, if b.q.failed then s.rollback else s.commit, s.abort);
        AbortSound(b.q, s.abort);
      }
    }
  }

  lemma BeginPushesScope(q: Request, granted: bool, fate: Fate)
    requires Sound(q)
    ensures var r := BeginScope(q, granted, fate);
            && (r.rc == 0 ==> r.thread.depth == q.t.depth + 1 && Live(r.store) && Contents(r.store) == Contents(q.store)
                              && (q.t.depth > 0 ==> Live(q.store)))
            && (r.rc != 0 ==> r.thread == q.t && r.store.disk == q.store.disk && (Live(r.store) ==> Contents(r.store) == Contents(q.store)))
  {
    if q.t.depth < MAX_LEVELS { BeginPushes(Locked(q.store, q.t, ME), q.t, fate); }
  }

  /** The end of a scope: the disk changes only at an outermost commit, which needs a request that has not failed. */
  lemma EndKeeps(q: Request, level: nat, end: Fate, abort: Fate)
    requires Sound(q) && level > 0
    ensures var (q', flow) := EndScope(q, level, end, abort);
            && (flow == Normal || flow == Thrown) && (q.failed ==> q'.failed) && (flow == Thrown ==> q'.failed)
            && (!q'.failed ==> flow == Normal && q.t.depth == level && q'.t.depth == level - 1 && Live(q.store)
                               && Contents(q'.store) == Contents(q.store) && (Live(q'.store) <==> level > 1))
            && q'.store.disk == if !q'.failed && level == 1 then Contents(q.store) else q.store.disk
  {
    RollbackRestoresLevel(q.store, q.t, end);
    CommitPops(q.store, q.t, end);
    AbortSound(q, abort);
    var r := RollbackBody(q.store, q.t, end);
    if r.rc != 0 { AbortSound(q.(store := r.store, t := r.thread), abort); }
    var c := CommitBody(q.store, q.t, end);
    if c.rc != 0 { AbortSound(q.(store := c.store, t := c.thread), abort); }
  }

  lemma {:induction false} BlockKeeps(b: Block, q: Request)
    requires Sound(q) && (q.failed || q.t.depth > 0)
    ensures BodyKeeps(q, RunBlock(b, q, true))
    decreases b
  {
    hide Execute, Good;
    assert q.store.disk + [] == q.store.disk && Contents(q.store) + [] == Contents(q.store);
    if b.Then? {
      StmtKeeps(b.stmt, q);
      var o := RunStmt(b.stmt, q, true);
      if o.flow == Normal {
        BlockKeeps(b.rest, o.q);
        var p := RunBlock(b.rest, o.q, true);
        assert q.store.disk + o.stray + p.stray == q.store.disk + (o.stray + p.stray);
        assert Contents(q.store) + o.writes + p.writes == Contents(q.store) + (o.writes + p.writes);
      }
    }
  }

  lemma StmtKeeps(s: Stmt, q: Request)
    requires Sound(q) && (q.failed || q.t.depth > 0)
    ensures BodyKeeps(q, RunStmt(s, q, true))
    decreases s, 1
  {
    match s
    case Exec(_, _, _, _, _) => ExecKeeps(s, q);
    case Scope(_, _, _, _, _, _) => ScopeKeeps(s, q);
    case _ => assert q.store.disk + [] == q.store.disk && Contents(q.store) + [] == Contents(q.store);
  }

  /**
   An outermost scope.  If the request has not failed when it is over, exactly its writes are durable.  If it has
   failed, by then or before, what reached the disk is exactly the stray writes.
   */
  lemma OutermostScope(s: Stmt, q: Request)
    requires s.Scope? && Sound(q) && q.t.depth == 0 && !q.failed
    ensures var o := RunStmt(s, q, false);
            && (!o.q.failed ==> o.stray == [] && o.q.store.disk == q.store.disk + o.writes && o.q.t.depth == 0)
            && (o.q.failed ==> o.q.store.disk == q.store.disk + o.stray)
  {
    assert Contents(q.store) == q.store.disk;
    hide Good, BeginBody, CommitBody, RollbackBody, AbortBody, RunBlock;
    BeginSound(q, s.granted, s.begin);
    BeginPushesScope(q, s.granted, s.begin);
    assert q.store.disk + [] == q.store.disk;
    var r := BeginScope(q, s.granted, s.begin);
    var q1 := q.(store := r.store, t := r.thread);
    if r.rc == 0 {
      BlockKeeps(s.body, q1);
      var b := RunBlock(s.body, q1, true);
      EndKeeps(b.q, q1.t.depth, if b.q.failed then s.rollback else s.commit, s.abort);
      AbortSound(b.q, s.abort);
    }
  }

  /** ... and then the dispatcher adds nothing: throwing out of the handler leaves the disk as the scope left it. */
  lemma AbortAddsNothing(b: Block, q: Request, abort: Fate)
    requires Sound(q)
    ensures Dispatched(b, q, abort).store.disk == RunBlock(b, q, false).q.store.disk
  {
    AbortSound(RunBlock(b, q, false).q, abort);
  }
}
