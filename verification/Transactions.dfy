/**
 Nested transactions of src/db/db_sqlite.c: one connection and one lock for the process, and per thread the nesting
 depth and the level at which a statement failed.
 */
module Transactions {
  import opened Bytes
  import opened Sqlite

  const MAX_LEVELS := 16

  /** t_depth and t_failed_level of one thread. */
  datatype Thread = Thread(depth: nat, failed: nat)

  /** What all threads share: the disk, g_db and the holder of g_db_lock. */
  datatype Store<+D> = Store(disk: D, db: Option<Conn<D>>, lock: Option<nat>)

  datatype Result<+D> = Result(store: Store<D>, thread: Thread, rc: int)

  /** How an ordinary statement goes. */
  datatype Outcome<+D> = Wrote(contents: D) | Failed(ended: bool)

  // ----- the calls, once the lock is held -----

  function Unlock<D>(s: Store<D>, t: Thread): Store<D> { if t.depth == 0 then s.(lock := None) else s }

  /** Remembers the first failure inside a transaction. */
  function Mark(t: Thread): Thread { if t.depth > 0 && t.failed == 0 then t.(failed := t.depth) else t }

  function SetConn<D>(s: Store<D>, c: Conn<D>): Store<D> { s.(db := Some(c)) }

  /** The contents a reader of the connection sees. */
  function Contents<D>(s: Store<D>): D { if s.db.Some? && s.db.value.Txn? then s.db.value.work else s.disk }

  predicate Autocommit<D>(s: Store<D>) { s.db.Some? && s.db.value.Idle? }

  function BeginBody<D>(s: Store<D>, t: Thread, fate: Fate): Result<D> {
    if s.db.None? || (t.depth > 0 && Autocommit(s)) then Result(Unlock(s, t), t, -1)
    else
      var r := Run(s.db.value, s.disk, if t.depth == 0 then BEGIN else SAVEPOINT(t.depth + 1), fate);
      var s' := SetConn(s, r.conn);
      if !r.ok then Result(Unlock(s', t), t, -1) else Result(s', t.(depth := t.depth + 1), 0)
  }

  function CommitBody<D>(s: Store<D>, t: Thread, fate: Fate): Result<D> {
    if t.depth == 0 || t.failed != 0 || s.db.None? || Autocommit(s) then Result(s, t, -1)
    else
      var r := Run(s.db.value, s.disk, if t.depth == 1 then COMMIT else RELEASE(t.depth), fate);
      var s' := s.(disk := r.disk, db := Some(r.conn));
      if !r.ok then Result(s', t, -1)
      else
        var t' := t.(depth := t.depth - 1);
        Result(Unlock(s', t'), t', 0)
  }

  function RollbackBody<D>(s: Store<D>, t: Thread, fate: Fate): Result<D> {
    if t.depth == 0 || s.db.None? then Result(s, t, -1)
    else
      var r := if Autocommit(s) then Reply(Idle, s.disk, true)
               else Run(s.db.value, s.disk, if t.depth == 1 then ROLLBACK else ROLLBACK_TO_AND_RELEASE(t.depth), fate);
      var s' := SetConn(s, r.conn);
      if !r.ok then Result(s', t, -1)
      else
        var t' := Thread(if r.conn.Idle? then 0 else t.depth - 1, if t.failed >= t.depth then 0 else t.failed);
        Result(Unlock(s', t'), t', 0)
  }

  function AbortBody<D>(s: Store<D>, t: Thread, fate: Fate): Result<D>
    requires t.depth > 0 ==> s.db.Some?
  {
    if t.depth == 0 then Result(s, t, 0)
    else
      var r := Run(s.db.value, s.disk, ROLLBACK, fate);
      var db := if !r.ok && r.conn.Txn? then None else Some(r.conn);
      Result(s.(db := db, lock := None), Thread(0, 0), 0)
  }

  /** db_execute and the queries: prepare_statement's guards, then one statement. */
  function ExecuteBody<D>(s: Store<D>, t: Thread, o: Outcome<D>): Result<D> {
    if s.db.None? || (t.depth > 0 && Autocommit(s)) then Result(Unlock(s, Mark(t)), Mark(t), -1)
    else match o
      case Wrote(d) => Result(Unlock(Write(s, d), t), t, 0)
      case Failed(ended) => Result(Unlock(if ended then SetConn(s, Idle) else s, Mark(t)), Mark(t), -1)
  }

  function Write<D>(s: Store<D>, d: D): Store<D>
    requires s.db.Some?
  {
    if s.db.value.Txn? then SetConn(s, s.db.value.(work := d)) else s.(disk := d)
  }

  /** One statement of db_script, which has no guard. */
  function ScriptBody<D>(s: Store<D>, t: Thread, o: Outcome<D>): Result<D> {
    if t.depth == 0 || s.db.None? then Result(s, t, -1)
    else match o
      case Wrote(d) => Result(Write(s, d), t, 0)
      case Failed(ended) => Result(if ended then SetConn(s, Idle) else s, t, -1)
  }

  // ----- what holds of the thread inside a transaction -----

  /** The savepoints are exactly those of levels 2 to depth, in order. */
  predicate Matches<D>(saves: seq<Savepoint<D>>, depth: nat) {
    |saves| + 1 == depth && forall k :: 0 <= k < |saves| ==> saves[k].name == k + 2
  }

  predicate Live<D>(s: Store<D>) { s.db.Some? && s.db.value.Txn? }

  /** The state a thread may leave the store in: at depth 0 no transaction is open, deeper the levels match. */
  predicate Good<D>(s: Store<D>, t: Thread) {
    && t.depth <= MAX_LEVELS
    && (t.depth > 0 ==> s.db.Some? && (s.db.value.Txn? ==> Matches(s.db.value.saves, t.depth)))
    && (t.depth == 0 ==> !Live(s))
  }

  /** The stack of snapshots: the contents at each open begin, outermost first. */
  function Levels<D>(s: Store<D>): (l: seq<D>)
    ensures Live(s) ==> |l| == |s.db.value.saves| + 1 && l[0] == s.disk
    ensures Live(s) ==> forall k {:trigger l[k + 1]} :: 0 <= k < |s.db.value.saves| ==> l[k + 1] == s.db.value.saves[k].snapshot
    ensures !Live(s) ==> l == []
  {
    if !Live(s) then []
    else
      var saves := s.db.value.saves;
      [s.disk] + seq(|saves|, k requires 0 <= k < |saves| => saves[k].snapshot)
  }

  lemma FindLevel<D>(saves: seq<Savepoint<D>>, depth: nat)
    requires Matches(saves, depth) && depth > 1
    ensures Find(saves, depth) == depth - 2
  {
    assert saves[depth - 2].name == depth;
  }

  /** db_begin pushes the present contents, or changes nothing a reader can see except by losing the transaction. */
  lemma BeginPushes<D>(s: Store<D>, t: Thread, fate: Fate)
    requires Good(s, t) && t.depth < MAX_LEVELS
    ensures var r := BeginBody(s, t, fate);
            && Good(r.store, r.thread) && r.store.disk == s.disk && r.thread.failed == t.failed
            && (r.rc == 0 <==> s.db.Some? && fate == AsAsked && (t.depth > 0 ==> Live(s)))
            && (r.rc == 0 ==> r.thread.depth == t.depth + 1 && Contents(r.store) == Contents(s)
                              && Live(r.store) && Levels(r.store) == Levels(s) + [Contents(s)])
            && (r.rc != 0 ==> r.thread == t && (Live(r.store) ==> r.store.db == s.db))
            && r.store.lock == if r.thread.depth == 0 then None else s.lock
  {
    var r := BeginBody(s, t, fate);
    if r.rc == 0 && Live(s) {
      var saves := s.db.value.saves;
      assert Levels(r.store) == Levels(s) + [Contents(s)];
    }
  }

  /** db_commit: outermost, the contents reach the disk; inside, only the innermost level is forgotten. */
  lemma CommitPops<D>(s: Store<D>, t: Thread, fate: Fate)
    requires Good(s, t)
    ensures var r := CommitBody(s, t, fate);
            && Good(r.store, r.thread) && r.thread.failed == t.failed
            && (r.rc == 0 <==> t.depth > 0 && t.failed == 0 && Live(s) && fate == AsAsked)
            && (r.rc == 0 ==> r.thread.depth == t.depth - 1 && Contents(r.store) == Contents(s)
                              && Levels(r.store) == Levels(s)[..t.depth - 1])
            && (r.rc == 0 ==> r.store.disk == if t.depth == 1 then Contents(s) else s.disk)
            && (r.rc != 0 ==> r.thread == t && r.store.disk == s.disk && (Live(r.store) ==> r.store.db == s.db))
            && r.store.lock == if r.rc == 0 && r.thread.depth == 0 then None else s.lock
  {
    var r := CommitBody(s, t, fate);
    if r.rc == 0 && t.depth > 1 {
      FindLevel(s.db.value.saves, t.depth);
      assert Levels(r.store) == Levels(s)[..t.depth - 1];
    } else if r.rc == 0 {
      assert Levels(s)[..0] == [];
    }
  }

  /** db_rollback of a live transaction restores exactly the contents at the matching begin. */
  lemma RollbackRestoresLevel<D>(s: Store<D>, t: Thread, fate: Fate)
    requires Good(s, t)
    ensures var r := RollbackBody(s, t, fate);
            && Good(r.store, r.thread) && r.store.disk == s.disk
            && (r.rc == 0 <==> t.depth > 0 && s.db.Some? && (Live(s) ==> fate == AsAsked))
            && r.store.lock == (if r.rc == 0 && r.thread.depth == 0 then None else s.lock)
            && (r.rc == 0 ==> r.thread.failed == if t.failed >= t.depth then 0 else t.failed)
            && (r.rc == 0 && Live(s) ==>
                  && r.thread.depth == t.depth - 1 && Levels(r.store) == Levels(s)[..t.depth - 1]
                  && Contents(r.store) == Levels(s)[t.depth - 1])
            && (r.rc == 0 && !Live(s) ==> r.thread.depth == 0 && Contents(r.store) == s.disk)
            && (r.rc != 0 ==> r.thread == t && Levels(r.store) == if Live(r.store) then Levels(s) else [])
  {
    var r := RollbackBody(s, t, fate);
    if t.depth > 1 && Live(s) {
      var saves := s.db.value.saves;
      FindLevel(saves, t.depth);
      assert saves[..t.depth - 1] == saves;
      if r.rc == 0 {
        assert Levels(r.store) == Levels(s)[..t.depth - 1];
      } else if Live(r.store) {
        assert Levels(r.store) == Levels(s);
      }
    } else if r.rc == 0 && Live(s) {
      assert Levels(s)[..0] == [];
    }
  }

  /** db_abort_all leaves no transaction, no depth, no failure and no lock, whatever the engine does. */
  lemma AbortClears<D>(s: Store<D>, t: Thread, fate: Fate)
    requires Good(s, t)
    ensures var r := AbortBody(s, t, fate);
            && Good(r.store, r.thread) && r.store.disk == s.disk && r.thread.depth == 0 && !Live(r.store)
            && (t.depth > 0 ==> r.thread == Thread(0, 0) && r.store.lock == None)
            && (t.depth == 0 ==> r.store == s && r.thread == t)
  {
  }

  /**
   A statement changes the contents of the open transaction, or the disk when there is none.  One that fails inside a
   transaction records its level, unless a failure is recorded already.
   */
  lemma ExecuteWrites<D>(s: Store<D>, t: Thread, o: Outcome<D>)
    requires Good(s, t)
    ensures var r := ExecuteBody(s, t, o);
            && Good(r.store, r.thread) && r.thread.depth == t.depth
            && (r.rc == 0 <==> o.Wrote? && s.db.Some? && (t.depth > 0 ==> Live(s)))
            && (r.rc == 0 ==> r.thread == t && Contents(r.store) == o.contents && Levels(r.store) == Levels(s)
                              && r.store.disk == if t.depth > 0 then s.disk else o.contents)
            && (r.rc != 0 && t.depth > 0 ==> r.thread.failed == if t.failed == 0 then t.depth else t.failed)
            && (r.rc != 0 && t.depth == 0 ==> r.thread.failed == t.failed)
            && (r.rc != 0 ==> r.store.disk == s.disk && (Live(r.store) <==> Live(s) && !(o.Failed? && o.ended)))
            && (r.rc != 0 && Live(r.store) ==> r.store.db == s.db)
            && r.store.lock == if t.depth == 0 then None else s.lock
  {
    var r := ExecuteBody(s, t, o);
    if r.rc == 0 { assert Levels(r.store) == Levels(s); }
  }

  /** A statement of a script does the same without a guard: it writes to the disk when the transaction is gone. */
  lemma ScriptWrites<D>(s: Store<D>, t: Thread, o: Outcome<D>)
    requires Good(s, t)
    ensures var r := ScriptBody(s, t, o);
            && Good(r.store, r.thread) && r.thread == t && r.store.lock == s.lock
            && (r.rc == 0 <==> o.Wrote? && t.depth > 0)
            && (r.rc == 0 ==> Contents(r.store) == o.contents && Levels(r.store) == Levels(s)
                              && r.store.disk == if Live(s) then s.disk else o.contents)
            && (r.rc != 0 ==> r.store.disk == s.disk && (Live(r.store) ==> r.store.db == s.db))
            && (r.rc != 0 && t.depth > 0 ==> (Live(r.store) <==> Live(s) && !o.ended))
  {
    var r := ScriptBody(s, t, o);
    if r.rc == 0 { assert Levels(r.store) == Levels(s); }
  }

  /**
   `t_failed_level <= t_depth` is kept by every call except one: db_rollback breaks it exactly when SQLite has ended
   the transaction before the call and the failure belongs to a level outside the one rolled back.
   */
  lemma FailedWithinDepth<D>(s: Store<D>, t: Thread, fate: Fate)
    requires Good(s, t) && t.failed <= t.depth
    ensures var r := RollbackBody(s, t, fate);
            r.thread.failed <= r.thread.depth <==> !(Autocommit(s) && 0 < t.failed < t.depth)
    ensures t.depth < MAX_LEVELS ==> var r := BeginBody(s, t, fate); r.thread.failed <= r.thread.depth
    ensures var r := CommitBody(s, t, fate); r.thread.failed <= r.thread.depth
    ensures var r := AbortBody(s, t, fate); r.thread.failed <= r.thread.depth
    ensures forall o :: ExecuteBody(s, t, o).thread.failed <= t.depth
  {
  }

  /** Such a state is reached: level 1 has failed, SQLite ends the transaction, level 2 is rolled back. */
  lemma StaleFailure()
    ensures var s := Store(0, Some(Idle), Some(7));
            var r := RollbackBody(s, Thread(2, 1), AsAsked);
            r.rc == 0 && r.thread == Thread(0, 1)
  {
  }

  // ----- the calls with their locking, as written -----

  /** db_lock succeeds for a thread inside a transaction, else if the mutex is free and is granted in time. */
  predicate CanLock<D>(s: Store<D>, t: Thread, granted: bool) { t.depth > 0 || (granted && s.lock.None?) }

  function Locked<D>(s: Store<D>, t: Thread, me: nat): Store<D> { if t.depth > 0 then s else s.(lock := Some(me)) }

  /** The variables of db_sqlite.c as one thread sees them. */
  class Session<D> {
    const me: nat
    var disk: D
    var db: Option<Conn<D>>
    var lock: Option<nat>
    var depth: nat
    var failed: nat

    constructor (me: nat, disk: D)
      ensures this.me == me && Shared() == Store(disk, None, None) && Mine() == Thread(0, 0)
    {
      this.me, this.disk, this.db, this.lock, this.depth, this.failed := me, disk, None, None, 0, 0;
    }

    ghost function Shared(): Store<D>
      reads this
    {
      Store(disk, db, lock)
    }

    ghost function Mine(): Thread
      reads this
    {
      Thread(depth, failed)
    }

    ghost predicate Is(r: Result<D>)
      reads this
    {
      Shared() == r.store && Mine() == r.thread
    }

    method DbLock(granted: bool) returns (ok: bool)
      modifies this`lock
      ensures ok <==> depth > 0 || (granted && old(lock) == None)
      ensures lock == if ok && depth == 0 then Some(me) else old(lock)
    {
      if depth > 0 { return true; }
      if !granted || lock.Some? { return false; }
      lock := Some(me);
      return true;
    }

    method DbUnlock()
      modifies this`lock
      ensures lock == if depth == 0 then None else old(lock)
    {
      if depth == 0 { lock := None; }
    }

    /** run_control_statement. */
    method RunControl(s: Control, fate: Fate) returns (ok: bool)
      requires db.Some?
      modifies this`db, this`disk
      ensures old(db).Some?
      ensures var r := Run(old(db).value, old(disk), s, fate); db == Some(r.conn) && disk == r.disk && ok == r.ok
    {
      var r := Run(db.value, disk, s, fate);
      db, disk, ok := Some(r.conn), r.disk, r.ok;
    }

    method DbBegin(granted: bool, fate: Fate) returns (rc: int)
      modifies this
      ensures if old(depth) >= MAX_LEVELS || !old(CanLock(Shared(), Mine(), granted))
              then rc == -1 && Shared() == old(Shared()) && Mine() == old(Mine())
              else var r := BeginBody(old(Locked(Shared(), Mine(), me)), old(Mine()), fate); Is(r) && rc == r.rc
    {
      if depth >= MAX_LEVELS { return -1; }
      var locked := DbLock(granted);
      if !locked { return -1; }
      if db.None? || (depth > 0 && db.value.Idle?) {
        DbUnlock();
        return -1;
      }
      var ok := RunControl(if depth == 0 then BEGIN else SAVEPOINT(depth + 1), fate);
      if !ok {
        DbUnlock();
        return -1;
      }
      depth := depth + 1;
      return 0;
    }

    method DbCommit(fate: Fate) returns (rc: int)
      modifies this
      ensures var r := CommitBody(old(Shared()), old(Mine()), fate); Is(r) && rc == r.rc
    {
      if depth == 0 || failed != 0 || db.None? || db.value.Idle? { return -1; }
      var ok := RunControl(if depth == 1 then COMMIT else RELEASE(depth), fate);
      if !ok { return -1; }
      depth := depth - 1;
      DbUnlock();
      return 0;
    }

    method DbRollback(fate: Fate) returns (rc: int)
      modifies this
      ensures var r := RollbackBody(old(Shared()), old(Mine()), fate); Is(r) && rc == r.rc
    {
      if depth == 0 || db.None? { return -1; }
      var ok := true;
      if !db.value.Idle? {
        ok := RunControl(if depth == 1 then ROLLBACK else ROLLBACK_TO_AND_RELEASE(depth), fate);
      }
      if !ok { return -1; }
      if failed >= depth { failed := 0; }
      if db.value.Idle? { depth := 0; } else { depth := depth - 1; }
      DbUnlock();
      return 0;
    }

    method DbAbortAll(fate: Fate)
      requires depth > 0 ==> db.Some?
      modifies this
      ensures old(depth > 0 ==> db.Some?) && Is(AbortBody(old(Shared()), old(Mine()), fate))
    {
      if depth == 0 { return; }
      var ok := RunControl(ROLLBACK, fate);
      if !ok && !db.value.Idle? { db := None; }
      depth, failed := 0, 0;
      DbUnlock();
    }

    /** db_execute; the failure marks of prepare_statement are those of the statement itself. */
    method DbExecute(granted: bool, o: Outcome<D>) returns (rc: int)
      modifies this
      ensures if !old(CanLock(Shared(), Mine(), granted))
              then rc == -1 && Shared() == old(Shared()) && Mine() == old(Mine())
              else var r := ExecuteBody(old(Locked(Shared(), Mine(), me)), old(Mine()), o); Is(r) && rc == r.rc
    {
      var locked := DbLock(granted);
      if !locked { return -1; }
      if db.None? || (depth > 0 && db.value.Idle?) || o.Failed? {
        if depth > 0 && failed == 0 { failed := depth; }
        if db.Some? && !(depth > 0 && db.value.Idle?) && o.ended { db := Some(Idle); }
        DbUnlock();
        return -1;
      }
      if db.value.Txn? { db := Some(db.value.(work := o.contents)); } else { disk := o.contents; }
      DbUnlock();
      return 0;
    }
  }
}
