/**
 The part of SQLite the framework relies on: what a connection does on BEGIN, SAVEPOINT, RELEASE, ROLLBACK TO,
 COMMIT and ROLLBACK.  Every control statement may also fail, and any failure may make SQLite end the whole
 transaction on its own.  The contents of the database are an arbitrary value of type D.
 */
module Sqlite {
  datatype Savepoint<+D> = Savepoint(name: nat, snapshot: D)

  /** Idle is autocommit mode; disk contents are kept beside the connection. */
  datatype Conn<+D> = Idle | Txn(work: D, saves: seq<Savepoint<D>>)

  datatype Control = BEGIN | SAVEPOINT(name: nat) | RELEASE(name: nat) | COMMIT | ROLLBACK
                   | ROLLBACK_TO_AND_RELEASE(name: nat)

  /** How a control statement goes: as asked, failing, failing and ending the transaction, or stopping half-way. */
  datatype Fate = AsAsked | Fails | FailsAndEnds | StopsHalfway

  datatype Reply<+D> = Reply(conn: Conn<D>, disk: D, ok: bool)

  /** The position of the most recent savepoint of that name; |saves| when there is none. */
  function Find<D>(saves: seq<Savepoint<D>>, name: nat): (k: nat)
    ensures k <= |saves|
    ensures k < |saves| ==> saves[k].name == name && forall j :: k < j < |saves| ==> saves[j].name != name
    ensures k == |saves| ==> forall j :: 0 <= j < |saves| ==> saves[j].name != name
    decreases |saves|
  {
    if saves == [] then 0
    else
      var n := |saves| - 1;
      if saves[n].name == name then n
      else
        var k := Find(saves[..n], name);
        if k == n then n + 1 else k
  }

  /** RELEASE forgets the savepoint and everything after it; false when there is no such savepoint. */
  function Release<D>(c: Conn<D>, name: nat): (Conn<D>, bool) {
    if c.Idle? || Find(c.saves, name) == |c.saves| then (c, false)
    else (c.(saves := c.saves[..Find(c.saves, name)]), true)
  }

  /** ROLLBACK TO restores the snapshot and keeps the savepoint itself. */
  function RollbackTo<D>(c: Conn<D>, name: nat): (Conn<D>, bool) {
    if c.Idle? || Find(c.saves, name) == |c.saves| then (c, false)
    else
      var k := Find(c.saves, name);
      (Txn(c.saves[k].snapshot, c.saves[..k + 1]), true)
  }

  function Perform<D>(c: Conn<D>, disk: D, s: Control): Reply<D> {
    match s
    case BEGIN => if c.Idle? then Reply(Txn(disk, []), disk, true) else Reply(c, disk, false)
    case SAVEPOINT(n) =>
      if c.Idle? then Reply(Txn(disk, [Savepoint(n, disk)]), disk, true)
      else Reply(c.(saves := c.saves + [Savepoint(n, c.work)]), disk, true)
    case RELEASE(n) => var r := Release(c, n); Reply(r.0, disk, r.1)
    case COMMIT => if c.Idle? then Reply(c, disk, false) else Reply(Idle, c.work, true)
    case ROLLBACK => if c.Idle? then Reply(c, disk, false) else Reply(Idle, disk, true)
    case ROLLBACK_TO_AND_RELEASE(n) =>
      var back := RollbackTo(c, n);
      if !back.1 then Reply(back.0, disk, false)
      else var r := Release(back.0, n); Reply(r.0, disk, r.1)
  }

  /** A control statement with the fate the engine gives it. */
  function Run<D>(c: Conn<D>, disk: D, s: Control, fate: Fate): (r: Reply<D>)
    ensures r.disk != disk ==> s == COMMIT && fate == AsAsked && c.Txn? && r.disk == c.work && r.ok
  {
    match fate
    case AsAsked => Perform(c, disk, s)
    case Fails => Reply(c, disk, false)
    case FailsAndEnds => Reply(Idle, disk, false)
    case StopsHalfway =>
      if s.ROLLBACK_TO_AND_RELEASE? then Reply(RollbackTo(c, s.name).0, disk, false) else Reply(c, disk, false)
  }
}
