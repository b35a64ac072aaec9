/** Migrations: reading the files of a directory in order of their versions, and applying them in one transaction. */
module Migrations {
  import opened Bytes
  import opened Sqlite
  import opened Transactions

  // ----- what is stored -----

  datatype Record = Record(name: bytes, sql: bytes)

  /** The table of migration records, by version, and everything else in the database. */
  datatype Db<X> = Db(records: map<int, Record>, data: X)

  datatype File = File(version: int, name: bytes, sql: bytes)

  /**
   How a script goes, on given contents: all its statements run; one of them fails, perhaps ending the transaction; or
   SQLite ends the transaction between two of them and the rest reach the disk one by one, since db_script has no guard,
   until all have run or one fails.
   */
  datatype Run<X> = Ran(after: Db<X>) | Broke(after: Db<X>, ended: bool) | Escaped(disk: Db<X>, broke: bool)

  type Engine<!X> = (bytes, Db<X>) -> Run<X>

  predicate Known<X>(d: Db<X>, f: File) { f.version in d.records && d.records[f.version] == Record(f.name, f.sql) }

  ghost predicate Increasing(files: seq<File>) {
    && (forall i :: 0 <= i < |files| ==> files[i].version > 0)
    && forall i, j :: 0 <= i < j < |files| ==> files[i].version < files[j].version
  }

  /** The records of the first k files. */
  function Recorded(files: seq<File>, k: nat): map<int, Record>
    requires k <= |files|
  {
    if k == 0 then map[] else Recorded(files, k - 1)[files[k - 1].version := Record(files[k - 1].name, files[k - 1].sql)]
  }

  // ----- db_migration in apply mode, on the contents alone -----

  /** One migration: its script and its record, unless it is recorded already. */
  function Step<X>(engine: Engine<X>, d: Db<X>, f: File): Option<Db<X>> {
    if f.version in d.records then (if Known(d, f) then Some(d) else None)
    else
      var r := engine(f.sql, d);
      if !r.Ran? || f.version in r.after.records then None
      else Some(r.after.(records := r.after.records[f.version := Record(f.name, f.sql)]))
  }

  function Migrated<X>(engine: Engine<X>, files: seq<File>, k: nat, d: Db<X>): Option<Db<X>>
    requires k <= |files|
    decreases |files| - k
  {
    if k == |files| then Some(d)
    else
      var next := Step(engine, d, files[k]);
      if next.None? then None else Migrated(engine, files, k + 1, next.value)
  }

  // ----- the records of the first k files -----

  lemma {:induction false} RecordedKeys(files: seq<File>, k: nat)
    requires Increasing(files) && k <= |files|
    ensures |Recorded(files, k)| == k
    ensures forall i :: 0 <= i < |files| ==> (files[i].version in Recorded(files, k) <==> i < k)
    ensures forall i :: 0 <= i < k ==> Recorded(files, k)[files[i].version] == Record(files[i].name, files[i].sql)
    decreases k
  {
    if k > 0 {
      RecordedKeys(files, k - 1);
      var m := Recorded(files, k - 1);
      var v := files[k - 1].version;
      assert v !in m;
      assert Recorded(files, k).Keys == m.Keys + {v};
    }
  }

  /**
   The pigeonhole: as many records as files that are known, and those files have different versions, so there are no
   other records.
   */
  lemma {:induction false} NoOtherRecords<X>(d: Db<X>, files: seq<File>, k: nat)
    requires Increasing(files) && k <= |files| && |d.records| == k
    requires forall i :: 0 <= i < k ==> Known(d, files[i])
    ensures d.records == Recorded(files, k)
  {
    RecordedKeys(files, k);
    var m := Recorded(files, k);
    forall v | v in m ensures v in d.records && d.records[v] == m[v] { KeyOfFile(files, k, v); }
    assert m.Keys <= d.records.Keys;
    SameSize(m.Keys, d.records.Keys);
  }

  lemma {:induction false} KeyOfFile(files: seq<File>, k: nat, v: int)
    requires Increasing(files) && k <= |files| && v in Recorded(files, k)
    ensures exists i :: 0 <= i < k && files[i].version == v && Recorded(files, k)[v] == Record(files[i].name, files[i].sql)
    decreases k
  {
    RecordedKeys(files, k);
    if k > 0 && v != files[k - 1].version { KeyOfFile(files, k - 1, v); }
  }

  lemma {:induction false} SameSize(a: set<int>, b: set<int>)
    requires a <= b && |a| == |b|
    ensures a == b
  {
    assert |b - a| == |b| - |a|;
  }

  // ----- scripts that leave the records alone -----

  ghost predicate LeavesRecords<X(!new)>(engine: Engine<X>) {
    forall sql: bytes, d: Db<X> :: engine(sql, d).Ran? ==> engine(sql, d).after.records == d.records
  }

  /** Every script from the k-th on, each once and in order, on the data. */
  function Scripts<X>(engine: Engine<X>, files: seq<File>, k: nat, d: Db<X>): Option<X>
    requires k <= |files|
    decreases |files| - k
  {
    if k == |files| then Some(d.data)
    else
      var r := engine(files[k].sql, d);
      if !r.Ran? then None
      else Scripts(engine, files, k + 1, Db(d.records[files[k].version := Record(files[k].name, files[k].sql)], r.after.data))
  }

  /** Then the records end up as all the files, and the data is what the missing scripts make of it, each run once. */
  lemma {:induction false} AllRecorded<X(!new)>(engine: Engine<X>, files: seq<File>, k: nat, d: Db<X>)
    requires LeavesRecords(engine) && Increasing(files) && k <= |files| && d.records == Recorded(files, k)
    ensures Migrated(engine, files, k, d) ==
            var x := Scripts(engine, files, k, d);
            if x.None? then None else Some(Db(Recorded(files, |files|), x.value))
    decreases |files| - k
  {
    if k < |files| {
      RecordedKeys(files, k);
      var f := files[k];
      var r := engine(f.sql, d);
      if r.Ran? {
        assert r.after.records == d.records;
        AllRecorded(engine, files, k + 1, Db(Recorded(files, k + 1), r.after.data));
      }
    }
  }

  /** A migration adds its own record and no more exactly when its script leaves the records alone. */
  lemma OwnRecordOnly<X>(engine: Engine<X>, d: Db<X>, f: File)
    requires f.version !in d.records && Step(engine, d, f).Some?
    ensures Step(engine, d, f).value.records == d.records[f.version := Record(f.name, f.sql)]
            <==> engine(f.sql, d).after.records == d.records
  {
    var after := engine(f.sql, d).after.records;
    var x := Record(f.name, f.sql);
    if after[f.version := x] == d.records[f.version := x] {
      assert after == after[f.version := x] - {f.version};
      assert d.records == d.records[f.version := x] - {f.version};
    }
  }

  /** Without that, success does not mean that the records are the files: here a script records a version of its own. */
  lemma TamperingScript()
    ensures var f := File(1, [0x61], [0x62]);
            var engine: Engine<int> := (sql: bytes, d: Db<int>) => Ran(Db(d.records[9 := Record([], [])], d.data));
            var after := Migrated(engine, [f], 0, Db(map[], 0));
            after.Some? && after.value.records != Recorded([f], 1)
  {
    var f := File(1, [0x61], [0x62]);
    var engine: Engine<int> := (sql: bytes, d: Db<int>) => Ran(Db(d.records[9 := Record([], [])], d.data));
    var d1 := Step(engine, Db(map[], 0), f);
    assert d1.Some? && 9 in d1.value.records;
    assert Migrated(engine, [f], 1, d1.value) == d1;
    assert Recorded([f], 0) == map[];
    assert 9 !in Recorded([f], 1);
  }

  // ----- scripts that lose their transaction -----

  /** What the script of f, if it is pending, leaves on the disk when it loses its transaction. */
  function Escapes<X>(engine: Engine<X>, d: Db<X>, f: File): Option<Db<X>> {
    if f.version !in d.records && engine(f.sql, d).Escaped? then Some(engine(f.sql, d).disk) else None
  }

  /** What the first pending script that loses its transaction leaves on the disk; None when none does. */
  function Escape<X>(engine: Engine<X>, files: seq<File>, k: nat, d: Db<X>): Option<Db<X>>
    requires k <= |files|
    decreases |files| - k
  {
    if k == |files| then None
    else
      var next := Step(engine, d, files[k]);
      if next.Some? then Escape(engine, files, k + 1, next.value)
      else Escapes(engine, d, files[k])
  }

  lemma EscapesIsNoStep<X>(engine: Engine<X>, d: Db<X>, f: File)
    ensures Escapes(engine, d, f).Some? ==> Step(engine, d, f).None?
  {
  }

  /** A run in which a script escapes is not a success. */
  lemma {:induction false} EscapeFails<X>(engine: Engine<X>, files: seq<File>, k: nat, d: Db<X>)
    requires k <= |files| && Escape(engine, files, k, d).Some?
    ensures Migrated(engine, files, k, d).None?
    decreases |files| - k
  {
    var next := Step(engine, d, files[k]);
    if next.Some? { EscapeFails(engine, files, k + 1, next.value); }
  }

  // ----- apply_migrations -----

  /** Which of the statements that might fail do fail; a failing statement may end the transaction. */
  datatype Luck = Luck(granted: bool, begins: Fate, commits: Fate, aborts: Fate, creates: bool, counts: bool,
                       checks: nat -> bool, looks: nat -> bool, inserts: nat -> bool, ended: bool)

  ghost predicate AllWell(l: Luck) {
    && l.granted && l.begins == AsAsked && l.commits == AsAsked && l.creates && l.counts
    && forall i: nat :: l.checks(i) && l.looks(i) && l.inserts(i)
  }

  /** Inside the one transaction of apply_migrations, which SQLite may have ended. */
  ghost predicate Inside<X>(s: Store<Db<X>>, t: Thread, me: nat) {
    t.depth == 1 && s.lock == Some(me) && Good(s, t)
  }

  method PresentContents<X>(s: Session<Db<X>>) returns (d: Db<X>)
    ensures d == Contents(s.Shared())
  {
    d := if s.db.Some? && s.db.value.Txn? then s.db.value.work else s.disk;
  }

  /** A statement inside the transaction: it leaves the contents d, or fails. */
  method Statement<X>(s: Session<Db<X>>, good: bool, d: Db<X>, ended: bool) returns (ok: bool)
    requires Inside(s.Shared(), s.Mine(), s.me)
    modifies s
    ensures Inside(s.Shared(), s.Mine(), s.me) && s.disk == old(s.disk)
    ensures ok == (good && old(Live(s.Shared())))
    ensures ok ==> Live(s.Shared()) && Contents(s.Shared()) == d && s.failed == old(s.failed)
  {
    ExecuteWrites(s.Shared(), s.Mine(), if good then Wrote(d) else Failed(ended));
    var rc := s.DbExecute(true, if good then Wrote(d) else Failed(ended));
    ok := rc == 0;
  }

  /** db_script: no guard, and no mark when it fails. */
  method Script<X>(s: Session<Db<X>>, r: Run<X>) returns (ok: bool)
    requires Inside(s.Shared(), s.Mine(), s.me) && Live(s.Shared())
    modifies s
    ensures Inside(s.Shared(), s.Mine(), s.me) && s.failed == old(s.failed)
    ensures s.disk == if r.Escaped? then r.disk else old(s.disk)
    ensures ok == (r.Ran? || (r.Escaped? && !r.broke)) && (r.Escaped? ==> !Live(s.Shared()))
    ensures r.Ran? ==> Live(s.Shared()) && Contents(s.Shared()) == r.after
  {
    match r {
      case Ran(after) => s.db := Some(s.db.value.(work := after));
      case Broke(after, ended) => s.db := if ended then Some(Idle) else Some(s.db.value.(work := after));
      case Escaped(disk, _) => s.db, s.disk := Some(Idle), disk;
    }
    ok := r.Ran? || (r.Escaped? && !r.broke);
  }

  /** db_migration. */
  method DbMigration<X>(s: Session<Db<X>>, engine: Engine<X>, f: File, apply: bool, look: bool, insert: bool, ended: bool)
    returns (r: int)
    requires Inside(s.Shared(), s.Mine(), s.me) && f.version > 0
    modifies s
    ensures Inside(s.Shared(), s.Mine(), s.me) && -1 <= r <= 1 && (!apply || r != -1 ==> s.disk == old(s.disk))
    ensures s.disk == old(s.disk) || Escapes(engine, old(Contents(s.Shared())), f) == Some(s.disk)
    ensures apply && look && old(Live(s.Shared())) && Escapes(engine, old(Contents(s.Shared())), f).Some? ==>
              r == -1 && Escapes(engine, old(Contents(s.Shared())), f) == Some(s.disk)
    ensures r != -1 ==> old(Live(s.Shared())) && Live(s.Shared()) && s.failed == old(s.failed)
    ensures !apply && r != -1 ==>
              && Contents(s.Shared()) == old(Contents(s.Shared()))
              && (r == 1 <==> Known(old(Contents(s.Shared())), f)) && (r == 0 <==> f.version !in old(Contents(s.Shared())).records)
    ensures apply && r != -1 ==> r == 1 && Step(engine, old(Contents(s.Shared())), f) == Some(Contents(s.Shared()))
    ensures look && insert && old(Live(s.Shared())) ==>
              (r == -1 <==> if apply then Step(engine, old(Contents(s.Shared())), f).None?
                            else f.version in old(Contents(s.Shared())).records && !Known(old(Contents(s.Shared())), f))
  {
    hide Inside, Live, Contents;
    var d := PresentContents(s);
    var ok := Statement(s, look, d, ended);
    if !ok || (f.version in d.records && !Known(d, f)) { return -1; }
    if f.version in d.records { return 1; }
    if !apply { return 0; }
    ok := Script(s, engine(f.sql, d));
    if !ok { return -1; }
    d := PresentContents(s);
    if f.version in d.records {
      ok := Statement(s, false, d, ended);
      return -1;
    }
    ok := Statement(s, insert, d.(records := d.records[f.version := Record(f.name, f.sql)]), ended);
    return if ok then 1 else -1;
  }

  /** Giving up: nothing reaches the disk and nothing stays open. */
  method GiveUp<X>(s: Session<Db<X>>, fate: Fate)
    requires Inside(s.Shared(), s.Mine(), s.me)
    modifies s
    ensures s.disk == old(s.disk) && s.depth == 0 && s.failed == 0 && s.lock == None && !Live(s.Shared())
  {
    AbortClears(s.Shared(), s.Mine(), fate);
    s.DbAbortAll(fate);
  }

  /** The first loop: the first `applied` files must be recorded as they are, the others not at all. */
  method CheckAll<X>(s: Session<Db<X>>, engine: Engine<X>, files: seq<File>, applied: nat, l: Luck) returns (ok: bool)
    requires Inside(s.Shared(), s.Mine(), s.me) && Live(s.Shared()) && s.failed == 0
    requires Increasing(files) && applied <= |files|
    modifies s
    ensures Inside(s.Shared(), s.Mine(), s.me) && s.disk == old(s.disk)
    ensures ok ==> Live(s.Shared()) && s.failed == 0 && Contents(s.Shared()) == old(Contents(s.Shared()))
    ensures ok ==> forall i :: 0 <= i < applied ==> Known(old(Contents(s.Shared())), files[i])
    ensures AllWell(l) && |old(Contents(s.Shared())).records| == applied && old(Contents(s.Shared())).records == Recorded(files, applied) ==> ok
  {
    hide Inside, Live, Contents, Recorded, Step;
    ghost var d := Contents(s.Shared());
    RecordedKeys(files, applied);
    var i := 0;
    while i < |files|
      invariant 0 <= i <= |files| && Inside(s.Shared(), s.Mine(), s.me) && s.disk == old(s.disk) && Live(s.Shared()) && s.failed == 0
      invariant Contents(s.Shared()) == d && forall j :: 0 <= j < i && j < applied ==> Known(d, files[j])
    {
      var r := DbMigration(s, engine, files[i], false, l.checks(i), true, l.ended);
      if r != (if i < applied then 1 else 0) { return false; }
      i := i + 1;
    }
    return true;
  }

  /** The second loop: the remaining files, in order. */
  method ApplyRest<X>(s: Session<Db<X>>, engine: Engine<X>, files: seq<File>, applied: nat, l: Luck) returns (ok: bool)
    requires Inside(s.Shared(), s.Mine(), s.me) && Live(s.Shared()) && s.failed == 0
    requires Increasing(files) && applied <= |files|
    modifies s
    ensures Inside(s.Shared(), s.Mine(), s.me) && (ok ==> s.disk == old(s.disk))
    ensures s.disk == old(s.disk) || Escape(engine, files, applied, old(Contents(s.Shared()))) == Some(s.disk)
    ensures AllWell(l) && Escape(engine, files, applied, old(Contents(s.Shared()))).Some? ==>
              Escape(engine, files, applied, old(Contents(s.Shared()))) == Some(s.disk)
    ensures ok ==> Live(s.Shared()) && s.failed == 0
                   && Migrated(engine, files, applied, old(Contents(s.Shared()))) == Some(Contents(s.Shared()))
    ensures AllWell(l) && Migrated(engine, files, applied, old(Contents(s.Shared()))).Some? ==> ok
  {
    hide Inside, Live, Contents, Step;
    ghost var d := Contents(s.Shared());
    var i := applied;
    while i < |files|
      invariant applied <= i <= |files| && Inside(s.Shared(), s.Mine(), s.me) && s.disk == old(s.disk) && Live(s.Shared()) && s.failed == 0
      invariant Migrated(engine, files, applied, d) == Migrated(engine, files, i, Contents(s.Shared()))
      invariant Escape(engine, files, applied, d) == Escape(engine, files, i, Contents(s.Shared()))
    {
      EscapesIsNoStep(engine, Contents(s.Shared()), files[i]);
      var r := DbMigration(s, engine, files[i], true, l.looks(i), l.inserts(i), l.ended);
      if r != 1 { return false; }
      i := i + 1;
    }
    return true;
  }

  /** The records are those of the first k files, as many as there are records. */
  predicate UpToDate<X>(files: seq<File>, d: Db<X>) { |d.records| <= |files| && d.records == Recorded(files, |d.records|) }

  /** What the pending scripts make of d, when all goes well. */
  function Target<X>(engine: Engine<X>, files: seq<File>, d: Db<X>): Option<Db<X>> {
    if UpToDate(files, d) then Migrated(engine, files, |d.records|, d) else None
  }

  /** What is on the disk after a failure in which every other statement went well. */
  function Remains<X>(engine: Engine<X>, files: seq<File>, d: Db<X>): Db<X> {
    if UpToDate(files, d) && Escape(engine, files, |d.records|, d).Some? then Escape(engine, files, |d.records|, d).value else d
  }

  /**
   apply_migrations, called outside any transaction.  If it succeeds the records were exactly those of the first k files,
   and the rest have been applied in order.  If it fails the disk is unchanged, or as the first pending script that
   loses its transaction on its own contents leaves it.  When no other statement fails it succeeds exactly when all can
   be applied, and a failure changes the disk exactly when such a script does.
   */
  method ApplyMigrations<X>(s: Session<Db<X>>, engine: Engine<X>, files: seq<File>, l: Luck) returns (rc: int)
    requires Good(s.Shared(), s.Mine()) && s.Mine() == Thread(0, 0) && Increasing(files)
    modifies s
    ensures s.depth == 0 && (rc == 0 || rc == -1) && (old(s.lock) == None ==> s.lock == None)
    ensures rc == 0 ==> Target(engine, files, old(s.disk)) == Some(s.disk)
    ensures rc == -1 ==> s.disk == old(s.disk) || s.disk == Remains(engine, files, old(s.disk))
    ensures AllWell(l) && old(s.lock == None && s.db.Some?) ==>
              && (rc == 0 <==> Target(engine, files, old(s.disk)).Some?)
              && (rc == -1 ==> s.disk == Remains(engine, files, old(s.disk)))
  {
    hide Recorded, Step, Migrated, Inside, Escape;
    ghost var disk := s.disk;
    ghost var free := s.lock == None;
    BeginPushes(Locked(s.Shared(), s.Mine(), s.me), s.Mine(), l.begins);
    var begun := s.DbBegin(l.granted, l.begins);
    if begun != 0 { return -1; }
    Entered(s.Shared(), s.Mine(), s.me);
    var d := PresentContents(s);
    var ok := Statement(s, l.creates, d, l.ended);
    if ok { ok := Statement(s, l.counts, d, l.ended); }
    var applied := |d.records|;
    if !ok || applied > |files| {
      GiveUp(s, l.aborts);
      return -1;
    }
    ok := CheckAll(s, engine, files, applied, l);
    if ok {
      NoOtherRecords(disk, files, applied);
      if Escape(engine, files, applied, disk).Some? { EscapeFails(engine, files, applied, disk); }
      ok := ApplyRest(s, engine, files, applied, l);
    }
    if !ok {
      GiveUp(s, l.aborts);
      return -1;
    }
    Left(s.Shared(), s.Mine(), s.me, l.commits);
    var committed := s.DbCommit(l.commits);
    if committed != 0 {
      GiveUp(s, l.aborts);
      return -1;
    }
    return 0;
  }

  lemma Entered<X>(s: Store<Db<X>>, t: Thread, me: nat)
    requires t.depth == 1 && s.lock == Some(me) && Good(s, t)
    ensures Inside(s, t, me)
  {
  }

  lemma Left<X>(s: Store<Db<X>>, t: Thread, me: nat, fate: Fate)
    requires Inside(s, t, me) && Live(s) && t.failed == 0
    ensures var r := CommitBody(s, t, fate);
            && (r.rc == 0 <==> fate == AsAsked)
            && (r.rc == 0 ==> r.thread == Thread(0, 0) && r.store.lock == None && r.store.disk == Contents(s))
            && (r.rc != 0 ==> Inside(r.store, r.thread, me) && r.store.disk == s.disk)
  {
    CommitPops(s, t, fate);
  }
}
