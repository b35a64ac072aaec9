/** The files of a migrations directory: their names, their order, and migrate_run as a whole. */
module MigrationFiles {
  import opened Bytes
  import opened JsonGrammar
  import opened JsonPrint
  import opened Sqlite
  import opened Transactions
  import opened Migrations

  const INT_MAX := 0x7FFF_FFFF
  const MIGRATE_MAX := 128
  const MIGRATE_FILE_MAX := 65536
  const MIGRATE_TOTAL_MAX := 1024 * 1024
  const SCAN_MAX := 1024

  // ----- names -----

  const UNDERSCORES: bytes := [0x5F, 0x5F]
  const SUFFIX: bytes := [0x2E, 0x73, 0x71, 0x6C]

  predicate IsLabelChar(c: byte) { IsNameStart(c) || IsDigit(c) || c == 0x2D }

  /** 12__create_notes.sql and the like. */
  predicate IsName(name: bytes, digits: bytes, title: bytes) {
    && name == digits + UNDERSCORES + title + SUFFIX && |name| < 128
    && 1 <= |digits| <= 10 && AreDigits(digits) && digits[0] != 0x30 && DigitsValue(digits) <= INT_MAX
    && title != [] && forall k :: 0 <= k < |title| ==> IsLabelChar(title[k])
  }

  /** The end of the leading digits, at most ten of them, from index i on. */
  function RunEnd(name: bytes, i: nat): (k: nat)
    requires i <= |name| && i <= 10
    ensures i <= k <= |name| && k <= 10 && (k == 10 || k == |name| || !IsDigit(name[k]))
    ensures forall j :: i <= j < k ==> IsDigit(name[j])
    decreases 10 - i
  {
    if i < 10 && i < |name| && IsDigit(name[i]) then RunEnd(name, i + 1) else i
  }

  function LastBytes(name: bytes, n: nat): bytes { if |name| >= n then name[|name| - n..] else name }

  predicate HasSuffix(name: bytes) { |name| >= 4 && LastBytes(name, 4) == SUFFIX }

  lemma ValueNext(name: bytes, i: nat)
    requires i < |name| && AreDigits(name[..i]) && IsDigit(name[i])
    ensures AreDigits(name[..i + 1]) && DigitsValue(name[..i + 1]) == DigitsValue(name[..i]) * 10 + (name[i] - 0x30)
  {
    assert name[..i + 1] == name[..i] + [name[i]];
    assert name[..i + 1][..i] == name[..i];
  }

  lemma RunUnique(name: bytes, digits: bytes, title: bytes)
    requires IsName(name, digits, title)
    ensures RunEnd(name, 0) == |digits| && name[..|digits|] == digits && |name| == |digits| + 6 + |title|
    ensures name[|digits|] == 0x5F && name[|digits| + 1] == 0x5F && HasSuffix(name) && name[|digits| + 2..|name| - 4] == title
  {
    var n := |digits|;
    var k := RunEnd(name, 0);
    assert name[..n] == digits;
    assert forall j :: 0 <= j < n ==> IsDigit(name[j]) && digits[j] == name[j];
    assert name[n] == 0x5F;
  }

  /** The version a name carries, or -1, as migration_version goes about it. */
  function VersionOf(name: bytes): int {
    if name == [] || name[0] < 0x31 || name[0] > 0x39 then -1
    else
      var i := RunEnd(name, 0);
      if DigitsValue(name[..i]) > INT_MAX then -1
      else if i + 1 >= |name| || name[i] != 0x5F || name[i + 1] != 0x5F then -1
      else if |name| <= i + 6 || |name| >= 128 || name[|name| - 4..] != SUFFIX then -1
      else if forall k :: i + 2 <= k < |name| - 4 ==> IsLabelChar(name[k]) then DigitsValue(name[..i])
      else -1
  }

  /** Every well-formed name has the version its digits say ... */
  lemma VersionOfName(name: bytes, digits: bytes, title: bytes)
    requires IsName(name, digits, title)
    ensures VersionOf(name) == DigitsValue(digits)
  {
    hide RunEnd, DigitsValue;
    RunUnique(name, digits, title);
    assert digits[0] == name[0];
    forall k | |digits| + 2 <= k < |name| - 4 ensures IsLabelChar(name[k]) {
      assert name[|digits| + 2..|name| - 4][k - |digits| - 2] == name[k];
    }
  }

  /** ... and no other name has one. */
  lemma VersionMeansName(name: bytes)
    requires VersionOf(name) != -1
    ensures var i := RunEnd(name, 0);
            i + 2 <= |name| - 4 && IsName(name, name[..i], name[i + 2..|name| - 4]) && VersionOf(name) > 0
  {
    hide RunEnd, DigitsValue;
    var i := RunEnd(name, 0);
    RunFirst(name);
    Composed(name, i);
    FirstDigit(name[..i]);
  }

  lemma RunFirst(name: bytes)
    requires name != [] && IsDigit(name[0])
    ensures RunEnd(name, 0) >= 1
  {
    assert name[..0] == [] && name[..1] == [name[0]];
  }

  lemma {:induction false} FirstDigit(d: bytes)
    requires AreDigits(d) && d != [] && d[0] != 0x30
    ensures DigitsValue(d) > 0
    decreases |d|
  {
    if |d| > 1 {
      FirstDigit(d[..|d| - 1]);
    } else {
      assert d[..0] == [];
    }
  }

  /** migration_version. */
  method MigrationVersion(name: bytes) returns (v: int)
    ensures v == VersionOf(name)
  {
    hide RunEnd, DigitsValue;
    if |name| == 0 || name[0] < 0x31 || name[0] > 0x39 { return -1; }
    var version, i := 0, 0;
    assert name[..0] == [];
    NoDigits();
    while i < 10 && i < |name| && IsDigit(name[i])
      invariant 0 <= i <= |name| && i <= 10 && AreDigits(name[..i]) && RunEnd(name, 0) == RunEnd(name, i)
      invariant version == DigitsValue(name[..i]) && 0 <= version <= INT_MAX
      decreases 10 - i
    {
      var digit := name[i] - 0x30;
      ValueNext(name, i);
      RunStep(name, i);
      if version > (INT_MAX - digit) / 10 {
        var end := RunEnd(name, i + 1);
        DigitsGrow(name[..end], i + 1);
        assert name[..end][..i + 1] == name[..i + 1];
        return -1;
      }
      version := version * 10 + digit;
      i := i + 1;
    }
    RunStops(name, i);
    if i + 1 >= |name| || name[i] != 0x5F || name[i + 1] != 0x5F { return -1; }
    var len := |name|;
    if len <= i + 6 || len >= 128 || name[len - 4..] != SUFFIX { return -1; }
    var j := i + 2;
    while j < len - 4
      invariant i + 2 <= j <= len - 4 && forall k :: i + 2 <= k < j ==> IsLabelChar(name[k])
    {
      if !IsLabelChar(name[j]) { return -1; }
      j := j + 1;
    }
    return version;
  }

  lemma NoDigits()
    ensures AreDigits([]) && DigitsValue([]) == 0
  {
  }

  lemma RunStep(name: bytes, i: nat)
    requires i < 10 && i < |name| && AreDigits(name[..i]) && IsDigit(name[i])
    ensures AreDigits(name[..i + 1]) && AreDigits(name[..RunEnd(name, i + 1)]) && RunEnd(name, i) == RunEnd(name, i + 1)
  {
    assert name[..i + 1] == name[..i] + [name[i]];
  }

  lemma RunStops(name: bytes, i: nat)
    requires i <= 10 && i <= |name| && AreDigits(name[..i]) && (i == 10 || i == |name| || !IsDigit(name[i]))
    ensures RunEnd(name, i) == i
  {
  }

  lemma Composed(name: bytes, i: nat)
    requires 1 <= i <= 10 && i + 6 < |name| < 128 && name[0] != 0x30 && AreDigits(name[..i]) && DigitsValue(name[..i]) <= INT_MAX
    requires name[i] == 0x5F && name[i + 1] == 0x5F && name[|name| - 4..] == SUFFIX
    requires forall k :: i + 2 <= k < |name| - 4 ==> IsLabelChar(name[k])
    ensures IsName(name, name[..i], name[i + 2..|name| - 4])
  {
    hide DigitsValue;
    assert name[i..i + 2] == UNDERSCORES;
    assert name == name[..i] + name[i..i + 2] + name[i + 2..|name| - 4] + name[|name| - 4..];
  }

  // ----- the directory -----

  datatype Entry = Entry(name: bytes, content: bytes)

  predicate IsWanted(name: bytes) { name != [] && name[0] != 0x2E && HasSuffix(name) }

  /** The entries that are migrations, in the order of the directory. */
  function Wanted(es: seq<Entry>): seq<Entry> {
    if es == [] then []
    else Wanted(es[..|es| - 1]) + if IsWanted(es[|es| - 1].name) then [es[|es| - 1]] else []
  }

  /** read_sql accepts a file that is not empty, not too long and has no NUL. */
  predicate Readable(content: bytes) { 0 < |content| <= MIGRATE_FILE_MAX && 0 !in content }

  function TotalSize(w: seq<Entry>): nat { if w == [] then 0 else TotalSize(w[..|w| - 1]) + |w[|w| - 1].content| }

  /** Well-named, readable files of different versions, not too many and not too long together. */
  ghost predicate Loadable(w: seq<Entry>) {
    && |w| <= MIGRATE_MAX && TotalSize(w) <= MIGRATE_TOTAL_MAX
    && (forall i :: 0 <= i < |w| ==> VersionOf(w[i].name) > 0 && Readable(w[i].content))
    && (forall i, j :: 0 <= i < j < |w| ==> VersionOf(w[i].name) != VersionOf(w[j].name))
  }

  ghost function FileOf(e: Entry): File { File(VersionOf(e.name), e.name, e.content) }

  ghost function Files(w: seq<Entry>): seq<File> { if w == [] then [] else Files(w[..|w| - 1]) + [FileOf(w[|w| - 1])] }

  lemma {:induction false} FilesAre(w: seq<Entry>)
    ensures |Files(w)| == |w| && forall i :: 0 <= i < |w| ==> Files(w)[i] == FileOf(w[i])
    decreases |w|
  {
    hide FileOf;
    if w != [] { FilesAre(w[..|w| - 1]); }
  }

  lemma WantedStep(es: seq<Entry>, i: nat)
    requires i < |es|
    ensures Wanted(es[..i + 1]) == Wanted(es[..i]) + if IsWanted(es[i].name) then [es[i]] else []
  {
    assert es[..i + 1][..i] == es[..i];
  }

  lemma AppendEntry(w: seq<Entry>, e: Entry)
    ensures TotalSize(w + [e]) == TotalSize(w) + |e.content| && Files(w + [e]) == Files(w) + [FileOf(e)]
  {
    assert (w + [e])[..|w|] == w;
  }

  /** What cannot be loaded does not become loadable with more entries. */
  lemma {:induction false} LoadablePrefix(es: seq<Entry>, i: nat)
    requires i <= |es| && Loadable(Wanted(es))
    ensures Loadable(Wanted(es[..i]))
    decreases |es| - i
  {
    hide VersionOf, Readable, Wanted, TotalSize, Files, Loadable;
    if i < |es| {
      LoadablePrefix(es, i + 1);
      WantedStep(es, i);
      LoadableShorter(Wanted(es[..i]), es[i]);
      assert Wanted(es[..i]) + [] == Wanted(es[..i]);
    } else {
      assert es[..i] == es;
    }
  }

  lemma LoadableShorter(w: seq<Entry>, e: Entry)
    ensures Loadable(w + [e]) ==> Loadable(w)
  {
    hide VersionOf, Readable, Files, TotalSize;
    AppendEntry(w, e);
    var all := w + [e];
    if Loadable(all) {
      forall i | 0 <= i < |w| ensures VersionOf(w[i].name) > 0 && Readable(w[i].content) { assert all[i] == w[i]; }
      forall i, j | 0 <= i < j < |w| ensures VersionOf(w[i].name) != VersionOf(w[j].name) { assert all[i] == w[i] && all[j] == w[j]; }
    }
  }

  /** The files so far are those wanted so far, in order of their versions. */
  ghost predicate Sorted(files: seq<File>, w: seq<Entry>) { Increasing(files) && multiset(files) == multiset(Files(w)) }

  ghost predicate HasVersion(files: seq<File>, v: int) { exists i :: 0 <= i < |files| && files[i].version == v }

  lemma VersionTaken(files: seq<File>, w: seq<Entry>, e: Entry)
    requires Sorted(files, w) && Loadable(w)
    ensures |files| == |w|
    ensures Loadable(w + [e]) <==>
            && |w| < MIGRATE_MAX && VersionOf(e.name) > 0 && Readable(e.content) && !HasVersion(files, VersionOf(e.name))
            && |e.content| <= MIGRATE_TOTAL_MAX - TotalSize(w)
  {
    hide VersionOf, Readable, Files, TotalSize, Increasing;
    FilesAre(w);
    AppendEntry(w, e);
    var v := VersionOf(e.name);
    assert |files| == |multiset(files)| == |multiset(Files(w))| == |w|;
    VersionAmong(files, w, v);
    var all := w + [e];
    assert all[..|w|] == w && all[|w|] == e;
    if HasVersion(files, v) {
      var j :| 0 <= j < |w| && VersionOf(w[j].name) == v;
      assert all[j] == w[j] && VersionOf(all[j].name) == VersionOf(all[|w|].name);
    } else {
      forall k | 0 <= k < |all| ensures all[k] == if k < |w| then w[k] else e {}
    }
  }

  /** A version is among the files exactly when it is among the entries they come from. */
  lemma VersionAmong(files: seq<File>, w: seq<Entry>, v: int)
    requires multiset(files) == multiset(Files(w))
    ensures HasVersion(files, v) <==> exists j :: 0 <= j < |w| && VersionOf(w[j].name) == v
  {
    hide VersionOf, Files;
    FilesAre(w);
    if HasVersion(files, v) {
      var i :| 0 <= i < |files| && files[i].version == v;
      assert files[i] in multiset(Files(w));
      var j :| 0 <= j < |w| && Files(w)[j] == files[i];
    }
    if j :| 0 <= j < |w| && VersionOf(w[j].name) == v {
      assert Files(w)[j] in multiset(files);
      var i :| 0 <= i < |files| && files[i] == Files(w)[j];
    }
  }

  lemma InsertSorted(files: seq<File>, pos: nat, f: File, w: seq<Entry>, e: Entry)
    requires Sorted(files, w) && pos <= |files| && f == FileOf(e) && f.version > 0
    requires (forall i :: 0 <= i < pos ==> files[i].version < f.version) && (forall i :: pos <= i < |files| ==> f.version < files[i].version)
    ensures Sorted(files[..pos] + [f] + files[pos..], w + [e])
  {
    hide FileOf, Files, Increasing;
    AppendEntry(w, e);
    InsertIncreasing(files, pos, f);
    assert files == files[..pos] + files[pos..];
  }

  lemma InsertIncreasing(files: seq<File>, pos: nat, f: File)
    requires Increasing(files) && pos <= |files|
    requires (forall i :: 0 <= i < pos ==> files[i].version < f.version) && (forall i :: pos <= i < |files| ==> f.version < files[i].version)
    requires f.version > 0
    ensures Increasing(files[..pos] + [f] + files[pos..])
  {
    var all := files[..pos] + [f] + files[pos..];
    forall i | 0 <= i < |all| ensures all[i] == if i < pos then files[i] else if i == pos then f else files[i - 1] {}
  }

  /** A directory that migrate_run can load. */
  ghost predicate Loads(es: seq<Entry>) { |es| < SCAN_MAX && Loadable(Wanted(es)) }

  /** A directory entry that is a migration: not hidden, and with the suffix .sql. */
  ghost predicate IsMigration(e: Entry) { (exists stem :: e.name == stem + SUFFIX) && e.name[0] != 0x2E }

  lemma WantedName(name: bytes)
    ensures IsWanted(name) <==> (exists stem :: name == stem + SUFFIX) && name[0] != 0x2E
  {
    if HasSuffix(name) { assert name == name[..|name| - 4] + SUFFIX; }
    if stem :| name == stem + SUFFIX { assert name[|name| - 4..] == SUFFIX; }
  }

  lemma {:induction false} WantedIs(es: seq<Entry>, e: Entry)
    ensures e in Wanted(es) <==> e in es && IsMigration(e)
    decreases |es|
  {
    hide IsWanted;
    if es != [] {
      var n := |es| - 1;
      WantedIs(es[..n], e);
      WantedName(es[n].name);
      assert es == es[..n] + [es[n]];
    }
  }

  /** The files loaded are the migrations of the directory, each with its version, its name and its text. */
  lemma LoadedAre(es: seq<Entry>, files: seq<File>, f: File)
    requires multiset(files) == multiset(Files(Wanted(es)))
    ensures f in files <==> exists e :: e in es && IsMigration(e) && f == File(VersionOf(e.name), e.name, e.content)
  {
    hide Wanted, Files, IsMigration, VersionOf;
    var w := Wanted(es);
    FilesAre(w);
    assert f in files <==> f in multiset(files);
    assert f in Files(w) <==> f in multiset(Files(w));
    if f in Files(w) {
      var i :| 0 <= i < |w| && Files(w)[i] == f;
      WantedIs(es, w[i]);
    }
    if e :| e in es && IsMigration(e) && f == File(VersionOf(e.name), e.name, e.content) {
      WantedIs(es, e);
      var i :| 0 <= i < |w| && w[i] == e;
      assert Files(w)[i] == f;
    }
  }

  /** The scan of migrate_run: every wanted file, once, in increasing order of version; refused when that cannot be. */
  method LoadFiles(es: seq<Entry>) returns (ok: bool, files: seq<File>)
    ensures ok <==> Loads(es)
    ensures ok ==> Increasing(files) && multiset(files) == multiset(Files(Wanted(es)))
  {
    hide VersionOf, Loadable, Wanted, Files, TotalSize, Readable, FileOf;
    files := [];
    var total := 0;
    var scan := 0;
    assert es[..0] == [];
    NothingYet();
    while scan < SCAN_MAX && scan < |es|
      invariant 0 <= scan <= |es| && scan <= SCAN_MAX
      invariant Sorted(files, Wanted(es[..scan])) && Loadable(Wanted(es[..scan])) && total == TotalSize(Wanted(es[..scan]))
    {
      var e := es[scan];
      ghost var w := Wanted(es[..scan]);
      WantedStep(es, scan);
      if IsWanted(e.name) {
        VersionTaken(files, w, e);
        AppendEntry(w, e);
        if Loadable(Wanted(es)) { LoadablePrefix(es, scan + 1); }
        var version := MigrationVersion(e.name);
        if version < 0 || |files| >= MIGRATE_MAX { return false, []; }
        VersionMeansName(e.name);
        var pos := Position(files, version);
        if (pos > 0 && files[pos - 1].version == version) || (pos < |files| && files[pos].version == version) { return false, []; }
        NotThere(files, pos, version);
        if !Readable(e.content) || |e.content| > MIGRATE_TOTAL_MAX - total { return false, []; }
        FileIs(e);
        InsertSorted(files, pos, File(version, e.name, e.content), w, e);
        files := files[..pos] + [File(version, e.name, e.content)] + files[pos..];
        total := total + |e.content|;
      } else {
        assert w + [] == w;
      }
      scan := scan + 1;
    }
    assert scan == |es| ==> es[..scan] == es;
    return |es| < SCAN_MAX, files;
  }

  lemma FileIs(e: Entry)
    ensures FileOf(e) == File(VersionOf(e.name), e.name, e.content)
  {
  }

  lemma NothingYet()
    ensures Wanted([]) == [] && Loadable([]) && Sorted([], []) && TotalSize([]) == 0
  {
  }

  /** Where a version belongs: after every smaller or equal one. */
  method Position(files: seq<File>, version: int) returns (pos: nat)
    requires Increasing(files)
    ensures pos <= |files| && (forall i :: 0 <= i < pos ==> files[i].version <= version)
    ensures forall i :: pos <= i < |files| ==> version < files[i].version
  {
    pos := |files|;
    while pos > 0 && files[pos - 1].version > version
      invariant pos <= |files| && forall i :: pos <= i < |files| ==> version < files[i].version
    {
      pos := pos - 1;
    }
  }

  lemma NotThere(files: seq<File>, pos: nat, version: int)
    requires Increasing(files) && pos <= |files| && (forall i :: 0 <= i < pos ==> files[i].version <= version)
    requires (forall i :: pos <= i < |files| ==> version < files[i].version) && (pos > 0 ==> files[pos - 1].version != version)
    ensures !HasVersion(files, version) && forall i :: 0 <= i < pos ==> files[i].version < version
  {
    forall i | 0 <= i < pos ensures files[i].version < version { assert files[i].version <= files[pos - 1].version; }
  }

  /** migrate_run on the entries of a directory. */
  method MigrateRun<X>(s: Session<Db<X>>, engine: Engine<X>, es: seq<Entry>, l: Luck) returns (rc: int, ghost files: seq<File>)
    requires Good(s.Shared(), s.Mine()) && s.Mine() == Thread(0, 0)
    modifies s
    ensures (rc == 0 || rc == -1) && (rc == 0 ==> Loads(es))
    ensures Loads(es) ==> Increasing(files) && multiset(files) == multiset(Files(Wanted(es)))
    ensures rc == 0 ==> Target(engine, files, old(s.disk)) == Some(s.disk)
    ensures rc == -1 ==> s.disk == old(s.disk) || (Loads(es) && s.disk == Remains(engine, files, old(s.disk)))
    ensures AllWell(l) && old(s.lock == None && s.db.Some?) ==>
              && (rc == 0 <==> Loads(es) && Target(engine, files, old(s.disk)).Some?)
              && (rc == -1 ==> s.disk == if Loads(es) then Remains(engine, files, old(s.disk)) else old(s.disk))
  {
    hide Wanted, Files, Target, Remains, Loadable;
    var ok, loaded := LoadFiles(es);
    files := loaded;
    if !ok { return -1, files; }
    rc := ApplyMigrations(s, engine, loaded, l);
  }

  lemma Spelling()
    ensures UNDERSCORES == Ascii("__") && SUFFIX == Ascii(".sql")
  {
  }
}
