/** body_has_key and body_is_null: what a handler is told of the fields a request body mentions. */
module StructPresence {
  import opened Bytes
  import opened JsonGrammar
  import opened JsonMeaning
  import opened JsonPlaces
  import opened StructTypes
  import opened StructLeaf
  import opened StructRead

  const DOT: byte := 0x2E

  // ----- paths -----

  predicate Dotless(ns: seq<bytes>) { forall k :: 0 <= k < |ns| ==> DOT !in ns[k] }

  /** Names with dots between them. */
  function Dotted(ns: seq<bytes>): bytes
    requires ns != []
  {
    if |ns| == 1 then ns[0] else ns[0] + [DOT] + Dotted(ns[1..])
  }

  /** The names are those of a field, a field of its struct, and so on. */
  predicate FieldPath(t: TypeInfo, ns: seq<bytes>)
    decreases ns
  {
    ns != [] && exists i :: 0 <= i < |t.fields| && t.fields[i].name == ns[0]
                            && (|ns| == 1 || (t.fields[i].kind.FIELD_OBJECT? && FieldPath(t.fields[i].kind.nested, ns[1..])))
  }

  /** The value at the end of a path of member names. */
  function ValueAt(v: Value, at: nat, ns: seq<bytes>): (r: Option<Found>)
    requires IsValue(v) && ns != []
    ensures r.Some? ==> IsValue(r.value.value)
    decreases |ns|
  {
    var found := MemberOf(v, at, ns[0]);
    if found.None? || |ns| == 1 then found else ValueAt(found.value.value, found.value.at, ns[1..])
  }

  lemma {:induction false} OneSpelling(ns: seq<bytes>, ms: seq<bytes>)
    requires ns != [] && ms != [] && Dotless(ns) && Dotless(ms) && Dotted(ns) == Dotted(ms)
    ensures ns == ms
    decreases |ns|
  {
    FirstName(ns);
    FirstName(ms);
    FirstDot(ns);
    FirstDot(ms);
    var d, e := Dotted(ns), Dotted(ms);
    var a, b := |ns[0]|, |ms[0]|;
    assert d[..a] == ns[0] && e[..b] == ms[0];
    assert a == b && ns[0] == ms[0];
    if |ns| > 1 && |ms| > 1 {
      assert d[a + 1..] == e[b + 1..];
      OneSpelling(ns[1..], ms[1..]);
      assert ns == [ns[0]] + ns[1..] && ms == [ms[0]] + ms[1..];
    } else {
      assert |ns| == 1 && |ms| == 1;
    }
  }

  lemma FirstName(ns: seq<bytes>)
    requires ns != []
    ensures var d, a := Dotted(ns), |ns[0]|;
            && |d| >= a && d[..a] == ns[0] && (|d| == a <==> |ns| == 1)
            && (|ns| > 1 ==> d[a] == DOT && d[a + 1..] == Dotted(ns[1..]))
  {
  }

  lemma FirstDot(ns: seq<bytes>)
    requires ns != [] && Dotless(ns)
    ensures var d, a := Dotted(ns), |ns[0]|;
            a <= |d| && (a < |d| ==> d[a] == DOT) && forall k :: 0 <= k < a ==> d[k] != DOT
  {
    var d := Dotted(ns);
    FirstName(ns);
    forall k | 0 <= k < |ns[0]| ensures d[k] != DOT { assert d[..|ns[0]|][k] == ns[0][k]; }
  }

  lemma PathOnward(prefix: bytes, name: bytes, ns: seq<bytes>)
    requires ns != [] && name != []
    ensures PathTo(PathTo(prefix, name), Dotted(ns)) == PathTo(prefix, Dotted([name] + ns))
  {
    assert ([name] + ns)[1..] == ns;
    hide Dotted;
    assert Dotted([name] + ns) == name + [DOT] + Dotted(ns) by { DottedCons(name, ns); }
  }

  lemma DottedCons(name: bytes, ns: seq<bytes>)
    requires ns != []
    ensures Dotted([name] + ns) == name + [DOT] + Dotted(ns)
  {
    assert ([name] + ns)[1..] == ns;
  }

  // ----- the record and the body -----

  ghost predicate OfSomeField(t: TypeInfo, n: nat, v: Value, at: nat, off: nat, prefix: bytes, e: Entry)
    requires IsValue(v) && n <= |t.fields|
  {
    exists i :: 0 <= i < n && e in FieldEntries(t, i, v, at, off, prefix)
  }

  lemma {:induction false} EntryIn(t: TypeInfo, n: nat, v: Value, at: nat, off: nat, prefix: bytes, e: Entry)
    requires IsValue(v) && n <= |t.fields|
    ensures e in EntriesTo(t, n, v, at, off, prefix) <==> OfSomeField(t, n, v, at, off, prefix, e)
    decreases n
  {
    hide FieldEntries;
    if n > 0 {
      EntryIn(t, n - 1, v, at, off, prefix, e);
      if OfSomeField(t, n, v, at, off, prefix, e) {
        var i :| 0 <= i < n && e in FieldEntries(t, i, v, at, off, prefix);
        if i < n - 1 { assert OfSomeField(t, n - 1, v, at, off, prefix, e); }
      }
      if OfSomeField(t, n - 1, v, at, off, prefix, e) {
        var i :| 0 <= i < n - 1 && e in FieldEntries(t, i, v, at, off, prefix);
        assert OfSomeField(t, n, v, at, off, prefix, e);
      }
    }
  }

  /** What an entry says. */
  ghost predicate Tells(t: TypeInfo, v: Value, at: nat, prefix: bytes, e: Entry, ns: seq<bytes>)
    requires IsValue(v)
  {
    && FieldPath(t, ns) && Dotless(ns) && ValueAt(v, at, ns).Some?
    && e.path == PathTo(prefix, Dotted(ns)) && e.isNull == IsNull(ValueAt(v, at, ns).value.value)
  }

  lemma NameIsPlain(t: TypeInfo, i: nat)
    requires Shape(t) && i < |t.fields|
    ensures t.fields[i].name != [] && DOT !in t.fields[i].name
    ensures t.fields[i].kind.FIELD_OBJECT? ==> Shape(t.fields[i].kind.nested)
  {
    assert FieldFits(t, t.fields[i]);
  }

  lemma ValueDeeper(v: Value, at: nat, name: bytes, ns: seq<bytes>)
    requires IsValue(v) && ns != []
    ensures var found := MemberOf(v, at, name);
            ValueAt(v, at, [name] + ns) == if found.None? then None else ValueAt(found.value.value, found.value.at, ns)
  {
    assert ([name] + ns)[1..] == ns;
  }

  lemma PathDeeper(t: TypeInfo, i: nat, ns: seq<bytes>)
    requires i < |t.fields| && t.fields[i].kind.FIELD_OBJECT? && FieldPath(t.fields[i].kind.nested, ns)
    ensures FieldPath(t, [t.fields[i].name] + ns)
  {
    assert ([t.fields[i].name] + ns)[1..] == ns;
  }

  /** Every entry is of a field whose path the body has. */
  lemma {:induction false} EntryTells(t: TypeInfo, v: Value, at: nat, off: nat, prefix: bytes, e: Entry) returns (ns: seq<bytes>)
    requires Shape(t) && IsValue(v) && e in Entries(t, v, at, off, prefix)
    ensures Tells(t, v, at, prefix, e, ns)
    decreases t
  {
    hide Shape, FieldPath, ValueAt, Dotted, MemberOf, Entries;
    EntriesIn(t, v, at, off, prefix, e);
    var i :| 0 <= i < |t.fields| && e in FieldEntries(t, i, v, at, off, prefix);
    NameIsPlain(t, i);
    var f := t.fields[i];
    var found := MemberOf(v, at, f.name);
    var first := Entry(PathTo(prefix, f.name), off + f.offset, f.size, f.kind.FIELD_OBJECT?, IsNull(found.value.value));
    if e == first {
      ns := [f.name];
      OneField(t, i, v, at);
    } else {
      assert f.kind.FIELD_OBJECT? && e in Entries(f.kind.nested, found.value.value, found.value.at, off + f.offset, PathTo(prefix, f.name));
      var rest := EntryTells(f.kind.nested, found.value.value, found.value.at, off + f.offset, PathTo(prefix, f.name), e);
      ns := [f.name] + rest;
      PathNotEmpty(f.kind.nested, rest);
      PathDeeper(t, i, rest);
      ValueDeeper(v, at, f.name, rest);
      PathOnward(prefix, f.name, rest);
    }
  }

  lemma EntriesIn(t: TypeInfo, v: Value, at: nat, off: nat, prefix: bytes, e: Entry)
    requires IsValue(v)
    ensures e in Entries(t, v, at, off, prefix) <==> OfSomeField(t, |t.fields|, v, at, off, prefix, e)
  {
    hide FieldEntries, EntriesTo, OfSomeField;
    EntryIn(t, |t.fields|, v, at, off, prefix, e);
  }

  lemma PathNotEmpty(t: TypeInfo, ns: seq<bytes>)
    requires FieldPath(t, ns)
    ensures ns != []
  {
  }

  lemma OneField(t: TypeInfo, i: nat, v: Value, at: nat)
    requires i < |t.fields| && IsValue(v)
    ensures FieldPath(t, [t.fields[i].name]) && ValueAt(v, at, [t.fields[i].name]) == MemberOf(v, at, t.fields[i].name)
    ensures Dotted([t.fields[i].name]) == t.fields[i].name
  {
    hide MemberOf;
  }

  /** And every field path the body has is in an entry. */
  lemma {:induction false} PathHasEntry(t: TypeInfo, v: Value, at: nat, off: nat, prefix: bytes, ns: seq<bytes>) returns (e: Entry)
    requires Shape(t) && IsValue(v) && FieldPath(t, ns) && Dotless(ns) && ValueAt(v, at, ns).Some?
    ensures e in Entries(t, v, at, off, prefix) && Tells(t, v, at, prefix, e, ns)
    decreases |ns|
  {
    hide Shape, ValueAt, Dotted, MemberOf, Entries;
    var i :| 0 <= i < |t.fields| && t.fields[i].name == ns[0]
             && (|ns| == 1 || (t.fields[i].kind.FIELD_OBJECT? && FieldPath(t.fields[i].kind.nested, ns[1..])));
    NameIsPlain(t, i);
    var f := t.fields[i];
    var found := MemberOf(v, at, f.name);
    if |ns| == 1 {
      assert ns == [f.name];
      OneField(t, i, v, at);
      e := Entry(PathTo(prefix, f.name), off + f.offset, f.size, f.kind.FIELD_OBJECT?, IsNull(found.value.value));
    } else {
      assert ns == [f.name] + ns[1..];
      ValueDeeper(v, at, f.name, ns[1..]);
      e := PathHasEntry(f.kind.nested, found.value.value, found.value.at, off + f.offset, PathTo(prefix, f.name), ns[1..]);
      PathOnward(prefix, f.name, ns[1..]);
    }
    assert e in FieldEntries(t, i, v, at, off, prefix);
    EntriesIn(t, v, at, off, prefix, e);
  }

  // ----- what a handler is told -----

  ghost predicate HasPath(es: seq<Entry>, path: bytes) { exists e :: e in es && e.path == path }

  method BodyHasKey(body: seq<Entry>, path: bytes) returns (has: bool)
    ensures has <==> HasPath(body, path)
  {
    var i := 0;
    while i < |body|
      invariant 0 <= i <= |body| && forall k :: 0 <= k < i ==> body[k].path != path
    {
      if path == body[i].path {
        assert body[i] in body;
        return true;
      }
      i := i + 1;
    }
    return false;
  }

  method BodyIsNull(body: seq<Entry>, path: bytes) returns (null_: bool)
    ensures !HasPath(body, path) ==> !null_
    ensures HasPath(body, path) ==> exists e :: e in body && e.path == path && e.isNull == null_
  {
    var i := 0;
    while i < |body|
      invariant 0 <= i <= |body| && forall k :: 0 <= k < i ==> body[k].path != path
    {
      if path == body[i].path {
        assert body[i] in body;
        return body[i].isNull;
      }
      i := i + 1;
    }
    return false;
  }

  /**
   In the record of a body, a dotted path is present exactly when it is the path of a field, through nested structs, and
   the body has a member at each step; and it is null exactly when the value at its end is null.
   */
  lemma PresenceIs(t: TypeInfo, v: Value, at: nat, ns: seq<bytes>)
    requires Shape(t) && IsValue(v) && ns != [] && Dotless(ns)
    ensures var es := Entries(t, v, at, 0, []);
            && (HasPath(es, Dotted(ns)) <==> FieldPath(t, ns) && ValueAt(v, at, ns).Some?)
            && forall e :: e in es && e.path == Dotted(ns) ==> (e.isNull <==> IsNull(ValueAt(v, at, ns).value.value))
  {
    hide Shape, FieldPath, ValueAt, Dotted, Entries;
    var es := Entries(t, v, at, 0, []);
    forall e | e in es && e.path == Dotted(ns)
      ensures FieldPath(t, ns) && ValueAt(v, at, ns).Some? && (e.isNull <==> IsNull(ValueAt(v, at, ns).value.value))
    {
      var ms := EntryTells(t, v, at, 0, [], e);
      PathNotEmpty(t, ms);
      assert PathTo([], Dotted(ms)) == Dotted(ms);
      OneSpelling(ns, ms);
    }
    if FieldPath(t, ns) && ValueAt(v, at, ns).Some? {
      var e := PathHasEntry(t, v, at, 0, [], ns);
      assert PathTo([], Dotted(ns)) == Dotted(ns);
    }
  }
}
