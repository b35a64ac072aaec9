/** json_read_mode: a whole body, parsed and read into a struct. */
module StructMode {
  import opened Bytes
  import opened JsonGrammar
  import opened JsonMeaning
  import opened JsonScan
  import opened JsonParser
  import opened JsonParserProof
  import JsonMachine
  import opened JsonEngine
  import opened JsonTree
  import opened JsonLookup
  import opened JsonPlaces
  import opened StructTypes
  import opened StructLeaf
  import opened StructRead
  import opened StructReader
  import opened StructBody

  // ----- the record of fields cannot overflow -----

  /** The tokens of the members whose names are given. */
  function Taken(m: Members, names: set<bytes>): nat
    requires AreMembers(m)
    decreases m
  {
    (if Name(m.key) in names then 1 + Size(m.member) else 0) + if m.LastMember? then 0 else Taken(m.others, names)
  }

  lemma {:induction false} TakenAll(m: Members, names: set<bytes>)
    requires AreMembers(m)
    ensures Taken(m, names) <= MembersSize(m)
    decreases m
  {
    hide IsValue, Name, Size;
    if m.MoreMembers? { TakenAll(m.others, names); }
  }

  lemma {:induction false} TakenMore(m: Members, names: set<bytes>, more: set<bytes>)
    requires AreMembers(m) && names <= more
    ensures Taken(m, names) <= Taken(m, more)
    decreases m
  {
    hide IsValue, Name, Size;
    if m.MoreMembers? { TakenMore(m.others, names, more); }
  }

  lemma {:induction false} TakenOne(m: Members, at: nat, names: set<bytes>, name: bytes)
    requires AreMembers(m) && name !in names && Member(m, at, name).Some?
    ensures Taken(m, names) + 1 + Size(Member(m, at, name).value.value) <= Taken(m, names + {name})
    decreases m
  {
    hide IsValue, Name, Size, ValueText;
    if Name(m.key) == name {
      if m.MoreMembers? { TakenMore(m.others, names, names + {name}); }
    } else {
      TakenOne(m.others, MemberStop(at, m) + 1, names, name);
    }
  }

  function FieldNames(t: TypeInfo, i: nat): set<bytes>
    requires i <= |t.fields|
  {
    set k | 0 <= k < i :: t.fields[k].name
  }

  lemma NameIsNew(t: TypeInfo, i: nat)
    requires CLayout(t) && i < |t.fields|
    ensures t.fields[i].name !in FieldNames(t, i) && FieldNames(t, i + 1) == FieldNames(t, i) + {t.fields[i].name}
  {
    hide CLayout;
    forall k | 0 <= k < i ensures t.fields[k].name != t.fields[i].name { SeparateFields(t, k, i); }
  }

  /** A body mentions fewer fields than it has tokens, so the record of 256 fields never runs out. */
  lemma {:induction false} EntriesFit(t: TypeInfo, v: Value, at: nat, off: nat, prefix: bytes)
    requires CLayout(t) && IsValue(v)
    ensures |Entries(t, v, at, off, prefix)| < Size(v)
    decreases t, 2
  {
    hide CLayout, EntriesTo, Taken;
    if v.Object? {
      EntriesToFit(t, |t.fields|, v, at, off, prefix);
      TakenAll(v.members, FieldNames(t, |t.fields|));
    } else {
      EntriesToNone(t, |t.fields|, v, at, off, prefix);
    }
  }

  lemma {:induction false} EntriesToNone(t: TypeInfo, i: nat, v: Value, at: nat, off: nat, prefix: bytes)
    requires IsValue(v) && !v.Object? && i <= |t.fields|
    ensures EntriesTo(t, i, v, at, off, prefix) == []
    decreases i
  {
    if i > 0 { EntriesToNone(t, i - 1, v, at, off, prefix); }
  }

  lemma {:induction false} EntriesToFit(t: TypeInfo, i: nat, v: Value, at: nat, off: nat, prefix: bytes)
    requires CLayout(t) && IsValue(v) && v.Object? && i <= |t.fields|
    ensures |EntriesTo(t, i, v, at, off, prefix)| <= Taken(v.members, FieldNames(t, i))
    decreases t, 1, i
  {
    hide CLayout, Taken, FieldEntries, FieldNames;
    if i > 0 {
      EntriesToFit(t, i - 1, v, at, off, prefix);
      NameIsNew(t, i - 1);
      FieldEntriesFit(t, i - 1, v, at, off, prefix);
      TakenMore(v.members, FieldNames(t, i - 1), FieldNames(t, i));
      if MemberOf(v, at, t.fields[i - 1].name).Some? {
        TakenOne(v.members, at + 1, FieldNames(t, i - 1), t.fields[i - 1].name);
      }
    }
  }

  lemma {:induction false} FieldEntriesFit(t: TypeInfo, i: nat, v: Value, at: nat, off: nat, prefix: bytes)
    requires CLayout(t) && IsValue(v) && i < |t.fields|
    ensures var found := MemberOf(v, at, t.fields[i].name);
            |FieldEntries(t, i, v, at, off, prefix)| <= if found.None? then 0 else Size(found.value.value)
    decreases t, 0
  {
    hide Entries, MemberOf, PathTo;
    var f := t.fields[i];
    var found := MemberOf(v, at, f.name);
    if found.Some? && f.kind.FIELD_OBJECT? {
      EntriesFit(f.kind.nested, found.value.value, found.value.at, off + f.offset, PathTo(prefix, f.name));
    }
  }

  // ----- the whole body -----

  lemma RootReady(t: TypeInfo, size: nat, base: nat, js: bytes, d: Document)
    requires Shape(t) && CLayout(t) && t.size <= size && 0 < base && base + |js| < ADDRESS_LIMIT
    requires Describes(d, js, JSON_MAX_TOKENS)
    ensures Ready(t, size, 0, |js|, base, js, Tokens(d.root, |d.before|, -1, 0), d.root, |d.before|, -1, 0)
    ensures At(js, |d.before|, ValueText(d.root)) && Size(d.root) <= JSON_MAX_TOKENS && IsValue(d.root)
  {
    hide Tokens, ValueText, Placed, IsSafeIdentifier, CLayout, Shape, IsValue, ObjectsFit, AllWithin, Laminar;
    var at := |d.before|;
    assert js == d.before + ValueText(d.root) + d.after;
    assert js[at..at + |ValueText(d.root)|] == ValueText(d.root);
    RootPlaced(d.root, at);
    ValueSpans(d.root, at, -1, 0);
    InsideSane(js, Tokens(d.root, at, -1, 0), at, at + |ValueText(d.root)|);
  }

  lemma InsideSane(js: bytes, toks: seq<Token>, lo: nat, hi: nat)
    requires AllWithin(toks, lo, hi) && hi <= |js|
    ensures Sane(js, toks)
  {
    forall k | 0 <= k < |toks| ensures 0 <= toks[k].start <= toks[k].end <= |js| { assert Within(toks[k], lo, hi); }
  }

  class RequestBody {
    const reader: BodyReader
    /** g_body_type and g_body_partial; a type is known by its address. */
    var bodyType: Option<nat>
    var partial: bool

    constructor ()
      ensures reader.body == [] && bodyType == None && !partial && fresh(reader)
    {
      reader := new BodyReader();
      bodyType, partial := None, false;
    }

    /** json_read_mode, for any document d the buffer may spell. */
    method ReadMode(id: nat, t: TypeInfo, obj: array<byte>, js: array<byte>, base: nat, elsewhere: Ram, mode: bool,
                    ghost d: Document)
      returns (ok: bool)
      requires CLayout(t) && t.size <= obj.Length && js != obj && 0 < base && base + js.Length < ADDRESS_LIMIT
      modifies this, reader, js, obj
      ensures !ok ==> reader.body == [] && bodyType == None && !partial
      ensures ok ==> bodyType == Some(id) && partial == mode && TypeValid(t) && Shape(t)
      ensures ok ==> exists e :: Describes(e, old(js[..]), JSON_MAX_TOKENS)
      ensures TypeValid(t) && Describes(d, old(js[..]), JSON_MAX_TOKENS) && js.Length <= JsonMachine.INT_MAX ==>
                && Shape(t)
                && (ok <==> && Accepts(t, d.root, |d.before|, 0, [], mode)
                            && (mode || Validates(t, ValueOf(t, obj[..], 0, WithBuffer(base, js[..], elsewhere)), 0, [])))
                && (Accepts(t, d.root, |d.before|, 0, [], mode) ==>
                      Filled(t, d.root, |d.before|, old(obj[..]), obj[..], 0, base, js[..]))
                && (ok ==> reader.body == Entries(t, d.root, |d.before|, 0, []))
      ensures ok ==> js.Length <= JsonMachine.INT_MAX
    {
      hide Accepts, Entries, Filled, Validates, ValueOf, Describes, Ready, Tokens, ValueText, CLayout, Shape, Fits, TypeValidNested,
           IsValue;
      reader.body := [];
      bodyType, partial := None, false;
      if js.Length == 0 || !TypeValid(t) {
        if js.Length == 0 { NothingDescribed(d, js[..]); }
        return false;
      }
      TypeValidIs(t, 0, MAX_TYPES);
      ghost var text, mem := js[..], obj[..];
      var n, toks := JsonParse(js[..], JSON_MAX_TOKENS);
      if n <= 0 { return false; }
      ghost var e :| Describes(e, text, JSON_MAX_TOKENS) && (Describes(d, text, JSON_MAX_TOKENS) ==> e == d);
      RootReady(t, obj.Length, base, text, e);
      RootKind(e.root, |e.before|);
      NotAnObject(t, e.root, |e.before|, 0, [], mode);
      if toks[0].kind != OBJ { return false; }
      EntriesFit(t, e.root, |e.before|, 0, []);
      ok := reader.ReadNested(t, obj, 0, js, base, elsewhere, toks, 0, 0, [], mode, e.root, |e.before|, -1);
      assert [] + Entries(t, e.root, |e.before|, 0, []) == Entries(t, e.root, |e.before|, 0, []);
      if ok && !mode { ok := Validates(t, ValueOf(t, obj[..], 0, WithBuffer(base, js[..], elsewhere)), 0, []); }
      if ok {
        bodyType, partial := Some(id), mode;
      } else {
        reader.body := [];
      }
    }
  }

  lemma RootKind(v: Value, at: nat)
    ensures Tokens(v, at, -1, 0)[0].kind == OBJ <==> IsObject(v)
  {
    hide ValueText;
  }

  lemma NothingDescribed(d: Document, js: bytes)
    requires js == []
    ensures !Describes(d, js, JSON_MAX_TOKENS)
  {
    hide ValueText, IsValue;
    if IsValue(d.root) { TextNotEmpty(d.root); }
  }
}
