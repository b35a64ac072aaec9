/** What reading a JSON object into a struct means: which bodies are accepted, and what the struct then holds. */
module StructRead {
  import opened Bytes
  import opened JsonGrammar
  import opened JsonMeaning
  import opened JsonScan
  import opened JsonDecode
  import opened JsonParserProof
  import opened JsonEngine
  import opened JsonTree
  import opened JsonLookup
  import opened JsonPrint
  import opened JsonUnescape
  import opened JsonPlaces
  import opened StructTypes
  import opened StructLeaf

  const JSON_MAX_TOKENS := 256

  // ----- the layout of C structs -----

  ghost predicate Separate(f: Field, g: Field) {
    f.name != g.name && (f.offset + f.size <= g.offset || g.offset + g.size <= f.offset)
  }

  /** Members of a C struct have different names and do not overlap. */
  ghost predicate CLayout(t: TypeInfo) {
    && (forall i, j :: 0 <= i < j < |t.fields| ==> Separate(t.fields[i], t.fields[j]))
    && forall i :: 0 <= i < |t.fields| && t.fields[i].kind.FIELD_OBJECT? ==> CLayout(t.fields[i].kind.nested)
  }

  lemma SeparateFields(t: TypeInfo, i: nat, j: nat)
    requires CLayout(t) && i < |t.fields| && j < |t.fields| && i != j
    ensures var f, g := t.fields[i], t.fields[j];
            f.name != g.name && (f.offset + f.size <= g.offset || g.offset + g.size <= f.offset)
  {
    if i < j { assert Separate(t.fields[i], t.fields[j]); } else { assert Separate(t.fields[j], t.fields[i]); }
  }

  // ----- acceptance -----

  predicate HasField(t: TypeInfo, name: bytes) { exists i :: 0 <= i < |t.fields| && t.fields[i].name == name }

  /** Every key is NUL-free and names a field. */
  predicate KeysOk(t: TypeInfo, m: Members)
    requires AreMembers(m)
    decreases m
  {
    0 !in Decoded(m.key) && HasField(t, Name(m.key)) && (m.MoreMembers? ==> KeysOk(t, m.others))
  }

  /** A body that json_read_nested accepts for t; `partial` is the mode of a PATCH. */
  predicate Accepts(t: TypeInfo, v: Value, at: nat, depth: nat, prefix: bytes, partial: bool)
    requires IsValue(v)
    decreases t, 1
  {
    && depth < NEST_DEPTH_MAX && IsObject(v) && (v.Object? ==> KeysOk(t, v.members))
    && forall i :: 0 <= i < |t.fields| ==> FieldAccepts(t, i, v, at, depth, prefix, partial)
  }

  predicate FieldAccepts(t: TypeInfo, i: nat, v: Value, at: nat, depth: nat, prefix: bytes, partial: bool)
    requires IsValue(v) && i < |t.fields|
    decreases t, 0
  {
    var f := t.fields[i];
    var path := PathTo(prefix, f.name);
    var found := MemberOf(v, at, f.name);
    && |path| < PATH_SIZE
    && if found.None? then partial || !f.notNull
       else if f.kind.FIELD_OBJECT? then
         Accepts(f.kind.nested, found.value.value, found.value.at, depth + 1, path, partial)
       else LeafFrom(f, found.value.value).Some?
  }

  /** What the keys of an object stand for, in order. */
  function KeysOf(m: Members): (ks: seq<bytes>)
    requires AreMembers(m)
    decreases m
  {
    [Decoded(m.key)] + if m.LastMember? then [] else KeysOf(m.others)
  }

  /** A key that may stand in a body for t: without NUL, and the name of one of the fields. */
  predicate Declared(t: TypeInfo, key: bytes) { 0 !in key && exists i :: 0 <= i < |t.fields| && t.fields[i].name == key }

  lemma {:induction false} KeysOkIs(t: TypeInfo, m: Members)
    requires AreMembers(m)
    ensures KeysOk(t, m) <==> forall k :: k in KeysOf(m) ==> Declared(t, k)
    decreases m
  {
    var key := Decoded(m.key);
    KeyDeclared(t, m);
    hide HasField, Declared, CString, Decoded;
    var rest := if m.LastMember? then [] else KeysOf(m.others);
    assert KeysOf(m) == [key] + rest;
    assert forall k :: k in KeysOf(m) <==> k == key || k in rest;
    if m.MoreMembers? { KeysOkIs(t, m.others); }
  }

  lemma KeyDeclared(t: TypeInfo, m: Members)
    requires AreMembers(m)
    ensures Declared(t, Decoded(m.key)) <==> 0 !in Decoded(m.key) && HasField(t, Name(m.key))
  {
    hide Decoded;
    var key := Decoded(m.key);
    assert 0 !in key ==> CString(key) == key;
  }

  /** A body with a key that is not the name of a field, or has a NUL, is refused, whatever else is in it. */
  lemma UndeclaredRefused(t: TypeInfo, v: Value, key: bytes, at: nat, depth: nat, prefix: bytes, partial: bool)
    requires IsValue(v) && v.Object? && key in KeysOf(v.members) && !Declared(t, key)
    ensures !Accepts(t, v, at, depth, prefix, partial)
  {
    hide KeysOk, Declared, FieldAccepts;
    KeysOkIs(t, v.members);
  }

  /** An object without members is refused only for a field that may not be missing, and not even for that in a PATCH. */
  lemma EmptyBody(t: TypeInfo, pad: bytes, at: nat, partial: bool)
    requires IsPad(pad)
    ensures Accepts(t, EmptyObject(pad), at, 0, [], partial) <==>
            forall i :: 0 <= i < |t.fields| ==> |t.fields[i].name| < PATH_SIZE && (partial || !t.fields[i].notNull)
  {
    var v := EmptyObject(pad);
    forall i | 0 <= i < |t.fields|
      ensures FieldAccepts(t, i, v, at, 0, [], partial) <==> |t.fields[i].name| < PATH_SIZE && (partial || !t.fields[i].notNull)
    {
      assert PathTo([], t.fields[i].name) == t.fields[i].name;
      assert MemberOf(v, at, t.fields[i].name).None?;
    }
    hide FieldAccepts;
  }

  // ----- the record of what was present -----

  datatype Entry = Entry(path: bytes, offset: nat, size: nat, isObject: bool, isNull: bool)

  function FieldEntries(t: TypeInfo, i: nat, v: Value, at: nat, off: nat, prefix: bytes): seq<Entry>
    requires IsValue(v) && i < |t.fields|
    decreases t, 0
  {
    var f := t.fields[i];
    var path := PathTo(prefix, f.name);
    var found := MemberOf(v, at, f.name);
    if found.None? then []
    else
      [Entry(path, off + f.offset, f.size, f.kind.FIELD_OBJECT?, IsNull(found.value.value))]
      + if f.kind.FIELD_OBJECT? then Entries(f.kind.nested, found.value.value, found.value.at, off + f.offset, path) else []
  }

  function EntriesTo(t: TypeInfo, i: nat, v: Value, at: nat, off: nat, prefix: bytes): seq<Entry>
    requires IsValue(v) && i <= |t.fields|
    decreases t, 1, i
  {
    if i == 0 then [] else EntriesTo(t, i - 1, v, at, off, prefix) + FieldEntries(t, i - 1, v, at, off, prefix)
  }

  /** The fields the body mentions, parents before children, in the order of the struct. */
  function Entries(t: TypeInfo, v: Value, at: nat, off: nat, prefix: bytes): seq<Entry>
    requires IsValue(v)
    decreases t, 2
  {
    EntriesTo(t, |t.fields|, v, at, off, prefix)
  }

  lemma {:induction false} EntriesGrow(t: TypeInfo, i: nat, j: nat, v: Value, at: nat, off: nat, prefix: bytes)
    requires IsValue(v) && i <= j <= |t.fields|
    ensures |EntriesTo(t, i, v, at, off, prefix)| <= |EntriesTo(t, j, v, at, off, prefix)|
    decreases j
  {
    hide FieldEntries;
    if i < j { EntriesGrow(t, i, j - 1, v, at, off, prefix); }
  }

  // ----- what the struct holds afterwards -----

  ghost predicate Filled(t: TypeInfo, v: Value, at: nat, mem0: bytes, mem: bytes, off: nat, base: nat, js: bytes)
    requires IsValue(v) && Shape(t) && off + t.size <= |mem| == |mem0|
    decreases t, 1
  {
    forall i :: 0 <= i < |t.fields| ==> FieldFilled(t, i, v, at, mem0, mem, off, base, js)
  }

  /** The bytes of a field that is absent from the body are unchanged; otherwise they hold the body's value. */
  ghost predicate FieldFilled(t: TypeInfo, i: nat, v: Value, at: nat, mem0: bytes, mem: bytes, off: nat, base: nat, js: bytes)
    requires IsValue(v) && Shape(t) && off + t.size <= |mem| == |mem0| && i < |t.fields|
    decreases t, 0
  {
    var f := t.fields[i];
    assert FieldFits(t, f);
    var found := MemberOf(v, at, f.name);
    if found.None? then SameInside(mem0, mem, off + f.offset, off + f.offset + f.size)
    else if f.kind.FIELD_OBJECT? then
      Filled(f.kind.nested, found.value.value, found.value.at, mem0, mem, off + f.offset, base, js)
    else LeafHeld(f, found.value.value, found.value.at, mem, off, base, js)
  }

  lemma LeafHeldStable(f: Field, w: Value, wat: nat, mem: bytes, mem': bytes, off: nat, base: nat, js: bytes, js': bytes)
    requires IsValue(w) && !f.kind.FIELD_OBJECT? && f.size == StorageSize(f) > 0 && off + f.offset + f.size <= |mem|
    requires SameInside(mem, mem', off + f.offset, off + f.offset + f.size)
    requires SameInside(js, js', wat, wat + |ValueText(w)|)
    requires LeafHeld(f, w, wat, mem, off, base, js)
    ensures LeafHeld(f, w, wat, mem', off, base, js')
  {
    hide At, SameInside, ScalarBytes, Zeros, Decoded, NumberText, StringText;
    var a, l := off + f.offset, RawLeaf(f, w).value;
    if l.Null? {
      AtInside(mem, mem', a, Zeros(f.size), a, a + f.size);
    } else {
      AtInside(mem, mem', off + ScalarOffset(f), ScalarBytes(f.kind, l, base + wat + 1), a, a + f.size);
      if f.nullable { AtInside(mem, mem', a, [1], a, a + f.size); }
      if f.kind.FIELD_STR? { AtInside(js, js', wat + 1, Decoded(w.pieces) + [0], wat, wat + |ValueText(w)|); }
    }
    SameLength(mem, mem', a, a + f.size);
  }

  lemma SameLength(a: bytes, b: bytes, lo: nat, hi: nat)
    requires SameInside(a, b, lo, hi)
    ensures |a| == |b|
  {
  }

  lemma SameInner(a: bytes, b: bytes, lo: nat, hi: nat, lo': nat, hi': nat)
    requires SameInside(a, b, lo, hi) && lo <= lo' && hi' <= hi
    ensures SameInside(a, b, lo', hi')
  {
  }

  lemma FoundInside(v: Value, at: nat, name: bytes)
    requires IsValue(v) && MemberOf(v, at, name).Some?
    ensures var f := MemberOf(v, at, name).value; at < f.at && FoundEnd(f) < at + |ValueText(v)|
  {
    hide Member, MembersText;
    FoundWithin(v.members, at + 1, name);
  }

  /** A filled field stays filled while its own bytes and its member's text are left alone. */
  lemma {:induction false} FieldFilledStable(t: TypeInfo, i: nat, v: Value, at: nat, m0: bytes, m0': bytes, mem: bytes,
                                             mem': bytes, off: nat, base: nat, js: bytes, js': bytes)
    requires IsValue(v) && Shape(t) && off + t.size <= |mem| == |m0| && |m0'| == |mem'| == |mem| && i < |t.fields|
    requires var f := t.fields[i]; SameInside(m0, m0', off + f.offset, off + f.offset + f.size)
    requires var f := t.fields[i]; SameInside(mem, mem', off + f.offset, off + f.offset + f.size)
    requires var found := MemberOf(v, at, t.fields[i].name);
             found.Some? ==> SameInside(js, js', found.value.at, FoundEnd(found.value))
    requires FieldFilled(t, i, v, at, m0, mem, off, base, js)
    ensures FieldFilled(t, i, v, at, m0', mem', off, base, js')
    decreases t, 0
  {
    hide LeafHeld, IsValue, IsSafeIdentifier, ValueText, MemberOf;
    var f := t.fields[i];
    assert FieldFits(t, f);
    var found := MemberOf(v, at, f.name);
    var a := off + f.offset;
    if found.Some? {
      var w := found.value;
      if f.kind.FIELD_OBJECT? {
        FilledStable(f.kind.nested, w.value, w.at, m0, m0', mem, mem', a, base, js, js');
      } else {
        LeafHeldStable(f, w.value, w.at, mem, mem', off, base, js, js');
      }
    }
  }

  lemma {:induction false} FilledStable(t: TypeInfo, v: Value, at: nat, m0: bytes, m0': bytes, mem: bytes, mem': bytes,
                                        off: nat, base: nat, js: bytes, js': bytes)
    requires IsValue(v) && Shape(t) && off + t.size <= |mem| == |m0| && |m0'| == |mem'| == |mem|
    requires SameInside(m0, m0', off, off + t.size) && SameInside(mem, mem', off, off + t.size)
    requires SameInside(js, js', at, at + |ValueText(v)|)
    requires Filled(t, v, at, m0, mem, off, base, js)
    ensures Filled(t, v, at, m0', mem', off, base, js')
    decreases t, 1
  {
    hide FieldFilled, IsValue, IsSafeIdentifier, SameInside, MemberOf, ValueText;
    forall i | 0 <= i < |t.fields| ensures FieldFilled(t, i, v, at, m0', mem', off, base, js') {
      var f := t.fields[i];
      assert FieldFits(t, f) && FieldFilled(t, i, v, at, m0, mem, off, base, js);
      var a := off + f.offset;
      SameInner(m0, m0', off, off + t.size, a, a + f.size);
      SameInner(mem, mem', off, off + t.size, a, a + f.size);
      var found := MemberOf(v, at, f.name);
      if found.Some? {
        FoundInside(v, at, f.name);
        SameInner(js, js', at, at + |ValueText(v)|, found.value.at, FoundEnd(found.value));
      }
      FieldFilledStable(t, i, v, at, m0, m0', mem, mem', off, base, js, js');
    }
  }

  // ----- the keys, as the reader walks over them -----

  /** The first loop of json_read_nested from token k on. */
  predicate KeysFine(js: bytes, toks: seq<Token>, root: nat, t: TypeInfo, k: nat)
    requires Sane(js, toks)
    decreases |toks| - k
  {
    if k >= |toks| then true
    else if toks[k].parent != root || toks[k].kind != STR then KeysFine(js, toks, root, t, k + 1)
    else
      && NoNul(js[toks[k].start..toks[k].end], 0) && HasField(t, TokenName(js, toks[k]))
      && KeysFine(js, toks, root, t, k + 2)
  }

  lemma {:induction false} KeysFinePass(js: bytes, toks: seq<Token>, root: nat, t: TypeInfo, from: nat, to: nat)
    requires Sane(js, toks) && from <= to <= |toks|
    requires forall k :: from <= k < to ==> toks[k].parent != root
    ensures KeysFine(js, toks, root, t, from) == KeysFine(js, toks, root, t, to)
    decreases |toks| - from
  {
    hide Sane, HasField;
    if from < to { KeysFinePass(js, toks, root, t, from + 1, to); }
  }

  lemma KeysFineEnd(js: bytes, toks: seq<Token>, root: nat, t: TypeInfo, end: nat)
    requires Sane(js, toks) && end <= |toks| && forall k :: end <= k < |toks| ==> toks[k].parent != root
    ensures KeysFine(js, toks, root, t, end)
  {
    KeysFinePass(js, toks, root, t, end, |toks|);
  }

  lemma KeysFineKey(js: bytes, toks: seq<Token>, root: nat, t: TypeInfo, m: Members, at: nat, k: nat)
    requires Sane(js, toks) && k < |toks| && AreMembers(m) && ShortKeys(m) && At(js, KeyStart(at, m), Quoted(m.key))
    requires toks[k] == Token(STR, KeyStart(at, m) + 1, KeyEnd(at, m) - 1, root)
    ensures KeysFine(js, toks, root, t, k) <==>
            0 !in Decoded(m.key) && HasField(t, Name(m.key)) && KeysFine(js, toks, root, t, k + 2)
  {
    hide At, Quoted, Name, RawName, IsValue, Sane, NoNul, Copied, HasField;
    SaneAt(js, toks, k);
    QuotedParts(js, KeyStart(at, m), m.key);
    AtIs(js, KeyStart(at, m) + 1, StringText(m.key));
    RawNameIsName(m.key);
    Unescaped(js, toks[k], m.key);
  }

  lemma KeysFineFirst(js: bytes, toks: seq<Token>, root: nat, t: TypeInfo, m: Members, at: nat, base: nat)
    requires Sane(js, toks) && AreMembers(m) && ShortKeys(m) && At(js, KeyStart(at, m), Quoted(m.key))
    requires root < base && MembersPlaced(toks, m, at, root, base)
    ensures KeysFine(js, toks, root, t, base) <==>
            0 !in Decoded(m.key) && HasField(t, Name(m.key)) && KeysFine(js, toks, root, t, base + 1 + Size(m.member))
  {
    hide Sane, KeysFine, At, Quoted, Name, IsValue, ValueText, MembersPlaced, Placed, HasField, Decoded, ShortKeys;
    FirstPlaced(toks, m, at, root, base);
    KeysFineKey(js, toks, root, t, m, at, base);
    ValueNotChild(toks, m.member, MemberStart(at, m), root, base + 1);
    KeysFinePass(js, toks, root, t, base + 2, base + 1 + Size(m.member));
  }

  lemma {:induction false} KeysFineMembers(js: bytes, toks: seq<Token>, root: nat, t: TypeInfo, m: Members, at: nat, base: nat)
    requires Sane(js, toks) && AreMembers(m) && ShortKeys(m) && KeysAt(js, at, m)
    requires root < base && MembersPlaced(toks, m, at, root, base)
    requires forall k :: base + MembersSize(m) <= k < |toks| ==> toks[k].parent != root
    ensures KeysFine(js, toks, root, t, base) <==> KeysOk(t, m)
    decreases m
  {
    hide Sane, KeysFine, At, Quoted, Name, IsValue, ValueText, MembersPlaced, HasField, Placed, Decoded;
    FirstPlaced(toks, m, at, root, base);
    KeysFineFirst(js, toks, root, t, m, at, base);
    var next := base + 1 + Size(m.member);
    assert KeysFine(js, toks, root, t, base) <==> 0 !in Decoded(m.key) && HasField(t, Name(m.key)) && KeysFine(js, toks, root, t, next);
    if m.MoreMembers? {
      KeysFineMembers(js, toks, root, t, m.others, MemberStop(at, m) + 1, next);
    } else {
      PlacedInside(toks, m.member, MemberStart(at, m), root, base + 1);
      KeysFineEnd(js, toks, root, t, next);
    }
  }

  /** Only the token of a value itself is a child of the object. */
  lemma ValueNotChild(toks: seq<Token>, v: Value, at: nat, root: nat, idx: nat)
    requires Placed(toks, v, at, root, idx) && root < idx
    ensures idx + Size(v) <= |toks| && forall k :: idx + 1 <= k < idx + Size(v) ==> toks[k].parent != root
  {
    hide Tokens, ValueText, Segment, Rooted;
    ValueParents(v, at, root, idx);
    var ts := Tokens(v, at, root, idx);
    forall k | idx + 1 <= k < idx + Size(v) ensures toks[k].parent != root {
      SegmentIndex(toks, idx, ts, k - idx);
      assert ts[k - idx].parent >= idx;
    }
  }
}
