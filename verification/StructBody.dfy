/** json_read_nested: walking a type and the tokens of a body together. */
module StructBody {
  import opened Bytes
  import opened JsonGrammar
  import opened JsonMeaning
  import opened JsonScan
  import opened JsonDecode
  import opened JsonParserProof
  import opened JsonEngine
  import opened JsonTree
  import opened JsonLookup
  import opened JsonUnescape
  import opened JsonPlaces
  import opened StructTypes
  import opened StructLeaf
  import opened StructRead
  import opened StructReader

  // ----- finding a member -----

  lemma {:induction false} LongNameAbsent(m: Members, at: nat, name: bytes)
    requires AreMembers(m) && ShortKeys(m) && |name| >= MAX_KEY_BYTES
    ensures Member(m, at, name).None?
    decreases m
  {
    hide IsValue, ArePieces, StringText, Decoded, ValueText, CString;
    NameShort(m.key);
    if m.MoreMembers? { LongNameAbsent(m.others, MemberStop(at, m) + 1, name); }
  }

  lemma NameShort(key: seq<Piece>)
    requires ArePieces(key)
    ensures |Name(key)| <= |StringText(key)|
  {
  }

  lemma {:induction false} FoundFits(m: Members, at: nat, name: bytes)
    requires AreMembers(m) && MembersFit(m) && Member(m, at, name).Some?
    ensures ObjectsFit(Member(m, at, name).value.value)
    decreases m
  {
    hide IsValue, Name, ValueText, ObjectsFit;
    if Name(m.key) != name { FoundFits(m.others, MemberStop(at, m) + 1, name); }
  }

  /** The state of the buffer while the members of v are read. */
  ghost predicate Standing(js: bytes, v: Value, at: nat, done: set<bytes>)
    requires IsValue(v)
  {
    v.Object? ==> Intact(js, at + 1, v.members, done)
  }

  /** json_object_get finds the member of that name, in its place, even between decodings. */
  lemma GetIs(js: bytes, toks: seq<Token>, v: Value, at: nat, parent: int, root: nat, key: bytes, done: set<bytes>)
    requires Sane(js, toks) && IsValue(v) && IsObject(v) && ObjectsFit(v) && parent < root
    requires Placed(toks, v, at, parent, root) && Standing(js, v, at, done)
    ensures root < |toks| && toks[root].kind == OBJ
    ensures var r := if |key| < MAX_KEY_BYTES then Lookup(js, toks, root, root + 1, 0, key) else -1;
            var found := MemberOf(v, at, key);
            && (found.None? ==> r == -1)
            && (found.Some? ==> root < r < |toks| && Placed(toks, found.value.value, found.value.at, root, r))
  {
    if v.Object? {
      GetMember(js, toks, v.members, at, parent, root, key, done);
    } else {
      hide Sane, Lookup, IsKey;
      PlacedInside(toks, v, at, parent, root);
      NoMembers(js, toks, v, at, parent, root, key);
    }
  }

  lemma NoMembers(js: bytes, toks: seq<Token>, v: Value, at: nat, parent: int, root: nat, key: bytes)
    requires Sane(js, toks) && v.EmptyObject? && Placed(toks, v, at, parent, root) && root < |toks|
    requires toks[root] == Token(OBJ, at, at + |ValueText(v)|, parent)
    ensures Lookup(js, toks, root, root + 1, 0, key) == -1
  {
    hide Sane, IsKey, Segment;
  }

  lemma GetMember(js: bytes, toks: seq<Token>, m: Members, at: nat, parent: int, root: nat, key: bytes, done: set<bytes>)
    requires Sane(js, toks) && AreMembers(m) && ObjectsFit(Object(m)) && parent < root
    requires Placed(toks, Object(m), at, parent, root) && Intact(js, at + 1, m, done)
    ensures root < |toks| && toks[root].kind == OBJ
    ensures var r := if |key| < MAX_KEY_BYTES then Lookup(js, toks, root, root + 1, 0, key) else -1;
            var found := Member(m, at + 1, key);
            && (found.None? ==> r == -1)
            && (found.Some? ==> root < r < |toks| && Placed(toks, found.value.value, found.value.at, root, r))
  {
    hide Sane, Lookup, Intact, Member, MembersText, MembersTokens, Tokens, Names, Distinct, MembersFit, ShortKeys, FindMember;
    ObjectPlaced(toks, m, at, parent, root);
    IntactKeys(js, at + 1, m, done);
    FoundPlaced(toks, m, at + 1, root, root + 1, key);
    if |key| >= MAX_KEY_BYTES {
      LongNameAbsent(m, at + 1, key);
    } else {
      ObjectGetFinds(js, toks, m, at, parent, root, key);
    }
  }

  lemma PlacedToken(js: bytes, toks: seq<Token>, w: Value, wat: nat, parent: int, idx: nat)
    requires Placed(toks, w, wat, parent, idx) && At(js, wat, ValueText(w))
    ensures idx < |toks| && TokenOf(js, toks[idx], w, wat)
  {
    hide At;
    PlacedInside(toks, w, wat, parent, idx);
  }

  // ----- the keys -----

  method IsField(t: TypeInfo, name: bytes) returns (known: bool)
    ensures known == HasField(t, name)
  {
    var j := 0;
    while j < |t.fields|
      invariant 0 <= j <= |t.fields| && forall k :: 0 <= k < j ==> t.fields[k].name != name
    {
      if name == t.fields[j].name { return true; }
      j := j + 1;
    }
    return false;
  }

  /** The first loop of json_read_nested.  After a key with a NUL the next token is looked at as if it were a key too. */
  method CheckKeys(js: bytes, toks: seq<Token>, root: nat, t: TypeInfo) returns (ok: bool)
    requires Sane(js, toks)
    ensures ok == KeysFine(js, toks, root, t, root + 1)
  {
    hide Sane, NoNul, TokenName, HasField;
    ok := true;
    var k := root + 1;
    while k < |toks|
      invariant k > root
      invariant ok ==> KeysFine(js, toks, root, t, k) == KeysFine(js, toks, root, t, root + 1)
      invariant !ok ==> !KeysFine(js, toks, root, t, root + 1)
      decreases |toks| - k
    {
      if toks[k].parent != root || toks[k].kind != STR {
        k := k + 1;
        continue;
      }
      SaneAt(js, toks, k);
      var clean := HasNoNul(js, toks[k]);
      if !clean {
        ok := false;
        k := k + 1;
        continue;
      }
      var known := IsField(t, TokenName(js, toks[k]));
      if !known { ok := false; }
      k := k + 2;
    }
  }

  lemma KeysFineIs(js: bytes, toks: seq<Token>, t: TypeInfo, v: Value, at: nat, parent: int, root: nat)
    requires Sane(js, toks) && IsValue(v) && IsObject(v) && ObjectsFit(v) && parent < root
    requires Placed(toks, v, at, parent, root) && Standing(js, v, at, {})
    ensures KeysFine(js, toks, root, t, root + 1) <==> (v.Object? ==> KeysOk(t, v.members))
  {
    hide Sane, KeysFine, Intact, MembersText, MembersTokens, Tokens, Names, Distinct, MembersFit, KeysOk;
    if v.Object? {
      ObjectPlaced(toks, v.members, at, parent, root);
      IntactKeys(js, at + 1, v.members, {});
      NoneBeyond(toks, v, at, parent, root);
      KeysFineMembers(js, toks, root, t, v.members, at + 1, root + 1);
    } else {
      PlacedInside(toks, v, at, parent, root);
      NoneBeyond(toks, v, at, parent, root);
      KeysFineEnd(js, toks, root, t, root + 1);
    }
  }

  lemma NoneBeyond(toks: seq<Token>, v: Value, at: nat, parent: int, root: nat)
    requires Placed(toks, v, at, parent, root)
    ensures forall k :: root + Size(v) <= k < |toks| ==> toks[k].parent != root
  {
    hide Segment, Tokens, ValueText;
  }

  // ----- the reader -----

  /** What every call may rely on: a valid type, room for the struct, and tokens that are those of v. */
  ghost predicate Ready(t: TypeInfo, size: nat, off: nat, jsLength: nat, base: nat, js: bytes, toks: seq<Token>, v: Value, at: nat,
                        parent: int, root: nat)
  {
    && Shape(t) && CLayout(t) && off + t.size <= size && |js| == jsLength && 0 < base && base + jsLength < ADDRESS_LIMIT
    && Sane(js, toks) && IsValue(v) && ObjectsFit(v) && parent < root && Placed(toks, v, at, parent, root)
  }

  lemma FieldRoom(t: TypeInfo, i: nat)
    requires Shape(t) && i < |t.fields|
    ensures var f := t.fields[i]; FieldFits(t, f) && (f.kind.FIELD_OBJECT? ==> Shape(f.kind.nested) && f.size == f.kind.nested.size)
  {
    hide IsSafeIdentifier;
  }

  lemma ReadyInside(t: TypeInfo, i: nat, size: nat, off: nat, jsLength: nat, base: nat, js: bytes, toks: seq<Token>, v: Value,
                    at: nat, parent: int, root: nat, r: nat)
    requires Ready(t, size, off, jsLength, base, js, toks, v, at, parent, root) && i < |t.fields| && t.fields[i].kind.FIELD_OBJECT?
    requires MemberOf(v, at, t.fields[i].name).Some? && root < r
    requires var w := MemberOf(v, at, t.fields[i].name).value; Placed(toks, w.value, w.at, root, r)
    ensures var f, w := t.fields[i], MemberOf(v, at, t.fields[i].name).value;
            Ready(f.kind.nested, size, off + f.offset, jsLength, base, js, toks, w.value, w.at, root, r)
  {
    hide Placed, Sane, Member, Distinct, Names, ShortKeys, IsSafeIdentifier;
    FieldRoom(t, i);
    FoundFits(v.members, at + 1, t.fields[i].name);
  }

  class BodyReader {
    /** The fields the body mentions; g_body_fields up to g_body_count. */
    var body: seq<Entry>

    constructor ()
      ensures body == []
    {
      body := [];
    }

    /** One round of the second loop of json_read_nested; `stop` when the reader gives up at once. */
    method ReadField(t: TypeInfo, i: nat, obj: array<byte>, off: nat, js: array<byte>, base: nat, elsewhere: Ram,
                     toks: seq<Token>, root: nat, depth: nat, prefix: bytes, partial: bool,
                     ghost v: Value, ghost at: nat, ghost parent: int, ghost done: set<bytes>)
      returns (good: bool, stop: bool)
      requires Ready(t, obj.Length, off, js.Length, base, js[..], toks, v, at, parent, root) && js != obj && IsObject(v)
      requires i < |t.fields| && depth < NEST_DEPTH_MAX && |body| <= JSON_MAX_TOKENS
      requires Standing(js[..], v, at, done) && t.fields[i].name !in done
      modifies this`body, js, obj
      ensures stop ==> !good
      ensures good <==> FieldAccepts(t, i, v, at, depth, prefix, partial)
                        && |old(body)| + |FieldEntries(t, i, v, at, off, prefix)| <= JSON_MAX_TOKENS
      ensures good ==> body == old(body) + FieldEntries(t, i, v, at, off, prefix)
      ensures |body| <= JSON_MAX_TOKENS
      ensures Shape(t) && off + t.size <= obj.Length
      ensures good ==> FieldFilled(t, i, v, at, old(obj[..]), obj[..], off, base, js[..])
      ensures SameOutside(old(obj[..]), obj[..], off + t.fields[i].offset, off + t.fields[i].offset + t.fields[i].size)
      ensures var found := MemberOf(v, at, t.fields[i].name);
              if found.None? then js[..] == old(js[..])
              else SameOutside(old(js[..]), js[..], found.value.at, FoundEnd(found.value))
      decreases t, 0, 1
    {
      hide Placed, Standing, Lookup, At, ValueText, SameOutside, IsSafeIdentifier, Ready, ObjectsFit, Sane, CLayout,
           FieldAccepts, FieldEntries, FieldFilled, PathTo, Shape, MemberOf;
      ReadyParts(t, obj.Length, off, js.Length, base, js[..], toks, v, at, parent, root);
      var f := t.fields[i];
      FieldRoom(t, i);
      OutsideSame(obj[..], off + f.offset, off + f.offset + f.size);
      var path := PathTo(prefix, f.name);
      ghost var found := MemberOf(v, at, f.name);
      if found.Some? { OutsideSame(js[..], found.value.at, FoundEnd(found.value)); }
      if |path| >= PATH_SIZE {
        PathTooLong(t, i, v, at, depth, prefix, partial);
        return false, true;
      }
      GetIs(js[..], toks, v, at, parent, root, f.name, done);
      var r := ObjectGet(js[..], toks, root, f.name);
      if r < 0 {
        AbsentField(t, i, v, at, depth, prefix, partial, obj[..], off, base, js[..]);
        return partial || !f.notNull, false;
      }
      if |body| >= JSON_MAX_TOKENS {
        EntryAtLeast(t, i, v, at, off, prefix);
        return false, true;
      }
      good := ReadPresent(t, i, obj, off, js, base, elsewhere, toks, root, depth, prefix, partial, v, at, parent, done, r);
      stop := false;
    }

    /** The same, once the member is found at token r. */
    method ReadPresent(t: TypeInfo, i: nat, obj: array<byte>, off: nat, js: array<byte>, base: nat, elsewhere: Ram,
                       toks: seq<Token>, root: nat, depth: nat, prefix: bytes, partial: bool,
                       ghost v: Value, ghost at: nat, ghost parent: int, ghost done: set<bytes>, r: nat)
      returns (good: bool)
      requires Ready(t, obj.Length, off, js.Length, base, js[..], toks, v, at, parent, root) && js != obj && IsObject(v)
      requires i < |t.fields| && depth < NEST_DEPTH_MAX && |body| < JSON_MAX_TOKENS
      requires Standing(js[..], v, at, done) && t.fields[i].name !in done
      requires |PathTo(prefix, t.fields[i].name)| < PATH_SIZE && MemberOf(v, at, t.fields[i].name).Some?
      requires var w := MemberOf(v, at, t.fields[i].name).value; root < r && Placed(toks, w.value, w.at, root, r)
      modifies this`body, js, obj
      ensures good <==> FieldAccepts(t, i, v, at, depth, prefix, partial)
                        && |old(body)| + |FieldEntries(t, i, v, at, off, prefix)| <= JSON_MAX_TOKENS
      ensures good ==> body == old(body) + FieldEntries(t, i, v, at, off, prefix)
      ensures |body| <= JSON_MAX_TOKENS
      ensures Shape(t) && off + t.size <= obj.Length
      ensures good ==> FieldFilled(t, i, v, at, old(obj[..]), obj[..], off, base, js[..])
      ensures SameOutside(old(obj[..]), obj[..], off + t.fields[i].offset, off + t.fields[i].offset + t.fields[i].size)
      ensures var w := MemberOf(v, at, t.fields[i].name).value; SameOutside(old(js[..]), js[..], w.at, FoundEnd(w))
      decreases t, 0, 0
    {
      hide Placed, Standing, At, ValueText, Accepts, Entries, Filled, LeafHeld, LeafFrom, NullToken, SameOutside,
           IsSafeIdentifier, Ready, ObjectsFit, Sane, CLayout, FieldAccepts, FieldEntries, FieldFilled, PathTo, Shape, MemberOf;
      ReadyParts(t, obj.Length, off, js.Length, base, js[..], toks, v, at, parent, root);
      var f := t.fields[i];
      FieldRoom(t, i);
      var path := PathTo(prefix, f.name);
      ghost var found := MemberOf(v, at, f.name).value;
      ghost var w, wat := found.value, found.at;
      ValueStands(js[..], v, at, done, f.name);
      PlacedToken(js[..], toks, w, wat, root, r);
      NullTokenIs(js[..], toks[r], w, wat);
      var entry := Entry(path, off + f.offset, f.size, f.kind.FIELD_OBJECT?, NullToken(js[..], toks[r]));
      body := body + [entry];
      ghost var mem := obj[..];
      if f.kind.FIELD_OBJECT? {
        TokenKind(js[..], toks[r], w, wat);
        PresentObject(t, i, v, at, depth, prefix, partial, off);
        NotAnObject(f.kind.nested, w, wat, depth + 1, path, partial);
        if toks[r].kind != OBJ {
          OutsideSame(js[..], wat, FoundEnd(found));
          OutsideSame(mem, off + f.offset, off + f.offset + f.size);
          return false;
        }
        ReadyInside(t, i, obj.Length, off, js.Length, base, js[..], toks, v, at, parent, root, r);
        good := ReadNested(f.kind.nested, obj, off + f.offset, js, base, elsewhere, toks, r, depth + 1, path, partial, w, wat, root);
        if good { ObjectFilled(t, i, v, at, mem, obj[..], off, base, js[..]); }
      } else {
        good := ReadLeaf(f, obj, off, js, base, elsewhere, toks[r], w, wat);
        PresentLeaf(t, i, v, at, depth, prefix, partial, off);
        if good { LeafFilled(t, i, v, at, mem, obj[..], off, base, js[..]); }
      }
    }

    method ReadNested(t: TypeInfo, obj: array<byte>, off: nat, js: array<byte>, base: nat, elsewhere: Ram,
                      toks: seq<Token>, root: nat, depth: nat, prefix: bytes, partial: bool,
                      ghost v: Value, ghost at: nat, ghost parent: int)
      returns (good: bool)
      requires Ready(t, obj.Length, off, js.Length, base, js[..], toks, v, at, parent, root) && js != obj
      requires At(js[..], at, ValueText(v)) && |body| <= JSON_MAX_TOKENS
      modifies this`body, js, obj
      ensures good <==> Accepts(t, v, at, depth, prefix, partial)
                        && |old(body)| + |Entries(t, v, at, off, prefix)| <= JSON_MAX_TOKENS
      ensures good ==> body == old(body) + Entries(t, v, at, off, prefix)
      ensures |body| <= JSON_MAX_TOKENS
      ensures Shape(t) && off + t.size <= obj.Length
      ensures good ==> Filled(t, v, at, old(obj[..]), obj[..], off, base, js[..])
      ensures SameOutside(old(obj[..]), obj[..], off, off + t.size)
      ensures SameOutside(old(js[..]), js[..], at, at + |ValueText(v)|)
      decreases t, 1
    {
      hide Placed, Standing, At, ValueText, Accepts, Entries, EntriesTo, Filled, SameOutside, SameInside, IsSafeIdentifier, Ready,
           ObjectsFit, Sane, CLayout, FieldAccepts, FieldEntries, FieldFilled, Shape, MemberOf, KeysFine, KeysOk;
      ghost var text, mem, before := js[..], obj[..], body;
      ReadyParts(t, obj.Length, off, js.Length, base, text, toks, v, at, parent, root);
      PlacedToken(text, toks, v, at, parent, root);
      TokenKind(text, toks[root], v, at);
      OutsideSame(text, at, at + |ValueText(v)|);
      OutsideSame(mem, off, off + t.size);
      if depth >= NEST_DEPTH_MAX || toks[root].kind != OBJ {
        Refuses(t, v, at, depth, prefix, partial);
        return false;
      }
      StandingAtFirst(text, v, at);
      good := CheckKeys(js[..], toks, root, t);
      KeysFineIs(text, toks, t, v, at, parent, root);
      if !good { Refuses(t, v, at, depth, prefix, partial); }
      ghost var spec := Accepts(t, v, at, depth, prefix, partial) && |body| + |Entries(t, v, at, off, prefix)| <= JSON_MAX_TOKENS;
      NoEntries(t, v, at, off, prefix);
      InsideAll(mem, mem);
      ghost var done: set<bytes> := {};
      var i := 0;
      while i < |t.fields|
        invariant 0 <= i <= |t.fields| && |body| <= JSON_MAX_TOKENS
        invariant Ready(t, obj.Length, off, js.Length, base, js[..], toks, v, at, parent, root) && Standing(js[..], v, at, done)
        invariant forall k :: i <= k < |t.fields| ==> t.fields[k].name !in done
        invariant SameOutside(mem, obj[..], off, off + t.size) && SameOutside(text, js[..], at, at + |ValueText(v)|)
        invariant Untouched(t, i, mem, obj[..], off)
        invariant !good ==> !spec
        invariant good ==> body == before + EntriesTo(t, i, v, at, off, prefix) && (v.Object? ==> KeysOk(t, v.members))
        invariant good ==> forall k :: 0 <= k < i ==> FieldAccepts(t, k, v, at, depth, prefix, partial)
        invariant good ==> FilledTo(t, i, v, at, mem, obj[..], off, base, js[..])
      {
        ghost var js0, obj0 := js[..], obj[..];
        FieldFails(t, i, v, at, depth, prefix, partial, off);
        EntriesStep(t, i, v, at, off, prefix, before);
        var fine, stop := ReadField(t, i, obj, off, js, base, elsewhere, toks, root, depth, prefix, partial, v, at, parent, done);
        Moved(t, i, v, at, text, js0, js[..], mem, obj0, obj[..], off, done);
        ReadyStays(t, obj.Length, off, js.Length, base, js0, js[..], toks, v, at, parent, root);
        NextNames(t, i, done);
        if good && fine { FilledStep(t, i, v, at, mem, obj0, obj[..], off, base, js0, js[..]); }
        if stop { return false; }
        good := good && fine;
        done := done + {t.fields[i].name};
        i := i + 1;
      }
      if good {
        AllAccepted(t, v, at, depth, prefix, partial);
        FilledAll(t, v, at, mem, obj[..], off, base, js[..]);
        EntriesAll(t, v, at, off, prefix);
      }
    }
  }

  // ----- one round after another -----

  ghost predicate Untouched(t: TypeInfo, i: nat, mem0: bytes, mem: bytes, off: nat) {
    forall k :: i <= k < |t.fields| ==>
      SameInside(mem0, mem, off + t.fields[k].offset, off + t.fields[k].offset + t.fields[k].size)
  }

  ghost predicate FilledTo(t: TypeInfo, i: nat, v: Value, at: nat, mem0: bytes, mem: bytes, off: nat, base: nat, js: bytes)
    requires IsValue(v) && Shape(t) && off + t.size <= |mem| == |mem0| && i <= |t.fields|
  {
    forall k :: 0 <= k < i ==> FieldFilled(t, k, v, at, mem0, mem, off, base, js)
  }

  lemma InsideAll(a: bytes, b: bytes)
    requires a == b
    ensures forall lo: nat, hi: nat :: SameInside(a, b, lo, hi)
  {
  }

  lemma Refuses(t: TypeInfo, v: Value, at: nat, depth: nat, prefix: bytes, partial: bool)
    requires IsValue(v)
    requires depth >= NEST_DEPTH_MAX || !IsObject(v) || (v.Object? && !KeysOk(t, v.members))
    ensures !Accepts(t, v, at, depth, prefix, partial)
  {
  }

  lemma StandingAtFirst(js: bytes, v: Value, at: nat)
    requires IsValue(v) && At(js, at, ValueText(v))
    ensures Standing(js, v, at, {})
  {
    hide At, MembersText;
    if v.Object? {
      AtConcat(js, at, [0x7B], MembersText(v.members));
      IntactAtFirst(js, at + 1, v.members);
    }
  }

  lemma NoEntries(t: TypeInfo, v: Value, at: nat, off: nat, prefix: bytes)
    requires IsValue(v)
    ensures EntriesTo(t, 0, v, at, off, prefix) == []
  {
  }

  lemma EntriesAll(t: TypeInfo, v: Value, at: nat, off: nat, prefix: bytes)
    requires IsValue(v)
    ensures Entries(t, v, at, off, prefix) == EntriesTo(t, |t.fields|, v, at, off, prefix)
  {
    hide EntriesTo;
  }

  lemma EntriesStep(t: TypeInfo, i: nat, v: Value, at: nat, off: nat, prefix: bytes, before: seq<Entry>)
    requires IsValue(v) && i < |t.fields|
    ensures before + EntriesTo(t, i, v, at, off, prefix) + FieldEntries(t, i, v, at, off, prefix)
            == before + EntriesTo(t, i + 1, v, at, off, prefix)
  {
    hide FieldEntries;
  }

  /** A field that is refused, or for which there is no room, makes the whole body refused. */
  lemma FieldFails(t: TypeInfo, i: nat, v: Value, at: nat, depth: nat, prefix: bytes, partial: bool, off: nat)
    requires IsValue(v) && i < |t.fields|
    ensures Accepts(t, v, at, depth, prefix, partial) ==> FieldAccepts(t, i, v, at, depth, prefix, partial)
    ensures |EntriesTo(t, i, v, at, off, prefix)| + |FieldEntries(t, i, v, at, off, prefix)| <= |Entries(t, v, at, off, prefix)|
  {
    hide FieldEntries, FieldAccepts;
    EntriesGrow(t, i + 1, |t.fields|, v, at, off, prefix);
  }

  lemma AllAccepted(t: TypeInfo, v: Value, at: nat, depth: nat, prefix: bytes, partial: bool)
    requires IsValue(v) && depth < NEST_DEPTH_MAX && IsObject(v) && (v.Object? ==> KeysOk(t, v.members))
    requires forall k :: 0 <= k < |t.fields| ==> FieldAccepts(t, k, v, at, depth, prefix, partial)
    ensures Accepts(t, v, at, depth, prefix, partial)
  {
    hide FieldAccepts, KeysOk;
  }

  lemma FilledAll(t: TypeInfo, v: Value, at: nat, mem0: bytes, mem: bytes, off: nat, base: nat, js: bytes)
    requires IsValue(v) && Shape(t) && off + t.size <= |mem| == |mem0|
    requires FilledTo(t, |t.fields|, v, at, mem0, mem, off, base, js)
    ensures Filled(t, v, at, mem0, mem, off, base, js)
  {
    hide FieldFilled;
  }

  lemma ReadyStays(t: TypeInfo, size: nat, off: nat, jsLength: nat, base: nat, js: bytes, js': bytes, toks: seq<Token>, v: Value,
                   at: nat, parent: int, root: nat)
    requires Ready(t, size, off, jsLength, base, js, toks, v, at, parent, root) && |js'| == |js|
    ensures Ready(t, size, off, jsLength, base, js', toks, v, at, parent, root)
  {
    hide Placed, ObjectsFit, CLayout, Shape, IsValue;
  }

  lemma NextNames(t: TypeInfo, i: nat, done: set<bytes>)
    requires CLayout(t) && i < |t.fields| && forall k :: i <= k < |t.fields| ==> t.fields[k].name !in done
    ensures forall k :: i + 1 <= k < |t.fields| ==> t.fields[k].name !in done + {t.fields[i].name}
  {
    hide CLayout;
    forall k | i + 1 <= k < |t.fields| ensures t.fields[k].name != t.fields[i].name { SeparateFields(t, k, i); }
  }

  /** What reading field i leaves in place. */
  lemma Moved(t: TypeInfo, i: nat, v: Value, at: nat, text: bytes, js: bytes, js': bytes, mem0: bytes, mem: bytes, mem': bytes,
              off: nat, done: set<bytes>)
    requires Shape(t) && CLayout(t) && IsValue(v) && i < |t.fields| && Standing(js, v, at, done)
    requires SameOutside(mem0, mem, off, off + t.size) && SameOutside(text, js, at, at + |ValueText(v)|)
    requires Untouched(t, i, mem0, mem, off)
    requires SameOutside(mem, mem', off + t.fields[i].offset, off + t.fields[i].offset + t.fields[i].size)
    requires var found := MemberOf(v, at, t.fields[i].name);
             if found.None? then js' == js else SameOutside(js, js', found.value.at, FoundEnd(found.value))
    ensures SameOutside(mem0, mem', off, off + t.size) && SameOutside(text, js', at, at + |ValueText(v)|)
    ensures Untouched(t, i + 1, mem0, mem', off) && Standing(js', v, at, done + {t.fields[i].name})
  {
    hide SameOutside, SameInside, Shape, CLayout, Intact, Member, ValueText;
    FieldRoom(t, i);
    var f := t.fields[i];
    OutsideTwice(mem0, mem, mem', off, off + t.size, off + f.offset, off + f.offset + f.size);
    forall k | i + 1 <= k < |t.fields|
      ensures SameInside(mem0, mem', off + t.fields[k].offset, off + t.fields[k].offset + t.fields[k].size)
    {
      var g := t.fields[k];
      SeparateFields(t, i, k);
      OutsideInside(mem, mem', off + f.offset, off + f.offset + f.size, off + g.offset, off + g.offset + g.size);
      InsideTwice(mem0, mem, mem', off + g.offset, off + g.offset + g.size);
    }
    var found := MemberOf(v, at, f.name);
    if found.Some? {
      FoundInside(v, at, f.name);
      OutsideTwice(text, js, js', at, at + |ValueText(v)|, found.value.at, FoundEnd(found.value));
      IntactAfter(js, js', at + 1, v.members, done, f.name);
    } else if v.Object? {
      IntactMore(js, at + 1, v.members, done, done + {f.name});
    }
  }

  lemma InsideTwice(a: bytes, b: bytes, c: bytes, lo: nat, hi: nat)
    requires SameInside(a, b, lo, hi) && SameInside(b, c, lo, hi)
    ensures SameInside(a, c, lo, hi)
  {
  }

  lemma InsideBack(a: bytes, b: bytes, lo: nat, hi: nat)
    requires SameInside(a, b, lo, hi)
    ensures SameInside(b, a, lo, hi)
  {
  }

  /** The fields filled before stay filled, and field i is filled too. */
  lemma FilledStep(t: TypeInfo, i: nat, v: Value, at: nat, mem0: bytes, mem: bytes, mem': bytes, off: nat, base: nat, js: bytes,
                   js': bytes)
    requires IsValue(v) && Shape(t) && CLayout(t) && off + t.size <= |mem| == |mem0| == |mem'| && i < |t.fields|
    requires FilledTo(t, i, v, at, mem0, mem, off, base, js) && Untouched(t, i, mem0, mem, off)
    requires FieldFilled(t, i, v, at, mem, mem', off, base, js')
    requires SameOutside(mem, mem', off + t.fields[i].offset, off + t.fields[i].offset + t.fields[i].size)
    requires var found := MemberOf(v, at, t.fields[i].name);
             if found.None? then js' == js else SameOutside(js, js', found.value.at, FoundEnd(found.value))
    ensures FilledTo(t, i + 1, v, at, mem0, mem', off, base, js')
  {
    hide FieldFilled, SameOutside, SameInside, Shape, CLayout, ValueText, MemberOf;
    var f := t.fields[i];
    var a, b := off + f.offset, off + f.offset + f.size;
    InsideBack(mem0, mem, a, b);
    InsideAll(mem', mem');
    InsideAll(js', js');
    InsideAll(mem0, mem0);
    FieldFilledStable(t, i, v, at, mem, mem0, mem', mem', off, base, js', js');
    forall k | 0 <= k < i ensures FieldFilled(t, k, v, at, mem0, mem', off, base, js') {
      var g := t.fields[k];
      SeparateFields(t, i, k);
      OutsideInside(mem, mem', a, b, off + g.offset, off + g.offset + g.size);
      OtherMember(v, at, f.name, g.name, js, js');
      FieldFilledStable(t, k, v, at, mem0, mem0, mem, mem', off, base, js, js');
    }
  }

  lemma OtherMember(v: Value, at: nat, name: bytes, other: bytes, js: bytes, js': bytes)
    requires IsValue(v) && name != other
    requires var found := MemberOf(v, at, name);
             if found.None? then js' == js else SameOutside(js, js', found.value.at, FoundEnd(found.value))
    ensures var found := MemberOf(v, at, other);
            found.Some? ==> SameInside(js, js', found.value.at, FoundEnd(found.value))
  {
    hide SameOutside, SameInside, ValueText, Member;
    InsideAll(js, js);
    if MemberOf(v, at, name).Some? && MemberOf(v, at, other).Some? {
      FoundApart(v.members, at + 1, name, other);
      var f, g := MemberOf(v, at, name).value, MemberOf(v, at, other).value;
      OutsideInside(js, js', f.at, FoundEnd(f), g.at, FoundEnd(g));
    }
  }

  lemma PathTooLong(t: TypeInfo, i: nat, v: Value, at: nat, depth: nat, prefix: bytes, partial: bool)
    requires IsValue(v) && i < |t.fields| && |PathTo(prefix, t.fields[i].name)| >= PATH_SIZE
    ensures !FieldAccepts(t, i, v, at, depth, prefix, partial)
  {
  }

  lemma AbsentField(t: TypeInfo, i: nat, v: Value, at: nat, depth: nat, prefix: bytes, partial: bool, mem: bytes, off: nat,
                    base: nat, js: bytes)
    requires IsValue(v) && Shape(t) && off + t.size <= |mem| && i < |t.fields| && MemberOf(v, at, t.fields[i].name).None?
    requires |PathTo(prefix, t.fields[i].name)| < PATH_SIZE
    ensures FieldAccepts(t, i, v, at, depth, prefix, partial) <==> partial || !t.fields[i].notNull
    ensures FieldEntries(t, i, v, at, off, prefix) == [] && FieldFilled(t, i, v, at, mem, mem, off, base, js)
  {
    hide IsSafeIdentifier;
  }

  lemma EntryAtLeast(t: TypeInfo, i: nat, v: Value, at: nat, off: nat, prefix: bytes)
    requires IsValue(v) && i < |t.fields| && MemberOf(v, at, t.fields[i].name).Some?
    ensures |FieldEntries(t, i, v, at, off, prefix)| >= 1
  {
    hide Entries;
  }

  lemma PresentObject(t: TypeInfo, i: nat, v: Value, at: nat, depth: nat, prefix: bytes, partial: bool, off: nat)
    requires IsValue(v) && i < |t.fields| && MemberOf(v, at, t.fields[i].name).Some? && t.fields[i].kind.FIELD_OBJECT?
    ensures var f, w, path := t.fields[i], MemberOf(v, at, t.fields[i].name).value, PathTo(prefix, t.fields[i].name);
            && FieldEntries(t, i, v, at, off, prefix)
               == [Entry(path, off + f.offset, f.size, true, IsNull(w.value))]
                  + Entries(f.kind.nested, w.value, w.at, off + f.offset, path)
            && (FieldAccepts(t, i, v, at, depth, prefix, partial) <==>
                  |path| < PATH_SIZE && Accepts(f.kind.nested, w.value, w.at, depth + 1, path, partial))
  {
    hide Entries, Accepts, MemberOf, PathTo, LeafFrom;
  }

  lemma PresentLeaf(t: TypeInfo, i: nat, v: Value, at: nat, depth: nat, prefix: bytes, partial: bool, off: nat)
    requires IsValue(v) && i < |t.fields| && MemberOf(v, at, t.fields[i].name).Some? && !t.fields[i].kind.FIELD_OBJECT?
    ensures var f, w, path := t.fields[i], MemberOf(v, at, t.fields[i].name).value, PathTo(prefix, t.fields[i].name);
            && FieldEntries(t, i, v, at, off, prefix) == [Entry(path, off + f.offset, f.size, false, IsNull(w.value))]
            && (FieldAccepts(t, i, v, at, depth, prefix, partial) <==> |path| < PATH_SIZE && LeafFrom(f, w.value).Some?)
  {
  }

  lemma ObjectFilled(t: TypeInfo, i: nat, v: Value, at: nat, mem0: bytes, mem: bytes, off: nat, base: nat, js: bytes)
    requires IsValue(v) && Shape(t) && off + t.size <= |mem| == |mem0| && i < |t.fields|
    requires MemberOf(v, at, t.fields[i].name).Some? && t.fields[i].kind.FIELD_OBJECT?
    requires var f, w := t.fields[i], MemberOf(v, at, t.fields[i].name).value;
             && Shape(f.kind.nested) && off + f.offset + f.kind.nested.size <= |mem|
             && Filled(f.kind.nested, w.value, w.at, mem0, mem, off + f.offset, base, js)
    ensures FieldFilled(t, i, v, at, mem0, mem, off, base, js)
  {
    hide Filled, IsSafeIdentifier;
  }

  lemma LeafFilled(t: TypeInfo, i: nat, v: Value, at: nat, mem0: bytes, mem: bytes, off: nat, base: nat, js: bytes)
    requires IsValue(v) && Shape(t) && off + t.size <= |mem| == |mem0| && i < |t.fields|
    requires MemberOf(v, at, t.fields[i].name).Some? && !t.fields[i].kind.FIELD_OBJECT?
    requires var f, w := t.fields[i], MemberOf(v, at, t.fields[i].name).value;
             && f.size == StorageSize(f) && off + f.offset + f.size <= |mem| && LeafHeld(f, w.value, w.at, mem, off, base, js)
    ensures FieldFilled(t, i, v, at, mem0, mem, off, base, js)
  {
    hide LeafHeld, IsSafeIdentifier;
  }

  lemma ReadyParts(t: TypeInfo, size: nat, off: nat, jsLength: nat, base: nat, js: bytes, toks: seq<Token>, v: Value, at: nat,
                   parent: int, root: nat)
    requires Ready(t, size, off, jsLength, base, js, toks, v, at, parent, root)
    ensures Shape(t) && CLayout(t) && off + t.size <= size && |js| == jsLength && 0 < base && base + jsLength < ADDRESS_LIMIT
    ensures Sane(js, toks) && IsValue(v) && ObjectsFit(v) && parent < root && Placed(toks, v, at, parent, root)
  {
  }

  lemma ValueStands(js: bytes, v: Value, at: nat, done: set<bytes>, name: bytes)
    requires IsValue(v) && Standing(js, v, at, done) && name !in done && MemberOf(v, at, name).Some?
    ensures var f := MemberOf(v, at, name).value; At(js, f.at, ValueText(f.value))
  {
    IntactValue(js, at + 1, v.members, done, name);
  }

  lemma TokenKind(js: bytes, t: Token, w: Value, wat: nat)
    requires TokenOf(js, t, w, wat)
    ensures t.kind == OBJ <==> IsObject(w)
  {
    hide At, ValueText;
  }

  lemma NotAnObject(t: TypeInfo, v: Value, at: nat, depth: nat, prefix: bytes, partial: bool)
    requires IsValue(v)
    ensures Accepts(t, v, at, depth, prefix, partial) ==> IsObject(v)
  {
  }
}
