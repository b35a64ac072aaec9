/** patch_apply: merging the fields a PATCH body mentions into the current value. */
module StructPatch {
  import opened Bytes
  import opened JsonGrammar
  import opened JsonMeaning
  import opened JsonPrint
  import opened JsonPlaces
  import opened StructTypes
  import opened StructLeaf
  import opened StructRead
  import opened StructReader
  import opened StructBody
  import opened StructMode
  import opened JsonParserProof
  import JsonMachine

  // ----- the bytes -----

  ghost predicate Touches(e: Entry, k: int) { !e.isObject && e.offset <= k < e.offset + e.size }

  ghost predicate Touched(es: seq<Entry>, k: int) { exists j :: 0 <= j < |es| && Touches(es[j], k) }

  /** The bytes of the fields in `es` come from the changes, every other byte from the current value. */
  ghost predicate Patched(es: seq<Entry>, current: bytes, changes: bytes, result: bytes) {
    && |result| == |current| <= |changes|
    && forall k :: 0 <= k < |result| ==> result[k] == if Touched(es, k) then changes[k] else current[k]
  }

  lemma TouchedConcat(a: seq<Entry>, b: seq<Entry>, k: int)
    ensures Touched(a + b, k) <==> Touched(a, k) || Touched(b, k)
  {
    var c := a + b;
    if Touched(a, k) { var j :| 0 <= j < |a| && Touches(a[j], k); assert c[j] == a[j]; }
    if Touched(b, k) { var j :| 0 <= j < |b| && Touches(b[j], k); assert c[|a| + j] == b[j]; }
    if Touched(c, k) {
      var j :| 0 <= j < |c| && Touches(c[j], k);
      if j < |a| { assert a[j] == c[j]; } else { assert b[j - |a|] == c[j]; }
    }
  }

  /** Applying the same changes once more makes no difference. */
  lemma PatchTwice(es: seq<Entry>, current: bytes, changes: bytes, once: bytes, twice: bytes)
    requires Patched(es, current, changes, once) && Patched(es, once, changes, twice)
    ensures twice == once
  {
    forall k | 0 <= k < |once| ensures twice[k] == once[k] {}
  }

  lemma PatchStep(es: seq<Entry>, i: nat, current: bytes, changes: bytes, mid: bytes, result: bytes)
    requires i < |es| && Patched(es[..i], current, changes, mid) && |result| == |mid|
    requires forall k :: 0 <= k < |mid| ==> result[k] == if Touches(es[i], k) then changes[k] else mid[k]
    ensures Patched(es[..i + 1], current, changes, result)
  {
    assert es[..i + 1] == es[..i] + [es[i]];
    forall k | 0 <= k < |result| ensures result[k] == if Touched(es[..i + 1], k) then changes[k] else current[k] {
      TouchedConcat(es[..i], [es[i]], k);
      assert Touched([es[i]], k) <==> Touches(es[i], k) by { assert [es[i]][0] == es[i]; }
    }
  }

  lemma PatchNone(current: bytes, changes: bytes)
    requires |current| <= |changes|
    ensures Patched([], current, changes, current)
  {
  }

  /** memcpy of one field. */
  method CopyField(target: array<byte>, changes: array<byte>, e: Entry)
    requires target != changes && e.offset + e.size <= target.Length <= changes.Length && !e.isObject
    modifies target
    ensures forall k :: 0 <= k < target.Length ==> target[k] == if Touches(e, k) then changes[k] else old(target[k])
  {
    forall k | e.offset <= k < e.offset + e.size { target[k] := changes[k]; }
  }

  // ----- every entry lies in its field -----

  ghost predicate InRange(es: seq<Entry>, lo: nat, hi: nat) {
    forall j :: 0 <= j < |es| ==> lo <= es[j].offset && es[j].offset + es[j].size <= hi
  }

  lemma InRangeConcat(a: seq<Entry>, b: seq<Entry>, lo: nat, hi: nat)
    requires InRange(a, lo, hi) && InRange(b, lo, hi)
    ensures InRange(a + b, lo, hi)
  {
  }

  lemma InRangeWider(es: seq<Entry>, lo: nat, hi: nat, lo': nat, hi': nat)
    requires InRange(es, lo, hi) && lo' <= lo && hi <= hi'
    ensures InRange(es, lo', hi')
  {
  }

  lemma {:induction false} FieldEntriesInside(t: TypeInfo, i: nat, v: Value, at: nat, off: nat, prefix: bytes)
    requires Shape(t) && IsValue(v) && i < |t.fields|
    ensures var f := t.fields[i]; InRange(FieldEntries(t, i, v, at, off, prefix), off + f.offset, off + f.offset + f.size)
    decreases t, 0
  {
    hide Entries, MemberOf, PathTo, IsSafeIdentifier, InRange, Shape;
    FieldRoom(t, i);
    var f := t.fields[i];
    var found := MemberOf(v, at, f.name);
    var a := off + f.offset;
    if found.None? {
      InRangeNone(a, a + f.size);
    } else {
      var e := Entry(PathTo(prefix, f.name), a, f.size, f.kind.FIELD_OBJECT?, IsNull(found.value.value));
      InRangeOne(e);
      if f.kind.FIELD_OBJECT? {
        EntriesInside(f.kind.nested, |f.kind.nested.fields|, found.value.value, found.value.at, a, PathTo(prefix, f.name));
        EntriesAll(f.kind.nested, found.value.value, found.value.at, a, PathTo(prefix, f.name));
        InRangeConcat([e], Entries(f.kind.nested, found.value.value, found.value.at, a, PathTo(prefix, f.name)), a, a + f.size);
      } else {
        assert [e] + [] == [e];
      }
    }
  }

  lemma InRangeNone(lo: nat, hi: nat)
    ensures InRange([], lo, hi)
  {
  }

  lemma InRangeOne(e: Entry)
    ensures InRange([e], e.offset, e.offset + e.size)
  {
  }

  lemma {:induction false} EntriesInside(t: TypeInfo, i: nat, v: Value, at: nat, off: nat, prefix: bytes)
    requires Shape(t) && IsValue(v) && i <= |t.fields|
    ensures InRange(EntriesTo(t, i, v, at, off, prefix), off, off + t.size)
    decreases t, 1, i
  {
    hide FieldEntries, InRange, Shape;
    if i == 0 {
      InRangeNone(off, off + t.size);
    } else {
      EntriesInside(t, i - 1, v, at, off, prefix);
      FieldEntriesInside(t, i - 1, v, at, off, prefix);
      FieldRoom(t, i - 1);
      var f := t.fields[i - 1];
      InRangeWider(FieldEntries(t, i - 1, v, at, off, prefix), off + f.offset, off + f.offset + f.size, off, off + t.size);
      InRangeConcat(EntriesTo(t, i - 1, v, at, off, prefix), FieldEntries(t, i - 1, v, at, off, prefix), off, off + t.size);
    }
  }

  lemma NotTouched(es: seq<Entry>, lo: nat, hi: nat, k: int)
    requires InRange(es, lo, hi) && (k < lo || hi <= k)
    ensures !Touched(es, k)
  {
  }

  /** Inside a field, only the entries of that field count. */
  lemma {:induction false} TouchedField(t: TypeInfo, n: nat, i: nat, v: Value, at: nat, off: nat, prefix: bytes, k: int)
    requires Shape(t) && CLayout(t) && IsValue(v) && i < |t.fields| && n <= |t.fields|
    requires var f := t.fields[i]; off + f.offset <= k < off + f.offset + f.size
    ensures Touched(EntriesTo(t, n, v, at, off, prefix), k) <==> i < n && Touched(FieldEntries(t, i, v, at, off, prefix), k)
    decreases n
  {
    hide FieldEntries, Touched, Shape, CLayout, InRange;
    if n == 0 {
      InRangeNone(k + 1, k + 1);
      NotTouched([], k + 1, k + 1, k);
    } else {
      TouchedField(t, n - 1, i, v, at, off, prefix, k);
      TouchedConcat(EntriesTo(t, n - 1, v, at, off, prefix), FieldEntries(t, n - 1, v, at, off, prefix), k);
      if n - 1 != i {
        var g := t.fields[n - 1];
        FieldEntriesInside(t, n - 1, v, at, off, prefix);
        SeparateFields(t, n - 1, i);
        NotTouched(FieldEntries(t, n - 1, v, at, off, prefix), off + g.offset, off + g.offset + g.size, k);
      }
    }
  }

  // ----- the value -----

  /** The current value with the fields the body mentions replaced, at every level. */
  function Merge(t: TypeInfo, current: Val, v: Value, at: nat): Val
    requires IsValue(v) && AllStructs(t, current)
    decreases t, 1
  {
    Struct(seq(|t.fields|, i requires 0 <= i < |t.fields| => MergeField(t, i, current, v, at)))
  }

  function MergeField(t: TypeInfo, i: nat, current: Val, v: Value, at: nat): Val
    requires IsValue(v) && i < |t.fields| && AllStructs(t, current)
    decreases t, 0
  {
    var f := t.fields[i];
    var found := MemberOf(v, at, f.name);
    if found.None? then current.vals[i]
    else if f.kind.FIELD_OBJECT? then Merge(f.kind.nested, current.vals[i], found.value.value, found.value.at)
    else
      var l := RawLeaf(f, found.value.value);
      if l.Some? then Scalar(l.value) else current.vals[i]
  }

  predicate AllStructs(t: TypeInfo, v: Val) {
    && v.Struct? && |v.vals| == |t.fields|
    && forall i :: 0 <= i < |t.fields| && t.fields[i].kind.FIELD_OBJECT? ==> AllStructs(t.fields[i].kind.nested, v.vals[i])
  }

  lemma {:induction false} ValueIsStruct(t: TypeInfo, mem: bytes, off: nat, ram: Ram)
    requires Shape(t) && off + t.size <= |mem|
    ensures AllStructs(t, ValueOf(t, mem, off, ram))
    decreases t
  {
    hide IsSafeIdentifier, LeafOf;
    var v := ValueOf(t, mem, off, ram);
    forall i | 0 <= i < |t.fields| && t.fields[i].kind.FIELD_OBJECT? ensures AllStructs(t.fields[i].kind.nested, v.vals[i]) {
      FieldRoom(t, i);
      assert v.vals[i] == FieldValue(t, i, mem, off, ram);
      ValueIsStruct(t.fields[i].kind.nested, mem, off + t.fields[i].offset, ram);
    }
  }

  lemma LeafSame(f: Field, mem: bytes, mem': bytes, off: nat, ram: Ram)
    requires !f.kind.FIELD_OBJECT? && f.size == StorageSize(f) > 0 && off + f.offset + f.size <= |mem|
    requires SameInside(mem, mem', off + f.offset, off + f.offset + f.size)
    ensures |mem| == |mem'| && LeafOf(f, mem, off, ram) == LeafOf(f, mem', off, ram)
  {
    var at, w := off + ScalarOffset(f), Width(f.kind);
    assert mem[at..at + w] == mem'[at..at + w];
    assert mem[off + f.offset] == mem'[off + f.offset];
  }

  /** A struct has the same value when its bytes are the same. */
  lemma {:induction false} ValueSame(t: TypeInfo, mem: bytes, mem': bytes, off: nat, ram: Ram)
    requires Shape(t) && off + t.size <= |mem| && SameInside(mem, mem', off, off + t.size)
    ensures |mem| == |mem'| && ValueOf(t, mem, off, ram) == ValueOf(t, mem', off, ram)
    decreases t, 1
  {
    hide IsSafeIdentifier, LeafOf, SameInside;
    SameLength(mem, mem', off, off + t.size);
    forall i | 0 <= i < |t.fields| ensures FieldValue(t, i, mem, off, ram) == FieldValue(t, i, mem', off, ram) {
      FieldRoom(t, i);
      SameInner(mem, mem', off, off + t.size, off + t.fields[i].offset, off + t.fields[i].offset + t.fields[i].size);
      FieldSame(t, i, mem, mem', off, ram);
    }
  }

  lemma {:induction false} FieldSame(t: TypeInfo, i: nat, mem: bytes, mem': bytes, off: nat, ram: Ram)
    requires Shape(t) && off + t.size <= |mem| == |mem'| && i < |t.fields|
    requires SameInside(mem, mem', off + t.fields[i].offset, off + t.fields[i].offset + t.fields[i].size)
    ensures FieldValue(t, i, mem, off, ram) == FieldValue(t, i, mem', off, ram)
    decreases t, 0
  {
    hide IsSafeIdentifier, LeafOf, SameInside, ValueOf;
    FieldRoom(t, i);
    var f := t.fields[i];
    if f.kind.FIELD_OBJECT? {
      ValueSame(f.kind.nested, mem, mem', off + f.offset, ram);
    } else {
      LeafSame(f, mem, mem', off, ram);
    }
  }

  /** The relation of Patched, inside the struct at `off`. */
  ghost predicate PatchedAt(es: seq<Entry>, current: bytes, changes: bytes, result: bytes, lo: nat, hi: nat) {
    && |result| == |current| == |changes| && hi <= |result|
    && forall k :: lo <= k < hi ==> result[k] == if Touched(es, k) then changes[k] else current[k]
  }

  lemma NarrowToField(t: TypeInfo, i: nat, v: Value, at: nat, off: nat, prefix: bytes, current: bytes, changes: bytes, result: bytes)
    requires Shape(t) && CLayout(t) && IsValue(v) && i < |t.fields|
    requires PatchedAt(Entries(t, v, at, off, prefix), current, changes, result, off, off + t.size)
    ensures var f := t.fields[i];
            PatchedAt(FieldEntries(t, i, v, at, off, prefix), current, changes, result, off + f.offset, off + f.offset + f.size)
  {
    hide FieldEntries, Touched, Shape, CLayout, Entries;
    FieldRoom(t, i);
    EntriesAll(t, v, at, off, prefix);
    var f := t.fields[i];
    forall k | off + f.offset <= k < off + f.offset + f.size
      ensures result[k] == if Touched(FieldEntries(t, i, v, at, off, prefix), k) then changes[k] else current[k]
    {
      TouchedField(t, |t.fields|, i, v, at, off, prefix, k);
    }
  }

  lemma PatchedNone(current: bytes, changes: bytes, result: bytes, lo: nat, hi: nat)
    requires PatchedAt([], current, changes, result, lo, hi)
    ensures SameInside(current, result, lo, hi)
  {
  }

  lemma PatchedLeaf(e: Entry, current: bytes, changes: bytes, result: bytes)
    requires !e.isObject && PatchedAt([e], current, changes, result, e.offset, e.offset + e.size)
    ensures SameInside(changes, result, e.offset, e.offset + e.size)
  {
    forall k | e.offset <= k < e.offset + e.size ensures Touched([e], k) { assert Touches([e][0], k); }
  }

  lemma PatchedObject(e: Entry, es: seq<Entry>, current: bytes, changes: bytes, result: bytes, lo: nat, hi: nat)
    requires e.isObject && PatchedAt([e] + es, current, changes, result, lo, hi)
    ensures PatchedAt(es, current, changes, result, lo, hi)
  {
    hide Touched;
    forall k | lo <= k < hi ensures Touched([e] + es, k) == Touched(es, k) {
      TouchedConcat([e], es, k);
      ObjectTouchesNothing(e, k);
    }
  }

  lemma ObjectTouchesNothing(e: Entry, k: int)
    requires e.isObject
    ensures !Touched([e], k)
  {
  }

  /**
   Every leaf, at any depth, gets the body's value if the body mentions it (null clears it) and keeps its current value
   otherwise.
   */
  lemma {:induction false} PatchMerges(t: TypeInfo, v: Value, at: nat, off: nat, prefix: bytes, before: bytes,
                                       current: bytes, changes: bytes, result: bytes, base: nat, js: bytes, elsewhere: Ram)
    requires Shape(t) && CLayout(t) && IsValue(v) && off + t.size <= |changes| == |before|
    requires Filled(t, v, at, before, changes, off, base, js)
    requires PatchedAt(Entries(t, v, at, off, prefix), current, changes, result, off, off + t.size)
    requires 0 < base && base + |js| < ADDRESS_LIMIT && at + |ValueText(v)| <= |js|
    ensures var ram := WithBuffer(base, js, elsewhere);
            && AllStructs(t, ValueOf(t, current, off, ram))
            && ValueOf(t, result, off, ram) == Merge(t, ValueOf(t, current, off, ram), v, at)
    decreases t, 1
  {
    hide Filled, PatchedAt, Entries, CLayout, IsValue, ValueText, IsSafeIdentifier, LeafOf, Shape, WithBuffer;
    PatchedLengths(Entries(t, v, at, off, prefix), current, changes, result, off, off + t.size);
    var ram := WithBuffer(base, js, elsewhere);
    ValueIsStruct(t, current, off, ram);
    var cur := ValueOf(t, current, off, ram);
    forall i | 0 <= i < |t.fields| ensures FieldValue(t, i, result, off, ram) == MergeField(t, i, cur, v, at) {
      FieldMerges(t, i, v, at, off, prefix, before, current, changes, result, base, js, elsewhere);
    }
  }

  lemma PatchedLengths(es: seq<Entry>, current: bytes, changes: bytes, result: bytes, lo: nat, hi: nat)
    requires PatchedAt(es, current, changes, result, lo, hi)
    ensures |result| == |current| == |changes|
  {
  }

  lemma {:induction false} FieldMerges(t: TypeInfo, i: nat, v: Value, at: nat, off: nat, prefix: bytes, before: bytes,
                                       current: bytes, changes: bytes, result: bytes, base: nat, js: bytes, elsewhere: Ram)
    requires Shape(t) && CLayout(t) && IsValue(v) && off + t.size <= |changes| == |before| && i < |t.fields|
    requires |current| == |result| == |changes|
    requires Filled(t, v, at, before, changes, off, base, js)
    requires PatchedAt(Entries(t, v, at, off, prefix), current, changes, result, off, off + t.size)
    requires 0 < base && base + |js| < ADDRESS_LIMIT && at + |ValueText(v)| <= |js|
    requires AllStructs(t, ValueOf(t, current, off, WithBuffer(base, js, elsewhere)))
    ensures var ram := WithBuffer(base, js, elsewhere);
            FieldValue(t, i, result, off, ram) == MergeField(t, i, ValueOf(t, current, off, ram), v, at)
    decreases t, 0
  {
    hide PatchedAt, Entries, CLayout, IsValue, ValueText, IsSafeIdentifier, LeafOf, Shape, WithBuffer, FieldEntries, MemberOf, LeafHeld,
         SameInside, PathTo, ValueOf, AllStructs, FieldFilled;
    var ram := WithBuffer(base, js, elsewhere);
    FieldRoom(t, i);
    NarrowToField(t, i, v, at, off, prefix, current, changes, result);
    FieldOfValue(t, i, current, off, ram);
    var f := t.fields[i];
    var a := off + f.offset;
    var found := MemberOf(v, at, f.name);
    assert FieldFilled(t, i, v, at, before, changes, off, base, js);
    if found.None? {
      NoFieldEntries(t, i, v, at, off, prefix);
      PatchedNone(current, changes, result, a, a + f.size);
      FieldSame(t, i, current, result, off, ram);
    } else {
      var w := found.value;
      FoundInside(v, at, f.name);
      FilledFound(t, i, v, at, before, changes, off, base, js);
      if f.kind.FIELD_OBJECT? {
        PresentObject(t, i, v, at, 0, prefix, true, off);
        var e := Entry(PathTo(prefix, f.name), a, f.size, true, IsNull(w.value));
        PatchedObject(e, Entries(f.kind.nested, w.value, w.at, a, PathTo(prefix, f.name)), current, changes, result, a, a + f.size);
        LayoutInside(t, i);
        PatchMerges(f.kind.nested, w.value, w.at, a, PathTo(prefix, f.name), before, current, changes, result, base, js, elsewhere);
      } else {
        PresentLeaf(t, i, v, at, 0, prefix, true, off);
        PatchedLeaf(Entry(PathTo(prefix, f.name), a, f.size, false, IsNull(w.value)), current, changes, result);
        InsideAll(js, js);
        LeafHeldStable(f, w.value, w.at, changes, result, off, base, js, js);
        LeafHeldIs(f, w.value, w.at, result, off, base, js, elsewhere);
      }
    }
  }

  lemma NoFieldEntries(t: TypeInfo, i: nat, v: Value, at: nat, off: nat, prefix: bytes)
    requires IsValue(v) && i < |t.fields| && MemberOf(v, at, t.fields[i].name).None?
    ensures FieldEntries(t, i, v, at, off, prefix) == []
  {
    hide Entries;
  }

  lemma LayoutInside(t: TypeInfo, i: nat)
    requires CLayout(t) && i < |t.fields| && t.fields[i].kind.FIELD_OBJECT?
    ensures CLayout(t.fields[i].kind.nested)
  {
  }

  lemma FilledFound(t: TypeInfo, i: nat, v: Value, at: nat, mem0: bytes, mem: bytes, off: nat, base: nat, js: bytes)
    requires IsValue(v) && Shape(t) && off + t.size <= |mem| == |mem0| && i < |t.fields|
    requires FieldFilled(t, i, v, at, mem0, mem, off, base, js) && MemberOf(v, at, t.fields[i].name).Some?
    ensures FieldFits(t, t.fields[i])
    ensures var f, w := t.fields[i], MemberOf(v, at, t.fields[i].name).value;
            if f.kind.FIELD_OBJECT?
            then Shape(f.kind.nested) && Filled(f.kind.nested, w.value, w.at, mem0, mem, off + f.offset, base, js)
            else RawLeaf(f, w.value).Some? && LeafHeld(f, w.value, w.at, mem, off, base, js)
  {
    hide Filled, ScalarBytes, IsSafeIdentifier, MemberOf;
    assert FieldFits(t, t.fields[i]);
  }

  lemma FieldOfValue(t: TypeInfo, i: nat, mem: bytes, off: nat, ram: Ram)
    requires Shape(t) && off + t.size <= |mem| && i < |t.fields|
    ensures ValueOf(t, mem, off, ram).vals[i] == FieldValue(t, i, mem, off, ram)
  {
    hide FieldValue;
  }

  // ----- patch_apply -----

  /** patch_apply: refused without touching the target, or every mentioned field copied and the result validated. */
  method PatchApply(body: RequestBody, id: nat, t: TypeInfo, target: array<byte>, changes: array<byte>, requestFailed: bool,
                    ram: Ram, ghost v: Value, ghost at: nat)
    returns (ok: bool)
    requires Shape(t) && TypeValid(t) && t.size <= target.Length <= changes.Length && target != changes
    requires body.partial && body.bodyType == Some(id) ==> IsValue(v) && body.reader.body == Entries(t, v, at, 0, [])
    modifies target
    ensures !body.partial || body.bodyType != Some(id) || requestFailed ==> !ok && target[..] == old(target[..])
    ensures body.partial && body.bodyType == Some(id) && !requestFailed ==>
              && Patched(body.reader.body, old(target[..]), changes[..], target[..])
              && ok == Validates(t, ValueOf(t, target[..], 0, ram), 0, [])
  {
    hide Patched, Entries, Validates, ValueOf, Shape, TypeValidNested, IsValue;
    if !body.partial || body.bodyType != Some(id) || requestFailed { return false; }
    var es := body.reader.body;
    EntriesInside(t, |t.fields|, v, at, 0, []);
    EntriesAll(t, v, at, 0, []);
    PatchNone(target[..], changes[..]);
    assert es[..0] == [];
    var i := 0;
    while i < |es|
      invariant 0 <= i <= |es| && es == body.reader.body
      invariant Patched(es[..i], old(target[..]), changes[..], target[..])
    {
      var e := es[i];
      ghost var mid := target[..];
      if !e.isObject {
        if e.offset > t.size || e.size > t.size - e.offset {
          assert false;
          return false;
        }
        CopyField(target, changes, e);
      }
      PatchStep(es, i, old(target[..]), changes[..], mid, target[..]);
      i := i + 1;
    }
    assert es[..i] == es;
    ok := Validates(t, ValueOf(t, target[..], 0, ram), 0, []);
  }

  /**
   A PATCH request: the body is read into `changes`, and `changes` is applied to the current value.  When both
   succeed the result is the merge of the two and is valid, and no byte changes that is not part of a mentioned field.
   */
  method ReadThenPatch(body: RequestBody, id: nat, t: TypeInfo, target: array<byte>, changes: array<byte>, js: array<byte>, base: nat,
                       elsewhere: Ram, requestFailed: bool, ghost d: Document)
    returns (read: bool, ok: bool)
    requires Shape(t) && TypeValid(t) && CLayout(t) && t.size == target.Length == changes.Length
    requires target != changes && js != changes && js != target && 0 < base && base + js.Length < ADDRESS_LIMIT
    requires Describes(d, js[..], JSON_MAX_TOKENS) && js.Length <= JsonMachine.INT_MAX
    modifies body, body.reader, changes, js, target
    ensures read <==> IsValue(d.root) && Accepts(t, d.root, |d.before|, 0, [], true)
    ensures !read || requestFailed ==> !ok && target[..] == old(target[..])
    ensures read && !requestFailed ==>
              var ram := WithBuffer(base, js[..], elsewhere);
              && IsValue(d.root) && AllStructs(t, ValueOf(t, old(target[..]), 0, ram))
              && ValueOf(t, target[..], 0, ram) == Merge(t, ValueOf(t, old(target[..]), 0, ram), d.root, |d.before|)
              && (ok <==> Validates(t, ValueOf(t, target[..], 0, ram), 0, []))
              && Patched(Entries(t, d.root, |d.before|, 0, []), old(target[..]), changes[..], target[..])
  {
    hide Patched, Entries, Validates, ValueOf, Shape, TypeValidNested, IsValue, Describes, Accepts, Filled, CLayout, Merge, AllStructs,
         ValueText, WithBuffer;
    ghost var text, before, current := js[..], changes[..], target[..];
    DescribedFits(d, text);
    read := body.ReadMode(id, t, changes, js, base, elsewhere, true, d);
    ok := PatchApply(body, id, t, target, changes, requestFailed, WithBuffer(base, js[..], elsewhere), d.root, |d.before|);
    if read && !requestFailed {
      WholePatch(Entries(t, d.root, |d.before|, 0, []), current, changes[..], target[..]);
      PatchMerges(t, d.root, |d.before|, 0, [], before, current, changes[..], target[..], base, js[..], elsewhere);
    }
  }

  lemma DescribedFits(d: Document, js: bytes)
    requires Describes(d, js, JSON_MAX_TOKENS)
    ensures IsValue(d.root) && |d.before| + |ValueText(d.root)| <= |js|
  {
    hide ValueText, IsValue;
  }

  lemma WholePatch(es: seq<Entry>, current: bytes, changes: bytes, result: bytes)
    requires Patched(es, current, changes, result) && |current| == |changes|
    ensures PatchedAt(es, current, changes, result, 0, |result|)
  {
    hide Touched;
  }
}
