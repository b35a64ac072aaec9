/** json_read_nested and json_read_mode: reading a JSON object into a struct, decoding its strings in place. */
module StructReader {
  import opened Bytes
  import opened JsonGrammar
  import opened JsonMeaning
  import opened JsonScan
  import opened JsonDecode
  import opened JsonParserProof
  import opened JsonEngine
  import opened JsonTree
  import opened JsonLookup
  import opened JsonPrint
  import opened JsonUnescape
  import opened JsonPlaces
  import opened StructTypes
  import opened StructLeaf
  import opened StructRead

  lemma OverlayOutside(b: bytes, at: nat, d: bytes)
    requires at + |d| <= |b|
    ensures SameOutside(b, Overlay(b, at, d), at, at + |d|) && At(Overlay(b, at, d), at, d)
  {
  }

  lemma OutsideTwice(a: bytes, b: bytes, c: bytes, lo: nat, hi: nat, lo': nat, hi': nat)
    requires SameOutside(a, b, lo, hi) && SameOutside(b, c, lo', hi') && lo <= lo' && hi' <= hi
    ensures SameOutside(a, c, lo, hi)
  {
  }

  lemma OutsideSame(a: bytes, lo: nat, hi: nat)
    ensures SameOutside(a, a, lo, hi)
  {
  }

  lemma OutsideInside(a: bytes, b: bytes, lo: nat, hi: nat, lo': nat, hi': nat)
    requires SameOutside(a, b, lo, hi) && (hi' <= lo || hi <= lo')
    ensures SameInside(a, b, lo', hi')
  {
  }

  lemma OutsideWider(a: bytes, b: bytes, lo: nat, hi: nat, lo': nat, hi': nat)
    requires SameOutside(a, b, lo, hi) && lo' <= lo && hi <= hi'
    ensures SameOutside(a, b, lo', hi')
  {
  }

  // ----- one field -----

  /** Storing the value of a field that is not null: read_scalar and field_set_present. */
  method Store(f: Field, obj: array<byte>, off: nat, l: Leaf, address: nat)
    requires Storable(f.kind, l)
    requires f.size == StorageSize(f) > 0 && off + f.offset + f.size <= obj.Length
    modifies obj
    ensures SameOutside(old(obj[..]), obj[..], off + f.offset, off + f.offset + f.size)
    ensures At(obj[..], off + ScalarOffset(f), ScalarBytes(f.kind, l, address))
    ensures f.nullable ==> At(obj[..], off + f.offset, [1])
  {
    hide At, SameOutside, Overlay, ScalarBytes;
    var a, s, d := off + f.offset, off + ScalarOffset(f), ScalarBytes(f.kind, l, address);
    ghost var before := obj[..];
    Put(obj, s, d);
    OverlayOutside(before, s, d);
    OutsideWider(before, obj[..], s, s + |d|, a, a + f.size);
    if f.nullable {
      ghost var mid := obj[..];
      Put(obj, a, [1]);
      OverlayOutside(mid, a, [1]);
      AtKept(mid, obj[..], s, d, a, a + 1);
      OutsideTwice(before, mid, obj[..], a, a + f.size, a, a + 1);
    }
  }

  /** read_text_field: the text of a string token, decoded where it stands. */
  method ReadText(js: array<byte>, t: Token, ghost w: Value, ghost wat: nat) returns (l: Option<bytes>)
    requires IsValue(w) && TokenOf(js[..], t, w, wat)
    modifies js
    ensures l == if w.Str? && 0 !in Decoded(w.pieces) then Some(Decoded(w.pieces)) else None
    ensures l.Some? ==> t.start == wat + 1 && At(js[..], wat + 1, Decoded(w.pieces) + [0])
    ensures SameOutside(old(js[..]), js[..], wat, wat + |ValueText(w)|)
  {
    hide At, TokenOf, SameOutside, Overlay, NoNul, Copied, ValueText, StringText, Decoded, CString;
    ghost var before := js[..];
    TokenSpan(before, t, w, wat);
    OutsideSame(before, wat, wat + |ValueText(w)|);
    if t.kind != STR { return None; }
    assert js[t.start..t.end] == before[t.start..t.end];
    Unescaped(before, t, w.pieces);
    var ok := UnescapeInPlace(js, t);
    if !ok { return None; }
    ghost var d := Decoded(w.pieces) + [0];
    OverlayOutside(before, t.start, d);
    OutsideWider(before, js[..], t.start, t.start + |d|, wat, wat + |ValueText(w)|);
    TextThere(js[..], t.start, Decoded(w.pieces));
    return Some(CString(js[..][t.start..]));
  }

  /** read_int_field and the other readers that only look. */
  function Read(kind: FieldKind, js: bytes, t: Token): Option<Leaf>
    requires 0 <= t.start <= t.end <= |js| && !kind.FIELD_OBJECT? && !kind.FIELD_STR?
  {
    if kind.FIELD_BOOL? then
      var r := TokenBool(js, t);
      if r.Some? then Some(Boolean(r.value)) else None
    else
      var r := TokenLong(js, t);
      if r.Some? && (kind.FIELD_INT? ==> -INT_LIMIT <= r.value < INT_LIMIT) then Some(Integer(r.value)) else None
  }

  lemma ReadIs(f: Field, js: bytes, t: Token, w: Value, wat: nat)
    requires IsValue(w) && !IsNull(w) && !f.kind.FIELD_OBJECT? && !f.kind.FIELD_STR? && TokenOf(js, t, w, wat)
    ensures 0 <= t.start <= t.end <= |js| && Read(f.kind, js, t) == RawLeaf(f, w)
  {
    hide TokenOf, TokenLong, TokenBool, IntegerFrom;
    match f.kind
    case FIELD_INT => TokenLongIs(js, t, w, wat, INT_LIMIT);
    case FIELD_LONG => TokenLongIs(js, t, w, wat, LONG_LIMIT); LongRange(js, t);
    case FIELD_BOOL => TokenBoolIs(js, t, w, wat);
  }

  /** read_scalar: what the token says, or None.  Only a string token changes the buffer. */
  method ReadScalar(f: Field, js: array<byte>, t: Token, ghost w: Value, ghost wat: nat) returns (l: Option<Leaf>)
    requires IsValue(w) && !IsNull(w) && !f.kind.FIELD_OBJECT? && TokenOf(js[..], t, w, wat)
    modifies js
    ensures l == RawLeaf(f, w)
    ensures l.Some? && f.kind.FIELD_STR? ==> t.start == wat + 1 && At(js[..], wat + 1, Decoded(w.pieces) + [0])
    ensures SameOutside(old(js[..]), js[..], wat, wat + |ValueText(w)|)
  {
    hide At, TokenOf, SameOutside, IntegerFrom, ValueText, Read, Decoded;
    if f.kind.FIELD_STR? {
      var r := ReadText(js, t, w, wat);
      l := if r.Some? then Some(Text(r.value)) else None;
    } else {
      OutsideSame(js[..], wat, wat + |ValueText(w)|);
      ReadIs(f, js[..], t, w, wat);
      l := Read(f.kind, js[..], t);
    }
  }

  lemma TextThere(js: bytes, at: nat, d: bytes)
    requires At(js, at, d + [0]) && 0 !in d
    ensures at <= |js| && CString(js[at..]) == d
  {
    hide At;
    AtIs(js, at, d + [0]);
    assert js[at..] == js[at..at + |d| + 1] + js[at + |d| + 1..];
    CStringIs(d, js[at + |d| + 1..]);
  }

  lemma LongRange(js: bytes, t: Token)
    requires 0 <= t.start <= t.end <= |js|
    ensures TokenLong(js, t).Some? ==> -LONG_LIMIT <= TokenLong(js, t).value < LONG_LIMIT
  {
    hide DigitsValue, AreDigits;
  }

  /** The branch of json_read_nested for a member of a field that is not a struct, up to field_validate. */
  method ReadLeaf(f: Field, obj: array<byte>, off: nat, js: array<byte>, base: nat, elsewhere: Ram, t: Token,
                  ghost w: Value, ghost wat: nat)
    returns (good: bool)
    requires IsValue(w) && !f.kind.FIELD_OBJECT? && TokenOf(js[..], t, w, wat) && js != obj
    requires f.size == StorageSize(f) > 0 && off + f.offset + f.size <= obj.Length
    requires 0 < base && base + js.Length < ADDRESS_LIMIT
    modifies js, obj
    ensures good <==> LeafFrom(f, w).Some?
    ensures good ==> LeafHeld(f, w, wat, obj[..], off, base, js[..])
    ensures SameOutside(old(js[..]), js[..], wat, wat + |ValueText(w)|)
    ensures SameOutside(old(obj[..]), obj[..], off + f.offset, off + f.offset + f.size)
  {
    hide At, TokenOf, SameOutside, Overlay, NullToken, IntegerFrom, ValueText, StringText, ScalarBytes, Zeros, LeafOf;
    ghost var text, mem := js[..], obj[..];
    OutsideSame(text, wat, wat + |ValueText(w)|);
    OutsideSame(mem, off + f.offset, off + f.offset + f.size);
    NullTokenIs(text, t, w, wat);
    TokenSpan(text, t, w, wat);
    TokenPosition(text, t, w, wat);
    var isNull := NullToken(js[..], t);
    if isNull && (f.notNull || (!f.kind.FIELD_STR? && !f.nullable)) { return false; }
    if isNull {
      Put(obj, off + f.offset, Zeros(f.size));
      OverlayOutside(mem, off + f.offset, Zeros(f.size));
    } else {
      var l := ReadScalar(f, js, t, w, wat);
      if l.None? { return false; }
      RawRange(f, w);
      Store(f, obj, off, l.value, base + t.start);
      SameBytes(f.kind, l.value, base + t.start, base + wat + 1);
    }
    LeafHeldIs(f, w, wat, obj[..], off, base, js[..], elsewhere);
    return LeafValid(f, LeafOf(f, obj[..], off, WithBuffer(base, js[..], elsewhere)));
  }

  lemma SameBytes(kind: FieldKind, l: Leaf, a: nat, b: nat)
    requires Storable(kind, l)
    requires kind.FIELD_STR? ==> a == b
    ensures ScalarBytes(kind, l, a) == ScalarBytes(kind, l, b)
  {
  }

  lemma TokenPosition(js: bytes, t: Token, w: Value, wat: nat)
    requires IsValue(w) && TokenOf(js, t, w, wat)
    ensures wat + 1 <= |js|
  {
    hide At, IsValue, ValueText;
    AtIs(js, wat, ValueText(w));
    TextNotEmpty(w);
  }

  lemma TextNotEmpty(w: Value)
    requires IsValue(w)
    ensures |ValueText(w)| > 0
  {
    hide NumberText, IsNumber;
    if w.Num? { NumberTextLong(w.number); }
  }

  lemma RawRange(f: Field, w: Value)
    requires IsValue(w) && !f.kind.FIELD_OBJECT? && !IsNull(w) && RawLeaf(f, w).Some?
    ensures Storable(f.kind, RawLeaf(f, w).value)
  {
    hide NumberText, NumberInt;
  }
}
