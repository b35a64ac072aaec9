/** json_write_struct: what it prints, and the JSON document that text is. */
module StructWriter {
  import opened Bytes
  import opened JsonGrammar
  import opened JsonMeaning
  import opened JsonPrint
  import opened StructTypes

  // ----- the text -----

  function LeafText(l: Leaf): bytes {
    match l
    case Null => NULL
    case Integer(i) => IntText(i)
    case Boolean(b) => if b then TRUE else FALSE
    case Text(s) => [0x22] + EscapeText(Printable(s)) + [0x22]
  }

  /** v has a value for every field of t. */
  predicate Matches(t: TypeInfo, v: Val) {
    && v.Struct? && |v.vals| == |t.fields|
    && forall i :: 0 <= i < |t.fields| ==>
         if t.fields[i].kind.FIELD_OBJECT? then Matches(t.fields[i].kind.nested, v.vals[i]) else v.vals[i].Scalar?
  }

  function StructText(t: TypeInfo, v: Val): bytes
    requires Matches(t, v)
    decreases t, |t.fields| + 1
  {
    [0x7B] + FieldsText(t, v, 0) + [0x7D]
  }

  function FieldsText(t: TypeInfo, v: Val, i: nat): bytes
    requires Matches(t, v)
    decreases t, |t.fields| - i, 1
  {
    if i >= |t.fields| then []
    else (if i > 0 then [0x2C] else []) + KeyText(t.fields[i].name) + ValText(t, v, i) + FieldsText(t, v, i + 1)
  }

  function KeyText(name: bytes): bytes { [0x22] + name + [0x22, 0x3A] }

  function ValText(t: TypeInfo, v: Val, i: nat): bytes
    requires Matches(t, v) && i < |t.fields|
    decreases t, |t.fields| - i, 0
  {
    if t.fields[i].kind.FIELD_OBJECT? then StructText(t.fields[i].kind.nested, v.vals[i]) else LeafText(v.vals[i].leaf)
  }

  lemma {:induction false} ValueMatches(t: TypeInfo, mem: bytes, off: nat, ram: Ram)
    requires Shape(t) && off + t.size <= |mem|
    ensures Matches(t, ValueOf(t, mem, off, ram))
    decreases t
  {
    hide IsSafeIdentifier, LeafOf;
    var v := ValueOf(t, mem, off, ram);
    forall i | 0 <= i < |t.fields|
      ensures if t.fields[i].kind.FIELD_OBJECT? then Matches(t.fields[i].kind.nested, v.vals[i]) else v.vals[i].Scalar?
    {
      assert FieldFits(t, t.fields[i]) && v.vals[i] == FieldValue(t, i, mem, off, ram);
      if t.fields[i].kind.FIELD_OBJECT? {
        ValueMatches(t.fields[i].kind.nested, mem, off + t.fields[i].offset, ram);
      }
    }
  }

  // ----- the writer -----

  lemma {:induction false} FromLittleEndianBound(s: bytes)
    ensures FromLittleEndian(s) < Pow256(|s|)
    decreases |s|
  {
    if s != [] { FromLittleEndianBound(s[1..]); }
  }

  /** An integer in memory fits a long. */
  lemma LongEnough(f: Field, mem: bytes, off: nat, ram: Ram)
    requires !f.kind.FIELD_OBJECT? && f.size == StorageSize(f) > 0 && off + f.offset + f.size <= |mem|
    ensures var l := LeafOf(f, mem, off, ram); l.Integer? ==> LONG_MIN <= l.i <= LONG_MAX
  {
    hide FromLittleEndian;
    Limits();
    var at := off + ScalarOffset(f);
    if f.kind.FIELD_INT? { FromLittleEndianBound(mem[at..at + 4]); }
    if f.kind.FIELD_LONG? { FromLittleEndianBound(mem[at..at + 8]); }
  }

  /** C strings have no NUL in them. */
  ghost predicate TextsEnd(ram: Ram) { forall p: nat :: 0 !in ram(p) }

  lemma TextEnds(f: Field, mem: bytes, off: nat, ram: Ram)
    requires !f.kind.FIELD_OBJECT? && f.size == StorageSize(f) > 0 && off + f.offset + f.size <= |mem| && TextsEnd(ram)
    ensures var l := LeafOf(f, mem, off, ram); l.Text? ==> 0 !in l.t
  {
    hide FromLittleEndian;
  }

  /** json_write_scalar. */
  method WriteScalar(f: Field, mem: bytes, off: nat, ram: Ram, sink: Sink)
    requires !f.kind.FIELD_OBJECT? && f.size == StorageSize(f) > 0 && off + f.offset + f.size <= |mem|
    requires TextsEnd(ram) && sink.Valid()
    modifies sink, sink.buf
    ensures sink.Valid() && Grew(sink.buf.Length, old(sink.State()), sink.State(), LeafText(LeafOf(f, mem, off, ram)))
  {
    hide Grew, EscapeText, LeafOf, TextsEnd;
    var l := LeafOf(f, mem, off, ram);
    LongEnough(f, mem, off, ram);
    TextEnds(f, mem, off, ram);
    ghost var was := sink.State();
    match l {
      case Null => sink.AddBytes(NULL);
      case Integer(i) => sink.AddInt(i);
      case Boolean(b) => sink.AddBytes(if b then TRUE else FALSE);
      case Text(s) =>
        sink.AddBytes([0x22]);
        ghost var open := sink.State();
        sink.AddEscaped(s);
        ghost var full := sink.State();
        GrewTwice(sink.buf.Length, was, open, full, [0x22], EscapeText(Printable(s)));
        sink.AddBytes([0x22]);
        GrewTwice(sink.buf.Length, was, full, sink.State(), [0x22] + EscapeText(Printable(s)), [0x22]);
    }
  }

  lemma GrewOver(cap: nat, x: Held, y: Held, a: bytes, b: bytes)
    requires Grew(cap, x, y, a) && y.overflow
    ensures Grew(cap, x, y, a + b)
  {
  }

  lemma FieldsTextStep(t: TypeInfo, v: Val, i: nat, done: bytes)
    requires Matches(t, v) && i < |t.fields|
    ensures done + FieldsText(t, v, i)
            == done + (if i > 0 then [0x2C] else []) + KeyText(t.fields[i].name) + ValText(t, v, i) + FieldsText(t, v, i + 1)
  {
    hide Matches, ValText, KeyText;
  }

  /** The comma and the key before a field. */
  method WriteKey(name: bytes, first: bool, sink: Sink, ghost was: Held, ghost done: bytes) returns (ghost done': bytes)
    requires sink.Valid() && Grew(sink.buf.Length, was, sink.State(), done)
    modifies sink, sink.buf
    ensures sink.Valid() && Grew(sink.buf.Length, was, sink.State(), done')
    ensures done' == done + (if first then [] else [0x2C]) + KeyText(name)
  {
    hide Grew;
    done' := done;
    if !first {
      ghost var a := sink.State();
      sink.AddBytes([0x2C]);
      GrewTwice(sink.buf.Length, was, a, sink.State(), done', [0x2C]);
      done' := done' + [0x2C];
    }
    ghost var a := sink.State();
    sink.AddBytes([0x22]);
    GrewTwice(sink.buf.Length, was, a, sink.State(), done', [0x22]);
    done' := done' + [0x22];
    a := sink.State();
    sink.AddBytes(name);
    GrewTwice(sink.buf.Length, was, a, sink.State(), done', name);
    done' := done' + name;
    a := sink.State();
    sink.AddBytes([0x22, 0x3A]);
    GrewTwice(sink.buf.Length, was, a, sink.State(), done', [0x22, 0x3A]);
    done' := done' + [0x22, 0x3A];
  }

  /** json_write_nested: the whole text, or a report that it did not fit.  The depth guard does not fire on a valid type. */
  method WriteNested(t: TypeInfo, mem: bytes, off: nat, ram: Ram, sink: Sink, depth: nat) returns (ok: bool)
    requires Shape(t) && off + t.size <= |mem| && depth <= NEST_DEPTH_MAX && TextsEnd(ram) && sink.Valid()
    modifies sink, sink.buf
    ensures sink.Valid() && Matches(t, ValueOf(t, mem, off, ram))
    ensures ok ==> !sink.overflow && sink.buf[sink.len] == 0
    ensures Fits(t, NEST_DEPTH_MAX - depth) ==>
              ok == !sink.overflow &&
              Grew(sink.buf.Length, old(sink.State()), sink.State(), StructText(t, ValueOf(t, mem, off, ram)))
    decreases t
  {
    hide Grew, TextsEnd, KeyText, LeafText, LeafOf, IsSafeIdentifier, FieldsText, Matches;
    ValueMatches(t, mem, off, ram);
    ghost var v := ValueOf(t, mem, off, ram);
    if depth >= NEST_DEPTH_MAX { return false; }
    ghost var was := sink.State();
    sink.AddBytes([0x7B]);
    ghost var done: bytes := [0x7B];
    ghost var all := [0x7B] + FieldsText(t, v, 0);
    var i := 0;
    while i < |t.fields| && !sink.overflow
      invariant 0 <= i <= |t.fields| && sink.Valid()
      invariant Fits(t, NEST_DEPTH_MAX - depth) ==>
                  Grew(sink.buf.Length, was, sink.State(), done) && done + FieldsText(t, v, i) == all
    {
      var f := t.fields[i];
      assert FieldFits(t, f);
      ghost var fits := Fits(t, NEST_DEPTH_MAX - depth);
      FieldsTextStep(t, v, i, done);
      ghost var before := if fits then done else [];
      ghost var base := if fits then was else sink.State();
      if !fits { GrewNone(sink.buf.Length, base); }
      ghost var keyed := WriteKey(f.name, i == 0, sink, base, before);
      ghost var mid := sink.State();
      var rc := true;
      ghost var text := ValText(t, v, i);
      if f.kind.FIELD_OBJECT? {
        rc := WriteNested(f.kind.nested, mem, off + f.offset, ram, sink, depth + 1);
      } else {
        WriteScalar(f, mem, off, ram, sink);
      }
      if fits {
        GrewTwice(sink.buf.Length, base, mid, sink.State(), keyed, text);
        done := keyed + text;
      }
      if !rc {
        if fits { Stopped(sink.buf.Length, was, sink.State(), t, v, i + 1, done, all); }
        return false;
      }
      i := i + 1;
    }
    ghost var mid := sink.State();
    sink.AddBytes([0x7D]);
    if Fits(t, NEST_DEPTH_MAX - depth) {
      if mid.overflow { GrewOver(sink.buf.Length, was, mid, done, FieldsText(t, v, i)); } else { FieldsTextEnd(t, v); }
      assert done + [] == done;
      GrewTwice(sink.buf.Length, was, mid, sink.State(), all, [0x7D]);
    }
    return !sink.overflow;
  }

  lemma FieldsTextEnd(t: TypeInfo, v: Val)
    requires Matches(t, v)
    ensures FieldsText(t, v, |t.fields|) == []
  {
  }

  lemma Stopped(cap: nat, was: Held, now: Held, t: TypeInfo, v: Val, i: nat, done: bytes, all: bytes)
    requires Grew(cap, was, now, done) && now.overflow && Matches(t, v) && done + FieldsText(t, v, i) == all
    ensures Grew(cap, was, now, all + [0x7D])
  {
    hide Grew;
    GrewOver(cap, was, now, done, FieldsText(t, v, i));
    GrewOver(cap, was, now, all, [0x7D]);
  }

  /** json_write_struct: the whole text, ended by a NUL, or the empty string. */
  method WriteStruct(t: TypeInfo, mem: bytes, ram: Ram, out: array<byte>) returns (ok: bool, len: nat)
    requires t.size <= |mem| && TextsEnd(ram)
    modifies out
    ensures TypeValid(t) ==>
              && Shape(t) && Matches(t, ValueOf(t, mem, 0, ram))
              && (ok <==> |StructText(t, ValueOf(t, mem, 0, ram))| < out.Length)
    ensures ok ==> TypeValid(t) && len < out.Length && out[len] == 0 && out[..len] == StructText(t, ValueOf(t, mem, 0, ram))
    ensures !ok && out.Length > 0 ==> out[0] == 0
  {
    hide StructText, ValueOf, Shape, Fits, TypeValidNested, Grew, TextsEnd;
    len := 0;
    TypeValidIs(t, 0, MAX_TYPES);
    if TypeValid(t) { ValueMatches(t, mem, 0, ram); }
    if out.Length == 0 { return false, 0; }
    out[0] := 0;
    if !TypeValid(t) { return false, 0; }
    var sink := new Sink(out);
    ok := WriteNested(t, mem, 0, ram, sink, 0);
    GrewFirst(out.Length, sink.State(), StructText(t, ValueOf(t, mem, 0, ram)));
    if ok {
      len := sink.len;
    } else {
      out[0] := 0;
    }
  }

  lemma GrewFirst(cap: nat, y: Held, t: bytes)
    requires Grew(cap, Held([], false), y, t)
    ensures (y.overflow <==> |t| >= cap) && (!y.overflow ==> y.text == t)
  {
    assert [] + t == t;
  }
}
