/** Reading one field of a struct from a JSON value: strtol, the typed readers and the bytes they store. */
module StructLeaf {
  import opened Bytes
  import opened JsonGrammar
  import opened JsonMeaning
  import opened JsonScan
  import opened JsonDecode
  import opened JsonParserProof
  import opened JsonPrint
  import opened JsonUnescape
  import opened JsonPlaces
  import opened StructTypes

  // ----- what a JSON value means for a field -----

  predicate IsWhole(n: Number) { n.frac.None? && n.exp.None? }

  function NumberInt(n: Number): int
    requires IsNumber(n)
  {
    if n.minus then 0 - DigitsValue(n.whole) else DigitsValue(n.whole)
  }

  const MAX_NUMBER := 128

  /** A JSON number that an integer field of the given range takes. */
  function IntegerFrom(w: Value, limit: int): Option<Leaf>
    requires IsValue(w)
  {
    if w.Num? && IsWhole(w.number) && |NumberText(w.number)| < MAX_NUMBER && -limit <= NumberInt(w.number) < limit
    then Some(Integer(NumberInt(w.number))) else None
  }

  predicate IsNull(w: Value) { w.Lit? && w.word.Null? }

  /** The value of field f when its member is w, before the field's rules are looked at. */
  function RawLeaf(f: Field, w: Value): (r: Option<Leaf>)
    requires IsValue(w) && !f.kind.FIELD_OBJECT?
    ensures r.Some? ==> (r.value.Null? <==> IsNull(w))
  {
    if IsNull(w) then (if f.notNull || (!f.kind.FIELD_STR? && !f.nullable) then None else Some(Leaf.Null))
    else
      match f.kind
      case FIELD_INT => IntegerFrom(w, INT_LIMIT)
      case FIELD_LONG => IntegerFrom(w, LONG_LIMIT)
      case FIELD_BOOL => if w.Lit? then Some(Boolean(w.word.True?)) else None
      case FIELD_STR => if w.Str? && 0 !in Decoded(w.pieces) then Some(Text(Decoded(w.pieces))) else None
  }

  /** The value of field f when its member is w; None when w is refused. */
  function LeafFrom(f: Field, w: Value): Option<Leaf>
    requires IsValue(w) && !f.kind.FIELD_OBJECT?
  {
    var l := RawLeaf(f, w);
    if l.Some? && LeafValid(f, l.value) then l else None
  }

  // ----- strtol -----

  predicate IsBlank(c: byte) { c == 0x20 || 0x09 <= c <= 0x0D }

  function SkipBlanks(s: bytes): bytes { if s != [] && IsBlank(s[0]) then SkipBlanks(s[1..]) else s }

  /** The value of a text that strtol reads to its end; None when it does not, or when the value is out of range. */
  function Strtol(text: bytes): Option<int> {
    var s := SkipBlanks(text);
    var signed := s != [] && (s[0] == 0x2D || s[0] == 0x2B);
    var digits := if signed then s[1..] else s;
    if digits == [] || !AreDigits(digits) then None
    else
      var v := if signed && s[0] == 0x2D then 0 - DigitsValue(digits) else DigitsValue(digits);
      if LONG_MIN <= v <= LONG_MAX then Some(v) else None
  }

  /** json_token_long_checked. */
  function TokenLong(js: bytes, t: Token): Option<int>
    requires 0 <= t.start <= t.end <= |js|
  {
    if t.kind != PRIM || t.end <= t.start || t.end - t.start >= MAX_NUMBER then None else Strtol(js[t.start..t.end])
  }

  lemma {:induction false} NotAllDigits(a: bytes, c: byte, b: bytes)
    requires !IsDigit(c)
    ensures !AreDigits(a + [c] + b)
  {
    assert (a + [c] + b)[|a|] == c;
  }

  lemma StrtolSigned(minus: bool, rest: bytes)
    requires rest != [] && IsDigit(rest[0])
    ensures Strtol((if minus then [0x2D] else []) + rest) ==
            if !AreDigits(rest) then None
            else
              var v := if minus then 0 - DigitsValue(rest) else DigitsValue(rest);
              if LONG_MIN <= v <= LONG_MAX then Some(v) else None
  {
    hide DigitsValue, AreDigits;
    var text := (if minus then [0x2D] else []) + rest;
    assert SkipBlanks(text) == text;
    assert (if minus then text[1..] else text) == rest;
  }

  /** A number without its sign. */
  function Magnitude(n: Number): bytes { n.whole + FracText(n) + ExpText(n) }

  lemma SignAndMagnitude(n: Number)
    ensures NumberText(n) == (if n.minus then [0x2D] else []) + Magnitude(n)
  {
    hide FracText, ExpText;
  }

  lemma WholeDigits(n: Number)
    requires IsNumber(n)
    ensures Magnitude(n) != [] && Magnitude(n)[0] == n.whole[0] && IsDigit(n.whole[0])
    ensures (AreDigits(Magnitude(n)) <==> IsWhole(n)) && (IsWhole(n) ==> Magnitude(n) == n.whole)
  {
    hide IsNumber, AreDigits, Magnitude, ExpText;
    NumberStarts(n);
    if n.frac.Some? {
      FracMagnitude(n);
      NotAllDigits(n.whole, 0x2E, n.frac.value + ExpText(n));
    } else if n.exp.Some? {
      ExpMagnitude(n);
      NotAllDigits(n.whole, n.exp.value.e, n.exp.value.sign + n.exp.value.digits);
    } else {
      WholeMagnitude(n);
    }
  }

  lemma FracMagnitude(n: Number)
    requires n.frac.Some?
    ensures Magnitude(n) == n.whole + [0x2E] + (n.frac.value + ExpText(n))
  {
    hide ExpText;
  }

  lemma ExpMagnitude(n: Number)
    requires n.frac.None? && n.exp.Some?
    ensures Magnitude(n) == n.whole + [n.exp.value.e] + (n.exp.value.sign + n.exp.value.digits)
  {
  }

  lemma WholeMagnitude(n: Number)
    requires IsWhole(n)
    ensures Magnitude(n) == n.whole
  {
  }

  /** On a JSON number strtol succeeds exactly on the integers in range. */
  lemma StrtolNumber(n: Number)
    requires IsNumber(n)
    ensures Strtol(NumberText(n)) ==
            if IsWhole(n) && LONG_MIN <= NumberInt(n) <= LONG_MAX then Some(NumberInt(n)) else None
  {
    hide IsNumber, DigitsValue, AreDigits, Strtol, NumberText, Magnitude;
    WholeDigits(n);
    SignAndMagnitude(n);
    StrtolSigned(n.minus, Magnitude(n));
  }

  lemma NumberStarts(n: Number)
    requires IsNumber(n)
    ensures n.whole != [] && IsDigit(n.whole[0]) && AreDigits(n.whole) && (n.exp.Some? ==> !IsDigit(n.exp.value.e))
  {
  }

  lemma StrtolWord(w: Word)
    ensures Strtol(WordText(w)).None?
  {
    var s := WordText(w);
    assert SkipBlanks(s) == s;
    assert !IsDigit(s[0]);
  }

  // ----- tokens of single values -----

  /** The token of w has its kind and its text. */
  ghost predicate TokenOf(js: bytes, t: Token, w: Value, at: nat) {
    && t == Tokens(w, at, t.parent, 0)[0] && At(js, at, ValueText(w))
  }

  lemma TokenSpan(js: bytes, t: Token, w: Value, at: nat)
    requires TokenOf(js, t, w, at)
    ensures 0 <= t.start <= t.end <= |js| && (t.kind == STR <==> w.Str?) && (t.kind == PRIM <==> w.Num? || w.Lit?)
    ensures t.kind == PRIM ==> js[t.start..t.end] == ValueText(w) && t.start == at && t.end == at + |ValueText(w)|
    ensures t.kind == STR ==>
              t.start == at + 1 && t.end == at + 1 + |StringText(w.pieces)| < |js| && At(js, t.start, StringText(w.pieces))
              && at + |ValueText(w)| == t.end + 1
  {
    hide At, NumberText, StringText, MembersText, ItemsText;
    AtIs(js, at, ValueText(w));
    if w.Str? {
      AtConcat(js, at, [0x22] + StringText(w.pieces), [0x22]);
      AtConcat(js, at, [0x22], StringText(w.pieces));
    }
  }

  lemma TokenLongIs(js: bytes, t: Token, w: Value, at: nat, limit: int)
    requires IsValue(w) && TokenOf(js, t, w, at) && 0 < limit <= LONG_LIMIT
    ensures 0 <= t.start <= t.end <= |js|
    ensures var r := TokenLong(js, t);
            IntegerFrom(w, limit) == if r.Some? && -limit <= r.value < limit then Some(Integer(r.value)) else None
  {
    hide TokenOf, Strtol, NumberText, NumberInt, IsNumber;
    TokenSpan(js, t, w, at);
    if w.Num? {
      StrtolNumber(w.number);
      NumberStarts(w.number);
      NumberTextLong(w.number);
    }
    if w.Lit? { StrtolWord(w.word); }
  }

  lemma NumberTextLong(n: Number)
    requires IsNumber(n)
    ensures |NumberText(n)| > 0
  {
  }

  /** The test for null: a primitive of four bytes that spell it. */
  predicate NullToken(js: bytes, t: Token)
    requires 0 <= t.start <= t.end <= |js|
  {
    t.kind == PRIM && t.end - t.start == 4 && js[t.start..t.end] == NULL
  }

  lemma NullTokenIs(js: bytes, t: Token, w: Value, at: nat)
    requires IsValue(w) && TokenOf(js, t, w, at)
    ensures 0 <= t.start <= t.end <= |js| && (NullToken(js, t) <==> IsNull(w))
  {
    hide TokenOf, IsNumber;
    TokenSpan(js, t, w, at);
    if w.Num? {
      NumberStarts(w.number);
      NumberFirst(w.number);
    }
  }

  lemma NumberFirst(n: Number)
    requires IsNumber(n)
    ensures |NumberText(n)| > 0 && NumberText(n)[0] != 0x6E
  {
  }

  /** json_token_bool_checked. */
  function TokenBool(js: bytes, t: Token): Option<bool>
    requires 0 <= t.start <= t.end <= |js|
  {
    if t.kind != PRIM then None
    else if js[t.start..t.end] == TRUE then Some(true)
    else if js[t.start..t.end] == FALSE then Some(false)
    else None
  }

  lemma TokenBoolIs(js: bytes, t: Token, w: Value, at: nat)
    requires IsValue(w) && TokenOf(js, t, w, at) && !IsNull(w)
    ensures 0 <= t.start <= t.end <= |js|
    ensures TokenBool(js, t) == if w.Lit? then Some(w.word.True?) else None
  {
    hide TokenOf, IsNumber;
    TokenSpan(js, t, w, at);
    if w.Num? { NumberNotWord(w.number); }
  }

  lemma NumberNotWord(n: Number)
    requires IsNumber(n)
    ensures NumberText(n) != TRUE && NumberText(n) != FALSE
  {
    assert NumberText(n)[0] == 0x2D || IsDigit(NumberText(n)[0]);
  }

  // ----- storing -----

  function Zeros(n: nat): (z: bytes)
    ensures |z| == n && forall k :: 0 <= k < n ==> z[k] == 0
  {
    seq(n, _ => 0)
  }

  const ADDRESS_LIMIT := 0x1_0000_0000_0000_0000

  predicate Storable(kind: FieldKind, l: Leaf) {
    match kind
    case FIELD_INT => l.Integer? && -INT_LIMIT <= l.i < INT_LIMIT
    case FIELD_LONG => l.Integer? && -LONG_LIMIT <= l.i < LONG_LIMIT
    case FIELD_BOOL => l.Boolean?
    case FIELD_STR => l.Text?
    case FIELD_OBJECT(_) => false
  }

  /** The bytes a reader stores for a value; a string is stored as its address. */
  function ScalarBytes(kind: FieldKind, l: Leaf, address: nat): (b: bytes)
    requires Storable(kind, l)
    ensures |b| == Width(kind)
  {
    match kind
    case FIELD_INT => LittleEndian(Unsigned(l.i, INT_LIMIT), 4)
    case FIELD_LONG => LittleEndian(Unsigned(l.i, LONG_LIMIT), 8)
    case FIELD_BOOL => [if l.b then 1 else 0]
    case FIELD_STR => LittleEndian(address, 8)
  }

  /** The field's bytes hold w: zeros for null, and else the value, the has_value byte and the decoded text. */
  ghost predicate LeafHeld(f: Field, w: Value, wat: nat, mem: bytes, off: nat, base: nat, js: bytes)
    requires IsValue(w) && !f.kind.FIELD_OBJECT? && f.size == StorageSize(f) && off + f.offset + f.size <= |mem|
  {
    var l := RawLeaf(f, w);
    && l.Some?
    && if l.value.Null? then At(mem, off + f.offset, Zeros(f.size))
       else
         && At(mem, off + ScalarOffset(f), ScalarBytes(f.kind, l.value, base + wat + 1))
         && (f.nullable ==> At(mem, off + f.offset, [1]))
         && (f.kind.FIELD_STR? ==> At(js, wat + 1, Decoded(w.pieces) + [0]))
  }

  lemma {:induction false} ZerosValue(n: nat)
    ensures FromLittleEndian(Zeros(n)) == 0
    decreases n
  {
    if n > 0 {
      ZerosValue(n - 1);
      assert Zeros(n)[1..] == Zeros(n - 1);
    }
  }

  lemma {:induction false} CStringIs(d: bytes, rest: bytes)
    requires 0 !in d
    ensures CString(d + [0] + rest) == d
    decreases |d|
  {
    var s := d + [0] + rest;
    if d == [] {
      assert s[0] == 0;
    } else {
      assert s[1..] == d[1..] + [0] + rest && s[0] == d[0];
      CStringIs(d[1..], rest);
    }
  }

  lemma TextHeld(js: bytes, at: nat, d: bytes, base: nat, elsewhere: Ram)
    requires At(js, at, d + [0]) && 0 !in d
    ensures WithBuffer(base, js, elsewhere)(base + at) == d
  {
    hide At;
    AtIs(js, at, d + [0]);
    var s := js[at..];
    assert s == js[at..at + |d| + 1] + js[at + |d| + 1..];
    CStringIs(d, js[at + |d| + 1..]);
  }

  lemma StoredBack(kind: FieldKind, l: Leaf, address: nat, mem: bytes, at: nat, ram: Ram)
    requires Storable(kind, l)
    requires At(mem, at, ScalarBytes(kind, l, address)) && 0 < address < ADDRESS_LIMIT
    requires kind.FIELD_STR? ==> ram(address) == l.t
    ensures at + Width(kind) <= |mem| && ScalarAt(kind, mem, at, ram) == l
  {
    hide At, LittleEndian, FromLittleEndian;
    Limits();
    AtIs(mem, at, ScalarBytes(kind, l, address));
    match kind
    case FIELD_INT => LittleEndianBack(Unsigned(l.i, INT_LIMIT), 4);
    case FIELD_LONG => LittleEndianBack(Unsigned(l.i, LONG_LIMIT), 8);
    case FIELD_BOOL => AtIndex(mem, at, ScalarBytes(kind, l, address), 0);
    case FIELD_STR => LittleEndianBack(address, 8);
  }

  /** A field that holds w has w's value. */
  lemma LeafHeldIs(f: Field, w: Value, wat: nat, mem: bytes, off: nat, base: nat, js: bytes, elsewhere: Ram)
    requires IsValue(w) && !f.kind.FIELD_OBJECT? && f.size == StorageSize(f) > 0 && off + f.offset + f.size <= |mem|
    requires LeafHeld(f, w, wat, mem, off, base, js) && 0 < base && base + wat + 1 < ADDRESS_LIMIT
    ensures LeafOf(f, mem, off, WithBuffer(base, js, elsewhere)) == RawLeaf(f, w).value
  {
    hide At, LittleEndian, FromLittleEndian, ScalarBytes, WithBuffer, ScalarAt, Zeros, Decoded;
    var l := RawLeaf(f, w).value;
    var a := off + f.offset;
    if l.Null? {
      NullHeld(f, mem, off, WithBuffer(base, js, elsewhere));
    } else {
      if f.nullable { AtIndex(mem, a, [1], 0); }
      if f.kind.FIELD_STR? { TextHeld(js, wat + 1, Decoded(w.pieces), base, elsewhere); }
      StoredBack(f.kind, l, base + wat + 1, mem, off + ScalarOffset(f), WithBuffer(base, js, elsewhere));
    }
  }

  lemma NullHeld(f: Field, mem: bytes, off: nat, ram: Ram)
    requires !f.kind.FIELD_OBJECT? && f.size == StorageSize(f) > 0 && (f.kind.FIELD_STR? || f.nullable)
    requires At(mem, off + f.offset, Zeros(f.size))
    ensures off + f.offset + f.size <= |mem| && LeafOf(f, mem, off, ram) == Leaf.Null
  {
    hide At, FromLittleEndian;
    var a := off + f.offset;
    AtIs(mem, a, Zeros(f.size));
    if f.nullable {
      AtIndex(mem, a, Zeros(f.size), 0);
    } else {
      ZerosValue(8);
    }
  }
}
