/** Printing a struct and reading it back. */
module StructRoundTrip {
  import opened Bytes
  import opened JsonGrammar
  import opened JsonMeaning
  import opened JsonParserProof
  import opened JsonPrint
  import opened JsonPlaces
  import opened StructTypes
  import opened StructWriter
  import opened StructTree
  import opened StructLeaf
  import opened StructRead
  import opened StructReader
  import opened StructBody
  import opened StructMode
  import JsonMachine

  // ----- leaves -----

  /** A value that a field can hold. */
  predicate Conforms(f: Field, l: Leaf) {
    match l
    case Null => f.nullable || f.kind.FIELD_STR?
    case Integer(i) =>
      || (f.kind.FIELD_INT? && -INT_LIMIT <= i < INT_LIMIT)
      || (f.kind.FIELD_LONG? && -LONG_LIMIT <= i < LONG_LIMIT)
    case Boolean(_) => f.kind.FIELD_BOOL?
    case Text(t) => f.kind.FIELD_STR? && 0 !in t
  }

  lemma LeafConforms(f: Field, mem: bytes, off: nat, ram: Ram)
    requires !f.kind.FIELD_OBJECT? && f.size == StorageSize(f) > 0 && off + f.offset + f.size <= |mem| && TextsEnd(ram)
    ensures Conforms(f, LeafOf(f, mem, off, ram))
  {
    hide FromLittleEndian;
    Limits();
    var at := off + ScalarOffset(f);
    if f.kind.FIELD_INT? { FromLittleEndianBound(mem[at..at + 4]); }
    if f.kind.FIELD_LONG? { FromLittleEndianBound(mem[at..at + 8]); }
  }

  lemma {:induction false} DigitsLength(n: nat, k: nat)
    requires n < Pow10(k) && k > 0
    ensures |Digits(n)| <= k
    decreases n
  {
    if n >= 10 { DigitsLength(n / 10, k - 1); }
  }

  /** A printed integer is read back as the same integer. */
  lemma IntegerBack(i: int, limit: int)
    requires 0 < limit <= LONG_LIMIT && -limit <= i < limit
    ensures IsValue(Num(IntNumber(i))) && IntegerFrom(Num(IntNumber(i)), limit) == Some(Integer(i))
  {
    hide Digits, DigitsValue;
    IntNumberText(i);
    var n := if i < 0 then -i else i;
    DigitsBack(n);
    assert Pow10(10) == 10_000_000_000 by { assert Pow10(5) == 100_000; }
    assert Pow10(20) == 100_000_000_000_000_000_000 by { assert Pow10(15) == 1_000_000_000_000_000; }
    DigitsLength(n, 20);
  }

  /** A printed leaf is read back as the same leaf. */
  lemma LeafBack(f: Field, l: Leaf)
    requires !f.kind.FIELD_OBJECT? && Conforms(f, l) && CanPrint(l) && LeafValid(f, l)
    ensures IsValue(LeafTree(l)) && LeafFrom(f, LeafTree(l)) == Some(l)
  {
    hide IntegerFrom, IntNumber, Pieces, ValidUtf8, Decoded;
    LeafTreeText(l);
    match l
    case Null =>
    case Integer(i) => IntegerBack(i, if f.kind.FIELD_INT? then INT_LIMIT else LONG_LIMIT);
    case Boolean(_) =>
    case Text(s) => EscapeRoundTrip(s);
  }

  // ----- the members of a printed struct are its fields -----

  lemma {:induction false} PrintedMember(t: TypeInfo, v: Val, i: nat, j: nat, at: nat)
    requires Shape(t) && CLayout(t) && Matches(t, v) && AllPrint(t, v) && j <= i < |t.fields|
    ensures AreMembers(MembersTree(t, v, j))
    ensures var found := Member(MembersTree(t, v, j), at, t.fields[i].name);
            found.Some? && found.value.value == FieldTree(t, v, i)
    decreases i - j
  {
    hide IsSafeIdentifier, FieldTree, Matches, AllPrint, CLayout, IsValue, ValueText, Name, MembersText, Pieces, ValidUtf8, FieldsText;
    MembersTreeText(t, v, j);
    FieldRoom(t, j);
    NamePrints(t.fields[j].name);
    if j < i {
      SeparateFields(t, i, j);
      PrintedMember(t, v, i, j + 1, MemberStop(at, MembersTree(t, v, j)) + 1);
    }
  }

  lemma {:induction false} PrintedKeys(t: TypeInfo, v: Val, j: nat)
    requires Shape(t) && Matches(t, v) && AllPrint(t, v) && j < |t.fields|
    ensures AreMembers(MembersTree(t, v, j)) && KeysOk(t, MembersTree(t, v, j))
    decreases |t.fields| - j
  {
    hide IsSafeIdentifier, FieldTree, Matches, AllPrint, IsValue, Name, MembersText, Pieces, ValidUtf8, FieldsText, Decoded;
    MembersTreeText(t, v, j);
    FieldRoom(t, j);
    NamePrints(t.fields[j].name);
    assert HasField(t, t.fields[j].name);
    if j + 1 < |t.fields| { PrintedKeys(t, v, j + 1); }
  }

  lemma PrintedField(t: TypeInfo, v: Val, i: nat, at: nat)
    requires Shape(t) && CLayout(t) && Matches(t, v) && AllPrint(t, v) && i < |t.fields|
    ensures IsValue(Tree(t, v)) && IsObject(Tree(t, v)) && Tree(t, v).Object? && KeysOk(t, Tree(t, v).members)
    ensures var found := MemberOf(Tree(t, v), at, t.fields[i].name);
            found.Some? && found.value.value == FieldTree(t, v, i)
  {
    hide IsSafeIdentifier, FieldTree, Matches, AllPrint, CLayout, ValueText, MembersTree, KeysOk, StructText, Member;
    TreeText(t, v);
    PrintedMember(t, v, i, 0, at + 1);
    PrintedKeys(t, v, 0);
  }

  // ----- the reader accepts what the writer prints -----

  /** Every leaf is one its field can hold. */
  predicate AllConform(t: TypeInfo, v: Val)
    requires Matches(t, v)
  {
    forall i :: 0 <= i < |t.fields| ==>
      if t.fields[i].kind.FIELD_OBJECT? then AllConform(t.fields[i].kind.nested, v.vals[i])
      else Conforms(t.fields[i], v.vals[i].leaf)
  }

  lemma {:induction false} ValueConforms(t: TypeInfo, mem: bytes, off: nat, ram: Ram)
    requires Shape(t) && off + t.size <= |mem| && TextsEnd(ram)
    ensures Matches(t, ValueOf(t, mem, off, ram)) && AllConform(t, ValueOf(t, mem, off, ram))
    decreases t
  {
    hide IsSafeIdentifier, LeafOf, Conforms, TextsEnd;
    ValueMatches(t, mem, off, ram);
    var v := ValueOf(t, mem, off, ram);
    forall i | 0 <= i < |t.fields|
      ensures if t.fields[i].kind.FIELD_OBJECT? then AllConform(t.fields[i].kind.nested, v.vals[i])
              else Conforms(t.fields[i], v.vals[i].leaf)
    {
      FieldRoom(t, i);
      assert v.vals[i] == FieldValue(t, i, mem, off, ram);
      if t.fields[i].kind.FIELD_OBJECT? {
        ValueConforms(t.fields[i].kind.nested, mem, off + t.fields[i].offset, ram);
      } else {
        LeafConforms(t.fields[i], mem, off, ram);
      }
    }
  }

  /** A printable value: its strings are UTF-8, its leaves fit their fields, and it passes validation. */
  ghost predicate Good(t: TypeInfo, v: Val, depth: nat, prefix: bytes) {
    Shape(t) && CLayout(t) && Matches(t, v) && AllPrint(t, v) && AllConform(t, v) && Validates(t, v, depth, prefix)
  }

  lemma GoodInside(t: TypeInfo, v: Val, depth: nat, prefix: bytes, i: nat)
    requires Good(t, v, depth, prefix) && i < |t.fields|
    ensures var f, path := t.fields[i], PathTo(prefix, t.fields[i].name);
            && |path| < PATH_SIZE && depth < NEST_DEPTH_MAX
            && if f.kind.FIELD_OBJECT? then Good(f.kind.nested, v.vals[i], depth + 1, path)
               else v.vals[i].Scalar? && Conforms(f, v.vals[i].leaf) && CanPrint(v.vals[i].leaf) && LeafValid(f, v.vals[i].leaf)
  {
    hide IsSafeIdentifier, Conforms, CanPrint, LeafValid, FieldFits, PathTo;
  }

  lemma {:induction false} PrintedAccepted(t: TypeInfo, v: Val, at: nat, depth: nat, prefix: bytes, partial: bool)
    requires Good(t, v, depth, prefix)
    ensures IsValue(Tree(t, v)) && Accepts(t, Tree(t, v), at, depth, prefix, partial)
    decreases t
  {
    hide Tree, FieldTree, LeafFrom, LeafTree, MemberOf, KeysOk, PathTo, IsValue, IsSafeIdentifier, Conforms;
    forall i | 0 <= i < |t.fields|
      ensures IsValue(Tree(t, v)) && FieldAccepts(t, i, Tree(t, v), at, depth, prefix, partial)
    {
      GoodInside(t, v, depth, prefix, i);
      PrintedField(t, v, i, at);
      FieldTreeIs(t, v, i);
      var f := t.fields[i];
      var found := MemberOf(Tree(t, v), at, f.name).value;
      if f.kind.FIELD_OBJECT? {
        PrintedAccepted(f.kind.nested, v.vals[i], found.at, depth + 1, PathTo(prefix, f.name), partial);
      } else {
        LeafBack(f, v.vals[i].leaf);
      }
    }
    GoodInside(t, v, depth, prefix, 0);
    PrintedField(t, v, 0, at);
  }

  lemma FieldTreeIs(t: TypeInfo, v: Val, i: nat)
    requires Matches(t, v) && AllPrint(t, v) && i < |t.fields|
    ensures if t.fields[i].kind.FIELD_OBJECT?
            then Matches(t.fields[i].kind.nested, v.vals[i]) && AllPrint(t.fields[i].kind.nested, v.vals[i])
                 && FieldTree(t, v, i) == Tree(t.fields[i].kind.nested, v.vals[i])
            else v.vals[i].Scalar? && CanPrint(v.vals[i].leaf) && FieldTree(t, v, i) == LeafTree(v.vals[i].leaf)
  {
    hide Tree, LeafTree;
  }

  // ----- and fills the struct with the same value -----

  lemma {:induction false} PrintedFilled(t: TypeInfo, v: Val, at: nat, depth: nat, prefix: bytes, mem0: bytes, mem: bytes, off: nat,
                                         base: nat, js: bytes, elsewhere: Ram)
    requires Good(t, v, depth, prefix) && IsValue(Tree(t, v)) && off + t.size <= |mem| == |mem0|
    requires Filled(t, Tree(t, v), at, mem0, mem, off, base, js)
    requires 0 < base && base + |js| < ADDRESS_LIMIT && at + |ValueText(Tree(t, v))| <= |js|
    ensures ValueOf(t, mem, off, WithBuffer(base, js, elsewhere)) == v
    decreases t
  {
    hide Tree, FieldTree, LeafFrom, LeafTree, MemberOf, KeysOk, PathTo, IsValue, IsSafeIdentifier, Conforms, LeafHeld, LeafOf, ValueText;
    var ram := WithBuffer(base, js, elsewhere);
    forall i | 0 <= i < |t.fields| ensures FieldValue(t, i, mem, off, ram) == v.vals[i] {
      GoodInside(t, v, depth, prefix, i);
      PrintedField(t, v, i, at);
      FieldTreeIs(t, v, i);
      FieldRoom(t, i);
      var f := t.fields[i];
      var found := MemberOf(Tree(t, v), at, f.name).value;
      FoundInside(Tree(t, v), at, f.name);
      assert FieldFilled(t, i, Tree(t, v), at, mem0, mem, off, base, js);
      if f.kind.FIELD_OBJECT? {
        PrintedFilled(f.kind.nested, v.vals[i], found.at, depth + 1, PathTo(prefix, f.name), mem0, mem, off + f.offset, base, js, elsewhere);
      } else {
        LeafBack(f, v.vals[i].leaf);
        RawBack(f, found.value, v.vals[i].leaf);
        LeafHeldIs(f, found.value, found.at, mem, off, base, js, elsewhere);
      }
    }
  }

  lemma RawBack(f: Field, w: Value, l: Leaf)
    requires IsValue(w) && !f.kind.FIELD_OBJECT? && LeafFrom(f, w) == Some(l)
    ensures RawLeaf(f, w) == Some(l)
  {
  }

  // ----- the limits of the parser -----

  predicate ShortNames(t: TypeInfo) {
    forall i :: 0 <= i < |t.fields| ==>
      |t.fields[i].name| < MAX_KEY_BYTES && (t.fields[i].kind.FIELD_OBJECT? ==> ShortNames(t.fields[i].kind.nested))
  }

  /** A printed struct is within every limit but the number of tokens, exactly when its names are short. */
  lemma {:induction false} PrintedLimits(t: TypeInfo, v: Val, levels: nat)
    requires Shape(t) && CLayout(t) && Matches(t, v) && AllPrint(t, v) && Fits(t, levels)
    ensures IsValue(Tree(t, v)) && Depth(Tree(t, v)) <= levels && (ObjectsFit(Tree(t, v)) <==> ShortNames(t))
    decreases t, |t.fields| + 1
  {
    hide IsSafeIdentifier, MembersTree, StructText, Matches, AllPrint, IsValue, Names, ShortKeys, MembersFit, MembersDepth, ValueText, CLayout;
    TreeText(t, v);
    TreeParts(t, v);
    MembersLimits(t, v, 0, levels - 1);
    MembersNames(t, v, 0);
    NamesDistinct(t, Names(MembersTree(t, v, 0)));
  }

  lemma TreeParts(t: TypeInfo, v: Val)
    requires Shape(t) && Matches(t, v) && AllPrint(t, v) && IsValue(Tree(t, v))
    ensures Tree(t, v) == Object(MembersTree(t, v, 0)) && AreMembers(MembersTree(t, v, 0))
  {
    hide IsSafeIdentifier, MembersTree, Matches, AllPrint;
  }

  lemma NamesDistinct(t: TypeInfo, names: seq<bytes>)
    requires CLayout(t) && |names| == |t.fields| && forall k :: 0 <= k < |names| ==> names[k] == t.fields[k].name
    ensures Distinct(names)
  {
    hide CLayout;
    forall i, j | 0 <= i < j < |names| ensures names[i] != names[j] { SeparateFields(t, i, j); }
  }

  lemma {:induction false} MembersNames(t: TypeInfo, v: Val, j: nat)
    requires Shape(t) && Matches(t, v) && AllPrint(t, v) && j < |t.fields|
    ensures var m := MembersTree(t, v, j);
            && AreMembers(m) && |Names(m)| == |t.fields| - j
            && forall k :: 0 <= k < |t.fields| - j ==> Names(m)[k] == t.fields[j + k].name
    decreases |t.fields| - j
  {
    hide IsSafeIdentifier, FieldTree, Matches, AllPrint, IsValue, Name, MembersText, Pieces, ValidUtf8, FieldsText;
    MembersTreeText(t, v, j);
    FieldRoom(t, j);
    NamePrints(t.fields[j].name);
    if j + 1 < |t.fields| { MembersNames(t, v, j + 1); }
  }

  ghost predicate ShortFrom(t: TypeInfo, j: nat) {
    forall k :: j <= k < |t.fields| ==>
      |t.fields[k].name| < MAX_KEY_BYTES && (t.fields[k].kind.FIELD_OBJECT? ==> ShortNames(t.fields[k].kind.nested))
  }

  lemma {:induction false} MembersLimits(t: TypeInfo, v: Val, j: nat, levels: nat)
    requires Shape(t) && CLayout(t) && Matches(t, v) && AllPrint(t, v) && j < |t.fields| && Fits(t, levels + 1)
    ensures var m := MembersTree(t, v, j);
            && AreMembers(m) && MembersDepth(m) <= levels
            && (ShortKeys(m) && MembersFit(m) <==> ShortFrom(t, j))
    decreases t, |t.fields| - j
  {
    hide IsSafeIdentifier, FieldTree, Matches, AllPrint, IsValue, MembersText, Pieces, ValidUtf8, FieldsText, Depth, ObjectsFit, CLayout,
         Shape, Fits, ShortNames;
    MembersTreeText(t, v, j);
    KeyLength(t, j);
    FieldLimits(t, v, j, levels);
    if j + 1 < |t.fields| { MembersLimits(t, v, j + 1, levels); }
  }

  lemma KeyLength(t: TypeInfo, j: nat)
    requires Shape(t) && j < |t.fields|
    ensures |StringText(KeyTree(t.fields[j].name))| == |t.fields[j].name|
  {
    hide IsSafeIdentifier, Pieces, ValidUtf8, StringText;
    FieldRoom(t, j);
    NamePrints(t.fields[j].name);
    QuotedSize(KeyTree(t.fields[j].name));
  }

  lemma QuotedSize(ps: seq<Piece>)
    ensures |Quoted(ps)| == |StringText(ps)| + 2
  {
  }

  lemma {:induction false} FieldLimits(t: TypeInfo, v: Val, j: nat, levels: nat)
    requires Shape(t) && CLayout(t) && Matches(t, v) && AllPrint(t, v) && j < |t.fields| && Fits(t, levels + 1)
    ensures var w := FieldTree(t, v, j);
            && IsValue(w) && Depth(w) <= levels
            && (ObjectsFit(w) <==> (t.fields[j].kind.FIELD_OBJECT? ==> ShortNames(t.fields[j].kind.nested)))
    decreases t, |t.fields| - j, 0
  {
    hide IsSafeIdentifier, ValueText, Tree, ValText, IsValue, ShortNames;
    FieldTreeText(t, v, j);
    FieldTreeIs(t, v, j);
    FieldRoom(t, j);
    if t.fields[j].kind.FIELD_OBJECT? { PrintedLimits(t.fields[j].kind.nested, v.vals[j], levels); }
  }

  // ----- the round trip -----

  /**
   json_write_struct, then json_read_struct on its output.  A valid struct whose strings are UTF-8 of at most 1 MiB
   is printed exactly when there is room, and what was printed is read back to the same value whenever no name has 128
   bytes and the text has at most 256 tokens.
   */
  method PrintThenRead(id: nat, t: TypeInfo, mem: bytes, ram: Ram, out: array<byte>, obj: array<byte>, base: nat, elsewhere: Ram,
                       body: RequestBody)
    returns (printed: bool, ok: bool, js: array<byte>)
    requires TypeValid(t) && Shape(t) && CLayout(t) && t.size <= |mem| && t.size <= obj.Length && TextsEnd(ram)
    requires Matches(t, ValueOf(t, mem, 0, ram)) && AllPrint(t, ValueOf(t, mem, 0, ram))
    requires Validates(t, ValueOf(t, mem, 0, ram), 0, [])
    requires out != obj && 0 < base && base + out.Length < ADDRESS_LIMIT
    modifies out, obj, body, body.reader
    ensures printed <==> |StructText(t, ValueOf(t, mem, 0, ram))| < out.Length
    ensures printed && out.Length <= JsonMachine.INT_MAX && ShortNames(t) && Size(Tree(t, ValueOf(t, mem, 0, ram))) <= JSON_MAX_TOKENS
            ==> ok && ValueOf(t, obj[..], 0, WithBuffer(base, js[..], elsewhere)) == ValueOf(t, mem, 0, ram)
  {
    hide ValueOf, StructText, Matches, AllPrint, Validates, CLayout, TypeValidNested, Shape, TextsEnd, Tree, Describes, Accepts, Filled,
         AllConform, Size, WithinLimits, Entries, ShortNames;
    ghost var v := ValueOf(t, mem, 0, ram);
    var len;
    printed, len := WriteStruct(t, mem, ram, out);
    js := new byte[len](i requires 0 <= i < len reads out => if i < out.Length then out[i] else 0);
    ok := false;
    if printed {
      assert js[..] == out[..len];
      ghost var d := Document([], Tree(t, v), []);
      ValueConforms(t, mem, 0, ram);
      if ShortNames(t) && Size(Tree(t, v)) <= JSON_MAX_TOKENS { Printed(t, v, d); }
      PrintedAccepted(t, v, 0, 0, [], false);
      ghost var before := obj[..];
      ok := body.ReadMode(id, t, obj, js, base, elsewhere, false, d);
      if ShortNames(t) && Size(Tree(t, v)) <= JSON_MAX_TOKENS && out.Length <= JsonMachine.INT_MAX {
        TreeText(t, v);
        PrintedFilled(t, v, 0, 0, [], before, obj[..], 0, base, js[..], elsewhere);
      }
    }
  }

  lemma Printed(t: TypeInfo, v: Val, d: Document)
    requires TypeValid(t) && Shape(t) && CLayout(t) && Matches(t, v) && AllPrint(t, v)
    requires ShortNames(t) && Size(Tree(t, v)) <= JSON_MAX_TOKENS && d == Document([], Tree(t, v), [])
    ensures Describes(d, StructText(t, v), JSON_MAX_TOKENS)
  {
    hide StructText, Matches, AllPrint, CLayout, TypeValidNested, Shape, Fits, Tree, Size, ShortNames, ValueText, IsValue, Depth, ObjectsFit;
    TreeText(t, v);
    TypeValidIs(t, 0, MAX_TYPES);
    PrintedLimits(t, v, NEST_DEPTH_MAX);
    assert [] + ValueText(d.root) + [] == ValueText(d.root);
  }
}
