/** A printed struct is a JSON document, and its members are the fields. */
module StructTree {
  import opened Bytes
  import opened JsonGrammar
  import opened JsonMeaning
  import opened JsonPrint
  import opened StructTypes
  import opened StructWriter

  // ----- the document -----

  predicate CanPrint(l: Leaf) { l.Text? ==> ValidUtf8(l.t) && |l.t| <= MAX_TEXT }

  /** Every string is well-formed UTF-8 of at most 1 MiB. */
  predicate AllPrint(t: TypeInfo, v: Val)
    requires Matches(t, v)
  {
    forall i :: 0 <= i < |t.fields| ==>
      if t.fields[i].kind.FIELD_OBJECT? then AllPrint(t.fields[i].kind.nested, v.vals[i]) else CanPrint(v.vals[i].leaf)
  }

  function LeafTree(l: Leaf): Value
    requires CanPrint(l)
  {
    match l
    case Null => Lit(Word.Null)
    case Integer(i) => Num(IntNumber(i))
    case Boolean(b) => Lit(if b then True else False)
    case Text(s) => Str(Pieces(s))
  }

  lemma LeafTreeText(l: Leaf)
    requires CanPrint(l)
    ensures IsValue(LeafTree(l)) && ValueText(LeafTree(l)) == LeafText(l)
  {
    hide NumberText, IsNumber, IntText, Pieces, ValidUtf8, EscapeText;
    match l
    case Null =>
    case Integer(i) => IntNumberText(i);
    case Boolean(b) =>
    case Text(s) => EscapeRoundTrip(s);
  }

  /** Identifiers are printed as they are. */
  lemma {:induction false} IdentifierUtf8(s: bytes)
    requires forall k :: 0 <= k < |s| ==> 0x20 <= s[k] < 0x80
    ensures ValidUtf8(s)
    decreases |s|
  {
    if s != [] { IdentifierUtf8(s[1..]); }
  }

  lemma NamePrints(name: bytes)
    requires IsSafeIdentifier(name)
    ensures ValidUtf8(name) && EscapeText(name) == name && ArePieces(Pieces(name))
    ensures Quoted(Pieces(name)) == [0x22] + name + [0x22] && Decoded(Pieces(name)) == name && 0 !in name
    ensures Name(Pieces(name)) == name
  {
    hide ValidUtf8, EscapeText, Pieces;
    forall k | 0 <= k < |name| ensures 0x20 < name[k] < 0x80 && name[k] != 0x22 && name[k] != 0x5C {}
    IdentifierUtf8(name);
    EscapePlain(name);
    EscapeRoundTrip(name);
  }

  function KeyTree(name: bytes): seq<Piece> { if ValidUtf8(name) then Pieces(name) else [] }

  function Tree(t: TypeInfo, v: Val): Value
    requires Matches(t, v) && AllPrint(t, v)
    decreases t, |t.fields| + 1
  {
    if |t.fields| == 0 then EmptyObject([]) else Object(MembersTree(t, v, 0))
  }

  function MembersTree(t: TypeInfo, v: Val, i: nat): Members
    requires Matches(t, v) && AllPrint(t, v) && i < |t.fields|
    decreases t, |t.fields| - i, 1
  {
    var key := KeyTree(t.fields[i].name);
    if i + 1 == |t.fields| then LastMember([], key, [], [], FieldTree(t, v, i), [])
    else MoreMembers([], key, [], [], FieldTree(t, v, i), [], MembersTree(t, v, i + 1))
  }

  function FieldTree(t: TypeInfo, v: Val, i: nat): Value
    requires Matches(t, v) && AllPrint(t, v) && i < |t.fields|
    decreases t, |t.fields| - i, 0
  {
    if t.fields[i].kind.FIELD_OBJECT? then Tree(t.fields[i].kind.nested, v.vals[i]) else LeafTree(v.vals[i].leaf)
  }

  /** json_write_struct prints a JSON value. */
  lemma {:induction false} TreeText(t: TypeInfo, v: Val)
    requires Shape(t) && Matches(t, v) && AllPrint(t, v)
    ensures IsValue(Tree(t, v)) && ValueText(Tree(t, v)) == StructText(t, v)
    decreases t, |t.fields| + 1
  {
    hide IsSafeIdentifier, FieldsText, MembersText, MembersTree;
    MembersTreeText(t, v, 0);
    assert [0x7B] + (FieldsText(t, v, 0) + [0x7D]) == [0x7B] + FieldsText(t, v, 0) + [0x7D];
  }

  lemma {:induction false} FieldTreeText(t: TypeInfo, v: Val, i: nat)
    requires Shape(t) && Matches(t, v) && AllPrint(t, v) && i < |t.fields|
    ensures IsValue(FieldTree(t, v, i)) && ValueText(FieldTree(t, v, i)) == ValText(t, v, i)
    decreases t, |t.fields| - i, 0
  {
    hide IsSafeIdentifier, LeafTree, LeafText, Tree, StructText, ValueText, IsValue;
    if t.fields[i].kind.FIELD_OBJECT? {
      TreeText(t.fields[i].kind.nested, v.vals[i]);
    } else {
      LeafTreeText(v.vals[i].leaf);
    }
  }

  lemma {:induction false} MembersTreeText(t: TypeInfo, v: Val, i: nat)
    requires Shape(t) && Matches(t, v) && AllPrint(t, v) && i < |t.fields|
    ensures AreMembers(MembersTree(t, v, i))
    ensures (if i > 0 then [0x2C] else []) + MembersText(MembersTree(t, v, i)) == FieldsText(t, v, i) + [0x7D]
    decreases t, |t.fields| - i, 1
  {
    hide IsSafeIdentifier, FieldTree, ValText, ValueText, IsValue, MembersText, Matches, AllPrint, Quoted, ArePieces, FieldsText,
      KeyText, Name;
    var name := t.fields[i].name;
    assert FieldFits(t, t.fields[i]);
    NamePrints(name);
    FieldTreeText(t, v, i);
    var comma: bytes := if i > 0 then [0x2C] else [];
    var m := MembersTree(t, v, i);
    if i + 1 == |t.fields| {
      LastText(m, name);
      LastFields(t, v, i);
      Regroup(comma, KeyText(name), ValText(t, v, i), [], [0x7D]);
    } else {
      MembersTreeText(t, v, i + 1);
      MoreText(m, name);
      MoreFields(t, v, i);
      Regroup(comma, KeyText(name), ValText(t, v, i), FieldsText(t, v, i + 1), [0x7D]);
    }
  }

  lemma Regroup(a: bytes, b: bytes, c: bytes, d: bytes, e: bytes)
    ensures a + (b + c + (d + e)) == a + b + c + d + e
  {
  }

  lemma LastText(m: Members, name: bytes)
    requires m.LastMember? && m.before == [] && m.mid == [] && m.lead == [] && m.after == []
    requires Quoted(m.key) == [0x22] + name + [0x22]
    ensures MembersText(m) == KeyText(name) + ValueText(m.member) + ([] + [0x7D])
  {
    hide Quoted, ValueText;
  }

  lemma MoreText(m: Members, name: bytes)
    requires m.MoreMembers? && m.before == [] && m.mid == [] && m.lead == [] && m.after == []
    requires Quoted(m.key) == [0x22] + name + [0x22]
    ensures MembersText(m) == KeyText(name) + ValueText(m.member) + ([0x2C] + MembersText(m.others))
  {
    hide Quoted, ValueText;
  }

  lemma LastFields(t: TypeInfo, v: Val, i: nat)
    requires Matches(t, v) && i + 1 == |t.fields|
    ensures FieldsText(t, v, i) == (if i > 0 then [0x2C] else []) + KeyText(t.fields[i].name) + ValText(t, v, i) + []
  {
    hide Matches, ValText, KeyText;
  }

  lemma MoreFields(t: TypeInfo, v: Val, i: nat)
    requires Matches(t, v) && i < |t.fields|
    ensures FieldsText(t, v, i)
            == (if i > 0 then [0x2C] else []) + KeyText(t.fields[i].name) + ValText(t, v, i) + FieldsText(t, v, i + 1)
  {
    hide Matches, ValText, KeyText;
  }
}
