/**
 The JSON texts of RFC 8259, as concrete syntax trees.

 A tree keeps every byte of its text: white space, the way each character of a
 string is written, the parts of a number.  `Text` flattens a tree, and a text is
 in the grammar exactly when it is the text of a well-formed tree.  Nothing here
 mentions a parser.
 */
module JsonGrammar {
  import opened Bytes

  // ----- characters -----

  predicate IsSpace(c: byte) { c == 0x20 || c == 0x09 || c == 0x0D || c == 0x0A }

  predicate IsHex(c: byte) { IsDigit(c) || 0x61 <= c <= 0x66 || 0x41 <= c <= 0x46 }

  function HexValue(c: byte): (v: nat)
    requires IsHex(c)
    ensures v < 16
  {
    if IsDigit(c) then c - 0x30 else if 0x61 <= c then c - 0x61 + 10 else c - 0x41 + 10
  }

  predicate IsHex4(h: bytes) { |h| == 4 && forall k :: 0 <= k < 4 ==> IsHex(h[k]) }

  function Hex4Value(h: bytes): (v: nat)
    requires IsHex4(h)
    ensures v < 0x10000
  {
    HexValue(h[0]) * 0x1000 + HexValue(h[1]) * 0x100 + HexValue(h[2]) * 0x10 + HexValue(h[3])
  }

  predicate IsHighSurrogate(v: int) { 0xD800 <= v <= 0xDBFF }
  predicate IsLowSurrogate(v: int) { 0xDC00 <= v <= 0xDFFF }

  /** The characters that may follow a reverse solidus, apart from 'u' (section 7). */
  predicate IsShortEscape(c: byte) {
    c == 0x22 || c == 0x5C || c == 0x2F || c == 0x62 || c == 0x66 || c == 0x6E || c == 0x72 || c == 0x74
  }

  predicate IsTail(c: byte) { 0x80 <= c <= 0xBF }

  /** UTF8-2, UTF8-3 and UTF8-4 of section 4 of RFC 3629. */
  predicate IsMultibyte(u: bytes) {
    || (|u| == 2 && 0xC2 <= u[0] <= 0xDF && IsTail(u[1]))
    || (|u| == 3 && IsTail(u[2]) &&
        (|| (u[0] == 0xE0 && 0xA0 <= u[1] <= 0xBF)
         || (0xE1 <= u[0] <= 0xEC && IsTail(u[1]))
         || (u[0] == 0xED && 0x80 <= u[1] <= 0x9F)
         || (0xEE <= u[0] <= 0xEF && IsTail(u[1]))))
    || (|u| == 4 && IsTail(u[2]) && IsTail(u[3]) &&
        (|| (u[0] == 0xF0 && 0x90 <= u[1] <= 0xBF)
         || (0xF1 <= u[0] <= 0xF3 && IsTail(u[1]))
         || (u[0] == 0xF4 && 0x80 <= u[1] <= 0x8F)))
  }

  // ----- strings (section 7) -----

  /** One character of a string, as written. */
  datatype Piece =
    | Plain(b: byte)                  // an unescaped ASCII character
    | Multi(u: bytes)                 // an unescaped character outside ASCII
    | Short(c: byte)                  // \n, \" and the like
    | Unicode(h: bytes)               // \uXXXX outside the surrogates
    | Surrogates(hi: bytes, lo: bytes) // \uD8XX\uDCXX

  predicate IsPiece(p: Piece) {
    match p
    case Plain(b) => 0x20 <= b < 0x80 && b != 0x22 && b != 0x5C
    case Multi(u) => IsMultibyte(u)
    case Short(c) => IsShortEscape(c)
    case Unicode(h) => IsHex4(h) && !IsHighSurrogate(Hex4Value(h)) && !IsLowSurrogate(Hex4Value(h))
    case Surrogates(hi, lo) =>
      IsHex4(hi) && IsHex4(lo) && IsHighSurrogate(Hex4Value(hi)) && IsLowSurrogate(Hex4Value(lo))
  }

  function PieceText(p: Piece): bytes {
    match p
    case Plain(b) => [b]
    case Multi(u) => u
    case Short(c) => [0x5C, c]
    case Unicode(h) => [0x5C, 0x75] + h
    case Surrogates(hi, lo) => [0x5C, 0x75] + hi + [0x5C, 0x75] + lo
  }

  predicate ArePieces(ps: seq<Piece>) { forall k :: 0 <= k < |ps| ==> IsPiece(ps[k]) }

  /** What stands between the quotation marks. */
  function StringText(ps: seq<Piece>): bytes {
    if ps == [] then [] else PieceText(ps[0]) + StringText(ps[1..])
  }

  // ----- numbers (section 6) -----

  datatype Exponent = Exponent(e: byte, sign: bytes, digits: bytes)
  datatype Number = Number(minus: bool, whole: bytes, frac: Option<bytes>, exp: Option<Exponent>)

  predicate IsNumber(n: Number) {
    && n.whole != [] && AreDigits(n.whole) && (n.whole[0] == 0x30 ==> |n.whole| == 1)
    && (n.frac.Some? ==> n.frac.value != [] && AreDigits(n.frac.value))
    && (n.exp.Some? ==>
          && (n.exp.value.e == 0x65 || n.exp.value.e == 0x45)
          && (n.exp.value.sign == [] || n.exp.value.sign == [0x2B] || n.exp.value.sign == [0x2D])
          && n.exp.value.digits != [] && AreDigits(n.exp.value.digits))
  }

  function MinusText(n: Number): bytes { if n.minus then [0x2D] else [] }
  function FracText(n: Number): bytes { if n.frac.Some? then [0x2E] + n.frac.value else [] }
  function ExpText(n: Number): bytes {
    if n.exp.Some? then [n.exp.value.e] + n.exp.value.sign + n.exp.value.digits else []
  }
  function NumberText(n: Number): bytes { MinusText(n) + n.whole + FracText(n) + ExpText(n) }

  // ----- values, arrays and objects (sections 3, 4 and 5) -----

  datatype Word = True | False | Null

  const TRUE: bytes := [0x74, 0x72, 0x75, 0x65]
  const FALSE: bytes := [0x66, 0x61, 0x6C, 0x73, 0x65]
  const NULL: bytes := [0x6E, 0x75, 0x6C, 0x6C]

  function WordText(w: Word): bytes {
    match w case True => TRUE case False => FALSE case Null => NULL
  }

  datatype Value =
    | Str(pieces: seq<Piece>)
    | Num(number: Number)
    | Lit(word: Word)
    | EmptyArray(pad: bytes)
    | Array(items: Items)
    | EmptyObject(pad: bytes)
    | Object(members: Members)

  /** before value after, separated by commas. */
  datatype Items =
    | LastItem(before: bytes, item: Value, after: bytes)
    | MoreItems(before: bytes, item: Value, after: bytes, rest: Items)

  /** before "key" mid : lead value after, separated by commas. */
  datatype Members =
    | LastMember(before: bytes, key: seq<Piece>, mid: bytes, lead: bytes, member: Value, after: bytes)
    | MoreMembers(before: bytes, key: seq<Piece>, mid: bytes, lead: bytes, member: Value, after: bytes,
                  others: Members)

  predicate IsPad(w: bytes) { forall k :: 0 <= k < |w| ==> IsSpace(w[k]) }

  predicate IsValue(v: Value) {
    match v
    case Str(ps) => ArePieces(ps)
    case Num(n) => IsNumber(n)
    case Lit(_) => true
    case EmptyArray(pad) => IsPad(pad)
    case Array(items) => AreItems(items)
    case EmptyObject(pad) => IsPad(pad)
    case Object(members) => AreMembers(members)
  }

  predicate AreItems(i: Items) {
    IsPad(i.before) && IsValue(i.item) && IsPad(i.after) && (i.MoreItems? ==> AreItems(i.rest))
  }

  predicate AreMembers(m: Members) {
    && IsPad(m.before) && ArePieces(m.key) && IsPad(m.mid) && IsPad(m.lead) && IsValue(m.member) && IsPad(m.after)
    && (m.MoreMembers? ==> AreMembers(m.others))
  }

  function Quoted(ps: seq<Piece>): bytes { [0x22] + StringText(ps) + [0x22] }

  function ValueText(v: Value): bytes {
    match v
    case Str(ps) => Quoted(ps)
    case Num(n) => NumberText(n)
    case Lit(w) => WordText(w)
    case EmptyArray(pad) => [0x5B] + pad + [0x5D]
    case Array(items) => [0x5B] + ItemsText(items)
    case EmptyObject(pad) => [0x7B] + pad + [0x7D]
    case Object(members) => [0x7B] + MembersText(members)
  }

  /** The items and the bracket that closes the array. */
  function ItemsText(i: Items): bytes {
    i.before + ValueText(i.item) + i.after + if i.LastItem? then [0x5D] else [0x2C] + ItemsText(i.rest)
  }

  /** The members and the brace that closes the object. */
  function MembersText(m: Members): bytes {
    m.before + Quoted(m.key) + m.mid + [0x3A] + m.lead + ValueText(m.member) + m.after
    + if m.LastMember? then [0x7D] else [0x2C] + MembersText(m.others)
  }

  /** JSON-text = ws value ws (section 2). */
  datatype Document = Document(before: bytes, root: Value, after: bytes)

  predicate IsDocument(d: Document) { IsPad(d.before) && IsValue(d.root) && IsPad(d.after) }

  function DocumentText(d: Document): bytes { d.before + ValueText(d.root) + d.after }
}
