/**
 What a well-formed tree means to the rest of the framework: the bytes a string
 stands for, the names of an object's members, the limits json_parse imposes, and
 the token array that describes the tree.
 */
module JsonMeaning {
  import opened Bytes
  import opened JsonGrammar

  const MAX_DEPTH := 128
  const MAX_OBJECT_KEYS := 256
  const MAX_KEY_BYTES := 128

  // ----- the bytes a string stands for -----

  /** UTF-8 of a scalar value (section 3 of RFC 3629). */
  function Utf8(cp: nat): (u: bytes)
    requires cp < 0x110000
    ensures 1 <= |u| <= 4
  {
    if cp < 0x80 then [cp]
    else if cp < 0x800 then [0xC0 + cp / 0x40, 0x80 + cp % 0x40]
    else if cp < 0x10000 then [0xE0 + cp / 0x1000, 0x80 + cp / 0x40 % 0x40, 0x80 + cp % 0x40]
    else [0xF0 + cp / 0x40000, 0x80 + cp / 0x1000 % 0x40, 0x80 + cp / 0x40 % 0x40, 0x80 + cp % 0x40]
  }

  function ShortValue(c: byte): byte {
    if c == 0x62 then 0x08 else if c == 0x66 then 0x0C else if c == 0x6E then 0x0A
    else if c == 0x72 then 0x0D else if c == 0x74 then 0x09 else c
  }

  function PairValue(hi: nat, lo: nat): (cp: nat)
    requires IsHighSurrogate(hi) && IsLowSurrogate(lo)
    ensures 0x10000 <= cp < 0x110000
  {
    0x10000 + (hi - 0xD800) * 0x400 + (lo - 0xDC00)
  }

  function PieceValue(p: Piece): (d: bytes)
    requires IsPiece(p)
    ensures 1 <= |d| <= |PieceText(p)|
  {
    match p
    case Plain(b) => [b]
    case Multi(u) => u
    case Short(c) => [ShortValue(c)]
    case Unicode(h) => Utf8(Hex4Value(h))
    case Surrogates(hi, lo) => Utf8(PairValue(Hex4Value(hi), Hex4Value(lo)))
  }

  /** The bytes a string stands for. */
  function Decoded(ps: seq<Piece>): (d: bytes)
    requires ArePieces(ps)
    ensures |d| <= |StringText(ps)|
  {
    if ps == [] then [] else PieceValue(ps[0]) + Decoded(ps[1..])
  }

  /** What a C string function sees of a buffer: the bytes before the first NUL. */
  function CString(b: bytes): (c: bytes)
    ensures |c| <= |b| && c == b[..|c|] && 0 !in c && (|c| < |b| ==> b[|c|] == 0)
  {
    if b == [] || b[0] == 0 then [] else [b[0]] + CString(b[1..])
  }

  /** The name by which a member is known. */
  function Name(key: seq<Piece>): bytes
    requires ArePieces(key)
  {
    CString(Decoded(key))
  }

  // ----- limits -----

  function Max(a: nat, b: nat): nat { if a < b then b else a }

  /** How many arrays and objects enclose the innermost value, counting v itself. */
  function Depth(v: Value): nat {
    match v
    case Str(_) => 0
    case Num(_) => 0
    case Lit(_) => 0
    case EmptyArray(_) => 1
    case Array(items) => 1 + ItemsDepth(items)
    case EmptyObject(_) => 1
    case Object(members) => 1 + MembersDepth(members)
  }

  function ItemsDepth(i: Items): nat {
    Max(Depth(i.item), if i.LastItem? then 0 else ItemsDepth(i.rest))
  }

  function MembersDepth(m: Members): nat {
    Max(Depth(m.member), if m.LastMember? then 0 else MembersDepth(m.others))
  }

  /** The number of values and keys. */
  function Size(v: Value): (n: nat)
    ensures n >= 1
  {
    match v
    case Str(_) => 1
    case Num(_) => 1
    case Lit(_) => 1
    case EmptyArray(_) => 1
    case Array(items) => 1 + ItemsSize(items)
    case EmptyObject(_) => 1
    case Object(members) => 1 + MembersSize(members)
  }

  function ItemsSize(i: Items): nat {
    Size(i.item) + if i.LastItem? then 0 else ItemsSize(i.rest)
  }

  function MembersSize(m: Members): nat {
    1 + Size(m.member) + if m.LastMember? then 0 else MembersSize(m.others)
  }

  function Names(m: Members): (names: seq<bytes>)
    requires AreMembers(m)
    ensures |names| >= 1
  {
    [Name(m.key)] + if m.LastMember? then [] else Names(m.others)
  }

  predicate ShortKeys(m: Members) {
    |StringText(m.key)| < MAX_KEY_BYTES && (m.MoreMembers? ==> ShortKeys(m.others))
  }

  /** Every object has at most 256 members, short raw keys and no two members of one name. */
  predicate ObjectsFit(v: Value)
    requires IsValue(v)
  {
    match v
    case Str(_) => true
    case Num(_) => true
    case Lit(_) => true
    case EmptyArray(_) => true
    case Array(items) => ItemsFit(items)
    case EmptyObject(_) => true
    case Object(m) => |Names(m)| <= MAX_OBJECT_KEYS && Distinct(Names(m)) && ShortKeys(m) && MembersFit(m)
  }

  predicate ItemsFit(i: Items)
    requires AreItems(i)
  {
    ObjectsFit(i.item) && (i.MoreItems? ==> ItemsFit(i.rest))
  }

  predicate MembersFit(m: Members)
    requires AreMembers(m)
  {
    ObjectsFit(m.member) && (m.MoreMembers? ==> MembersFit(m.others))
  }

  predicate WithinLimits(v: Value, max: int)
    requires IsValue(v)
  {
    Depth(v) <= MAX_DEPTH && Size(v) <= max && ObjectsFit(v)
  }

  // ----- the token array -----

  /** Where an item's value starts and ends, and where the separator after it stands. */
  function ItemStart(i: nat, x: Items): nat { i + |x.before| }
  function ItemEnd(i: nat, x: Items): nat { ItemStart(i, x) + |ValueText(x.item)| }
  function ItemStop(i: nat, x: Items): nat { ItemEnd(i, x) + |x.after| }

  /** Where a member's key, colon and value start and end, and where the separator after it stands. */
  function KeyStart(i: nat, m: Members): nat { i + |m.before| }
  function KeyEnd(i: nat, m: Members): nat { KeyStart(i, m) + |Quoted(m.key)| }
  function ColonAt(i: nat, m: Members): nat { KeyEnd(i, m) + |m.mid| }
  function MemberStart(i: nat, m: Members): nat { ColonAt(i, m) + 1 + |m.lead| }
  function MemberEnd(i: nat, m: Members): nat { MemberStart(i, m) + |ValueText(m.member)| }
  function MemberStop(i: nat, m: Members): nat { MemberEnd(i, m) + |m.after| }

  datatype Kind = OBJ | ARR | STR | PRIM
  datatype Token = Token(kind: Kind, start: int, end: int, parent: int)

  /**
   The tokens of v, in preorder, when its text starts at `at`, its parent is token
   `parent` and its own token gets index `base`.
   */
  function Tokens(v: Value, at: nat, parent: int, base: nat): (t: seq<Token>)
    ensures |t| == Size(v)
  {
    var end := at + |ValueText(v)|;
    match v
    case Str(ps) => [Token(STR, at + 1, end - 1, parent)]
    case Num(_) => [Token(PRIM, at, end, parent)]
    case Lit(_) => [Token(PRIM, at, end, parent)]
    case EmptyArray(_) => [Token(ARR, at, end, parent)]
    case Array(items) => [Token(ARR, at, end, parent)] + ItemsTokens(items, at + 1, base, base + 1)
    case EmptyObject(_) => [Token(OBJ, at, end, parent)]
    case Object(members) => [Token(OBJ, at, end, parent)] + MembersTokens(members, at + 1, base, base + 1)
  }

  function ItemsTokens(x: Items, at: nat, parent: int, base: nat): (t: seq<Token>)
    ensures |t| == ItemsSize(x)
  {
    Tokens(x.item, ItemStart(at, x), parent, base)
    + if x.LastItem? then [] else ItemsTokens(x.rest, ItemStop(at, x) + 1, parent, base + Size(x.item))
  }

  function MembersTokens(m: Members, at: nat, parent: int, base: nat): (t: seq<Token>)
    ensures |t| == MembersSize(m)
    decreases m, 1
  {
    [Token(STR, KeyStart(at, m) + 1, KeyEnd(at, m) - 1, parent)] + TailTokens(m, at, parent, base + 1)
  }

  /** The tokens of a member's value and of the members after it. */
  function TailTokens(m: Members, at: nat, parent: int, base: nat): (t: seq<Token>)
    ensures |t| == MembersSize(m) - 1
    decreases m, 0
  {
    Tokens(m.member, MemberStart(at, m), parent, base)
    + if m.LastMember? then [] else MembersTokens(m.others, MemberStop(at, m) + 1, parent, base + Size(m.member))
  }
}
