/**
 What decoded strings mean in characters: UTF-8 read back by the rules of section 3 of RFC 3629, UTF-16 pairs by those of
 section 2 of RFC 2781, and escapes by the table of section 7 of RFC 8259.
 */
module JsonUnicode {
  import opened Bytes
  import opened JsonGrammar
  import opened JsonMeaning
  import opened JsonScan
  import opened JsonDecode
  import opened JsonPrint

  // ----- UTF-8 -----

  predicate IsScalar(cp: int) { 0 <= cp < 0x110000 && !(0xD800 <= cp < 0xE000) }

  /** One character: an ASCII byte, or UTF8-2, UTF8-3 or UTF8-4. */
  predicate IsCharacter(u: bytes) { (|u| == 1 && u[0] < 0x80) || IsMultibyte(u) }

  /** Six more bits from each following byte, in order. */
  function MoreBits(value: nat, tail: bytes): nat
    decreases |tail|
  {
    if tail == [] then value else MoreBits(value * 64 + tail[0] % 64, tail[1..])
  }

  /** The bits a first byte contributes: 0xxxxxxx, 110xxxxx, 1110xxxx and 11110xxx. */
  function FirstBits(c: byte, length: nat): nat {
    if length == 1 then c % 128 else if length == 2 then c % 32 else if length == 3 then c % 16 else c % 8
  }

  /** The scalar value of a character: its payload bits, first byte first. */
  function ScalarOf(u: bytes): nat
    requires u != []
  {
    MoreBits(FirstBits(u[0], |u|), u[1..])
  }

  lemma OneMore(value: nat, b: byte, rest: bytes)
    ensures MoreBits(value, [b] + rest) == MoreBits(64 * value + b as int % 64, rest)
  {
    assert ([b] + rest)[1..] == rest;
  }

  lemma Bits1(u: bytes)
    requires |u| == 1
    ensures ScalarOf(u) == u[0] as int % 128
  {
    assert u[1..] == [];
  }

  lemma Bits2(u: bytes)
    requires |u| == 2
    ensures ScalarOf(u) == 64 * (u[0] as int % 32) + u[1] as int % 64
  {
    assert u[1..] == [u[1]] + [];
    OneMore(u[0] as int % 32, u[1], []);
  }

  lemma Bits3(u: bytes)
    requires |u| == 3
    ensures ScalarOf(u) == 64 * (64 * (u[0] as int % 16) + u[1] as int % 64) + u[2] as int % 64
  {
    assert u[1..] == [u[1]] + ([u[2]] + []);
    OneMore(u[0] as int % 16, u[1], [u[2]] + []);
    OneMore(64 * (u[0] as int % 16) + u[1] as int % 64, u[2], []);
  }

  lemma Bits4(u: bytes)
    requires |u| == 4
    ensures ScalarOf(u) == 64 * (64 * (64 * (u[0] as int % 8) + u[1] as int % 64) + u[2] as int % 64) + u[3] as int % 64
  {
    assert u[1..] == [u[1]] + ([u[2]] + ([u[3]] + []));
    OneMore(u[0] as int % 8, u[1], [u[2]] + ([u[3]] + []));
    OneMore(64 * (u[0] as int % 8) + u[1] as int % 64, u[2], [u[3]] + []);
    OneMore(64 * (64 * (u[0] as int % 8) + u[1] as int % 64) + u[2] as int % 64, u[3], []);
  }

  /** A number in digits of six bits. */
  lemma SixBits(v: nat, q: nat, r: nat)
    ensures r < 64 && v == 64 * q + r <==> q == v / 64 && r == v % 64
  {
  }

  lemma Shifts(v: nat)
    ensures v / 64 / 64 == v / 0x1000 && v / 64 / 64 / 64 == v / 0x40000
  {
  }

  /** A following byte, from its six bits and back. */
  lemma Tail(b: int)
    ensures 0 <= b < 64 ==> IsTail(0x80 + b) && (0x80 + b) % 64 == b
    ensures 0x80 <= b <= 0xBF ==> 0x80 + b % 64 == b
  {
  }

  /** Every scalar value is encoded as one well-formed character, which reads back as that value. */
  lemma Utf8Back(cp: nat)
    requires IsScalar(cp)
    ensures IsCharacter(Utf8(cp)) && ScalarOf(Utf8(cp)) == cp
  {
    hide ScalarOf, IsCharacter, Utf8;
    if cp < 0x80 { Back1(cp); } else if cp < 0x800 { Back2(cp); } else if cp < 0x10000 { Back3(cp); } else { Back4(cp); }
  }

  lemma Back1(cp: nat)
    requires cp < 0x80
    ensures IsCharacter(Utf8(cp)) && ScalarOf(Utf8(cp)) == cp
  {
    hide ScalarOf;
    Bits1(Utf8(cp));
  }

  lemma Back2(cp: nat)
    requires 0x80 <= cp < 0x800
    ensures IsCharacter(Utf8(cp)) && ScalarOf(Utf8(cp)) == cp
  {
    hide ScalarOf;
    Bits2(Utf8(cp));
    Tail(cp % 64);
  }

  lemma Back3(cp: nat)
    requires 0x800 <= cp < 0x10000 && IsScalar(cp)
    ensures IsCharacter(Utf8(cp)) && ScalarOf(Utf8(cp)) == cp
  {
    hide ScalarOf, IsTail;
    Shifts(cp);
    Bits3(Utf8(cp));
    Tail(cp % 64);
    Tail(cp / 64 % 64);
  }

  lemma Back4(cp: nat)
    requires 0x10000 <= cp < 0x110000
    ensures IsCharacter(Utf8(cp)) && ScalarOf(Utf8(cp)) == cp
  {
    hide ScalarOf, IsTail;
    Shifts(cp);
    Bits4(Utf8(cp));
    Tail(cp % 64);
    Tail(cp / 64 % 64);
    Tail(cp / 64 / 64 % 64);
  }

  /** And every well-formed character is the encoding of its scalar value, so no other spells it. */
  lemma Utf8Only(u: bytes)
    requires IsCharacter(u)
    ensures IsScalar(ScalarOf(u)) && Utf8(ScalarOf(u)) == u
  {
    hide ScalarOf, IsTail, Utf8, IsScalar;
    if |u| == 1 { Only1(u); } else if |u| == 2 { Only2(u); } else if |u| == 3 { Only3(u); } else { Only4(u); }
  }

  lemma Only1(u: bytes)
    requires IsCharacter(u) && |u| == 1
    ensures IsScalar(ScalarOf(u)) && Utf8(ScalarOf(u)) == u
  {
    hide ScalarOf;
    Bits1(u);
  }

  lemma Only2(u: bytes)
    requires IsCharacter(u) && |u| == 2
    ensures IsScalar(ScalarOf(u)) && Utf8(ScalarOf(u)) == u
  {
    hide ScalarOf;
    Bits2(u);
    SixBits(ScalarOf(u), u[0] % 32, u[1] % 64);
  }

  lemma Only3(u: bytes)
    requires IsCharacter(u) && |u| == 3
    ensures IsScalar(ScalarOf(u)) && Utf8(ScalarOf(u)) == u
  {
    hide ScalarOf;
    Bits3(u);
    var v, q := ScalarOf(u), 64 * (u[0] as int % 16) + u[1] as int % 64;
    Shifts(v);
    SixBits(v, q, u[2] % 64);
    SixBits(q, u[0] % 16, u[1] % 64);
    Tail(u[1]);
    Tail(u[2]);
  }

  lemma Only4(u: bytes)
    requires IsCharacter(u) && |u| == 4
    ensures IsScalar(ScalarOf(u)) && Utf8(ScalarOf(u)) == u
  {
    hide ScalarOf;
    Bits4(u);
    var v, p := ScalarOf(u), 64 * (u[0] as int % 8) + u[1] as int % 64;
    var q := 64 * p + u[2] as int % 64;
    Shifts(v);
    SixBits(v, q, u[3] % 64);
    SixBits(q, p, u[2] % 64);
    SixBits(p, u[0] % 8, u[1] % 64);
    Tail(u[1]);
    Tail(u[2]);
    Tail(u[3]);
  }

  /** The text d spells the scalar values cs, one character each. */
  ghost predicate Spells(d: bytes, cs: seq<nat>)
    decreases |cs|
  {
    if cs == [] then d == []
    else exists k :: 1 <= k <= |d| && IsCharacter(d[..k]) && ScalarOf(d[..k]) == cs[0] && Spells(d[k..], cs[1..])
  }

  // ----- escapes -----

  const UPPER: bytes := [0x30, 0x31, 0x32, 0x33, 0x34, 0x35, 0x36, 0x37, 0x38, 0x39, 0x41, 0x42, 0x43, 0x44, 0x45, 0x46]
  const LOWER: bytes := [0x30, 0x31, 0x32, 0x33, 0x34, 0x35, 0x36, 0x37, 0x38, 0x39, 0x61, 0x62, 0x63, 0x64, 0x65, 0x66]

  /** h is a hexadecimal numeral of four digits for v, in either case. */
  predicate IsNumeral(h: bytes, v: nat) {
    && |h| == 4 && v < 0x10000
    && (h[0] == UPPER[v / 4096] || h[0] == LOWER[v / 4096])
    && (h[1] == UPPER[v / 256 % 16] || h[1] == LOWER[v / 256 % 16])
    && (h[2] == UPPER[v / 16 % 16] || h[2] == LOWER[v / 16 % 16])
    && (h[3] == UPPER[v % 16] || h[3] == LOWER[v % 16])
  }

  lemma DigitIs(c: byte, v: nat)
    requires v < 16
    ensures IsHex(c) && HexValue(c) == v <==> c == UPPER[v] || c == LOWER[v]
  {
  }

  lemma FourBits(v: nat, q: nat, r: nat)
    ensures r < 16 && v == 16 * q + r <==> q == v / 16 && r == v % 16
  {
  }

  lemma HexDigits(v: nat, a: nat, b: nat, c: nat, d: nat)
    requires v < 0x10000 && a < 16 && b < 16 && c < 16 && d < 16
    ensures v == a * 0x1000 + b * 0x100 + c * 0x10 + d
            <==> a == v / 4096 && b == v / 256 % 16 && c == v / 16 % 16 && d == v % 16
  {
    var p := 16 * a + b;
    var q := 16 * p + c;
    FourBits(v, q, d);
    FourBits(q, p, c);
    FourBits(p, a, b);
    assert v / 16 / 16 == v / 256 && v / 16 / 16 / 16 == v / 4096;
  }

  /** The four digits of an escape have the value they are a numeral for, and no other. */
  lemma Hex4Is(h: bytes, v: nat)
    ensures IsHex4(h) && Hex4Value(h) == v <==> IsNumeral(h, v)
  {
    hide HexValue, IsHex, UPPER, LOWER;
    if |h| == 4 && v < 0x10000 {
      DigitIs(h[0], v / 4096);
      DigitIs(h[1], v / 256 % 16);
      DigitIs(h[2], v / 16 % 16);
      DigitIs(h[3], v % 16);
      if IsHex4(h) { HexDigits(v, HexValue(h[0]), HexValue(h[1]), HexValue(h[2]), HexValue(h[3])); }
    }
  }

  /** The escapes of two characters and what they stand for. */
  const SHORT: seq<(byte, byte)> :=
    [(0x22, 0x22), (0x5C, 0x5C), (0x2F, 0x2F), (0x62, 0x08), (0x66, 0x0C), (0x6E, 0x0A), (0x72, 0x0D), (0x74, 0x09)]

  lemma ShortIs(c: byte, v: byte)
    ensures IsShortEscape(c) && ShortValue(c) == v <==> (c, v) in SHORT
  {
    if (c, v) in SHORT {
      var k :| 0 <= k < |SHORT| && SHORT[k] == (c, v);
    }
    if IsShortEscape(c) {
      var k := if c == 0x22 then 0 else if c == 0x5C then 1 else if c == 0x2F then 2 else if c == 0x62 then 3
               else if c == 0x66 then 4 else if c == 0x6E then 5 else if c == 0x72 then 6 else 7;
      assert SHORT[k] == (c, ShortValue(c));
    }
  }

  /** The surrogates of a scalar value beyond 0xFFFF: the upper and the lower ten bits of what it exceeds that by. */
  predicate IsPair(hi: int, lo: int, cp: int) {
    0x10000 <= cp < 0x110000 && hi == 0xD800 + (cp - 0x10000) / 1024 && lo == 0xDC00 + (cp - 0x10000) % 1024
  }

  lemma PairIs(hi: int, lo: int, cp: int)
    ensures IsHighSurrogate(hi) && IsLowSurrogate(lo) && PairValue(hi, lo) == cp <==> IsPair(hi, lo, cp)
  {
  }

  // ----- strings in characters -----

  /** The scalar value p stands for. */
  ghost predicate Means(p: Piece, cp: nat) {
    match p
    case Plain(b) => cp == b
    case Multi(u) => IsCharacter(u) && ScalarOf(u) == cp
    case Short(c) => exists v: byte :: (c, v) in SHORT && cp == v
    case Unicode(h) => IsNumeral(h, cp)
    case Surrogates(hi, lo) => exists a: nat, b: nat :: IsNumeral(hi, a) && IsNumeral(lo, b) && IsPair(a, b, cp)
  }

  /** The bytes a piece stands for are the encoding of its one scalar value. */
  lemma PieceMeans(p: Piece) returns (cp: nat)
    requires IsPiece(p)
    ensures Means(p, cp) && IsCharacter(PieceValue(p)) && ScalarOf(PieceValue(p)) == cp
  {
    hide IsNumeral, Utf8, Hex4Value, IsHex4, SHORT;
    match p
    case Plain(b) => AsciiCharacter(b); cp := b;
    case Multi(u) => cp := ScalarOf(u);
    case Short(c) => ShortAscii(c); ShortIs(c, ShortValue(c)); AsciiCharacter(ShortValue(c)); cp := ShortValue(c);
    case Unicode(h) => cp := Hex4Value(h); Hex4Is(h, cp); Utf8Back(cp);
    case Surrogates(hi, lo) =>
      var a, b := Hex4Value(hi), Hex4Value(lo);
      cp := PairValue(a, b);
      Hex4Is(hi, a);
      Hex4Is(lo, b);
      PairIs(a, b, cp);
      Utf8Back(cp);
  }

  lemma AsciiCharacter(b: byte)
    requires b < 0x80
    ensures IsCharacter([b]) && ScalarOf([b]) == b
  {
  }

  lemma ShortAscii(c: byte)
    requires IsShortEscape(c)
    ensures ShortValue(c) < 0x80
  {
  }

  ghost predicate AllMean(ps: seq<Piece>, cs: seq<nat>) { |cs| == |ps| && forall k :: 0 <= k < |ps| ==> Means(ps[k], cs[k]) }

  /** A string stands for the characters its pieces mean, in order. */
  lemma {:induction false} DecodedSpells(ps: seq<Piece>) returns (cs: seq<nat>)
    requires ArePieces(ps)
    ensures AllMean(ps, cs) && Spells(Decoded(ps), cs)
    decreases |ps|
  {
    hide Means, IsPiece, PieceValue, IsCharacter, ScalarOf;
    if ps == [] {
      cs := [];
    } else {
      var cp := PieceMeans(ps[0]);
      var rest := DecodedSpells(ps[1..]);
      cs := [cp] + rest;
      var u, d := PieceValue(ps[0]), Decoded(ps);
      assert d[..|u|] == u && d[|u|..] == Decoded(ps[1..]) && cs[1..] == rest;
      forall k | 0 <= k < |ps| ensures Means(ps[k], cs[k]) {
        if k > 0 { assert ps[k] == ps[1..][k - 1]; }
      }
    }
  }

  /** So json_copy_str writes those characters, in UTF-8, into a buffer that has room for them. */
  lemma CopySpells(ps: seq<Piece>, room: nat) returns (cs: seq<nat>)
    requires ArePieces(ps) && |Decoded(ps)| <= room
    ensures AllMean(ps, cs) && Spells(Copy(STR, StringText(ps), 0, room), cs)
  {
    hide Means, Copy, Spells;
    cs := DecodedSpells(ps);
    var raw := StringText(ps);
    AtSlice(raw, 0, |raw|);
    assert raw[0..|raw|] == raw;
    CopyIsDecoded(raw, 0, ps, room);
  }

  lemma OnePiece(p: Piece, room: nat)
    requires IsPiece(p) && |PieceValue(p)| <= room
    ensures Copy(STR, PieceText(p), 0, room) == PieceValue(p)
  {
    hide IsPiece, PieceText, PieceValue, Copy;
    var ps := [p];
    assert ps[1..] == [];
    assert StringText(ps) == PieceText(p) && Decoded(ps) == PieceValue(p);
    var raw := StringText(ps);
    AtSlice(raw, 0, |raw|);
    assert raw[0..|raw|] == raw;
    CopyIsDecoded(raw, 0, ps, room);
  }

  /** A \u escape outside the surrogates becomes the one character of its number. */
  lemma UnicodeCopied(h: bytes, cp: nat, room: nat)
    requires IsNumeral(h, cp) && IsScalar(cp) && room >= 4
    ensures var u := Copy(STR, [0x5C, 0x75] + h, 0, room); IsCharacter(u) && ScalarOf(u) == cp
  {
    hide Copy, IsNumeral, IsCharacter, ScalarOf, Utf8;
    Hex4Is(h, cp);
    Utf8Back(cp);
    OnePiece(Unicode(h), room);
  }

  /** Two \u escapes of a surrogate pair become the one character of the pair. */
  lemma PairCopied(hi: bytes, lo: bytes, a: nat, b: nat, cp: nat, room: nat)
    requires IsNumeral(hi, a) && IsNumeral(lo, b) && IsPair(a, b, cp) && room >= 4
    ensures var u := Copy(STR, [0x5C, 0x75] + hi + [0x5C, 0x75] + lo, 0, room); IsCharacter(u) && ScalarOf(u) == cp
  {
    hide Copy, IsNumeral, IsCharacter, ScalarOf, Utf8;
    Hex4Is(hi, a);
    Hex4Is(lo, b);
    PairIs(a, b, cp);
    Utf8Back(cp);
    OnePiece(Surrogates(hi, lo), room);
  }

  /** The euro sign. */
  lemma Euro()
    ensures Copy(STR, [0x5C, 0x75, 0x32, 0x30, 0x41, 0x43], 0, 4) == [0xE2, 0x82, 0xAC]
  {
    hide Copy;
    var h: bytes := [0x32, 0x30, 0x41, 0x43];
    assert IsNumeral(h, 0x20AC);
    UnicodeCopied(h, 0x20AC, 4);
    var u := Copy(STR, [0x5C, 0x75] + h, 0, 4);
    Utf8Only(u);
    assert [0x5C, 0x75] + h == [0x5C, 0x75, 0x32, 0x30, 0x41, 0x43];
  }

  // ----- how text is printed -----

  /** Bytes that may stand in a string as they are, are printed so; of the others each has one way to be printed. */
  lemma EscapeIs(c: byte)
    ensures c >= 0x80 || IsPiece(Plain(c)) ==> EscapeByte(c) == [c]
    ensures c == 0x22 || c == 0x5C || c == 0x0A || c == 0x0D || c == 0x09 ==>
              exists e: byte :: (e, c) in SHORT && e != 0x2F && EscapeByte(c) == [0x5C, e]
    ensures c < 0x20 && c != 0x0A && c != 0x0D && c != 0x09 ==>
              exists h :: IsNumeral(h, c) && h[3] == LOWER[c % 16] && EscapeByte(c) == [0x5C, 0x75] + h
  {
    hide IsNumeral;
    if c == 0x22 || c == 0x5C || c == 0x0A || c == 0x0D || c == 0x09 {
      var e: byte := if c == 0x0A then 0x6E else if c == 0x0D then 0x72 else if c == 0x09 then 0x74 else c;
      ShortIs(e, c);
      assert (e, c) in SHORT && e != 0x2F && EscapeByte(c) == [0x5C, e];
    } else if c < 0x20 {
      var h := [0x30, 0x30, HexDigit(c / 16), HexDigit(c % 16)];
      ControlNumeral(c, h);
      assert EscapeByte(c) == [0x5C, 0x75] + h;
    }
  }

  lemma ControlNumeral(c: byte, h: bytes)
    requires c < 0x20 && h == [0x30, 0x30, HexDigit(c / 16), HexDigit(c % 16)]
    ensures IsNumeral(h, c) && h[3] == LOWER[c % 16]
  {
    hide LOWER, UPPER;
    DigitText(0);
    DigitText(c / 16);
    DigitText(c % 16);
  }

  lemma DigitText(d: nat)
    requires d < 16
    ensures HexDigit(d) == LOWER[d]
  {
  }

  lemma Spelling()
    ensures UPPER == Ascii("0123456789ABCDEF") && LOWER == Ascii("0123456789abcdef")
    ensures TRUE == Ascii("true") && FALSE == Ascii("false") && NULL == Ascii("null")
  {
  }

  lemma JsonCharacters(c: byte)
    ensures IsSpace(c) <==> c == Code(' ') || c == Code('\t') || c == Code('\r') || c == Code('\n')
    ensures IsHex(c) <==> IsDigit(c) || Code('a') <= c <= Code('f') || Code('A') <= c <= Code('F')
    ensures (c, 0x0A) in SHORT <==> c == Code('n')
    ensures (c, 0x0D) in SHORT <==> c == Code('r')
    ensures (c, 0x09) in SHORT <==> c == Code('t')
    ensures (c, 0x08) in SHORT <==> c == Code('b')
    ensures (c, 0x0C) in SHORT <==> c == Code('f')
  {
    ShortIs(c, 0x0A);
    ShortIs(c, 0x0D);
    ShortIs(c, 0x09);
    ShortIs(c, 0x08);
    ShortIs(c, 0x0C);
  }
}
