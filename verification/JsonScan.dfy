/**
 The scanners of src/http/json.c below the frame machine: strings, numbers and
 the three literal words, each proved to accept exactly its production of the grammar.
 */
module JsonScan {
  import opened Bytes
  import opened JsonGrammar

  // ----- strings -----

  predicate HexAt(js: bytes, at: nat) {
    at + 4 <= |js| && IsHex4(js[at..at + 4])
  }

  function HexOf(js: bytes, at: nat): nat
    requires HexAt(js, at)
  {
    Hex4Value(js[at..at + 4])
  }

  /** The value of the first n hex digits of h. */
  function HexPrefix(h: bytes, n: nat): nat
    requires n <= |h| && forall k :: 0 <= k < n ==> IsHex(h[k])
  {
    if n == 0 then 0 else HexPrefix(h, n - 1) * 16 + HexValue(h[n - 1])
  }

  lemma HexPrefixIs(h: bytes)
    requires IsHex4(h)
    ensures HexPrefix(h, 4) == Hex4Value(h)
  {
    assert HexPrefix(h, 1) == HexValue(h[0]);
    assert HexPrefix(h, 2) == HexValue(h[0]) * 0x10 + HexValue(h[1]);
    assert HexPrefix(h, 3) == HexValue(h[0]) * 0x100 + HexValue(h[1]) * 0x10 + HexValue(h[2]);
  }

  /** read_hex4: four hex digits at `at`, folded left to right. */
  method ReadHex4(js: bytes, len: nat, at: nat) returns (r: Option<nat>)
    requires len <= |js|
    ensures r == if HexAt(js[..len], at) then Some(HexOf(js[..len], at)) else None
  {
    if at > len || len - at < 4 { return None; }
    ghost var h := js[..len][at..at + 4];
    var value := 0;
    var i := 0;
    while i < 4
      invariant 0 <= i <= 4
      invariant forall k :: 0 <= k < i ==> IsHex(h[k])
      invariant value == HexPrefix(h, i)
    {
      assert h[i] == js[at + i];
      if !IsHex(js[at + i]) { return None; }
      value := value * 16 + HexValue(js[at + i]);
      i := i + 1;
    }
    HexPrefixIs(h);
    return Some(value);
  }

  /** How many bytes the multibyte character starting with a takes after a; 0 when a starts none. */
  function TailCount(a: byte): (n: nat)
    ensures n <= 3
  {
    if 0xC2 <= a <= 0xDF then 1 else if 0xE0 <= a <= 0xEF then 2 else if 0xF0 <= a <= 0xF4 then 3 else 0
  }

  /** utf8_advance. */
  method Utf8Advance(js: bytes, at: nat) returns (r: Option<nat>)
    requires at < |js|
    ensures r == MultiAt(js, at)
  {
    var a := js[at];
    var n;
    var min, max := 0x80, 0xBF;
    if 0xC2 <= a <= 0xDF {
      n := 1;
    } else if 0xE0 <= a <= 0xEF {
      n := 2;
      if a == 0xE0 { min := 0xA0; }
      if a == 0xED { max := 0x9F; }
    } else if 0xF0 <= a <= 0xF4 {
      n := 3;
      if a == 0xF0 { min := 0x90; }
      if a == 0xF4 { max := 0x8F; }
    } else {
      return None;
    }
    if at + n >= |js| { return None; }
    var b := js[at + 1];
    assert js[at..at + n + 1][1] == b && js[at..at + n + 1][0] == a;
    if b < min || b > max { return None; }
    ghost var u := js[at..at + n + 1];
    var k := 2;
    while k <= n
      invariant 2 <= k <= n + 1
      invariant forall m :: 2 <= m < k ==> IsTail(u[m])
    {
      var c := js[at + k];
      assert u[k] == c;
      if c < 0x80 || c > 0xBF { return None; }
      k := k + 1;
    }
    return Some(at + n + 1);
  }

  /** The index after the multibyte character at `at`, if a well-formed one stands there. */
  function MultiAt(js: bytes, at: nat): Option<nat>
    requires at < |js|
  {
    var n := TailCount(js[at]);
    if n > 0 && at + n < |js| && IsMultibyte(js[at..at + n + 1]) then Some(at + n + 1) else None
  }

  /** The index after the escape whose reverse solidus is at i. */
  function EscapeAt(js: bytes, i: nat): (r: Option<nat>)
    requires i < |js|
    ensures r.Some? ==> i < r.value <= |js|
  {
    if i + 1 >= |js| then None
    else if IsShortEscape(js[i + 1]) then Some(i + 2)
    else if js[i + 1] != 0x75 || !HexAt(js, i + 2) then None
    else
      var first := HexOf(js, i + 2);
      if IsHighSurrogate(first) then
        if |js| - (i + 6) >= 6 && js[i + 6] == 0x5C && js[i + 7] == 0x75 && HexAt(js, i + 8)
           && IsLowSurrogate(HexOf(js, i + 8)) then Some(i + 12) else None
      else if IsLowSurrogate(first) then None
      else Some(i + 6)
  }

  /** The index after the string character at i. */
  function PieceEnd(js: bytes, i: nat): (r: Option<nat>)
    requires i < |js|
    ensures r.Some? ==> i < r.value <= |js|
  {
    if js[i] == 0x5C then EscapeAt(js, i)
    else if js[i] < 0x20 || js[i] == 0x22 then None
    else if js[i] >= 0x80 then MultiAt(js, i)
    else Some(i + 1)
  }

  /** The index of the quotation mark that closes a string whose first character is at i. */
  function StringEnd(js: bytes, i: nat): (r: Option<nat>)
    ensures r.Some? ==> i <= r.value < |js| && js[r.value] == 0x22
    decreases |js| - i
  {
    if i >= |js| then None
    else if js[i] == 0x22 then Some(i)
    else
      var k := PieceEnd(js, i);
      if k.None? then None else StringEnd(js, k.value)
  }

  /** The loop of token_string, from the byte after the opening quotation mark. */
  method ScanString(js: bytes, start: nat) returns (r: Option<nat>)
    ensures r == StringEnd(js, start)
  {
    var i := start;
    while i < |js|
      invariant StringEnd(js, i) == StringEnd(js, start)
      decreases |js| - i
    {
      var c := js[i];
      if c == 0x22 { return Some(i); }
      if c == 0x5C {
        ghost var from := i;
        i := i + 1;
        if i >= |js| { return None; }
        c := js[i];
        if c == 0x22 || c == 0x5C || c == 0x2F || c == 0x62 || c == 0x66 || c == 0x6E || c == 0x72 || c == 0x74 {
          i := i + 1;
          continue;
        }
        if c != 0x75 { return None; }
        assert js[..|js|] == js;
        var first := ReadHex4(js, |js|, i + 1);
        if first.None? { return None; }
        i := i + 5;
        if 0xD800 <= first.value <= 0xDBFF {
          if |js| - i < 6 || js[i] != 0x5C || js[i + 1] != 0x75 { return None; }
          var second := ReadHex4(js, |js|, i + 2);
          if second.None? || second.value < 0xDC00 || second.value > 0xDFFF { return None; }
          i := i + 6;
        } else if 0xDC00 <= first.value <= 0xDFFF {
          return None;
        }
        assert PieceEnd(js, from) == Some(i);
        continue;
      }
      if c < 0x20 { return None; }
      if c >= 0x80 {
        var k := Utf8Advance(js, i);
        if k.None? { return None; }
        i := k.value;
      } else {
        i := i + 1;
      }
    }
    return None;
  }

  /** The character PieceEnd accepts, as a piece of the grammar. */
  function PieceAt(js: bytes, i: nat): (p: Piece)
    requires i < |js| && PieceEnd(js, i).Some?
  {
    if js[i] == 0x5C then
      if IsShortEscape(js[i + 1]) then Short(js[i + 1])
      else if PieceEnd(js, i) == Some(i + 6) then Unicode(js[i + 2..i + 6])
      else Surrogates(js[i + 2..i + 6], js[i + 8..i + 12])
    else if js[i] >= 0x80 then Multi(js[i..PieceEnd(js, i).value])
    else Plain(js[i])
  }

  lemma PieceSound(js: bytes, i: nat)
    requires i < |js| && PieceEnd(js, i).Some?
    ensures var p := PieceAt(js, i);
            IsPiece(p) && At(js, i, PieceText(p)) && PieceEnd(js, i) == Some(i + |PieceText(p)|)
  {
    hide At, IsHex4;
    if js[i] == 0x5C {
      EscapeSound(js, i);
    } else if js[i] >= 0x80 {
      AtSlice(js, i, PieceEnd(js, i).value);
    } else {
      AtByte(js, i);
    }
  }

  lemma EscapeSound(js: bytes, i: nat)
    requires i < |js| && js[i] == 0x5C && PieceEnd(js, i).Some?
    ensures var p := PieceAt(js, i);
            IsPiece(p) && At(js, i, PieceText(p)) && PieceEnd(js, i) == Some(i + |PieceText(p)|)
  {
    hide At, IsHex4;
    AtByte(js, i);
    AtByte(js, i + 1);
    AtConcat(js, i, [0x5C], [js[i + 1]]);
    assert [0x5C] + [js[i + 1]] == [0x5C, js[i + 1]];
    if !IsShortEscape(js[i + 1]) {
      AtSlice(js, i + 2, i + 6);
      AtConcat(js, i, [0x5C, 0x75], js[i + 2..i + 6]);
      if PieceEnd(js, i) != Some(i + 6) { SurrogatesAt(js, i); }
    }
  }

  lemma SurrogatesAt(js: bytes, i: nat)
    requires i + 12 <= |js| && At(js, i, [0x5C, 0x75] + js[i + 2..i + 6]) && js[i + 6] == 0x5C && js[i + 7] == 0x75
    ensures At(js, i, PieceText(Surrogates(js[i + 2..i + 6], js[i + 8..i + 12])))
  {
    hide At;
    var hi, lo := js[i + 2..i + 6], js[i + 8..i + 12];
    AtByte(js, i + 6);
    AtByte(js, i + 7);
    AtConcat(js, i + 6, [0x5C], [0x75]);
    assert [0x5C] + [0x75] == [0x5C, 0x75];
    AtConcat(js, i, [0x5C, 0x75] + hi, [0x5C, 0x75]);
    AtSlice(js, i + 8, i + 12);
    AtConcat(js, i, [0x5C, 0x75] + hi + [0x5C, 0x75], lo);
  }

  lemma PieceComplete(js: bytes, i: nat, p: Piece)
    requires IsPiece(p) && At(js, i, PieceText(p))
    ensures i < |js| && js[i] != 0x22 && PieceEnd(js, i) == Some(i + |PieceText(p)|)
  {
    hide At, IsHex4;
    AtIs(js, i, PieceText(p));
    AtIndex(js, i, PieceText(p), 0);
    match p
    case Plain(b) =>
    case Multi(u) =>
    case Short(c) => AtIndex(js, i, PieceText(p), 1);
    case Unicode(h) => UnicodeComplete(js, i, h);
    case Surrogates(hi, lo) =>
      FourDigits(hi);
      FourDigits(lo);
      SurrogatesComplete(js, i, hi, lo);
  }

  lemma UnicodeComplete(js: bytes, i: nat, h: bytes)
    requires IsPiece(Unicode(h)) && At(js, i, PieceText(Unicode(h)))
    ensures i < |js| && PieceEnd(js, i) == Some(i + |PieceText(Unicode(h))|)
  {
    hide At, IsHex4;
    FourDigits(h);
    AtConcat(js, i, [0x5C, 0x75], h);
    AtIs(js, i, [0x5C, 0x75]);
    AtIndex(js, i, [0x5C, 0x75], 0);
    AtIndex(js, i, [0x5C, 0x75], 1);
    AtIs(js, i + 2, h);
  }

  lemma FourDigits(h: bytes)
    requires IsHex4(h)
    ensures |h| == 4
  {
  }

  lemma SurrogatesParts(js: bytes, i: nat, hi: bytes, lo: bytes)
    requires IsHex4(hi) && IsHex4(lo) && At(js, i, PieceText(Surrogates(hi, lo)))
    ensures i + 12 <= |js| && js[i] == 0x5C && js[i + 1] == 0x75 && js[i + 6] == 0x5C && js[i + 7] == 0x75
    ensures js[i + 2..i + 6] == hi && js[i + 8..i + 12] == lo && |PieceText(Surrogates(hi, lo))| == 12
  {
    hide At, IsHex4;
    FourDigits(hi);
    FourDigits(lo);
    AtConcat(js, i, [0x5C, 0x75] + hi + [0x5C, 0x75], lo);
    AtConcat(js, i, [0x5C, 0x75] + hi, [0x5C, 0x75]);
    AtConcat(js, i, [0x5C, 0x75], hi);
    AtIndex(js, i, [0x5C, 0x75], 0);
    AtIndex(js, i, [0x5C, 0x75], 1);
    AtIndex(js, i + 6, [0x5C, 0x75], 0);
    AtIndex(js, i + 6, [0x5C, 0x75], 1);
    AtIs(js, i + 2, hi);
    AtIs(js, i + 8, lo);
  }

  lemma SurrogatesComplete(js: bytes, i: nat, hi: bytes, lo: bytes)
    requires IsPiece(Surrogates(hi, lo)) && At(js, i, PieceText(Surrogates(hi, lo)))
    ensures i < |js| && PieceEnd(js, i) == Some(i + 12)
  {
    hide At, IsHex4;
    SurrogatesParts(js, i, hi, lo);
  }

  /** Every accepted string is a string of the grammar. */
  lemma {:induction false} StringSound(js: bytes, i: nat) returns (ps: seq<Piece>)
    requires StringEnd(js, i).Some?
    ensures ArePieces(ps) && At(js, i, StringText(ps)) && StringEnd(js, i) == Some(i + |StringText(ps)|)
    decreases |js| - i
  {
    hide At, IsPiece, PieceText;
    if js[i] == 0x22 {
      ps := [];
      AtEmpty(js, i);
    } else {
      PieceSound(js, i);
      var p := PieceAt(js, i);
      var rest := StringSound(js, i + |PieceText(p)|);
      ps := [p] + rest;
      assert ps[1..] == rest;
      AtConcat(js, i, PieceText(p), StringText(rest));
    }
  }

  /** Every string of the grammar is accepted, and its end is found. */
  lemma {:induction false} StringComplete(js: bytes, i: nat, ps: seq<Piece>)
    requires ArePieces(ps) && At(js, i, StringText(ps))
    requires var e := i + |StringText(ps)|; e < |js| && js[e] == 0x22
    ensures StringEnd(js, i) == Some(i + |StringText(ps)|)
    decreases |ps|
  {
    hide At, IsPiece, PieceText, PieceEnd;
    if ps != [] {
      var head := PieceText(ps[0]);
      var tail := ps[1..];
      AtConcat(js, i, head, StringText(tail));
      PieceComplete(js, i, ps[0]);
      StringComplete(js, i + |head|, tail);
    }
  }

  // ----- numbers and words -----

  /** is_delimiter. */
  predicate IsDelimiter(js: bytes, at: nat) {
    at >= |js| || IsSpace(js[at]) || js[at] == 0x2C || js[at] == 0x5D || js[at] == 0x7D
  }

  function DigitsEnd(js: bytes, i: nat): (e: nat)
    requires i <= |js|
    ensures i <= e <= |js| && (i < |js| && IsDigit(js[i]) ==> i < e)
    decreases |js| - i
  {
    if i < |js| && IsDigit(js[i]) then DigitsEnd(js, i + 1) else i
  }

  lemma {:induction false} DigitsEndSound(js: bytes, i: nat)
    requires i <= |js|
    ensures AreDigits(js[i..DigitsEnd(js, i)])
    decreases |js| - i
  {
    if i < |js| && IsDigit(js[i]) {
      var e := DigitsEnd(js, i + 1);
      DigitsEndSound(js, i + 1);
      assert js[i..e] == [js[i]] + js[i + 1..e];
    }
  }

  lemma {:induction false} DigitsEndIs(js: bytes, i: nat, d: bytes)
    requires AreDigits(d) && At(js, i, d) && (i + |d| < |js| ==> !IsDigit(js[i + |d|]))
    ensures DigitsEnd(js, i) == i + |d|
    decreases |d|
  {
    hide At;
    AtIs(js, i, d);
    if d != [] {
      AtIndex(js, i, d, 0);
      assert d == [d[0]] + d[1..];
      AtConcat(js, i, [d[0]], d[1..]);
      DigitsEndIs(js, i + 1, d[1..]);
    }
  }

  function WholeEnd(js: bytes, i: nat): (r: Option<nat>)
    requires i <= |js|
    ensures r.Some? ==> i < r.value <= |js|
  {
    if i >= |js| || !IsDigit(js[i]) then None
    else if js[i] == 0x30 then
      if i + 1 < |js| && IsDigit(js[i + 1]) then None else Some(i + 1)
    else Some(DigitsEnd(js, i))
  }

  function FracEnd(js: bytes, i: nat): (r: Option<nat>)
    requires i <= |js|
    ensures r.Some? ==> i <= r.value <= |js|
  {
    if i >= |js| || js[i] != 0x2E then Some(i)
    else if i + 1 >= |js| || !IsDigit(js[i + 1]) then None
    else Some(DigitsEnd(js, i + 1))
  }

  predicate IsSign(js: bytes, i: nat) { i < |js| && (js[i] == 0x2B || js[i] == 0x2D) }

  function ExpEnd(js: bytes, i: nat): (r: Option<nat>)
    requires i <= |js|
    ensures r.Some? ==> i <= r.value <= |js|
  {
    if i >= |js| || (js[i] != 0x65 && js[i] != 0x45) then Some(i)
    else
      var k := if IsSign(js, i + 1) then i + 2 else i + 1;
      if k >= |js| || !IsDigit(js[k]) then None else Some(DigitsEnd(js, k))
  }

  /** The index after the number at i, provided a delimiter follows it. */
  function NumberEnd(js: bytes, i: nat): (r: Option<nat>)
    requires i <= |js|
    ensures r.Some? ==> i < r.value <= |js|
  {
    var w := WholeEnd(js, SkipMinus(js, i));
    if w.None? then None else NumberTailEnd(js, w.value)
  }

  function SkipMinus(js: bytes, i: nat): (m: nat)
    requires i <= |js|
    ensures i <= m <= |js|
  {
    if i < |js| && js[i] == 0x2D then i + 1 else i
  }

  function NumberTailEnd(js: bytes, w: nat): (r: Option<nat>)
    requires w <= |js|
    ensures r.Some? ==> w <= r.value <= |js|
  {
    var f := FracEnd(js, w);
    if f.None? then None else
    var e := ExpEnd(js, f.value);
    if e.None? || !IsDelimiter(js, e.value) then None else e
  }

  method SkipDigits(js: bytes, from: nat) returns (i: nat)
    requires from < |js| && IsDigit(js[from])
    ensures i == DigitsEnd(js, from)
  {
    i := from + 1;
    while i < |js| && IsDigit(js[i])
      invariant from < i <= |js|
      invariant DigitsEnd(js, i) == DigitsEnd(js, from)
    {
      i := i + 1;
    }
  }

  /** The three parts of scan_number, in order. */
  method ScanWhole(js: bytes, at: nat) returns (r: Option<nat>)
    requires at <= |js|
    ensures r == WholeEnd(js, at)
  {
    if at >= |js| { return None; }
    if js[at] == 0x30 {
      if at + 1 < |js| && IsDigit(js[at + 1]) { return None; }
      return Some(at + 1);
    } else if 0x31 <= js[at] <= 0x39 {
      var i := SkipDigits(js, at);
      return Some(i);
    }
    return None;
  }

  method ScanFrac(js: bytes, at: nat) returns (r: Option<nat>)
    requires at <= |js|
    ensures r == FracEnd(js, at)
  {
    if at < |js| && js[at] == 0x2E {
      if at + 1 >= |js| || !IsDigit(js[at + 1]) { return None; }
      var i := SkipDigits(js, at + 1);
      return Some(i);
    }
    return Some(at);
  }

  method ScanExp(js: bytes, at: nat) returns (r: Option<nat>)
    requires at <= |js|
    ensures r == ExpEnd(js, at)
  {
    if at < |js| && (js[at] == 0x65 || js[at] == 0x45) {
      var i := at + 1;
      if i < |js| && (js[i] == 0x2B || js[i] == 0x2D) { i := i + 1; }
      if i >= |js| || !IsDigit(js[i]) { return None; }
      i := SkipDigits(js, i);
      return Some(i);
    }
    return Some(at);
  }

  /** scan_number. */
  method ScanNumber(js: bytes, at: nat) returns (r: Option<nat>)
    requires at <= |js|
    ensures r == NumberEnd(js, at)
  {
    r := ScanWhole(js, SkipMinus(js, at));
    if r.None? { return; }
    r := ScanFrac(js, r.value);
    if r.None? { return; }
    r := ScanExp(js, r.value);
    if r.Some? && !IsDelimiter(js, r.value) { r := None; }
  }

  lemma WholeSound(js: bytes, i: nat)
    requires i <= |js| && WholeEnd(js, i).Some?
    ensures var e := WholeEnd(js, i).value;
            i < e <= |js| && AreDigits(js[i..e]) && (js[i] == 0x30 ==> e == i + 1)
  {
    DigitsEndSound(js, i);
    AtByte(js, i);
  }

  lemma FracSound(js: bytes, i: nat) returns (frac: Option<bytes>)
    requires i <= |js| && FracEnd(js, i).Some?
    ensures frac.Some? ==> frac.value != [] && AreDigits(frac.value)
    ensures var t := if frac.Some? then [0x2E] + frac.value else [];
            At(js, i, t) && FracEnd(js, i) == Some(i + |t|)
  {
    hide At, AreDigits;
    var e := FracEnd(js, i).value;
    if i >= |js| || js[i] != 0x2E {
      frac := None;
      AtEmpty(js, i);
    } else {
      DigitsEndSound(js, i + 1);
      frac := Some(js[i + 1..e]);
      AtByte(js, i);
      AtSlice(js, i + 1, e);
      AtConcat(js, i, [0x2E], js[i + 1..e]);
    }
  }

  lemma ExpSound(js: bytes, i: nat) returns (exp: Option<Exponent>)
    requires i <= |js| && ExpEnd(js, i).Some?
    ensures exp.Some? ==>
              && (exp.value.e == 0x65 || exp.value.e == 0x45)
              && (exp.value.sign == [] || exp.value.sign == [0x2B] || exp.value.sign == [0x2D])
              && exp.value.digits != [] && AreDigits(exp.value.digits)
    ensures var t := if exp.Some? then [exp.value.e] + exp.value.sign + exp.value.digits else [];
            At(js, i, t) && ExpEnd(js, i) == Some(i + |t|)
  {
    hide At, AreDigits;
    var e := ExpEnd(js, i).value;
    if i >= |js| || (js[i] != 0x65 && js[i] != 0x45) {
      exp := None;
      AtEmpty(js, i);
    } else {
      var k := if IsSign(js, i + 1) then i + 2 else i + 1;
      var sign := if IsSign(js, i + 1) then [js[i + 1]] else [];
      DigitsEndSound(js, k);
      exp := Some(Exponent(js[i], sign, js[k..e]));
      AtByte(js, i);
      if IsSign(js, i + 1) { AtByte(js, i + 1); } else { AtEmpty(js, i + 1); }
      AtConcat(js, i, [js[i]], sign);
      AtSlice(js, k, e);
      AtConcat(js, i, [js[i]] + sign, js[k..e]);
    }
  }

  lemma NumberSound(js: bytes, i: nat) returns (n: Number)
    requires i <= |js| && NumberEnd(js, i).Some?
    ensures IsNumber(n) && At(js, i, NumberText(n)) && NumberEnd(js, i) == Some(i + |NumberText(n)|)
  {
    hide At, NumberTailEnd, FracText, ExpText, IsNumber;
    var m := SkipMinus(js, i);
    var w := WholeEnd(js, m).value;
    WholeSound(js, m);
    n := NumberTailSound(js, w, m > i, js[m..w]);
    if m > i { AtByte(js, i); } else { AtEmpty(js, i); }
    AtSlice(js, m, w);
    NumberParts(js, i, n);
  }

  lemma NumberTailSound(js: bytes, w: nat, minus: bool, whole: bytes) returns (n: Number)
    requires w <= |js| && NumberTailEnd(js, w).Some?
    requires whole != [] && AreDigits(whole) && (whole[0] == 0x30 ==> |whole| == 1)
    ensures IsNumber(n) && n.minus == minus && n.whole == whole
    ensures At(js, w, FracText(n)) && At(js, w + |FracText(n)|, ExpText(n))
    ensures NumberTailEnd(js, w) == Some(w + |FracText(n)| + |ExpText(n)|)
  {
    hide At, AreDigits, FracEnd, ExpEnd;
    var frac := FracSound(js, w);
    var exp := ExpSound(js, FracEnd(js, w).value);
    n := Number(minus, whole, frac, exp);
  }

  lemma FracComplete(js: bytes, i: nat, n: Number)
    requires IsNumber(n) && At(js, i, FracText(n))
    requires var e := i + |FracText(n)|; e < |js| ==> !IsDigit(js[e]) && js[e] != 0x2E
    ensures FracEnd(js, i) == Some(i + |FracText(n)|)
  {
    hide At;
    AtIs(js, i, FracText(n));
    if n.frac.Some? {
      AtIndex(js, i, FracText(n), 0);
      AtIndex(js, i, FracText(n), 1);
      AtConcat(js, i, [0x2E], n.frac.value);
      DigitsEndIs(js, i + 1, n.frac.value);
    }
  }

  lemma ExpComplete(js: bytes, i: nat, n: Number)
    requires IsNumber(n) && At(js, i, ExpText(n)) && IsDelimiter(js, i + |ExpText(n)|)
    ensures ExpEnd(js, i) == Some(i + |ExpText(n)|)
  {
    hide At;
    AtIs(js, i, ExpText(n));
    if n.exp.Some? {
      var x := n.exp.value;
      AtConcat(js, i, [x.e] + x.sign, x.digits);
      AtConcat(js, i, [x.e], x.sign);
      AtIndex(js, i, [x.e], 0);
      var k := i + 1 + |x.sign|;
      AtIndex(js, k, x.digits, 0);
      if x.sign != [] { AtIndex(js, i + 1, x.sign, 0); }
      assert k == if IsSign(js, i + 1) then i + 2 else i + 1;
      DigitsEndIs(js, k, x.digits);
    }
  }

  lemma WholeComplete(js: bytes, i: nat, n: Number)
    requires IsNumber(n) && At(js, i, n.whole)
    requires var e := i + |n.whole|; e < |js| ==> !IsDigit(js[e])
    ensures i < |js| && js[i] != 0x2D && WholeEnd(js, i) == Some(i + |n.whole|)
  {
    hide At;
    AtIs(js, i, n.whole);
    AtIndex(js, i, n.whole, 0);
    DigitsEndIs(js, i, n.whole);
  }

  lemma NumberComplete(js: bytes, i: nat, n: Number)
    requires IsNumber(n) && At(js, i, NumberText(n)) && IsDelimiter(js, i + |NumberText(n)|)
    ensures NumberEnd(js, i) == Some(i + |NumberText(n)|)
  {
    hide At, IsNumber;
    NumberParts(js, i, n);
    NumberFromParts(js, i, n, i + |MinusText(n)|, i + |MinusText(n)| + |n.whole|);
  }

  lemma NumberFromParts(js: bytes, i: nat, n: Number, m: nat, w: nat)
    requires IsNumber(n) && m == i + |MinusText(n)| && w == m + |n.whole|
    requires At(js, i, MinusText(n)) && At(js, m, n.whole) && At(js, w, FracText(n))
    requires At(js, w + |FracText(n)|, ExpText(n)) && IsDelimiter(js, w + |FracText(n)| + |ExpText(n)|)
    ensures NumberEnd(js, i) == Some(w + |FracText(n)| + |ExpText(n)|)
  {
    hide At, IsNumber, FracText, ExpText, WholeEnd, NumberTailEnd;
    NumberTailComplete(js, w, n);
    WholeComplete(js, m, n);
    if n.minus { AtIndex(js, i, MinusText(n), 0); }
    assert SkipMinus(js, i) == m;
  }

  lemma NumberTailComplete(js: bytes, w: nat, n: Number)
    requires IsNumber(n) && At(js, w, FracText(n))
    requires At(js, w + |FracText(n)|, ExpText(n)) && IsDelimiter(js, w + |FracText(n)| + |ExpText(n)|)
    ensures NumberTailEnd(js, w) == Some(w + |FracText(n)| + |ExpText(n)|)
    ensures w < |js| ==> !IsDigit(js[w])
  {
    hide At, FracEnd, ExpEnd;
    var f := w + |FracText(n)|;
    ExpComplete(js, f, n);
    if n.exp.Some? { AtIndex(js, f, ExpText(n), 0); }
    FracComplete(js, w, n);
    if n.frac.Some? { AtIndex(js, w, FracText(n), 0); }
  }

  lemma NumberParts(js: bytes, i: nat, n: Number)
    ensures var m := i + |MinusText(n)|; var w := m + |n.whole|; var f := w + |FracText(n)|;
            At(js, i, NumberText(n)) <==>
            At(js, i, MinusText(n)) && At(js, m, n.whole) && At(js, w, FracText(n)) && At(js, f, ExpText(n))
  {
    hide At;
    AtConcat(js, i, MinusText(n) + n.whole + FracText(n), ExpText(n));
    AtConcat(js, i, MinusText(n) + n.whole, FracText(n));
    AtConcat(js, i, MinusText(n), n.whole);
  }

  /** The index after the number or word at i. */
  function PrimitiveEnd(js: bytes, i: nat): (r: Option<nat>)
    requires i < |js|
    ensures r.Some? ==> i < r.value <= |js|
  {
    var r :=
      if i + 4 <= |js| && js[i..i + 4] == TRUE then Some(i + 4)
      else if i + 5 <= |js| && js[i..i + 5] == FALSE then Some(i + 5)
      else if i + 4 <= |js| && js[i..i + 4] == NULL then Some(i + 4)
      else NumberEnd(js, i);
    if r.Some? && IsDelimiter(js, r.value) then r else None
  }

  /** The scanning half of token_primitive. */
  method ScanPrimitive(js: bytes, start: nat) returns (r: Option<nat>)
    requires start < |js|
    ensures r == PrimitiveEnd(js, start)
  {
    var at := start;
    assert start + 4 <= |js| ==> js[start..start + 4][0] == js[start];
    assert start + 5 <= |js| ==> js[start..start + 5][0] == js[start];
    if js[start] == 0x74 && |js| - start >= 4 && js[start..start + 4] == TRUE {
      at := at + 4;
    } else if js[start] == 0x66 && |js| - start >= 5 && js[start..start + 5] == FALSE {
      at := at + 5;
    } else if js[start] == 0x6E && |js| - start >= 4 && js[start..start + 4] == NULL {
      at := at + 4;
    } else {
      var n := ScanNumber(js, at);
      if n.None? { return None; }
      at := n.value;
    }
    if !IsDelimiter(js, at) { return None; }
    return Some(at);
  }

  predicate IsPrimitive(v: Value) { v.Num? || v.Lit? }

  lemma PrimitiveSound(js: bytes, i: nat) returns (v: Value)
    requires i < |js| && PrimitiveEnd(js, i).Some?
    ensures IsValue(v) && IsPrimitive(v) && At(js, i, ValueText(v))
    ensures PrimitiveEnd(js, i) == Some(i + |ValueText(v)|)
  {
    if i + 4 <= |js| && js[i..i + 4] == TRUE {
      v := Lit(True);
    } else if i + 5 <= |js| && js[i..i + 5] == FALSE {
      v := Lit(False);
    } else if i + 4 <= |js| && js[i..i + 4] == NULL {
      v := Lit(Null);
    } else {
      var n := NumberSound(js, i);
      v := Num(n);
    }
  }

  /** A primitive is non-empty and starts with none of the characters that start something else. */
  lemma PrimitiveStart(v: Value)
    requires IsValue(v) && IsPrimitive(v)
    ensures var t := ValueText(v);
            && t != [] && t[0] != 0x22 && t[0] != 0x7B && t[0] != 0x5B && t[0] != 0x5D && t[0] != 0x7D
            && !IsSpace(t[0]) && (v.Num? ==> t[0] != 0x74 && t[0] != 0x66 && t[0] != 0x6E)
  {
  }

  lemma PrimitiveComplete(js: bytes, i: nat, v: Value)
    requires IsValue(v) && IsPrimitive(v) && At(js, i, ValueText(v)) && IsDelimiter(js, i + |ValueText(v)|)
    ensures i < |js| && PrimitiveEnd(js, i) == Some(i + |ValueText(v)|)
  {
    hide At, NumberEnd, IsNumber, NumberText;
    PrimitiveStart(v);
    AtIs(js, i, ValueText(v));
    AtIndex(js, i, ValueText(v), 0);
    assert i + 4 <= |js| ==> js[i..i + 4][0] == js[i];
    assert i + 5 <= |js| ==> js[i..i + 5][0] == js[i];
    if v.Num? { NumberComplete(js, i, v.number); }
  }
}
