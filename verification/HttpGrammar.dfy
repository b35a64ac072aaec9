/** The heads of HTTP/1 requests as a grammar (sections 3 and 5 of RFC 9112), and the parser as its recogniser. */
module HttpGrammar {
  import opened Bytes
  import opened Http
  import opened HttpFraming
  import opened HttpParser
  import HttpStream

  const SP: byte := 0x20
  const COLON: byte := 0x3A
  const CRLF: bytes := [CR, LF]

  // ----- the grammar -----

  /** field-line = field-name ":" OWS field-value OWS CRLF, with what the two OWS are. */
  datatype FieldLine = FieldLine(name: bytes, lead: bytes, value: bytes, trail: bytes)

  predicate AllBlank(s: bytes) { forall k :: 0 <= k < |s| ==> IsBlank(s[k]) }

  predicate AreTokenChars(s: bytes) { forall k :: 0 <= k < |s| ==> IsTokenChar(s[k]) }

  predicate AreValueChars(s: bytes) { forall k :: 0 <= k < |s| ==> !BadValueChar(s[k]) }

  /** A value neither starts nor ends with a blank; the blanks of an empty one count as leading. */
  predicate IsFieldLine(f: FieldLine) {
    && f.name != [] && AreTokenChars(f.name) && AllBlank(f.lead) && AllBlank(f.trail) && AreValueChars(f.value)
    && if f.value == [] then f.trail == [] else !IsBlank(f.value[0]) && !IsBlank(f.value[|f.value| - 1])
  }

  function FieldText(f: FieldLine): bytes { f.name + ([COLON] + (f.lead + (f.value + (f.trail + CRLF)))) }

  function FieldsText(fs: seq<FieldLine>): bytes { if fs == [] then [] else FieldText(fs[0]) + FieldsText(fs[1..]) }

  function HeaderOf(f: FieldLine): Header { Header(f.name, f.value) }

  function HeadersOf(fs: seq<FieldLine>): (hs: seq<Header>)
    ensures |hs| == |fs| && forall k :: 0 <= k < |fs| ==> hs[k] == HeaderOf(fs[k])
  {
    seq(|fs|, k requires 0 <= k < |fs| => HeaderOf(fs[k]))
  }

  /** request-line CRLF *( field-line CRLF ) CRLF. */
  datatype HeadTree = HeadTree(method_: bytes, target: bytes, minor: nat, fields: seq<FieldLine>)

  function LineText(method_: bytes, target: bytes, minor: nat): bytes
    requires minor <= 1
  {
    method_ + ([SP] + (target + ([SP] + (HTTP_1 + ([0x30 + minor] + CRLF)))))
  }

  function HeadText(t: HeadTree): bytes
    requires t.minor <= 1
  {
    LineText(t.method_, t.target, t.minor) + (FieldsText(t.fields) + CRLF)
  }

  /** origin-form or asterisk-form, without a fragment. */
  predicate IsTarget(t: bytes) {
    0 < |t| < MAX_PATH && (t[0] == 0x2F || t == [0x2A]) && forall k :: 0 <= k < |t| ==> !BadTargetChar(t[k])
  }

  predicate IsLine(method_: bytes, target: bytes, minor: nat) {
    0 < |method_| < MAX_METHOD && AreTokenChars(method_) && IsTarget(target) && minor <= 1
  }

  // ----- which headers a request may have -----

  predicate Named(hs: seq<Header>, i: nat, name: bytes)
    requires i < |hs|
  {
    SameButCase(hs[i].name, name)
  }

  predicate AtMostOnce(hs: seq<Header>, name: bytes) {
    forall i, j :: 0 <= i < j < |hs| ==> !(Named(hs, i, name) && Named(hs, j, name))
  }

  /** No singleton field twice, and usable values of Host and Content-Length. */
  predicate WellFormed(hs: seq<Header>) {
    && AtMostOnce(hs, HOST) && AtMostOnce(hs, CONTENT_LENGTH) && AtMostOnce(hs, AUTHORIZATION)
    && AtMostOnce(hs, CONTENT_TYPE) && AtMostOnce(hs, EXPECT)
    && (forall i :: 0 <= i < |hs| && Named(hs, i, HOST) ==> HostValid(hs[i].value))
    && forall i :: 0 <= i < |hs| && Named(hs, i, CONTENT_LENGTH) ==> ContentLength(hs[i].value).Some?
  }

  /** HTTP/1.1 demands a Host, and no request of this server has a Transfer-Encoding. */
  predicate Suffices(hs: seq<Header>, minor: nat) {
    && (minor == 1 ==> exists i :: 0 <= i < |hs| && Named(hs, i, HOST))
    && forall i :: 0 <= i < |hs| ==> !Named(hs, i, TRANSFER_ENCODING)
  }

  predicate AreFieldLines(fs: seq<FieldLine>) { forall k :: 0 <= k < |fs| ==> IsFieldLine(fs[k]) }

  predicate IsHead(t: HeadTree) {
    && IsLine(t.method_, t.target, t.minor) && AreFieldLines(t.fields) && |t.fields| <= MAX_HEADERS
    && WellFormed(HeadersOf(t.fields)) && Suffices(HeadersOf(t.fields), t.minor)
  }

  function HeadOf(t: HeadTree): Head
    requires t.minor <= 1
  {
    Head(Line(t.method_, t.target, t.minor, |LineText(t.method_, t.target, t.minor)|), HeadersOf(t.fields), |HeadText(t)|)
  }

  // ----- the scans -----

  predicate Tokens(buf: bytes, i: nat, j: nat)
    requires j <= |buf|
  {
    forall k :: i <= k < j ==> IsTokenChar(buf[k])
  }

  predicate Blanks(buf: bytes, i: nat, j: nat)
    requires j <= |buf|
  {
    forall k :: i <= k < j ==> IsBlank(buf[k])
  }

  predicate Values(buf: bytes, i: nat, j: nat)
    requires j <= |buf|
  {
    forall k :: i <= k < j ==> !BadValueChar(buf[k])
  }

  lemma {:induction false} TokenEndIs(buf: bytes, i: nat, e: nat)
    requires i <= e <= |buf| && Tokens(buf, i, e) && (e < |buf| ==> !IsTokenChar(buf[e]))
    ensures TokenEnd(buf, i) == e
    decreases e - i
  {
    if i < e { TokenEndIs(buf, i + 1, e); }
  }

  lemma {:induction false} TokenEndAll(buf: bytes, i: nat)
    requires i <= |buf|
    ensures Tokens(buf, i, TokenEnd(buf, i))
    decreases |buf| - i
  {
    hide IsTokenChar;
    if i < |buf| && IsTokenChar(buf[i]) { TokenEndAll(buf, i + 1); }
  }

  lemma {:induction false} TargetEndIs(buf: bytes, i: nat, e: nat)
    requires i <= e < |buf| && (forall k :: i <= k < e ==> !BadTargetChar(buf[k])) && buf[e] == SP
    ensures TargetEnd(buf, i) == Some(e)
    decreases e - i
  {
    if i < e {
      assert !BadTargetChar(buf[i]);
      TargetEndIs(buf, i + 1, e);
    }
  }

  lemma {:induction false} TargetEndAll(buf: bytes, i: nat)
    requires TargetEnd(buf, i).Some?
    ensures forall k :: i <= k < TargetEnd(buf, i).value ==> !BadTargetChar(buf[k])
    decreases |buf| - i
  {
    if buf[i] != SP { TargetEndAll(buf, i + 1); }
  }

  lemma {:induction false} NameEndIs(buf: bytes, i: nat, e: nat)
    requires i <= e < |buf| && Tokens(buf, i, e) && buf[e] == COLON
    ensures NameEnd(buf, i) == Some(e)
    decreases e - i
  {
    if i < e {
      assert IsTokenChar(buf[i]);
      NameEndIs(buf, i + 1, e);
    }
  }

  lemma {:induction false} NameEndAll(buf: bytes, i: nat)
    requires NameEnd(buf, i).Some?
    ensures Tokens(buf, i, NameEnd(buf, i).value)
    decreases |buf| - i
  {
    hide IsTokenChar;
    if buf[i] != COLON { NameEndAll(buf, i + 1); }
  }

  lemma {:induction false} SkipBlankIs(buf: bytes, i: nat, e: nat)
    requires i <= e <= |buf| && Blanks(buf, i, e) && (e < |buf| ==> !IsBlank(buf[e]))
    ensures SkipBlank(buf, i) == e
    decreases e - i
  {
    if i < e { SkipBlankIs(buf, i + 1, e); }
  }

  lemma {:induction false} SkipBlankAll(buf: bytes, i: nat)
    requires i <= |buf|
    ensures var e := SkipBlank(buf, i); Blanks(buf, i, e) && (e < |buf| ==> !IsBlank(buf[e]))
    decreases |buf| - i
  {
    hide IsBlank;
    if i < |buf| && IsBlank(buf[i]) { SkipBlankAll(buf, i + 1); }
  }

  lemma {:induction false} ValueEndIs(buf: bytes, i: nat, e: nat)
    requires i <= e < |buf| && Values(buf, i, e) && buf[e] == CR
    ensures ValueEnd(buf, i) == Some(e)
    decreases e - i
  {
    if i < e {
      assert !BadValueChar(buf[i]);
      ValueEndIs(buf, i + 1, e);
    }
  }

  lemma {:induction false} ValueEndAll(buf: bytes, i: nat)
    requires i <= |buf| && ValueEnd(buf, i).Some?
    ensures Values(buf, i, ValueEnd(buf, i).value)
    decreases |buf| - i
  {
    if i < |buf| && buf[i] != CR && buf[i] != LF { ValueEndAll(buf, i + 1); }
  }

  lemma {:induction false} TrimmedIs(value: bytes, trail: bytes)
    requires AllBlank(trail) && (value != [] ==> !IsBlank(value[|value| - 1])) && (value == [] ==> trail == [])
    ensures Trimmed(value + trail) == value
    decreases |trail|
  {
    if trail == [] {
      assert value + trail == value;
    } else {
      var v := value + trail;
      assert v[..|v| - 1] == value + trail[..|trail| - 1];
      assert v[|v| - 1] == trail[|trail| - 1];
      TrimmedIs(value, trail[..|trail| - 1]);
    }
  }

  lemma {:induction false} TrimmedRest(v: bytes)
    ensures AllBlank(v[|Trimmed(v)|..]) && (v != [] && !IsBlank(v[0]) ==> Trimmed(v) != [])
    decreases |v|
  {
    if v != [] && IsBlank(v[|v| - 1]) {
      var w := v[..|v| - 1];
      TrimmedRest(w);
      var n := |Trimmed(v)|;
      forall k | 0 <= k < |v| - n ensures IsBlank(v[n..][k]) {
        if n + k < |w| { assert w[n..][k] == v[n + k]; }
      }
    }
  }

  // ----- field lines -----

  /** Where the parts of a field line are. */
  lemma FieldParts(buf: bytes, p: nat, f: FieldLine)
    ensures At(buf, p, FieldText(f)) <==>
            var c := p + |f.name|;
            var v := c + 1 + |f.lead|;
            var e := v + |f.value| + |f.trail|;
            At(buf, p, f.name) && At(buf, c, [COLON]) && At(buf, c + 1, f.lead) && At(buf, v, f.value)
            && At(buf, v + |f.value|, f.trail) && At(buf, e, CRLF)
    ensures |FieldText(f)| == |f.name| + |f.lead| + |f.value| + |f.trail| + 3
  {
    hide At;
    var c := p + |f.name|;
    var v := c + 1 + |f.lead|;
    AtConcat(buf, p, f.name, [COLON] + (f.lead + (f.value + (f.trail + CRLF))));
    AtConcat(buf, c, [COLON], f.lead + (f.value + (f.trail + CRLF)));
    AtConcat(buf, c + 1, f.lead, f.value + (f.trail + CRLF));
    AtConcat(buf, v, f.value, f.trail + CRLF);
    AtConcat(buf, v + |f.value|, f.trail, CRLF);
  }

  /** A field line at p: its colon is at c, its value between v and t, its CRLF at e. */
  predicate LineAt(buf: bytes, p: nat, c: nat, v: nat, t: nat, e: nat) {
    && p < c < v <= t <= e < |buf| && buf[c] == COLON && CrlfAt(buf, e)
    && Tokens(buf, p, c) && Blanks(buf, c + 1, v) && Values(buf, v, t) && Blanks(buf, t, e)
    && if v == t then t == e else !IsBlank(buf[v]) && !IsBlank(buf[t - 1])
  }

  lemma CharsAt(buf: bytes, i: nat, j: nat)
    requires i <= j <= |buf|
    ensures Tokens(buf, i, j) <==> AreTokenChars(buf[i..j])
    ensures Blanks(buf, i, j) <==> AllBlank(buf[i..j])
    ensures Values(buf, i, j) <==> AreValueChars(buf[i..j])
  {
    hide IsTokenChar, IsBlank, BadValueChar;
    var s := buf[i..j];
    forall k | i <= k < j ensures s[k - i] == buf[k] {}
  }

  lemma FieldShape(buf: bytes, p: nat, f: FieldLine)
    requires IsFieldLine(f) && At(buf, p, FieldText(f))
    ensures var c := p + |f.name|;
            var v := c + 1 + |f.lead|;
            var t := v + |f.value|;
            var e := t + |f.trail|;
            LineAt(buf, p, c, v, t, e) && f == FieldLine(buf[p..c], buf[c + 1..v], buf[v..t], buf[t..e])
  {
    hide IsTokenChar, IsBlank, BadValueChar, FieldText, Tokens, Blanks, Values, AreTokenChars, AllBlank, AreValueChars;
    FieldParts(buf, p, f);
    var c := p + |f.name|;
    var v := c + 1 + |f.lead|;
    var t := v + |f.value|;
    var e := t + |f.trail|;
    CharsAt(buf, p, c);
    CharsAt(buf, c + 1, v);
    CharsAt(buf, v, t);
    CharsAt(buf, t, e);
    CrlfIsAt(buf, e);
    assert buf[c..c + 1] == [buf[c]];
    assert v < t ==> buf[v..t][0] == buf[v] && buf[v..t][t - v - 1] == buf[t - 1];
  }

  lemma ShapeField(buf: bytes, p: nat, c: nat, v: nat, t: nat, e: nat)
    requires LineAt(buf, p, c, v, t, e)
    ensures var f := FieldLine(buf[p..c], buf[c + 1..v], buf[v..t], buf[t..e]); IsFieldLine(f) && At(buf, p, FieldText(f))
  {
    hide IsTokenChar, IsBlank, BadValueChar, FieldText, Tokens, Blanks, Values, AreTokenChars, AllBlank, AreValueChars, At;
    var f := FieldLine(buf[p..c], buf[c + 1..v], buf[v..t], buf[t..e]);
    FieldParts(buf, p, f);
    CharsAt(buf, p, c);
    CharsAt(buf, c + 1, v);
    CharsAt(buf, v, t);
    CharsAt(buf, t, e);
    CrlfIsAt(buf, e);
    AtSlice(buf, p, c);
    AtByte(buf, c);
    AtSlice(buf, c + 1, v);
    AtSlice(buf, v, t);
    AtSlice(buf, t, e);
    assert v < t ==> buf[v..t][0] == buf[v] && buf[v..t][t - v - 1] == buf[t - 1];
  }

  /** Blanks may stand in a value. */
  lemma TrailValues(buf: bytes, v: nat, t: nat, e: nat)
    requires v <= t <= e <= |buf| && Values(buf, v, t) && Blanks(buf, t, e)
    ensures Values(buf, v, e)
  {
  }

  lemma LineParsed(buf: bytes, p: nat, c: nat, v: nat, t: nat, e: nat)
    requires LineAt(buf, p, c, v, t, e)
    ensures ParseField(buf, p) == Some(Field(Header(buf[p..c], buf[v..t]), e + 2)) && !CrlfAt(buf, p)
  {
    hide IsTokenChar, IsBlank, BadValueChar, Tokens, Blanks, Values, AllBlank, NameEnd, SkipBlank, ValueEnd, Trimmed;
    NameEndIs(buf, p, c);
    NotToken(buf, p, c);
    NotBlank(CR);
    SkipBlankIs(buf, c + 1, v);
    TrailValues(buf, v, t, e);
    ValueEndIs(buf, v, e);
    CharsAt(buf, t, e);
    assert buf[v..e] == buf[v..t] + buf[t..e];
    TrimmedIs(buf[v..t], buf[t..e]);
  }

  lemma NotToken(buf: bytes, p: nat, c: nat)
    requires p < c <= |buf| && Tokens(buf, p, c)
    ensures buf[p] != CR
  {
  }

  lemma NotBlank(c: byte)
    ensures IsBlank(c) <==> c == 0x20 || c == 0x09
  {
  }

  lemma ParsedLine(buf: bytes, p: nat) returns (c: nat, v: nat, t: nat, e: nat)
    requires ParseField(buf, p).Some?
    ensures LineAt(buf, p, c, v, t, e)
  {
    hide IsTokenChar, IsBlank, BadValueChar, Tokens, Blanks, Values, AllBlank, NameEnd, SkipBlank, ValueEnd, Trimmed;
    c := NameEnd(buf, p).value;
    NameEndAll(buf, p);
    SkipBlankAll(buf, c + 1);
    v := SkipBlank(buf, c + 1);
    ValueEndAll(buf, v);
    e := ValueEnd(buf, v).value;
    var raw := buf[v..e];
    TrimmedRest(raw);
    t := v + |Trimmed(raw)|;
    ValuesShorter(buf, v, t, e);
    assert raw[t - v..] == buf[t..e];
    CharsAt(buf, t, e);
    assert raw != [] ==> raw[0] == buf[v];
    assert t > v ==> raw[t - v - 1] == buf[t - 1];
  }

  lemma ValuesShorter(buf: bytes, v: nat, t: nat, e: nat)
    requires v <= t <= e <= |buf| && Values(buf, v, e)
    ensures Values(buf, v, t)
  {
  }

  lemma FieldComplete(buf: bytes, p: nat, f: FieldLine)
    requires IsFieldLine(f) && At(buf, p, FieldText(f))
    ensures ParseField(buf, p) == Some(Field(HeaderOf(f), p + |FieldText(f)|)) && !CrlfAt(buf, p)
  {
    hide IsFieldLine, At, LineAt, ParseField, CrlfAt;
    FieldShape(buf, p, f);
    FieldParts(buf, p, f);
    var c := p + |f.name|;
    var v := c + 1 + |f.lead|;
    LineParsed(buf, p, c, v, v + |f.value|, v + |f.value| + |f.trail|);
  }

  lemma FieldSound(buf: bytes, p: nat) returns (f: FieldLine)
    requires ParseField(buf, p).Some?
    ensures IsFieldLine(f) && At(buf, p, FieldText(f))
  {
    hide IsFieldLine, At, ParseField;
    var c, v, t, e := ParsedLine(buf, p);
    f := FieldLine(buf[p..c], buf[c + 1..v], buf[v..t], buf[t..e]);
    ShapeField(buf, p, c, v, t, e);
  }

  // ----- header conditions -----

  lemma NamedIs(hs: seq<Header>, i: nat, name: bytes)
    requires i < |hs|
    ensures Named(hs, i, name) == SameName(hs[i].name, name)
  {
    SameNameIs(hs[i].name, name);
  }

  lemma {:induction false} CountZero(hs: seq<Header>, name: bytes)
    ensures Count(hs, name) == 0 <==> forall i :: 0 <= i < |hs| ==> !Named(hs, i, name)
    decreases |hs|
  {
    hide SameName, SameButCase;
    if hs != [] {
      var front := hs[..|hs| - 1];
      CountZero(front, name);
      assert forall i :: 0 <= i < |front| ==> Named(front, i, name) == Named(hs, i, name);
      NamedIs(hs, |hs| - 1, name);
    }
  }

  lemma {:induction false} CountOne(hs: seq<Header>, name: bytes)
    requires AtMostOnce(hs, name)
    ensures Count(hs, name) <= 1
    decreases |hs|
  {
    hide SameName, SameButCase;
    if hs != [] {
      var front := hs[..|hs| - 1];
      assert forall i :: 0 <= i < |front| ==> Named(front, i, name) == Named(hs, i, name);
      CountOne(front, name);
      NamedIs(hs, |hs| - 1, name);
      if Named(hs, |hs| - 1, name) { CountZero(front, name); }
    }
  }

  lemma OnceMore(hs: seq<Header>, h: Header, name: bytes)
    ensures AtMostOnce(hs + [h], name) <==> AtMostOnce(hs, name) && (SameName(h.name, name) ==> Count(hs, name) == 0)
  {
    hide SameName, SameButCase;
    var all := hs + [h];
    CountZero(hs, name);
    assert forall i :: 0 <= i < |hs| ==> Named(all, i, name) == Named(hs, i, name);
    NamedIs(all, |hs|, name);
  }

  lemma ValuesMore(hs: seq<Header>, h: Header, name: bytes, good: bytes -> bool)
    ensures (forall i :: 0 <= i < |hs + [h]| && Named(hs + [h], i, name) ==> good((hs + [h])[i].value))
            <==> (forall i :: 0 <= i < |hs| && Named(hs, i, name) ==> good(hs[i].value)) && (SameName(h.name, name) ==> good(h.value))
  {
    hide SameName, SameButCase;
    var all := hs + [h];
    assert forall i :: 0 <= i < |hs| ==> Named(all, i, name) == Named(hs, i, name) && all[i] == hs[i];
    NamedIs(all, |hs|, name);
    assert all[|hs|] == h;
  }

  /** The header loop's test keeps the headers well-formed, and is passed by every header that does. */
  lemma AcceptableIs(hs: seq<Header>, h: Header)
    ensures WellFormed(hs + [h]) <==> WellFormed(hs) && Acceptable(hs, h)
  {
    hide SameName, AtMostOnce, HostValid, ContentLength, Named;
    OnceMore(hs, h, HOST);
    OnceMore(hs, h, CONTENT_LENGTH);
    OnceMore(hs, h, AUTHORIZATION);
    OnceMore(hs, h, CONTENT_TYPE);
    OnceMore(hs, h, EXPECT);
    ValuesMore(hs, h, HOST, HostValid);
    ValuesMore(hs, h, CONTENT_LENGTH, v => ContentLength(v).Some?);
    NamesDiffer(h.name);
  }

  lemma CompleteIs(hs: seq<Header>, minor: nat)
    requires WellFormed(hs)
    ensures Complete(hs, minor) <==> Suffices(hs, minor)
  {
    hide SameName, AtMostOnce, Named, HostValid, ContentLength;
    CountZero(hs, HOST);
    CountOne(hs, HOST);
    CountZero(hs, TRANSFER_ENCODING);
  }

  lemma {:induction false} WellFormedPrefix(hs: seq<Header>, k: nat)
    requires WellFormed(hs) && k <= |hs|
    ensures WellFormed(hs[..k])
    decreases |hs| - k
  {
    hide WellFormed;
    if k < |hs| {
      WellFormedPrefix(hs, k + 1);
      assert hs[..k + 1] == hs[..k] + [hs[k]];
      AcceptableIs(hs[..k], hs[k]);
    } else {
      assert hs[..k] == hs;
    }
  }

  // ----- all field lines -----

  lemma FieldsStep(buf: bytes, p: nat, fs: seq<FieldLine>)
    requires fs != []
    ensures var n := |FieldText(fs[0])|;
            At(buf, p, FieldsText(fs) + CRLF) <==> At(buf, p, FieldText(fs[0])) && At(buf, p + n, FieldsText(fs[1..]) + CRLF)
    ensures FieldsText(fs) == FieldText(fs[0]) + FieldsText(fs[1..])
    ensures HeadersOf(fs) == [HeaderOf(fs[0])] + HeadersOf(fs[1..])
  {
    hide At, FieldText;
    AtConcat(buf, p, FieldText(fs[0]), FieldsText(fs[1..]) + CRLF);
    assert FieldText(fs[0]) + (FieldsText(fs[1..]) + CRLF) == FieldsText(fs) + CRLF;
  }

  lemma HeadersUnfold(buf: bytes, p: nat, minor: nat, hs: seq<Header>)
    requires p < |buf|
    ensures CrlfAt(buf, p) ==>
              ParseHeaders(buf, p, minor, hs) == if Complete(hs, minor) then Some(Headers(hs, p + 2)) else None
    ensures !CrlfAt(buf, p) && (|hs| >= MAX_HEADERS || ParseField(buf, p).None? || !Acceptable(hs, ParseField(buf, p).value.h)) ==>
              ParseHeaders(buf, p, minor, hs).None?
    ensures !CrlfAt(buf, p) && |hs| < MAX_HEADERS && ParseField(buf, p).Some? && Acceptable(hs, ParseField(buf, p).value.h) ==>
              var f := ParseField(buf, p).value; ParseHeaders(buf, p, minor, hs) == ParseHeaders(buf, f.next, minor, hs + [f.h])
  {
    hide CrlfAt, ParseField, Acceptable, Complete;
  }

  /** Field lines up to the blank line are read in order, and refused together exactly when they may not stand together. */
  lemma {:induction false} FieldsVerdict(buf: bytes, p: nat, fs: seq<FieldLine>, minor: nat, hs: seq<Header>)
    requires AreFieldLines(fs) && At(buf, p, FieldsText(fs) + CRLF) && WellFormed(hs) && |hs| <= MAX_HEADERS
    ensures var all := hs + HeadersOf(fs);
            ParseHeaders(buf, p, minor, hs) ==
            if |all| <= MAX_HEADERS && WellFormed(all) && Suffices(all, minor) then Some(Headers(all, p + |FieldsText(fs)| + 2))
            else None
    decreases |fs|
  {
    hide At, IsFieldLine, FieldText, FieldsText, WellFormed, Suffices, Complete, Acceptable, ParseField, ParseHeaders;
    if fs == [] {
      assert hs + HeadersOf(fs) == hs;
      NoFields();
      CrlfIsAt(buf, p);
      AtIs(buf, p, CRLF);
      CompleteIs(hs, minor);
      HeadersUnfold(buf, p, minor, hs);
    } else {
      var h := HeaderOf(fs[0]);
      FieldsStep(buf, p, fs);
      AtIs(buf, p, FieldText(fs[0]));
      FieldComplete(buf, p, fs[0]);
      AcceptableIs(hs, h);
      FieldLong(fs[0]);
      HeadersUnfold(buf, p, minor, hs);
      var all := hs + HeadersOf(fs);
      assert all == (hs + [h]) + HeadersOf(fs[1..]);
      assert all[..|hs| + 1] == hs + [h];
      if WellFormed(all) { WellFormedPrefix(all, |hs| + 1); }
      if Acceptable(hs, h) && |hs| < MAX_HEADERS {
        FieldsVerdict(buf, p + |FieldText(fs[0])|, fs[1..], minor, hs + [h]);
      }
    }
  }

  lemma FieldLong(f: FieldLine)
    ensures |FieldText(f)| >= 3
  {
  }

  lemma {:induction false} FieldsSound(buf: bytes, p: nat, minor: nat, hs: seq<Header>) returns (fs: seq<FieldLine>)
    requires ParseHeaders(buf, p, minor, hs).Some? && WellFormed(hs) && |hs| <= MAX_HEADERS
    ensures AreFieldLines(fs) && At(buf, p, FieldsText(fs) + CRLF) && |hs| + |fs| <= MAX_HEADERS
    ensures WellFormed(hs + HeadersOf(fs)) && Suffices(hs + HeadersOf(fs), minor)
    decreases |buf| - p
  {
    hide At, IsFieldLine, FieldText, FieldsText, WellFormed, Suffices, Complete, Acceptable, ParseField, ParseHeaders, CrlfAt, AreFieldLines;
    HeadersWithin(buf, p, minor, hs);
    HeadersUnfold(buf, p, minor, hs);
    if CrlfAt(buf, p) {
      fs := [];
      NoFields();
      assert hs + HeadersOf(fs) == hs;
      CrlfIsAt(buf, p);
      CompleteIs(hs, minor);
    } else {
      var f := FieldSound(buf, p);
      FieldComplete(buf, p, f);
      FieldLong(f);
      var h := HeaderOf(f);
      AcceptableIs(hs, h);
      var rest := FieldsSound(buf, p + |FieldText(f)|, minor, hs + [h]);
      fs := [f] + rest;
      FieldsJoin(buf, p, hs, f, rest);
    }
  }

  lemma FieldsJoin(buf: bytes, p: nat, hs: seq<Header>, f: FieldLine, rest: seq<FieldLine>)
    requires IsFieldLine(f) && AreFieldLines(rest)
    requires At(buf, p, FieldText(f)) && At(buf, p + |FieldText(f)|, FieldsText(rest) + CRLF)
    ensures var fs := [f] + rest;
            && AreFieldLines(fs) && At(buf, p, FieldsText(fs) + CRLF)
            && hs + HeadersOf(fs) == hs + [HeaderOf(f)] + HeadersOf(rest)
  {
    hide At, IsFieldLine, FieldText, FieldsText;
    var fs := [f] + rest;
    assert fs[1..] == rest && fs[0] == f;
    FieldsStep(buf, p, fs);
    assert hs + ([HeaderOf(f)] + HeadersOf(rest)) == hs + [HeaderOf(f)] + HeadersOf(rest);
  }

  lemma HeadersWithin(buf: bytes, p: nat, minor: nat, hs: seq<Header>)
    requires ParseHeaders(buf, p, minor, hs).Some?
    ensures p < |buf|
  {
  }

  lemma CrlfIsAt(buf: bytes, p: nat)
    ensures CrlfAt(buf, p) <==> At(buf, p, CRLF)
  {
    if p + 2 <= |buf| { assert buf[p..p + 2] == [buf[p], buf[p + 1]]; }
  }

  lemma NoFields()
    ensures FieldsText([]) == [] && FieldsText([]) + CRLF == CRLF && AreFieldLines([])
  {
  }

  // ----- the request line -----

  /** Where the parts of a request line are. */
  lemma LineParts(buf: bytes, m: bytes, t: bytes, minor: nat)
    requires minor <= 1
    ensures At(buf, 0, LineText(m, t, minor)) <==>
            var v := |m| + |t| + 2;
            At(buf, 0, m) && At(buf, |m|, [SP]) && At(buf, |m| + 1, t) && At(buf, v - 1, [SP])
            && At(buf, v, HTTP_1) && At(buf, v + 7, [0x30 + minor]) && At(buf, v + 8, CRLF)
    ensures |LineText(m, t, minor)| == |m| + |t| + 12
  {
    hide At;
    var v := |m| + |t| + 2;
    AtConcat(buf, 0, m, [SP] + (t + ([SP] + (HTTP_1 + ([0x30 + minor] + CRLF)))));
    AtConcat(buf, |m|, [SP], t + ([SP] + (HTTP_1 + ([0x30 + minor] + CRLF))));
    AtConcat(buf, |m| + 1, t, [SP] + (HTTP_1 + ([0x30 + minor] + CRLF)));
    AtConcat(buf, v - 1, [SP], HTTP_1 + ([0x30 + minor] + CRLF));
    AtConcat(buf, v, HTTP_1, [0x30 + minor] + CRLF);
    AtConcat(buf, v + 7, [0x30 + minor], CRLF);
  }

  predicate TargetChars(buf: bytes, i: nat, j: nat)
    requires j <= |buf|
  {
    forall k :: i <= k < j ==> !BadTargetChar(buf[k])
  }

  /** The same by indices: the method ends at m, the target at e. */
  predicate RequestLineAt(buf: bytes, m: nat, e: nat) {
    && 0 < m < MAX_METHOD && 0 < e - (m + 1) < MAX_PATH && e < |buf| && Tokens(buf, 0, m) && buf[m] == SP
    && TargetChars(buf, m + 1, e) && buf[e] == SP && (buf[m + 1] == 0x2F || (e == m + 2 && buf[m + 1] == 0x2A))
    && VersionAt(buf, e + 1)
  }

  lemma TargetIs(buf: bytes, i: nat, j: nat)
    requires i <= j <= |buf|
    ensures IsTarget(buf[i..j]) <==>
            0 < j - i < MAX_PATH && (buf[i] == 0x2F || (j == i + 1 && buf[i] == 0x2A)) && TargetChars(buf, i, j)
  {
    hide BadTargetChar;
    var s := buf[i..j];
    forall k | i <= k < j ensures s[k - i] == buf[k] {}
    assert forall k :: 0 <= k < |s| ==> s[k] == buf[i + k];
  }

  lemma LineShape(buf: bytes, m: bytes, t: bytes, minor: nat)
    requires minor <= 1
    ensures IsLine(m, t, minor) && At(buf, 0, LineText(m, t, minor)) <==>
            var e := |m| + 1 + |t|;
            RequestLineAt(buf, |m|, e) && m == buf[..|m|] && t == buf[|m| + 1..e] && buf[e + 8] == 0x30 + minor
  {
    hide LineText, Tokens, TargetChars, AreTokenChars, IsTarget;
    LineParts(buf, m, t, minor);
    var e := |m| + 1 + |t|;
    if At(buf, 0, LineText(m, t, minor)) || RequestLineAt(buf, |m|, e) {
      CharsAt(buf, 0, |m|);
      TargetIs(buf, |m| + 1, e);
      assert buf[|m|..|m| + 1] == [buf[|m|]] && buf[e..e + 1] == [buf[e]] && buf[e + 8..e + 9] == [buf[e + 8]];
      assert buf[e + 9..e + 11] == [buf[e + 9], buf[e + 10]];
      assert buf[0..|m|] == buf[..|m|];
    }
  }

  lemma SpaceNoToken()
    ensures !IsTokenChar(SP)
  {
  }

  lemma LineIsParsed(buf: bytes, m: nat, e: nat)
    requires RequestLineAt(buf, m, e)
    ensures ParseLine(buf) == Some(Line(buf[..m], buf[m + 1..e], buf[e + 8] - 0x30, e + 11))
  {
    hide TokenEnd, TargetEnd, Tokens, IsTokenChar, BadTargetChar, VersionAt;
    SpaceNoToken();
    TokenEndIs(buf, 0, m);
    TargetEndIs(buf, m + 1, e);
    assert VersionAt(buf, e + 1);
    VersionWithin(buf, e + 1);
  }

  lemma VersionWithin(buf: bytes, v: nat)
    requires VersionAt(buf, v)
    ensures v + 10 <= |buf| && 0x30 <= buf[v + 7] <= 0x31
  {
  }

  lemma ParsedIsLine(buf: bytes) returns (m: nat, e: nat)
    requires ParseLine(buf).Some?
    ensures RequestLineAt(buf, m, e)
  {
    hide TokenEnd, TargetEnd, Tokens, IsTokenChar, BadTargetChar, VersionAt;
    m := TokenEnd(buf, 0);
    TokenEndAll(buf, 0);
    TargetEndAll(buf, m + 1);
    e := TargetEnd(buf, m + 1).value;
  }

  lemma LineComplete(buf: bytes, m: bytes, t: bytes, minor: nat)
    requires IsLine(m, t, minor) && At(buf, 0, LineText(m, t, minor))
    ensures ParseLine(buf) == Some(Line(m, t, minor, |LineText(m, t, minor)|))
  {
    hide IsTarget, AreTokenChars, At, RequestLineAt, ParseLine;
    LineShape(buf, m, t, minor);
    LineParts(buf, m, t, minor);
    LineIsParsed(buf, |m|, |m| + 1 + |t|);
  }

  lemma LineSound(buf: bytes) returns (m: bytes, t: bytes, minor: nat)
    requires ParseLine(buf).Some?
    ensures IsLine(m, t, minor) && At(buf, 0, LineText(m, t, minor))
  {
    hide IsTarget, AreTokenChars, At, ParseLine, TargetChars, Tokens;
    var k, e := ParsedIsLine(buf);
    VersionWithin(buf, e + 1);
    m, t, minor := buf[..k], buf[k + 1..e], buf[e + 8] - 0x30;
    LineShape(buf, m, t, minor);
  }

  // ----- the head -----

  lemma HeadParts(buf: bytes, t: HeadTree)
    requires t.minor <= 1
    ensures var n := |LineText(t.method_, t.target, t.minor)|;
            At(buf, 0, HeadText(t)) <==>
            At(buf, 0, LineText(t.method_, t.target, t.minor)) && At(buf, n, FieldsText(t.fields) + CRLF)
  {
    hide At, LineText, FieldsText;
    AtConcat(buf, 0, LineText(t.method_, t.target, t.minor), FieldsText(t.fields) + CRLF);
  }

  /** A head of the grammar is parsed, whatever follows it, and one whose fields may not stand together is refused. */
  lemma HeadVerdict(buf: bytes, t: HeadTree)
    requires IsLine(t.method_, t.target, t.minor) && AreFieldLines(t.fields) && At(buf, 0, HeadText(t))
    ensures ParseHead(buf) == if IsHead(t) then Some(HeadOf(t)) else None
  {
    hide At, LineText, FieldsText, IsLine, AreFieldLines, WellFormed, Suffices, ParseLine, ParseHeaders;
    LineMinor(t);
    HeadParts(buf, t);
    LineComplete(buf, t.method_, t.target, t.minor);
    NoHeaders();
    assert [] + HeadersOf(t.fields) == HeadersOf(t.fields);
    FieldsVerdict(buf, |LineText(t.method_, t.target, t.minor)|, t.fields, t.minor, []);
  }

  /** Every head of the grammar is parsed, whatever follows it. */
  lemma HeadComplete(buf: bytes, t: HeadTree)
    requires IsHead(t) && At(buf, 0, HeadText(t))
    ensures ParseHead(buf) == Some(HeadOf(t))
  {
    hide At, HeadText, IsLine, AreFieldLines, WellFormed, Suffices, ParseHead;
    LineMinor(t);
    HeadVerdict(buf, t);
  }

  lemma LineMinor(t: HeadTree)
    requires IsLine(t.method_, t.target, t.minor)
    ensures t.minor <= 1
  {
  }

  /** Whatever is parsed is a head of the grammar. */
  lemma HeadSound(buf: bytes) returns (t: HeadTree)
    requires ParseHead(buf).Some?
    ensures IsHead(t) && At(buf, 0, HeadText(t))
  {
    hide At, LineText, FieldsText, AreTokenChars, IsTarget, AreFieldLines, WellFormed, Suffices, ParseLine, ParseHeaders;
    var m, target, minor := LineSound(buf);
    LineComplete(buf, m, target, minor);
    NoHeaders();
    var fs := FieldsSound(buf, |LineText(m, target, minor)|, minor, []);
    assert [] + HeadersOf(fs) == HeadersOf(fs);
    t := HeadTree(m, target, minor, fs);
    HeadParts(buf, t);
  }

  lemma NoHeaders()
    ensures WellFormed([])
  {
  }

  // ----- whole messages -----

  /** The length of the body, as the one Content-Length says; without one there is no body. */
  ghost predicate Announces(hs: seq<Header>, n: nat) {
    && (forall i :: 0 <= i < |hs| && Named(hs, i, CONTENT_LENGTH) ==> ContentLength(hs[i].value) == Some(n))
    && ((forall i :: 0 <= i < |hs| ==> !Named(hs, i, CONTENT_LENGTH)) ==> n == 0)
  }

  lemma {:induction false} AnnouncedIs(hs: seq<Header>)
    requires AtMostOnce(hs, CONTENT_LENGTH)
    ensures forall i :: 0 <= i < |hs| && Named(hs, i, CONTENT_LENGTH) ==> ContentLength(hs[i].value) == Announced(hs)
    ensures (forall i :: 0 <= i < |hs| ==> !Named(hs, i, CONTENT_LENGTH)) ==> Announced(hs).None?
    decreases |hs|
  {
    hide SameName, SameButCase, ContentLength;
    if hs != [] {
      var front := hs[..|hs| - 1];
      assert forall i :: 0 <= i < |front| ==> Named(front, i, CONTENT_LENGTH) == Named(hs, i, CONTENT_LENGTH) && front[i] == hs[i];
      NamedIs(hs, |hs| - 1, CONTENT_LENGTH);
      AnnouncedIs(front);
    }
  }

  lemma AnnouncesIs(hs: seq<Header>, n: nat)
    requires WellFormed(hs)
    ensures Announces(hs, n) <==> n == if Announced(hs).Some? then Announced(hs).value else 0
  {
    hide SameName, ContentLength, Named, HostValid;
    AnnouncedIs(hs);
  }

  /** A head, its blank line within the limit, and the body it announces. */
  ghost predicate Spells(t: HeadTree, body: bytes, m: bytes) {
    && IsHead(t) && m == HeadText(t) + body && |HeadText(t)| <= MAX_HEADER_BYTES && Announces(HeadersOf(t.fields), |body|)
  }

  lemma {:induction false} FieldsEnd(fs: seq<FieldLine>)
    requires fs != []
    ensures var s := FieldsText(fs); |s| >= 2 && s[|s| - 2..] == CRLF
    decreases |fs|
  {
    hide FieldText;
    var f, rest := FieldText(fs[0]), FieldsText(fs[1..]);
    FieldEnd(fs[0]);
    if |fs| > 1 {
      FieldsEnd(fs[1..]);
      assert (f + rest)[|f + rest| - 2..] == rest[|rest| - 2..];
    } else {
      assert f + rest == f;
    }
  }

  lemma FieldEnd(f: FieldLine)
    ensures var s := FieldText(f); |s| >= 2 && s[|s| - 2..] == CRLF
  {
    var s := FieldText(f);
    assert s == f.name + [COLON] + f.lead + f.value + f.trail + CRLF;
  }

  lemma LineEnd(m: bytes, t: bytes, minor: nat)
    requires minor <= 1
    ensures var s := LineText(m, t, minor); |s| >= 2 && s[|s| - 2..] == CRLF
  {
    var s := LineText(m, t, minor);
    assert s == m + [SP] + t + [SP] + HTTP_1 + [0x30 + minor] + CRLF;
  }

  /** The text of a head ends with a blank line. */
  lemma HeadEnd(t: HeadTree)
    requires t.minor <= 1
    ensures |HeadText(t)| >= 4 && BlankLineAt(HeadText(t), |HeadText(t)| - 4)
  {
    hide LineText, FieldsText;
    var l, s := LineText(t.method_, t.target, t.minor), FieldsText(t.fields);
    LineEnd(t.method_, t.target, t.minor);
    NoFields();
    if t.fields != [] { FieldsEnd(t.fields); }
    var before := l + s;
    assert before[|before| - 2..] == CRLF;
    assert before[|before| - 2..][0] == before[|before| - 2] && before[|before| - 2..][1] == before[|before| - 1];
    assert HeadText(t) == before + CRLF;
  }

  lemma HeadFound(t: HeadTree, x: bytes)
    requires IsHead(t)
    ensures ParseHead(HeadText(t) + x) == Some(HeadOf(t)) && FindEnd(HeadText(t) + x, 0) == Some(|HeadText(t)|)
  {
    hide HeadText, ParseHead, FindEnd, IsLine, AreFieldLines, WellFormed, Suffices, HeadersOf;
    LineMinor(t);
    var a := HeadText(t);
    var buf := a + x;
    AtSlice(buf, 0, |a|);
    assert buf[0..|a|] == a;
    HeadComplete(buf, t);
    HeadEnd(t);
    assert BlankLineAt(buf, |a| - 4);
    HeadOfPrefix(buf);
  }

  /** Every message of the grammar is accepted whole ... */
  lemma MessageComplete(t: HeadTree, body: bytes, m: bytes)
    requires Spells(t, body, m)
    ensures ParseRequest(m) == Ok(Request(HeadOf(t), body)) && MessageLen(Request(HeadOf(t), body)) == |m|
  {
    hide HeadText, ParseHead, FindEnd, IsLine, AreFieldLines, WellFormed, Suffices, HeadersOf, Announces;
    LineMinor(t);
    HeadFound(t, body);
    AnnouncesIs(HeadersOf(t.fields), |body|);
    assert m[|HeadText(t)|..|HeadText(t)| + |body|] == body;
  }

  /** ... and whatever is accepted whole is a message of the grammar. */
  lemma MessageSound(m: bytes) returns (t: HeadTree)
    requires ParseRequest(m).Ok? && MessageLen(ParseRequest(m).req) == |m|
    ensures Spells(t, ParseRequest(m).req.body, m)
  {
    hide HeadText, ParseHead, FindEnd, IsLine, AreFieldLines, WellFormed, Suffices, HeadersOf, Announces;
    t := HeadSound(m);
    LineMinor(t);
    HeadComplete(m, t);
    HeadOfPrefix(m);
    var n := |HeadText(t)|;
    AtIs(m, 0, HeadText(t));
    assert m[0..n] == m[..n] && m == m[..n] + m[n..];
    AnnouncesIs(HeadersOf(t.fields), |m| - n);
    assert m[n..|m|] == m[n..];
  }

  /** The requests the parser accepts are those of the grammar. */
  lemma MessageIs(m: bytes)
    ensures ParseRequest(m).Ok? && MessageLen(ParseRequest(m).req) == |m| <==> exists t, body :: Spells(t, body, m)
  {
    hide Spells, ParseRequest;
    if ParseRequest(m).Ok? && MessageLen(ParseRequest(m).req) == |m| {
      var t := MessageSound(m);
    }
    if t, body :| Spells(t, body, m) { MessageComplete(t, body, m); }
  }

  // ----- the verdict of the server on a whole message -----

  lemma {:induction false} FindHeaderIs(hs: seq<Header>, name: bytes)
    requires AtMostOnce(hs, name)
    ensures forall i :: 0 <= i < |hs| && Named(hs, i, name) ==> HttpStream.FindHeader(hs, name) == Some(hs[i].value)
    ensures (forall i :: 0 <= i < |hs| ==> !Named(hs, i, name)) ==> HttpStream.FindHeader(hs, name) == None
    decreases |hs|
  {
    hide SameName, SameButCase;
    if hs != [] {
      var rest := hs[1..];
      assert forall i :: 0 <= i < |rest| ==> Named(rest, i, name) == Named(hs, i + 1, name) && rest[i] == hs[i + 1];
      NamedIs(hs, 0, name);
      FindHeaderIs(rest, name);
      forall i | 0 <= i < |hs| && Named(hs, i, name) ensures HttpStream.FindHeader(hs, name) == Some(hs[i].value) {
        if i > 0 { assert Named(rest, i - 1, name); }
      }
    }
  }

  /** An expectation the server cannot meet: any but 100-continue, and any at all of HTTP/1.0. */
  ghost predicate Unmet(t: HeadTree) {
    var hs := HeadersOf(t.fields);
    exists i :: 0 <= i < |hs| && Named(hs, i, EXPECT)
                && !(t.minor == 1 && SameButCase(hs[i].value, HttpStream.CONTINUE_100))
  }

  lemma UnmetIs(t: HeadTree)
    requires t.minor <= 1 && AtMostOnce(HeadersOf(t.fields), EXPECT)
    ensures HttpStream.BadExpect(HeadOf(t)) <==> Unmet(t)
  {
    hide SameName, SameButCase, Named, HeadText, LineText;
    var hs := HeadersOf(t.fields);
    FindHeaderIs(hs, EXPECT);
    forall i | 0 <= i < |hs| ensures SameName(hs[i].value, HttpStream.CONTINUE_100) == SameButCase(hs[i].value, HttpStream.CONTINUE_100) {
      SameNameIs(hs[i].value, HttpStream.CONTINUE_100);
    }
  }

  /** A whole message is refused for its length or its expectation, and otherwise delivered. */
  lemma JudgeIs(t: HeadTree, body: bytes, m: bytes)
    requires Spells(t, body, m)
    ensures HttpStream.Judge(m) ==
            if |body| > HttpStream.BODY_MAX then HttpStream.Refuse(-2)
            else if Unmet(t) then HttpStream.Refuse(-3)
            else HttpStream.Deliver(Request(HeadOf(t), body))
  {
    hide HeadText, ParseRequest, IsLine, AreFieldLines, Suffices, HeadersOf, Announces, Unmet, AtMostOnce, HttpStream.BadExpect;
    LineMinor(t);
    MessageComplete(t, body, m);
    AnnouncesIs(HeadersOf(t.fields), |body|);
    UnmetIs(t);
  }

  /** Without a blank line the server waits for one, up to 32 KiB. */
  lemma JudgeWaits(buf: bytes)
    requires forall k :: 0 <= k ==> !BlankLineAt(buf, k)
    ensures HttpStream.Judge(buf) == if |buf| > 32 * 1024 then HttpStream.Refuse(-1) else HttpStream.More
  {
  }

  // ----- messages of every length, and two that a split spoils -----

  const GET: bytes := [0x47, 0x45, 0x54]

  function Letters(k: nat): (s: bytes)
    ensures |s| == k
  {
    seq(k, _ => 0x61)
  }

  /** GET / HTTP/1.0 with one field, of k letters. */
  function Sample(k: nat): HeadTree { HeadTree(GET, [0x2F], 0, [FieldLine([0x58], [], Letters(k), [])]) }

  lemma SampleIsHead(k: nat)
    ensures IsHead(Sample(k)) && |HeadText(Sample(k))| == 22 + k && Announces(HeadersOf(Sample(k).fields), 0)
    ensures SampleHeaders(HeadersOf(Sample(k).fields))
  {
    var t := Sample(k);
    var f := t.fields[0];
    assert IsFieldLine(f);
    assert HeadersOf(t.fields)[0] == HeaderOf(f);
    assert FieldsText(t.fields) == FieldText(f) + FieldsText([]);
    assert |FieldText(f)| == 4 + k;
  }

  predicate SampleHeaders(hs: seq<Header>) { |hs| == 1 && |hs[0].name| == 1 }

  /** There are messages of every length from 22 bytes up to the limit for heads. */
  lemma MessageOfLength(n: nat) returns (m: bytes)
    requires 22 <= n <= MAX_HEADER_BYTES
    ensures |m| == n && HttpStream.IsMessage(m)
  {
    hide IsHead, HeadText, ParseRequest, Announces;
    var t := Sample(n - 22);
    SampleIsHead(n - 22);
    m := HeadText(t);
    assert m == m + [];
    MessageComplete(t, [], m);
    SampleJudged(HeadOf(t));
  }

  lemma SampleJudged(h: Head)
    requires SampleHeaders(h.headers)
    ensures !HttpStream.TooLong(h) && !HttpStream.BadExpect(h)
  {
    hide SameName;
    var hs := h.headers;
    NamesDiffer(hs[0].name);
    assert hs[1..] == [] && hs[..0] == [];
    assert HttpStream.FindHeader(hs[1..], EXPECT).None? && Announced(hs[..0]).None?;
  }

  /** A message of 4096 bytes is read in one piece, and refused when each of its bytes takes a receive. */
  lemma RoundsRunOut(max: nat) returns (m: bytes)
    requires HttpStream.READ_STEPS + HttpStream.MIN_CHUNK <= max
    ensures HttpStream.IsMessage(m) && |m| == HttpStream.READ_STEPS && HttpStream.Delivered(m, [m], max)
    ensures var o := HttpStream.ReadLoop([], HttpStream.Bytewise(m), HttpStream.READ_STEPS, max); o.Refused? && o.code == -1
  {
    hide HttpStream.Judge, HttpStream.ReadLoop;
    m := MessageOfLength(HttpStream.READ_STEPS);
    HttpStream.OnePiece(m, max);
    HttpStream.BytewiseRefused(m, max);
  }

  /** One that leaves 8191 bytes below the limit is read in one piece, and refused while its last byte is outstanding. */
  lemma RoomRunsOut(max: nat) returns (m: bytes)
    requires 22 + HttpStream.MIN_CHUNK <= max + 1 <= MAX_HEADER_BYTES + HttpStream.MIN_CHUNK
    ensures HttpStream.IsMessage(m) && |m| + HttpStream.MIN_CHUNK == max + 1 && HttpStream.Delivered(m, [m], max)
    ensures var o := HttpStream.ReadLoop(m[..|m| - 1], [m[|m| - 1..]], HttpStream.READ_STEPS, max); o.Refused? && o.code == -2
  {
    hide HttpStream.Judge, HttpStream.ReadLoop;
    m := MessageOfLength(max + 1 - HttpStream.MIN_CHUNK);
    HttpStream.OnePiece(m, max);
    HttpStream.LastByteRefused(m, [m[|m| - 1..]], HttpStream.READ_STEPS, max);
  }
}
