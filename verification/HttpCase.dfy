/** The case of letters in field names makes no difference to a request. */
module HttpCase {
  import opened Bytes
  import opened Http
  import opened HttpFraming
  import opened HttpGrammar

  /** The same head, but for the case of letters in its field names. */
  predicate Recased(t: HeadTree, u: HeadTree) {
    && t.method_ == u.method_ && t.target == u.target && t.minor == u.minor && |t.fields| == |u.fields|
    && forall k :: 0 <= k < |t.fields| ==> SameField(t.fields[k], u.fields[k])
  }

  predicate SameField(f: FieldLine, g: FieldLine) {
    SameButCase(f.name, g.name) && f.lead == g.lead && f.value == g.value && f.trail == g.trail
  }

  // ----- the conditions on heads -----

  lemma TokenCase(a: byte, b: byte)
    requires CaseVariant(a, b)
    ensures IsTokenChar(a) == IsTokenChar(b)
  {
  }

  lemma FieldCase(f: FieldLine, g: FieldLine)
    requires SameField(f, g) && IsFieldLine(f)
    ensures IsFieldLine(g)
  {
    hide IsTokenChar, CaseVariant, AllBlank, AreValueChars;
    forall k | 0 <= k < |g.name| ensures IsTokenChar(g.name[k]) { TokenCase(f.name[k], g.name[k]); }
  }

  /** Headers with the same values and the same names but for case. */
  ghost predicate SameHeaders(hs: seq<Header>, gs: seq<Header>) {
    |hs| == |gs| && forall k :: 0 <= k < |hs| ==> SameButCase(hs[k].name, gs[k].name) && hs[k].value == gs[k].value
  }

  lemma NamedCase(hs: seq<Header>, gs: seq<Header>, name: bytes)
    requires SameHeaders(hs, gs)
    ensures forall k :: 0 <= k < |hs| ==> Named(hs, k, name) == Named(gs, k, name)
  {
    hide SameButCase;
    forall k | 0 <= k < |hs| ensures Named(hs, k, name) == Named(gs, k, name) {
      SameButCaseIsEquivalence(hs[k].name, gs[k].name, name);
      SameButCaseIsEquivalence(gs[k].name, hs[k].name, name);
    }
  }

  lemma HeadersCase(hs: seq<Header>, gs: seq<Header>, minor: nat, n: nat)
    requires SameHeaders(hs, gs)
    ensures WellFormed(hs) == WellFormed(gs) && Suffices(hs, minor) == Suffices(gs, minor) && Announces(hs, n) == Announces(gs, n)
  {
    hide Named, SameButCase, HostValid, ContentLength;
    NamedCase(hs, gs, HOST);
    NamedCase(hs, gs, CONTENT_LENGTH);
    NamedCase(hs, gs, AUTHORIZATION);
    NamedCase(hs, gs, CONTENT_TYPE);
    NamedCase(hs, gs, EXPECT);
    NamedCase(hs, gs, TRANSFER_ENCODING);
    OnceCase(hs, gs, HOST);
    OnceCase(hs, gs, CONTENT_LENGTH);
    OnceCase(hs, gs, AUTHORIZATION);
    OnceCase(hs, gs, CONTENT_TYPE);
    OnceCase(hs, gs, EXPECT);
    hide AtMostOnce;
  }

  lemma OnceCase(hs: seq<Header>, gs: seq<Header>, name: bytes)
    requires SameHeaders(hs, gs) && forall k :: 0 <= k < |hs| ==> Named(hs, k, name) == Named(gs, k, name)
    ensures AtMostOnce(hs, name) == AtMostOnce(gs, name)
  {
    hide Named, SameButCase;
  }

  lemma HeadCase(t: HeadTree, u: HeadTree, n: nat)
    requires Recased(t, u) && AreFieldLines(t.fields)
    ensures AreFieldLines(u.fields) && IsHead(t) == IsHead(u)
    ensures Announces(HeadersOf(t.fields), n) == Announces(HeadersOf(u.fields), n)
  {
    hide IsFieldLine, IsLine, WellFormed, Suffices, Announces, SameButCase;
    forall k | 0 <= k < |u.fields| ensures IsFieldLine(u.fields[k]) { FieldCase(t.fields[k], u.fields[k]); }
    assert SameHeaders(HeadersOf(t.fields), HeadersOf(u.fields));
    HeadersCase(HeadersOf(t.fields), HeadersOf(u.fields), t.minor, n);
  }

  // ----- the texts -----

  lemma CaseConcat(a: bytes, b: bytes, c: bytes, d: bytes)
    requires SameButCase(a, b) && SameButCase(c, d)
    ensures SameButCase(a + c, b + d)
  {
    hide CaseVariant;
  }

  lemma {:induction false} FieldsCase(fs: seq<FieldLine>, gs: seq<FieldLine>)
    requires |fs| == |gs| && forall k :: 0 <= k < |fs| ==> SameField(fs[k], gs[k])
    ensures SameButCase(FieldsText(fs), FieldsText(gs))
    decreases |fs|
  {
    hide SameButCase;
    if fs == [] {
      SameButCaseIsEquivalence([], [], []);
    } else {
      var rest := [COLON] + (fs[0].lead + (fs[0].value + (fs[0].trail + CRLF)));
      SameButCaseIsEquivalence(rest, rest, rest);
      assert SameField(fs[0], gs[0]);
      CaseConcat(fs[0].name, gs[0].name, rest, rest);
      assert FieldText(fs[0]) == fs[0].name + rest && FieldText(gs[0]) == gs[0].name + rest;
      forall k | 0 <= k < |fs| - 1 ensures SameField(fs[1..][k], gs[1..][k]) { assert SameField(fs[k + 1], gs[k + 1]); }
      FieldsCase(fs[1..], gs[1..]);
      CaseConcat(FieldText(fs[0]), FieldText(gs[0]), FieldsText(fs[1..]), FieldsText(gs[1..]));
    }
  }

  lemma TextCase(t: HeadTree, u: HeadTree, x: bytes)
    requires Recased(t, u) && t.minor <= 1
    ensures SameButCase(HeadText(t) + x, HeadText(u) + x) && |HeadText(t)| == |HeadText(u)|
  {
    hide SameButCase, SameField, LineText, FieldsText;
    var line := LineText(t.method_, t.target, t.minor);
    SameButCaseIsEquivalence(line, line, line);
    SameButCaseIsEquivalence(CRLF, CRLF, CRLF);
    SameButCaseIsEquivalence(x, x, x);
    FieldsCase(t.fields, u.fields);
    CaseConcat(FieldsText(t.fields), FieldsText(u.fields), CRLF, CRLF);
    CaseConcat(line, line, FieldsText(t.fields) + CRLF, FieldsText(u.fields) + CRLF);
    CaseConcat(HeadText(t), HeadText(u), x, x);
    SameLength(HeadText(t), HeadText(u));
  }

  lemma SameLength(a: bytes, b: bytes)
    requires SameButCase(a, b)
    ensures |a| == |b|
  {
  }

  lemma {:induction false} EndCase(a: bytes, b: bytes, i: nat)
    requires SameButCase(a, b)
    ensures FindEnd(a, i) == FindEnd(b, i)
    decreases |a| - i
  {
    if i + 4 <= |a| {
      assert CaseVariant(a[i], b[i]) && CaseVariant(a[i + 1], b[i + 1]) && CaseVariant(a[i + 2], b[i + 2]) && CaseVariant(a[i + 3], b[i + 3]);
      EndCase(a, b, i + 1);
    }
  }

  // ----- the verdict -----

  /** Two parses with the same outcome: the verdict, the request line, the announced length and the body. */
  ghost predicate SameOutcome(a: Parse, b: Parse) {
    match a
    case Error => b.Error?
    case NeedMore(h) =>
      && b.NeedMore? && (h.Some? <==> b.head.Some?)
      && (h.Some? ==> h.value.line == b.head.value.line && BodyLen(h.value) == BodyLen(b.head.value))
    case Ok(r) =>
      && b.Ok? && r.head.line == b.req.head.line && BodyLen(r.head) == BodyLen(b.req.head)
      && r.head.len == b.req.head.len && r.body == b.req.body
  }

  lemma ParsedHead(t: HeadTree, x: bytes)
    requires IsLine(t.method_, t.target, t.minor) && AreFieldLines(t.fields)
    ensures ParseHead(HeadText(t) + x) == if IsHead(t) then Some(HeadOf(t)) else None
  {
    hide HeadText, ParseHead, IsHead, IsLine, AreFieldLines;
    LineMinor(t);
    var a := HeadText(t);
    AtSlice(a + x, 0, |a|);
    assert (a + x)[0..|a|] == a;
    HeadVerdict(a + x, t);
  }

  lemma LengthCase(t: HeadTree, u: HeadTree)
    requires IsHead(t) && IsHead(u) && Recased(t, u)
    ensures BodyLen(HeadOf(t)) == BodyLen(HeadOf(u))
  {
    hide IsLine, AreFieldLines, WellFormed, Suffices, Announces, Recased, HeadText, LineText;
    LineMinor(t);
    LineMinor(u);
    var n := BodyLen(HeadOf(t));
    HeadCase(t, u, n);
    AnnouncesIs(HeadersOf(t.fields), n);
    AnnouncesIs(HeadersOf(u.fields), n);
  }

  /** Writing the field names of a head in another case changes nothing but the names, whatever follows the head. */
  lemma CaseBlind(t: HeadTree, u: HeadTree, x: bytes)
    requires IsLine(t.method_, t.target, t.minor) && AreFieldLines(t.fields) && Recased(t, u)
    ensures u.minor <= 1 && SameOutcome(ParseRequest(HeadText(t) + x), ParseRequest(HeadText(u) + x))
  {
    hide IsLine, AreFieldLines, WellFormed, Suffices, Announces, HeadText, LineText, ParseHead, FindEnd, SameButCase, BodyLen, SameField, HeadersOf;
    LineMinor(t);
    var a, b := HeadText(t) + x, HeadText(u) + x;
    HeadCase(t, u, 0);
    TextCase(t, u, x);
    SameLength(a, b);
    EndCase(a, b, 0);
    ParsedHead(t, x);
    ParsedHead(u, x);
    if IsHead(t) {
      LengthCase(t, u);
      LineLength(t, u);
      var n, k := BodyLen(HeadOf(t)), |HeadText(t)|;
      if n <= |a| - k { assert a[k..k + n] == x[..n] && b[k..k + n] == x[..n]; }
    }
  }

  lemma LineLength(t: HeadTree, u: HeadTree)
    requires Recased(t, u) && t.minor <= 1
    ensures HeadOf(t).line == HeadOf(u).line && HeadOf(t).len == |HeadText(t)| && HeadOf(u).len == |HeadText(u)|
  {
  }
}
