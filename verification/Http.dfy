/** The HTTP/1 request parser of src/http/http.c: the specification its loops compute. */
module Http {
  import opened Bytes

  const MAX_HEADERS := 64
  const MAX_METHOD := 16
  const MAX_PATH := 512
  const MAX_HEADER_BYTES := 32 * 1024
  const LONG_MAX := 0x7FFF_FFFF_FFFF_FFFF

  const CR: byte := 0x0D
  const LF: byte := 0x0A

  /** is_token_char: the tchar of section 5.6.2 of RFC 9110, and also NUL, which strchr finds. */
  predicate IsTokenChar(c: byte) {
    || 0x30 <= c <= 0x39 || 0x41 <= c <= 0x5A || 0x61 <= c <= 0x7A
    || c in [0x21, 0x23, 0x24, 0x25, 0x26, 0x27, 0x2A, 0x2B, 0x2D, 0x2E, 0x5E, 0x5F, 0x60, 0x7C, 0x7E] || c == 0
  }

  /** The visible characters that are delimiters. */
  const DELIMITERS: bytes :=
    [0x28, 0x29, 0x2C, 0x2F, 0x3A, 0x3B, 0x3C, 0x3D, 0x3E, 0x3F, 0x40, 0x5B, 0x5C, 0x5D, 0x7B, 0x7D, 0x22]

  /** That is: any visible ASCII character that is not a delimiter, or NUL. */
  lemma TokenCharIs(c: byte)
    ensures IsTokenChar(c) <==> c == 0 || (0x21 <= c <= 0x7E && c !in DELIMITERS)
  {
  }

  predicate IsBlank(c: byte) { c == 0x20 || c == 0x09 }

  predicate CrlfAt(buf: bytes, i: nat) { i + 2 <= |buf| && buf[i] == CR && buf[i + 1] == LF }

  predicate BlankLineAt(buf: bytes, i: nat) { CrlfAt(buf, i) && CrlfAt(buf, i + 2) }

  // ----- header_end -----

  /** The index after the first CRLFCRLF that starts at i or later. */
  function FindEnd(buf: bytes, i: nat): (r: Option<nat>)
    ensures r.Some? ==> i + 4 <= r.value <= |buf| && BlankLineAt(buf, r.value - 4)
    ensures r.Some? ==> forall k :: i <= k < r.value - 4 ==> !BlankLineAt(buf, k)
    ensures r.None? ==> forall k :: i <= k ==> !BlankLineAt(buf, k)
    decreases |buf| - i
  {
    if i + 4 > |buf| then None else if BlankLineAt(buf, i) then Some(i + 4) else FindEnd(buf, i + 1)
  }

  // ----- request line -----

  function TokenEnd(buf: bytes, i: nat): (e: nat)
    requires i <= |buf|
    ensures i <= e <= |buf| && (e < |buf| ==> !IsTokenChar(buf[e]))
    decreases |buf| - i
  {
    if i < |buf| && IsTokenChar(buf[i]) then TokenEnd(buf, i + 1) else i
  }

  predicate BadTargetChar(c: byte) { c <= 0x20 || c == 0x7F || c == 0x23 }

  /** The index of the space that ends the request target. */
  function TargetEnd(buf: bytes, i: nat): (e: Option<nat>)
    ensures e.Some? ==> i <= e.value < |buf| && buf[e.value] == 0x20
    decreases |buf| - i
  {
    if i >= |buf| then None
    else if buf[i] == 0x20 then Some(i)
    else if BadTargetChar(buf[i]) then None
    else TargetEnd(buf, i + 1)
  }

  datatype Line = Line(method_: bytes, path: bytes, minor: nat, pos: nat)

  const HTTP_1: bytes := [0x48, 0x54, 0x54, 0x50, 0x2F, 0x31, 0x2E]

  /** "HTTP/1.0" or "HTTP/1.1" and CRLF at v. */
  predicate VersionAt(buf: bytes, v: nat) {
    v + 10 <= |buf| && buf[v..v + 7] == HTTP_1 && (buf[v + 7] == 0x30 || buf[v + 7] == 0x31) && CrlfAt(buf, v + 8)
  }

  function ParseLine(buf: bytes): (r: Option<Line>)
    ensures r.Some? ==> 12 <= r.value.pos <= |buf| && CrlfAt(buf, r.value.pos - 2)
  {
    var m := TokenEnd(buf, 0);
    if m == 0 || m >= MAX_METHOD || m >= |buf| || buf[m] != 0x20 then None
    else
      var e := TargetEnd(buf, m + 1);
      if e.None? then None
      else
        var n := e.value - (m + 1);
        if n == 0 || n >= MAX_PATH || !(buf[m + 1] == 0x2F || (n == 1 && buf[m + 1] == 0x2A)) then None
        else if !VersionAt(buf, e.value + 1) then None
        else Some(Line(buf[..m], buf[m + 1..e.value], buf[e.value + 8] - 0x30, e.value + 11))
  }

  // ----- header lines -----

  datatype Header = Header(name: bytes, value: bytes)

  /** The index of the colon after the field name at i. */
  function NameEnd(buf: bytes, i: nat): (e: Option<nat>)
    ensures e.Some? ==> i <= e.value < |buf| && buf[e.value] == 0x3A
    decreases |buf| - i
  {
    if i >= |buf| then None
    else if buf[i] == 0x3A then Some(i)
    else if !IsTokenChar(buf[i]) then None
    else NameEnd(buf, i + 1)
  }

  function SkipBlank(buf: bytes, i: nat): (e: nat)
    requires i <= |buf|
    ensures i <= e <= |buf|
    decreases |buf| - i
  {
    if i < |buf| && IsBlank(buf[i]) then SkipBlank(buf, i + 1) else i
  }

  predicate BadValueChar(c: byte) { (c < 0x20 && c != 0x09) || c == 0x7F }

  /** The index of the CR, LF or end of buffer that ends the field value at i. */
  function ValueEnd(buf: bytes, i: nat): (e: Option<nat>)
    requires i <= |buf|
    ensures e.Some? ==> i <= e.value <= |buf|
    decreases |buf| - i
  {
    if i >= |buf| || buf[i] == CR || buf[i] == LF then Some(i)
    else if BadValueChar(buf[i]) then None
    else ValueEnd(buf, i + 1)
  }

  /** A field value without trailing blanks. */
  function Trimmed(v: bytes): (t: bytes)
    ensures |t| <= |v| && t == v[..|t|] && (t != [] ==> !IsBlank(t[|t| - 1]))
  {
    if v != [] && IsBlank(v[|v| - 1]) then Trimmed(v[..|v| - 1]) else v
  }

  datatype Field = Field(h: Header, next: nat)

  function ParseField(buf: bytes, p: nat): (r: Option<Field>)
    ensures r.Some? ==> p + 3 <= r.value.next <= |buf| && CrlfAt(buf, r.value.next - 2)
  {
    var c := NameEnd(buf, p);
    if c.None? || c.value == p then None
    else
      var v := SkipBlank(buf, c.value + 1);
      var e := ValueEnd(buf, v);
      if e.None? || !CrlfAt(buf, e.value) then None
      else Some(Field(Header(buf[p..c.value], Trimmed(buf[v..e.value])), e.value + 2))
  }

  function Lower(c: byte): byte { if 0x41 <= c <= 0x5A then c + 32 else c }

  predicate SameName(a: bytes, b: bytes) {
    |a| == |b| && forall k :: 0 <= k < |a| ==> Lower(a[k]) == Lower(b[k])
  }

  /** The same letter, but for its case, or the same byte. */
  predicate CaseVariant(a: byte, b: byte) {
    a == b || (0x41 <= a <= 0x5A && b == a + 0x20) || (0x41 <= b <= 0x5A && a == b + 0x20)
  }

  predicate SameButCase(a: bytes, b: bytes) { |a| == |b| && forall k :: 0 <= k < |a| ==> CaseVariant(a[k], b[k]) }

  /** Field names are compared without regard to the case of ASCII letters, and only that (section 5.1 of RFC 9110). */
  lemma SameNameIs(a: bytes, b: bytes)
    ensures SameName(a, b) <==> SameButCase(a, b)
  {
    forall k | 0 <= k < |a| && k < |b| ensures Lower(a[k]) == Lower(b[k]) <==> CaseVariant(a[k], b[k]) {}
  }

  /** It is an equivalence. */
  lemma SameButCaseIsEquivalence(a: bytes, b: bytes, c: bytes)
    ensures SameButCase(a, a) && (SameButCase(a, b) ==> SameButCase(b, a))
    ensures SameButCase(a, b) && SameButCase(b, c) ==> SameButCase(a, c)
  {
    if SameButCase(a, b) && SameButCase(b, c) {
      forall k | 0 <= k < |a| ensures CaseVariant(a[k], c[k]) { assert CaseVariant(a[k], b[k]) && CaseVariant(b[k], c[k]); }
    }
  }

  const HOST: bytes := [0x48, 0x6F, 0x73, 0x74]
  const CONTENT_LENGTH: bytes := [0x43, 0x6F, 0x6E, 0x74, 0x65, 0x6E, 0x74, 0x2D, 0x4C, 0x65, 0x6E, 0x67, 0x74, 0x68]
  const TRANSFER_ENCODING: bytes := [0x54, 0x72, 0x61, 0x6E, 0x73, 0x66, 0x65, 0x72, 0x2D, 0x45, 0x6E, 0x63, 0x6F, 0x64, 0x69, 0x6E, 0x67]
  const AUTHORIZATION: bytes := [0x41, 0x75, 0x74, 0x68, 0x6F, 0x72, 0x69, 0x7A, 0x61, 0x74, 0x69, 0x6F, 0x6E]
  const CONTENT_TYPE: bytes := [0x43, 0x6F, 0x6E, 0x74, 0x65, 0x6E, 0x74, 0x2D, 0x54, 0x79, 0x70, 0x65]
  const EXPECT: bytes := [0x45, 0x78, 0x70, 0x65, 0x63, 0x74]

  lemma Spelling()
    ensures HTTP_1 == Ascii("HTTP/1.") && HOST == Ascii("Host") && CONTENT_LENGTH == Ascii("Content-Length")
    ensures TRANSFER_ENCODING == Ascii("Transfer-Encoding") && AUTHORIZATION == Ascii("Authorization")
    ensures CONTENT_TYPE == Ascii("Content-Type") && EXPECT == Ascii("Expect")
    ensures DELIMITERS == Ascii("(),/:;<=>?@[\\]{}\"")
  {
  }

  /** How many of the headers have this name. */
  function Count(hs: seq<Header>, name: bytes): nat {
    if hs == [] then 0 else Count(hs[..|hs| - 1], name) + if SameName(hs[|hs| - 1].name, name) then 1 else 0
  }

  predicate HostValid(v: bytes) { v != [] && forall k :: 0 <= k < |v| ==> !IsBlank(v[k]) && v[k] != 0x2C }

  /** Content-Length = 1*DIGIT (section 8.6 of RFC 9110), no larger than a long. */
  function ContentLength(v: bytes): Option<nat> {
    if v != [] && AreDigits(v) && DigitsValue(v) <= LONG_MAX then Some(DigitsValue(v)) else None
  }

  /** count_known_header: may header h follow the headers hs? */
  predicate Acceptable(hs: seq<Header>, h: Header) {
    if SameName(h.name, HOST) then Count(hs, HOST) == 0 && HostValid(h.value)
    else if SameName(h.name, CONTENT_LENGTH) then Count(hs, CONTENT_LENGTH) == 0 && ContentLength(h.value).Some?
    else if SameName(h.name, TRANSFER_ENCODING) then true
    else if SameName(h.name, AUTHORIZATION) then Count(hs, AUTHORIZATION) == 0
    else if SameName(h.name, CONTENT_TYPE) then Count(hs, CONTENT_TYPE) == 0
    else if SameName(h.name, EXPECT) then Count(hs, EXPECT) == 0
    else true
  }

  /** The checks at the blank line. */
  predicate Complete(hs: seq<Header>, minor: nat) {
    (minor == 1 ==> Count(hs, HOST) == 1) && Count(hs, TRANSFER_ENCODING) == 0
  }

  datatype Headers = Headers(hs: seq<Header>, pos: nat)

  function ParseHeaders(buf: bytes, p: nat, minor: nat, hs: seq<Header>): (r: Option<Headers>)
    ensures r.Some? ==> p + 2 <= r.value.pos <= |buf| && CrlfAt(buf, r.value.pos - 2)
    decreases |buf| - p
  {
    if p >= |buf| then None
    else if CrlfAt(buf, p) then if Complete(hs, minor) then Some(Headers(hs, p + 2)) else None
    else if |hs| >= MAX_HEADERS then None
    else
      var f := ParseField(buf, p);
      if f.None? || !Acceptable(hs, f.value.h) then None
      else ParseHeaders(buf, f.value.next, minor, hs + [f.value.h])
  }

  // ----- whole requests -----

  /** The request line and headers, parsed. */
  datatype Head = Head(line: Line, headers: seq<Header>, len: nat)

  function ParseHead(buf: bytes): (r: Option<Head>)
    ensures r.Some? ==> 14 <= r.value.len <= |buf|
  {
    var line := ParseLine(buf);
    if line.None? then None
    else
      var h := ParseHeaders(buf, line.value.pos, line.value.minor, []);
      if h.None? then None else Some(Head(line.value, h.value.hs, h.value.pos))
  }

  /** The length announced by the headers, if any. */
  function Announced(hs: seq<Header>): Option<nat> {
    if hs == [] then None
    else if SameName(hs[|hs| - 1].name, CONTENT_LENGTH) then ContentLength(hs[|hs| - 1].value)
    else Announced(hs[..|hs| - 1])
  }

  function BodyLen(head: Head): nat { if Announced(head.headers).Some? then Announced(head.headers).value else 0 }

  datatype Request = Request(head: Head, body: bytes)

  function MessageLen(r: Request): nat { r.head.len + |r.body| }

  /** http_parse_request; NeedMore carries the head once that is complete. */
  datatype Parse = NeedMore(head: Option<Head>) | Error | Ok(req: Request)

  function ParseRequest(buf: bytes): (r: Parse)
    ensures r.Ok? ==> 0 < MessageLen(r.req) <= |buf|
  {
    var h := FindEnd(buf, 0);
    if h.None? then if |buf| > MAX_HEADER_BYTES then Error else NeedMore(None)
    else if h.value > MAX_HEADER_BYTES then Error
    else
      var head := ParseHead(buf);
      if head.None? then Error
      else
        var n := BodyLen(head.value);
        if n > |buf| - head.value.len then NeedMore(head)
        else Ok(Request(head.value, buf[head.value.len..head.value.len + n]))
  }
}
