/** The loops of src/http/http.c, each proved to compute its specification. */
module HttpParser {
  import opened Bytes
  import opened Http

  method HeaderEnd(buf: bytes) returns (r: Option<nat>)
    ensures r == FindEnd(buf, 0)
  {
    if |buf| < 4 { return None; }
    var i := 0;
    while i <= |buf| - 4
      invariant 0 <= i <= |buf| - 3
      invariant FindEnd(buf, i) == FindEnd(buf, 0)
    {
      if buf[i] == CR && buf[i + 1] == LF && buf[i + 2] == CR && buf[i + 3] == LF { return Some(i + 4); }
      i := i + 1;
    }
    return None;
  }

  method ReadToken(buf: bytes, from: nat, cap: nat) returns (r: Option<nat>)
    requires from <= |buf| && cap > 0
    ensures var e := TokenEnd(buf, from); r == if e == from || e - from >= cap then None else Some(e)
  {
    hide IsTokenChar;
    var p := from;
    var n := 0;
    while p < |buf| && IsTokenChar(buf[p])
      invariant from <= p <= |buf| && n == p - from && n < cap
      invariant TokenEnd(buf, p) == TokenEnd(buf, from)
    {
      if n + 1 >= cap { return None; }
      n := n + 1;
      p := p + 1;
    }
    if n == 0 { return None; }
    return Some(p);
  }

  method ParseRequestLine(buf: bytes) returns (r: Option<Line>)
    ensures r == ParseLine(buf)
  {
    hide IsTokenChar;
    var m := ReadToken(buf, 0, MAX_METHOD);
    if m.None? || m.value >= |buf| || buf[m.value] != 0x20 { return None; }
    var start := m.value + 1;
    var p := start;
    while p < |buf| && buf[p] != 0x20
      invariant start <= p <= |buf| && p - start < MAX_PATH
      invariant TargetEnd(buf, p) == TargetEnd(buf, start)
    {
      if buf[p] <= 0x20 || buf[p] == 0x7F || buf[p] == 0x23 { return None; }
      if p + 1 - start >= MAX_PATH {
        TargetLong(buf, p + 1);
        return None;
      }
      p := p + 1;
    }
    var n := p - start;
    if n == 0 || p >= |buf| || (buf[start] != 0x2F && !(n == 1 && buf[start] == 0x2A)) { return None; }
    var v := p + 1;
    if |buf| - v < 8 || buf[v..v + 7] != HTTP_1 || (buf[v + 7] != 0x30 && buf[v + 7] != 0x31) { return None; }
    if |buf| - (v + 8) < 2 || buf[v + 8] != CR || buf[v + 9] != LF { return None; }
    return Some(Line(buf[..m.value], buf[start..p], buf[v + 7] - 0x30, v + 10));
  }

  /** A target that has reached the limit is refused wherever it ends. */
  lemma TargetLong(buf: bytes, p: nat)
    ensures TargetEnd(buf, p).Some? ==> TargetEnd(buf, p).value >= p
  {
  }

  /** parse_content_length accepts exactly the decimal numbers that fit a long. */
  method ParseContentLength(value: bytes) returns (r: Option<nat>)
    ensures r == ContentLength(value)
  {
    if |value| == 0 { return None; }
    var num := 0;
    var i := 0;
    while i < |value|
      invariant 0 <= i <= |value| && AreDigits(value[..i]) && num == DigitsValue(value[..i]) <= LONG_MAX
    {
      var c := value[i];
      if c < 0x30 || c > 0x39 { return None; }
      var digit := c - 0x30;
      assert value[..i + 1][..i] == value[..i] && value[..i + 1][i] == c;
      assert AreDigits(value[..i + 1]);
      if num > (LONG_MAX - digit) / 10 {
        assert DigitsValue(value[..i + 1]) == num * 10 + digit > LONG_MAX;
        if AreDigits(value) { DigitsGrow(value, i + 1); }
        return None;
      }
      num := num * 10 + digit;
      i := i + 1;
    }
    assert value[..i] == value;
    return Some(num);
  }

  method ParseHeaderName(buf: bytes, from: nat) returns (r: Option<nat>)
    ensures var c := NameEnd(buf, from); r == if c.None? || c.value == from then None else c
  {
    hide IsTokenChar;
    var p := from;
    while p < |buf| && buf[p] != 0x3A
      invariant from <= p && NameEnd(buf, p) == NameEnd(buf, from)
      decreases |buf| - p
    {
      if !IsTokenChar(buf[p]) { return None; }
      p := p + 1;
    }
    if p == from || p >= |buf| { return None; }
    return Some(p);
  }

  method SkipBlanks(buf: bytes, from: nat) returns (p: nat)
    requires from <= |buf|
    ensures p == SkipBlank(buf, from)
  {
    p := from;
    while p < |buf| && (buf[p] == 0x20 || buf[p] == 0x09)
      invariant from <= p <= |buf| && SkipBlank(buf, p) == SkipBlank(buf, from)
    {
      p := p + 1;
    }
  }

  /** parse_header_value: where the value stops, and its length without trailing blanks. */
  method ParseHeaderValue(buf: bytes, from: nat) returns (r: Option<nat>, value: bytes)
    requires from <= |buf|
    ensures r == ValueEnd(buf, from)
    ensures r.Some? ==> value == Trimmed(buf[from..r.value])
  {
    var p := from;
    value := [];
    while p < |buf| && buf[p] != CR && buf[p] != LF
      invariant from <= p <= |buf| && ValueEnd(buf, p) == ValueEnd(buf, from)
    {
      if (buf[p] < 0x20 && buf[p] != 0x09) || buf[p] == 0x7F { return None, []; }
      p := p + 1;
    }
    value := buf[from..p];
    while |value| > 0 && (value[|value| - 1] == 0x20 || value[|value| - 1] == 0x09)
      invariant Trimmed(value) == Trimmed(buf[from..p])
      decreases |value|
    {
      value := value[..|value| - 1];
    }
    r := Some(p);
  }

  method HostValueValid(v: bytes) returns (ok: bool)
    ensures ok == HostValid(v)
  {
    if |v| == 0 { return false; }
    var i := 0;
    while i < |v|
      invariant 0 <= i <= |v| && forall k :: 0 <= k < i ==> !IsBlank(v[k]) && v[k] != 0x2C
    {
      if v[i] == 0x20 || v[i] == 0x09 || v[i] == 0x2C { return false; }
      i := i + 1;
    }
    return true;
  }

  /** The counters of parse_headers, and the length it reads. */
  class HeaderCounts {
    var host: nat
    var contentLength: nat
    var transferEncoding: nat
    var authorization: nat
    var contentType: nat
    var expect_: nat
    var length: Option<nat>

    constructor ()
      ensures Reflects([])
    {
      host, contentLength, transferEncoding, authorization, contentType, expect_ := 0, 0, 0, 0, 0, 0;
      length := None;
    }

    ghost predicate Reflects(hs: seq<Header>)
      reads this
    {
      && host == Count(hs, HOST) && contentLength == Count(hs, CONTENT_LENGTH)
      && transferEncoding == Count(hs, TRANSFER_ENCODING) && authorization == Count(hs, AUTHORIZATION)
      && contentType == Count(hs, CONTENT_TYPE) && expect_ == Count(hs, EXPECT) && length == Announced(hs)
    }

    /** count_known_header. */
    method CountKnownHeader(h: Header, ghost hs: seq<Header>) returns (ok: bool)
      requires Reflects(hs)
      modifies this
      ensures ok == Acceptable(hs, h)
      ensures ok ==> Reflects(hs + [h])
    {
      hide HostValid, ContentLength;
      assert (hs + [h])[..|hs|] == hs;
      NamesDiffer(h.name);
      if SameName(h.name, HOST) {
        host := host + 1;
        ok := HostValueValid(h.value);
        return host <= 1 && ok;
      }
      if SameName(h.name, CONTENT_LENGTH) {
        contentLength := contentLength + 1;
        length := ParseContentLength(h.value);
        return contentLength <= 1 && length.Some?;
      }
      if SameName(h.name, TRANSFER_ENCODING) {
        transferEncoding := transferEncoding + 1;
        return true;
      }
      if SameName(h.name, AUTHORIZATION) {
        authorization := authorization + 1;
        return authorization <= 1;
      }
      if SameName(h.name, CONTENT_TYPE) {
        contentType := contentType + 1;
        return contentType <= 1;
      }
      if SameName(h.name, EXPECT) {
        expect_ := expect_ + 1;
        return expect_ <= 1;
      }
      return true;
    }
  }

  /** A header has at most one of the known names. */
  lemma NamesDiffer(name: bytes)
    ensures SameName(name, HOST) ==> |name| == 4
    ensures SameName(name, CONTENT_LENGTH) ==> |name| == 14
    ensures SameName(name, TRANSFER_ENCODING) ==> |name| == 17
    ensures SameName(name, AUTHORIZATION) ==> |name| == 13
    ensures SameName(name, CONTENT_TYPE) ==> |name| == 12
    ensures SameName(name, EXPECT) ==> |name| == 6
  {
  }

  /** One round of parse_headers: name, blanks, value, CRLF. */
  method ParseHeaderLine(buf: bytes, p: nat) returns (r: Option<Field>)
    ensures r == ParseField(buf, p)
  {
    hide IsTokenChar;
    var c := ParseHeaderName(buf, p);
    if c.None? { return None; }
    var v := SkipBlanks(buf, c.value + 1);
    var e, value := ParseHeaderValue(buf, v);
    if e.None? { return None; }
    if |buf| - e.value < 2 || buf[e.value] != CR || buf[e.value + 1] != LF { return None; }
    return Some(Field(Header(buf[p..c.value], value), e.value + 2));
  }

  method ParseHeaderLines(buf: bytes, from: nat, minor: nat) returns (r: Option<Headers>, length: Option<nat>)
    ensures r == ParseHeaders(buf, from, minor, [])
    ensures r.Some? ==> length == Announced(r.value.hs)
  {
    hide Acceptable, SameName, ParseField, Count, Announced;
    length := None;
    var seen := new HeaderCounts();
    var hs: seq<Header> := [];
    var p := from;
    while p < |buf|
      invariant seen.Reflects(hs) && ParseHeaders(buf, p, minor, hs) == ParseHeaders(buf, from, minor, [])
      decreases |buf| - p
    {
      if |buf| - p >= 2 && buf[p] == CR && buf[p + 1] == LF {
        p := p + 2;
        if minor == 1 && seen.host != 1 { return None, None; }
        if seen.transferEncoding != 0 { return None, None; }
        return Some(Headers(hs, p)), seen.length;
      }
      if |hs| >= MAX_HEADERS { return None, None; }
      var f := ParseHeaderLine(buf, p);
      if f.None? { return None, None; }
      var ok := seen.CountKnownHeader(f.value.h, hs);
      if !ok { return None, None; }
      hs := hs + [f.value.h];
      p := f.value.next;
    }
    return None, None;
  }

  /** http_parse_request. */
  method HttpParseRequest(buf: bytes) returns (r: Parse)
    ensures r == ParseRequest(buf)
  {
    if |buf| == 0 { return NeedMore(None); }
    var h := HeaderEnd(buf);
    if h.None? { return if |buf| > MAX_HEADER_BYTES then Error else NeedMore(None); }
    if h.value > MAX_HEADER_BYTES { return Error; }
    var line := ParseRequestLine(buf);
    if line.None? { return Error; }
    var headers, length := ParseHeaderLines(buf, line.value.pos, line.value.minor);
    if headers.None? { return Error; }
    var head := Head(line.value, headers.value.hs, headers.value.pos);
    var n := if length.Some? then length.value else 0;
    if n > |buf| - head.len { return NeedMore(Some(head)); }
    return Ok(Request(head, buf[head.len..head.len + n]));
  }
}
