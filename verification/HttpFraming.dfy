/** Where a request ends does not depend on how its bytes arrive. */
module HttpFraming {
  import opened Bytes
  import opened Http

  // ----- each scan stops inside the head, and sees nothing behind its stop -----

  lemma {:induction false} TokenEndLocal(a: bytes, x: bytes, i: nat, k: nat)
    requires i <= k < |a| && !IsTokenChar(a[k])
    ensures TokenEnd(a + x, i) == TokenEnd(a, i) <= k
    decreases k - i
  {
    assert (a + x)[i] == a[i];
    if IsTokenChar(a[i]) { TokenEndLocal(a, x, i + 1, k); }
  }

  lemma {:induction false} TargetEndLocal(a: bytes, x: bytes, i: nat, k: nat)
    requires i <= k < |a| && a[k] == CR
    ensures TargetEnd(a + x, i) == TargetEnd(a, i)
    ensures TargetEnd(a, i).Some? ==> TargetEnd(a, i).value < k
    decreases k - i
  {
    assert (a + x)[i] == a[i];
    if a[i] != 0x20 && !BadTargetChar(a[i]) { TargetEndLocal(a, x, i + 1, k); }
  }

  lemma {:induction false} NameEndLocal(a: bytes, x: bytes, i: nat, k: nat)
    requires i <= k < |a| && a[k] == CR
    ensures NameEnd(a + x, i) == NameEnd(a, i)
    ensures NameEnd(a, i).Some? ==> NameEnd(a, i).value < k
    decreases k - i
  {
    assert (a + x)[i] == a[i];
    if a[i] != 0x3A && IsTokenChar(a[i]) { NameEndLocal(a, x, i + 1, k); }
  }

  lemma {:induction false} SkipBlankLocal(a: bytes, x: bytes, i: nat, k: nat)
    requires i <= k < |a| && a[k] == CR
    ensures SkipBlank(a + x, i) == SkipBlank(a, i) <= k
    decreases k - i
  {
    assert (a + x)[i] == a[i];
    if IsBlank(a[i]) { SkipBlankLocal(a, x, i + 1, k); }
  }

  lemma {:induction false} ValueEndLocal(a: bytes, x: bytes, i: nat, k: nat)
    requires i <= k < |a| && a[k] == CR
    ensures ValueEnd(a + x, i) == ValueEnd(a, i)
    ensures ValueEnd(a, i).Some? ==> ValueEnd(a, i).value <= k
    decreases k - i
  {
    assert (a + x)[i] == a[i];
    if a[i] != CR && a[i] != LF && !BadValueChar(a[i]) { ValueEndLocal(a, x, i + 1, k); }
  }

  lemma CrlfLocal(a: bytes, x: bytes, i: nat)
    requires i + 2 <= |a|
    ensures CrlfAt(a + x, i) == CrlfAt(a, i)
  {
  }

  /** a ends with its only blank line. */
  predicate Framed(a: bytes) {
    |a| >= 4 && BlankLineAt(a, |a| - 4) && forall k :: 0 <= k < |a| - 4 ==> !BlankLineAt(a, k)
  }

  lemma VersionHasNoCr(b: bytes, v: nat, k: nat)
    requires VersionAt(b, v) && v <= k < v + 8
    ensures b[k] != CR
  {
    if k < v + 7 { assert b[v..v + 7][k - v] == b[k]; }
  }

  lemma VersionLocal(a: bytes, x: bytes, v: nat)
    requires |a| >= 4 && a[|a| - 4] == CR && v <= |a| - 4
    ensures VersionAt(a + x, v) == VersionAt(a, v)
    ensures VersionAt(a, v) ==> v + 10 <= |a| - 2
  {
    var b := a + x;
    var k := |a| - 4;
    assert b[k] == CR;
    if VersionAt(b, v) {
      if k < v + 8 { VersionHasNoCr(b, v, k); }
      assert b[v..v + 7] == a[v..v + 7];
    }
    if VersionAt(a, v) {
      if k < v + 8 { VersionHasNoCr(a, v, k); }
      assert b[v..v + 7] == a[v..v + 7];
    }
  }

  lemma ParseLineLocal(a: bytes, x: bytes)
    requires Framed(a)
    ensures ParseLine(a + x) == ParseLine(a)
    ensures ParseLine(a).Some? ==> ParseLine(a).value.pos <= |a| - 2
  {
    hide VersionAt, Framed, IsTokenChar;
    var b, k := a + x, |a| - 4;
    FramedEnd(a);
    TokenEndLocal(a, x, 0, k);
    var m := TokenEnd(a, 0);
    assert b[m] == a[m];
    if m > 0 && m < MAX_METHOD && a[m] == 0x20 {
      TargetEndLocal(a, x, m + 1, k);
      var e := TargetEnd(a, m + 1);
      if e.Some? {
        VersionLocal(a, x, e.value + 1);
        assert b[m + 1] == a[m + 1] && b[..m] == a[..m] && b[m + 1..e.value] == a[m + 1..e.value];
        if VersionAt(a, e.value + 1) { assert b[e.value + 8] == a[e.value + 8]; }
      }
    }
  }

  lemma FramedEnd(a: bytes)
    requires Framed(a)
    ensures |a| >= 4 && a[|a| - 4] == CR && !IsTokenChar(CR)
  {
  }

  /** A line that starts before the blank line ends at it or before it, and reads nothing behind it. */
  lemma ParseFieldLocal(a: bytes, x: bytes, p: nat)
    requires |a| >= 4 && BlankLineAt(a, |a| - 4) && p <= |a| - 4
    ensures ParseField(a + x, p) == ParseField(a, p)
    ensures ParseField(a, p).Some? ==> ParseField(a, p).value.next <= |a| - 2
  {
    hide IsTokenChar;
    var b, k := a + x, |a| - 4;
    NameEndLocal(a, x, p, k);
    var c := NameEnd(a, p);
    if c.Some? && c.value > p {
      SkipBlankLocal(a, x, c.value + 1, k);
      var v := SkipBlank(a, c.value + 1);
      ValueEndLocal(a, x, v, k);
      var e := ValueEnd(a, v);
      if e.Some? {
        CrlfLocal(a, x, e.value);
        assert b[p..c.value] == a[p..c.value] && b[v..e.value] == a[v..e.value];
      }
    }
  }

  /**
   From the start of any line, the header loop gives the same answer whatever follows the blank line, and when it
   succeeds it stops exactly behind it.
   */
  lemma {:induction false} ParseHeadersLocal(a: bytes, x: bytes, p: nat, minor: nat, hs: seq<Header>)
    requires Framed(a) && 2 <= p <= |a| - 2 && CrlfAt(a, p - 2)
    ensures ParseHeaders(a + x, p, minor, hs) == ParseHeaders(a, p, minor, hs)
    ensures ParseHeaders(a, p, minor, hs).Some? ==> ParseHeaders(a, p, minor, hs).value.pos == |a|
    decreases |a| - p
  {
    hide ParseField, Acceptable, Complete;
    CrlfLocal(a, x, p);
    if CrlfAt(a, p) {
      assert BlankLineAt(a, p - 2);
    } else {
      assert a[p - 1] == LF && a[|a| - 4] == CR;
      ParseFieldLocal(a, x, p);
      var f := ParseField(a, p);
      if f.Some? && Acceptable(hs, f.value.h) {
        ParseHeadersLocal(a, x, f.value.next, minor, hs + [f.value.h]);
      }
    }
  }

  /** The CRLFCRLF scan and the line parser agree on where the headers end, whatever follows them. */
  lemma HeadLocal(a: bytes, x: bytes)
    requires Framed(a)
    ensures ParseHead(a + x) == ParseHead(a)
    ensures ParseHead(a).Some? ==> ParseHead(a).value.len == |a|
  {
    hide ParseHeaders, Framed;
    ParseLineLocal(a, x);
    var line := ParseLine(a);
    if line.Some? {
      assert CrlfAt(a, line.value.pos - 2);
      ParseHeadersLocal(a, x, line.value.pos, line.value.minor, []);
    }
  }

  // ----- extending and cutting the buffer -----

  /** A blank line found stays the first one. */
  lemma FindEndExtends(buf: bytes, x: bytes)
    requires FindEnd(buf, 0).Some?
    ensures FindEnd(buf + x, 0) == FindEnd(buf, 0) && Framed(buf[..FindEnd(buf, 0).value])
  {
    var h := FindEnd(buf, 0).value;
    var b := buf + x;
    assert BlankLineAt(b, h - 4);
    forall k | 0 <= k < h - 4 ensures !BlankLineAt(b, k) && !BlankLineAt(buf[..h], k) {
      assert !BlankLineAt(buf, k);
    }
    var g := FindEnd(b, 0);
    assert g.Some?;
  }

  /** Before the blank line is complete it is not found. */
  lemma FindEndCut(buf: bytes, k: nat)
    requires k <= |buf|
    ensures FindEnd(buf[..k], 0) == if FindEnd(buf, 0).Some? && FindEnd(buf, 0).value <= k then FindEnd(buf, 0) else None
  {
    var a := buf[..k];
    var h := FindEnd(a, 0);
    if h.Some? {
      FindEndExtends(a, buf[k..]);
      assert a + buf[k..] == buf;
    } else if FindEnd(buf, 0).Some? && FindEnd(buf, 0).value <= k {
      var e := FindEnd(buf, 0).value;
      assert BlankLineAt(buf, e - 4);
      assert BlankLineAt(a, e - 4);
    }
  }

  /** The head, once its blank line is there, is that of the bytes up to the blank line. */
  lemma HeadOfPrefix(buf: bytes)
    requires FindEnd(buf, 0).Some?
    ensures ParseHead(buf) == ParseHead(buf[..FindEnd(buf, 0).value])
    ensures ParseHead(buf).Some? ==> ParseHead(buf).value.len == FindEnd(buf, 0).value
  {
    var h := FindEnd(buf, 0).value;
    FindEndExtends(buf, []);
    HeadLocal(buf[..h], buf[h..]);
    assert buf[..h] + buf[h..] == buf;
  }

  /** OK and ERROR verdicts are unchanged by any extension. */
  lemma VerdictStands(buf: bytes, x: bytes)
    ensures ParseRequest(buf).Ok? ==> ParseRequest(buf + x) == ParseRequest(buf)
    ensures ParseRequest(buf).Error? ==> ParseRequest(buf + x).Error?
    ensures ParseRequest(buf).NeedMore? && ParseRequest(buf).head.Some? ==>
              || (ParseRequest(buf + x).Ok? && ParseRequest(buf + x).req.head == ParseRequest(buf).head.value)
              || ParseRequest(buf + x) == ParseRequest(buf)
  {
    hide ParseHead, BodyLen;
    var b := buf + x;
    FindEndCut(b, |buf|);
    assert b[..|buf|] == buf;
    if FindEnd(buf, 0).Some? {
      var h := FindEnd(buf, 0).value;
      HeadOfPrefix(buf);
      HeadOfPrefix(b);
      assert b[..h] == buf[..h];
      var head := ParseHead(buf);
      if head.Some? {
        var n := BodyLen(head.value);
        if h + n <= |buf| { assert b[h..h + n] == buf[h..h + n]; }
      }
    }
  }

  /** Every proper prefix of an accepted message asks for more. */
  lemma PrefixNeedsMore(buf: bytes, k: nat)
    requires ParseRequest(buf).Ok? && k < MessageLen(ParseRequest(buf).req)
    ensures ParseRequest(buf[..k]).NeedMore?
  {
    hide ParseHead, BodyLen;
    var h := FindEnd(buf, 0).value;
    FindEndCut(buf, k);
    if h <= k {
      HeadOfPrefix(buf);
      HeadOfPrefix(buf[..k]);
      assert buf[..k][..h] == buf[..h];
    }
  }

  /** The accepted message is exactly what its own bytes parse to. */
  lemma MessageAlone(buf: bytes)
    requires ParseRequest(buf).Ok?
    ensures ParseRequest(buf[..MessageLen(ParseRequest(buf).req)]) == ParseRequest(buf)
  {
    hide ParseHead, BodyLen;
    var h := FindEnd(buf, 0).value;
    var m := MessageLen(ParseRequest(buf).req);
    HeadOfPrefix(buf);
    FindEndCut(buf, m);
    HeadOfPrefix(buf[..m]);
    assert buf[..m][..h] == buf[..h] && buf[..m][h..m] == buf[h..m];
  }
}
