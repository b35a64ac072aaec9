/** Checking a route's URL, and handing its path parameters to the handler. */
module RouteParams {
  import opened Bytes
  import opened Routes
  import opened RouteTable

  // ----- validate_route_url -----

  /** Is every segment from here on acceptable after the placeholders already seen? */
  predicate SegmentsOk(segs: seq<bytes>, count: nat, seen: seq<bytes>)
    decreases |segs|
  {
    segs == [] ||
    (&& count < MAX_ROUTE_SEGMENTS && ValidSegment(segs[0])
     && (IsDynamic(segs[0]) ==> |seen| < PATH_PARAM_MAX && NameOf(segs[0]) !in seen)
     && SegmentsOk(segs[1..], count + 1, if IsDynamic(segs[0]) then seen + [NameOf(segs[0])] else seen))
  }

  /** Checking one segment after another is checking them together. */
  lemma {:induction false} SegmentsOkIs(segs: seq<bytes>, count: nat, seen: seq<bytes>)
    requires Distinct(seen) && |seen| <= PATH_PARAM_MAX && count <= MAX_ROUTE_SEGMENTS
    ensures SegmentsOk(segs, count, seen) <==>
            && count + |segs| <= MAX_ROUTE_SEGMENTS && (forall k :: 0 <= k < |segs| ==> ValidSegment(segs[k]))
            && |seen| + |Placeholders(segs)| <= PATH_PARAM_MAX && Distinct(seen + Placeholders(segs))
    decreases |segs|
  {
    hide ValidSegment, IsDynamic;
    if segs == [] {
      assert seen + [] == seen;
    } else {
      var rest := segs[1..];
      assert (forall k :: 0 <= k < |segs| ==> ValidSegment(segs[k])) <==>
             (ValidSegment(segs[0]) && forall k :: 0 <= k < |rest| ==> ValidSegment(rest[k])) by {
        assert forall k :: 0 <= k < |rest| ==> rest[k] == segs[k + 1];
      }
      if IsDynamic(segs[0]) {
        DynamicLength(segs[0]);
        var n := NameOf(segs[0]);
        Extends(seen, n, Placeholders(rest));
        if count < MAX_ROUTE_SEGMENTS && |seen| < PATH_PARAM_MAX && n !in seen {
          SegmentsOkIs(rest, count + 1, seen + [n]);
        }
      } else {
        assert Placeholders(segs) == Placeholders(rest) by { assert [] + Placeholders(rest) == Placeholders(rest); }
        if count < MAX_ROUTE_SEGMENTS { SegmentsOkIs(rest, count + 1, seen); }
      }
    }
  }

  lemma DynamicLength(s: bytes)
    requires IsDynamic(s)
    ensures |s| >= 2
  {
  }

  lemma Extends(seen: seq<bytes>, n: bytes, rest: seq<bytes>)
    requires Distinct(seen)
    ensures seen + ([n] + rest) == seen + [n] + rest
    ensures Distinct(seen + [n] + rest) ==> n !in seen
    ensures n !in seen ==> Distinct(seen + [n])
  {
    var all := seen + [n] + rest;
    if Distinct(all) {
      forall k | 0 <= k < |seen| ensures seen[k] != n { assert all[k] == seen[k] && all[|seen|] == n; }
    }
  }

  method HasByte(s: bytes, c: byte) returns (r: bool)
    ensures r <==> c in s
  {
    var i := 0;
    while i < |s|
      invariant 0 <= i <= |s| && c !in s[..i]
    {
      if s[i] == c { return true; }
      i := i + 1;
    }
    assert s[..i] == s;
    return false;
  }

  /** validate_route_segment and validate_placeholder, given the names seen so far. */
  method ValidateSegment(s: bytes, seen: seq<bytes>) returns (ok: bool, seen': seq<bytes>)
    requires SLASH !in s && |seen| <= PATH_PARAM_MAX
    ensures ok <==> ValidSegment(s) && (IsDynamic(s) ==> |seen| < PATH_PARAM_MAX && NameOf(s) !in seen)
    ensures ok ==> seen' == if IsDynamic(s) then seen + [NameOf(s)] else seen
  {
    hide IsIdentifier;
    seen' := seen;
    if |s| == 0 || s == [0x2E] || s == [0x2E, 0x2E] { return false, seen; }
    if s[0] == OPEN {
      if |s| < 3 || s[|s| - 1] != CLOSE || |s| - 2 >= MAX_NAME || |seen| >= PATH_PARAM_MAX { return false, seen; }
      var name := s[1..|s| - 1];
      if !IsIdentifier(name) || name in seen { return false, seen; }
      return true, seen + [name];
    }
    var open := HasByte(s, OPEN);
    var close := HasByte(s, CLOSE);
    return !open && !close, seen;
  }

  /** validate_route_url accepts exactly the valid URLs. */
  method ValidateRouteUrl(url: bytes) returns (ok: bool)
    requires |url| < MAX_URL
    ensures ok <==> ValidUrl(url)
  {
    hide ValidSegment, IsDynamic, Segs, Placeholders;
    if |url| == 0 || url[0] != SLASH { return false; }
    var question := HasByte(url, 0x3F);
    var hash := HasByte(url, 0x23);
    var solidus := HasByte(url, 0x5C);
    if question || hash || solidus { return false; }
    if |url| > 1 && url[|url| - 1] == SLASH { return false; }
    ghost var segs := Segs(url[1..]);
    SegmentsOkIs(segs, 0, []);
    assert [] + Placeholders(segs) == Placeholders(segs);
    var seen: seq<bytes> := [];
    var p, count := 1, 0;
    while p < |url|
      invariant 1 <= p <= |url| && count <= MAX_ROUTE_SEGMENTS && |seen| <= PATH_PARAM_MAX
      invariant SegmentsOk(Segs(url[p..]), count, seen) <==> SegmentsOk(segs, 0, [])
      decreases |url| - p
    {
      SegsFrom(url, p);
      var k := SlashAt(url, p);
      var s := url[p..k];
      ghost var next := Segs(url[if k < |url| then k + 1 else |url|..]);
      assert ([s] + next)[1..] == next && ([s] + next)[0] == s;
      if count >= MAX_ROUTE_SEGMENTS { return false; }
      var good, seen' := ValidateSegment(s, seen);
      if !good { return false; }
      count, seen := count + 1, seen';
      if k == |url| {
        assert url[|url|..] == [];
        EmptySegs();
        p := |url|;
        break;
      }
      p := k + 1;
    }
    assert p == |url| ==> url[p..] == [];
    EmptySegs();
    return true;
  }

  // ----- path parameters -----

  /** The texts between braces, as url_param_slot finds them; None when a brace is not closed. */
  function Between(s: bytes): Option<seq<bytes>>
    decreases |s|
  {
    if s == [] then Some([])
    else if s[0] != OPEN then Between(s[1..])
    else
      var k := CloseAt(s, 1);
      if k == |s| then None
      else
        var rest := Between(s[k + 1..]);
        if rest.None? then None else Some([s[1..k]] + rest.value)
  }

  function CloseAt(s: bytes, i: nat): (k: nat)
    requires i <= |s|
    ensures i <= k <= |s| && (k < |s| ==> s[k] == CLOSE) && forall j :: i <= j < k ==> s[j] != CLOSE
    decreases |s| - i
  {
    if i < |s| && s[i] != CLOSE then CloseAt(s, i + 1) else i
  }

  function IndexOf(names: seq<bytes>, name: bytes): (k: int)
    ensures k == -1 <==> name !in names
    ensures k >= -1
    ensures k >= 0 ==> k < |names| && names[k] == name && forall j :: 0 <= j < k ==> names[j] != name
  {
    if names == [] then -1
    else if names[0] == name then 0
    else
      var k := IndexOf(names[1..], name);
      assert names == [names[0]] + names[1..];
      if k == -1 then -1 else k + 1
  }

  lemma {:induction false} PlainBetween(a: bytes, rest: bytes)
    requires OPEN !in a
    ensures Between(a + rest) == Between(rest)
    decreases |a|
  {
    if a == [] {
      assert a + rest == rest;
    } else {
      PlainBetween(a[1..], rest);
      assert (a + rest)[1..] == a[1..] + rest;
    }
  }

  lemma {:induction false} CloseFound(name: bytes, rest: bytes, i: nat)
    requires CLOSE !in name && 1 <= i <= |name| + 1
    ensures CloseAt([OPEN] + name + [CLOSE] + rest, i) == |name| + 1
    decreases |name| + 1 - i
  {
    if i <= |name| { CloseFound(name, rest, i + 1); }
  }

  lemma BraceBetween(name: bytes, rest: bytes)
    requires CLOSE !in name && Between(rest).Some?
    ensures Between([OPEN] + name + [CLOSE] + rest) == Some([name] + Between(rest).value)
  {
    var s := [OPEN] + name + [CLOSE] + rest;
    CloseFound(name, rest, 1);
    assert s[1..|name| + 1] == name && s[|name| + 2..] == rest;
  }

  lemma {:induction false} JoinBetween(segs: seq<bytes>)
    requires forall k :: 0 <= k < |segs| ==> ValidSegment(segs[k])
    ensures Between(Join(segs)) == Some(Placeholders(segs))
    decreases |segs|
  {
    hide Between;
    if segs == [] {
      NothingBetween();
    } else {
      var s, rest := segs[0], Join(segs[1..]);
      JoinBetween(segs[1..]);
      SegmentKind(s);
      if IsDynamic(s) {
        var name := NameOf(s);
        BraceBetween(name, rest);
        assert Join(segs) == [SLASH] + ([OPEN] + name + [CLOSE] + rest);
        PlainBetween([SLASH], [OPEN] + name + [CLOSE] + rest);
      } else {
        assert [] + Placeholders(segs[1..]) == Placeholders(segs[1..]);
        assert Join(segs) == [SLASH] + s + rest;
        PlainBetween([SLASH] + s, rest);
      }
    }
  }

  lemma NothingBetween()
    ensures Between([]) == Some([])
  {
  }

  /** A valid segment is a placeholder in full, or has no brace at all. */
  lemma SegmentKind(s: bytes)
    requires ValidSegment(s)
    ensures if IsDynamic(s) then s == [OPEN] + NameOf(s) + [CLOSE] && CLOSE !in NameOf(s) else OPEN !in s
  {
    if s[0] == OPEN {
      forall k | 0 <= k < |NameOf(s)| ensures NameOf(s)[k] != CLOSE { assert IsIdentifier(NameOf(s)); }
    }
  }

  /** In a valid URL the texts between braces are the placeholders. */
  lemma UrlPlaceholders(url: bytes)
    requires ValidUrl(url)
    ensures Between(url) == Some(Placeholders(Segs(url[1..])))
  {
    hide Segs, ValidSegment, Between;
    EmptySegs();
    if |url| > 1 {
      JoinBack(url[1..]);
      JoinBetween(Segs(url[1..]));
      assert [SLASH] + url[1..] == url;
    } else {
      assert url == [SLASH] + [] && url[1..] == [];
      PlainBetween([SLASH], []);
      NothingBetween();
    }
  }

  lemma SkipPlain(s: bytes, i: nat)
    requires i < |s| && s[i] != OPEN
    ensures Between(s[i..]) == Between(s[i + 1..])
  {
    assert s[i..][1..] == s[i + 1..];
  }

  lemma BetweenOpen(t: bytes, k: nat, all: seq<bytes>)
    requires t != [] && t[0] == OPEN && k == CloseAt(t, 1) && Between(t) == Some(all)
    ensures k < |t| && all != [] && all[0] == t[1..k] && Between(t[k + 1..]) == Some(all[1..])
  {
    hide CloseAt;
    var rest := Between(t[k + 1..]);
    assert all == [t[1..k]] + rest.value;
  }

  /** What is between the brace at `from` and the next closing one, `k`. */
  lemma SkipBrace(s: bytes, from: nat, k: nat, all: seq<bytes>)
    requires from < |s| && s[from] == OPEN && k == CloseAt(s, from + 1)
    requires Between(s[from..]) == Some(all)
    ensures k < |s| && all != [] && all[0] == s[from + 1..k] && Between(s[k + 1..]) == Some(all[1..])
  {
    hide CloseAt, Between;
    CloseShift(s, from, from + 1);
    var t := s[from..];
    BetweenOpen(t, k - from, all);
    assert t[1..k - from] == s[from + 1..k];
    assert t[k - from + 1..] == s[k + 1..];
  }

  method FindClose(s: bytes, from: nat) returns (k: nat)
    requires from <= |s|
    ensures k == CloseAt(s, from)
  {
    k := from;
    while k < |s| && s[k] != CLOSE
      invariant from <= k <= |s| && CloseAt(s, from) == CloseAt(s, k)
    {
      k := k + 1;
    }
  }

  /** url_param_slot. */
  method UrlParamSlot(url: bytes, name: bytes) returns (slot: int)
    requires ValidUrl(url)
    ensures slot == IndexOf(Placeholders(Segs(url[1..])), name)
  {
    hide ValidSegment, Segs, Placeholders, Distinct, IndexOf, Between;
    UrlPlaceholders(url);
    ghost var all := Placeholders(Segs(url[1..]));
    slot := 0;
    var i := 0;
    assert url[0..] == url && all[0..] == all;
    while i < |url|
      invariant i <= |url| && 0 <= slot <= |all| && Between(url[i..]) == Some(all[slot..])
      invariant forall j :: 0 <= j < slot ==> all[j] != name
      decreases |url| - i
    {
      if url[i] != OPEN {
        SkipPlain(url, i);
        i := i + 1;
        continue;
      }
      var k := FindClose(url, i + 1);
      SkipBrace(url, i, k, all[slot..]);
      if url[i + 1..k] == name {
        FoundAt(all, name, slot);
        return;
      }
      assert all[slot..][1..] == all[slot + 1..];
      slot := slot + 1;
      i := k + 1;
    }
    assert url[i..] == [];
    NothingBetween();
    return -1;
  }

  lemma {:induction false} CloseShift(s: bytes, from: nat, i: nat)
    requires from < i <= |s|
    ensures CloseAt(s[from..], i - from) == CloseAt(s, i) - from
    ensures i < |s| && s[i] != CLOSE ==> CloseAt(s, i) == CloseAt(s, i + 1)
    decreases |s| - i
  {
    if i < |s| && s[i] != CLOSE { CloseShift(s, from, i + 1); }
  }

  lemma FoundAt(names: seq<bytes>, name: bytes, k: nat)
    requires k < |names| && names[k] == name && forall j :: 0 <= j < k ==> names[j] != name
    ensures IndexOf(names, name) == k
  {
    assert names[k] in names;
  }

  // ----- what matching means -----

  /** A placeholder: a name, or anything else, in braces. */
  ghost predicate IsPlaceholder(p: bytes) { exists name :: p == [OPEN] + name + [CLOSE] }

  lemma DynamicIs(p: bytes)
    ensures IsDynamic(p) <==> IsPlaceholder(p)
  {
    if IsDynamic(p) { assert p == [OPEN] + p[1..|p| - 1] + [CLOSE]; }
  }

  /** A URL segment meets a pattern segment: it is the same, or a value of 1 to 63 bytes for a placeholder. */
  ghost predicate Meets(p: bytes, u: bytes) { if IsPlaceholder(p) then 0 < |u| < 64 else u == p }

  ghost predicate AllMeet(ps: seq<bytes>, us: seq<bytes>, n: nat)
    requires n <= |ps| && n <= |us|
  {
    forall k :: 0 <= k < n ==> Meets(ps[k], us[k])
  }

  lemma AllMeetTail(ps: seq<bytes>, us: seq<bytes>, n: nat)
    requires 0 < n <= |ps| && n <= |us|
    ensures AllMeet(ps, us, n) <==> Meets(ps[0], us[0]) && AllMeet(ps[1..], us[1..], n - 1)
  {
    hide Meets;
    if Meets(ps[0], us[0]) && AllMeet(ps[1..], us[1..], n - 1) {
      forall k | 0 <= k < n ensures Meets(ps[k], us[k]) {
        if k > 0 { assert Meets(ps[1..][k - 1], us[1..][k - 1]); }
      }
    }
    forall k | 0 <= k < n - 1 ensures ps[1..][k] == ps[k + 1] && us[1..][k] == us[k + 1] {}
  }

  lemma {:induction false} MatchMeans(ps: seq<bytes>, us: seq<bytes>, params: seq<bytes>, g: nat)
    requires |params| + Dynamics(ps) <= PATH_PARAM_MAX && |ps| < g
    ensures MatchSegs(ps, us, params, g).Yes? <==> |us| == |ps| && AllMeet(ps, us, |ps|)
    decreases g
  {
    hide IsDynamic, AllMeet, IsPlaceholder;
    if ps == [] || us == [] {
      AllMeetNone(ps, us);
    } else {
      DynamicIs(ps[0]);
      if |ps| == |us| { AllMeetTail(ps, us, |ps|); }
      MatchMeans(ps[1..], us[1..], if IsDynamic(ps[0]) then params + [us[0]] else params, g - 1);
    }
  }

  lemma AllMeetNone(ps: seq<bytes>, us: seq<bytes>)
    ensures AllMeet(ps, us, 0)
  {
  }

  /** Segment k is the first that does not meet its pattern, and that for being too long a value. */
  ghost predicate TooLongAt(ps: seq<bytes>, us: seq<bytes>, k: nat) {
    k < |ps| && k < |us| && AllMeet(ps, us, k) && IsPlaceholder(ps[k]) && |us[k]| >= 64
  }

  lemma {:induction false} InvalidMeans(ps: seq<bytes>, us: seq<bytes>, params: seq<bytes>, g: nat)
    requires |params| + Dynamics(ps) <= PATH_PARAM_MAX && |ps| < g
    ensures MatchSegs(ps, us, params, g).Invalid? <==> exists k: nat :: TooLongAt(ps, us, k)
    decreases g
  {
    hide IsDynamic, AllMeet, IsPlaceholder;
    if ps != [] && us != [] {
      DynamicIs(ps[0]);
      var params' := if IsDynamic(ps[0]) then params + [us[0]] else params;
      InvalidMeans(ps[1..], us[1..], params', g - 1);
      AllMeetNone(ps, us);
      if Meets(ps[0], us[0]) {
        if exists k: nat :: TooLongAt(ps[1..], us[1..], k) {
          var k: nat :| TooLongAt(ps[1..], us[1..], k);
          LaterTooLong(ps, us, k + 1);
        }
        if exists k: nat :: TooLongAt(ps, us, k) {
          var k: nat :| TooLongAt(ps, us, k);
          LaterTooLong(ps, us, k);
        }
      } else {
        if IsPlaceholder(ps[0]) && |us[0]| >= 64 { assert TooLongAt(ps, us, 0); }
        if exists k: nat :: TooLongAt(ps, us, k) {
          var k: nat :| TooLongAt(ps, us, k);
          FirstMeets(ps, us, k);
        }
      }
    }
  }

  lemma LaterTooLong(ps: seq<bytes>, us: seq<bytes>, k: nat)
    requires ps != [] && us != [] && Meets(ps[0], us[0])
    ensures TooLongAt(ps, us, k) <==> k > 0 && TooLongAt(ps[1..], us[1..], k - 1)
  {
    hide IsDynamic, AllMeet;
    if 0 < k <= |ps| && k <= |us| { AllMeetTail(ps, us, k); }
  }

  lemma FirstMeets(ps: seq<bytes>, us: seq<bytes>, k: nat)
    requires TooLongAt(ps, us, k) && !Meets(ps[0], us[0])
    ensures k == 0
  {
    hide IsDynamic;
  }

  /**
   A pattern the generator accepts matches exactly the URLs of as many segments, each of which meets the pattern's; the
   parameters are the values, in order.  It is invalid exactly when the first segment not to meet is a value too long.
   */
  lemma MatchUrlIs(pattern: bytes, url: bytes)
    requires ValidUrl(pattern)
    ensures var ps, us, m := Segs(pattern), Segs(url), MatchUrl(pattern, url);
            && (m.Yes? <==> |us| == |ps| && AllMeet(ps, us, |ps|))
            && (m.Yes? ==> m.params == Picked(ps, us))
            && (m.Invalid? <==> exists k: nat :: TooLongAt(ps, us, k))
  {
    hide Segs, MatchSegs, ValidSegment, Picked, AllMeet, TooLongAt;
    var ps, us := Segs(pattern), Segs(url);
    ValidSegs(pattern);
    FirstIsNone(Segs(pattern[1..]));
    DynamicsArePlaceholders(ps);
    MatchMeans(ps, us, [], ROUTE_SEGMENT_MAX);
    InvalidMeans(ps, us, [], ROUTE_SEGMENT_MAX);
    if MatchUrl(pattern, url).Yes? {
      MatchPicks(ps, us, [], ROUTE_SEGMENT_MAX);
      assert [] + Picked(ps, us) == Picked(ps, us);
    }
  }

  /** The segments of a path are the texts between its slashes, and a slash at the end opens no further one. */
  lemma {:induction false} TrailingSlash(s: bytes)
    requires s != []
    ensures Segs(s + [SLASH]) == Segs(s) || (s[|s| - 1] == SLASH && Segs(s + [SLASH]) == Segs(s) + [[]])
    decreases |s|
  {
    hide Segs, SlashAt;
    var t := s + [SLASH];
    var k := SlashAt(t, 0);
    SegsUnfold(t, k);
    SegsUnfold(s, SlashAt(s, 0));
    FirstSlash(s);
    EmptySegs();
    if k < |s| {
      assert t[k + 1..] == s[k + 1..] + [SLASH] && t[..k] == s[..k];
      if k + 1 < |s| {
        TrailingSlash(s[k + 1..]);
        assert [s[..k]] + (Segs(s[k + 1..]) + [[]]) == [s[..k]] + Segs(s[k + 1..]) + [[]];
      } else {
        assert s[k + 1..] == [] && t[k + 1..] == [SLASH];
        OnlySlash();
      }
    } else {
      assert t[k + 1..] == [] && t[..k] == s && s[..|s|] == s;
    }
  }

  lemma OnlySlash()
    ensures Segs([SLASH]) == [[]]
  {
    assert [SLASH][..0] == [] && [SLASH][1..] == [];
    EmptySegs();
  }

  lemma FirstSlash(s: bytes)
    ensures SlashAt(s + [SLASH], 0) == SlashAt(s, 0)
  {
    var t := s + [SLASH];
    var a, b := SlashAt(s, 0), SlashAt(t, 0);
    assert t[|s|] == SLASH;
    if a < |s| { assert t[a] == SLASH; }
    if b < |s| { assert s[b] == SLASH; }
  }

  // ----- each parameter gets its own segment -----

  /** The URL segments that face placeholders, in order. */
  function Picked(ps: seq<bytes>, us: seq<bytes>): seq<bytes>
    requires |ps| == |us|
  {
    if ps == [] then [] else (if IsDynamic(ps[0]) then [us[0]] else []) + Picked(ps[1..], us[1..])
  }

  lemma {:induction false} MatchPicks(ps: seq<bytes>, us: seq<bytes>, params: seq<bytes>, g: nat)
    requires MatchSegs(ps, us, params, g).Yes?
    ensures |ps| == |us| && MatchSegs(ps, us, params, g).params == params + Picked(ps, us)
    decreases g
  {
    hide IsDynamic;
    if ps == [] {
      assert params + [] == params;
    } else if IsDynamic(ps[0]) {
      MatchPicks(ps[1..], us[1..], params + [us[0]], g - 1);
      assert params + [us[0]] + Picked(ps[1..], us[1..]) == params + ([us[0]] + Picked(ps[1..], us[1..]));
    } else {
      MatchPicks(ps[1..], us[1..], params, g - 1);
      assert [] + Picked(ps[1..], us[1..]) == Picked(ps[1..], us[1..]);
    }
  }

  /** The placeholder at segment k and the URL segment it faces have the same number. */
  lemma {:induction false} SameSlot(ps: seq<bytes>, us: seq<bytes>, k: nat) returns (slot: nat)
    requires |ps| == |us| && k < |ps| && IsDynamic(ps[k])
    ensures slot < |Placeholders(ps)| && slot < |Picked(ps, us)|
    ensures Placeholders(ps)[slot] == NameOf(ps[k]) && Picked(ps, us)[slot] == us[k]
    decreases k
  {
    hide IsDynamic;
    DynamicLength(ps[k]);
    if k == 0 {
      slot := 0;
    } else {
      var s := SameSlot(ps[1..], us[1..], k - 1);
      slot := if IsDynamic(ps[0]) then s + 1 else s;
    }
  }

  /**
   When a pattern matches, the parameter named by the placeholder of segment k, looked up by url_param_slot, is the
   URL's segment k.
   */
  lemma ParameterGetsItsSegment(pattern: bytes, url: bytes, k: nat)
    requires ValidUrl(pattern) && MatchUrl(pattern, url).Yes?
    requires k < |Segs(pattern)| && IsDynamic(Segs(pattern)[k])
    ensures var slot := IndexOf(Placeholders(Segs(pattern[1..])), NameOf(Segs(pattern)[k]));
            && 0 <= slot < |MatchUrl(pattern, url).params| && k < |Segs(url)|
            && MatchUrl(pattern, url).params[slot] == Segs(url)[k]
  {
    hide Segs, MatchSegs, ValidSegment, Picked;
    var ps, us := Segs(pattern), Segs(url);
    MatchPicks(ps, us, [], ROUTE_SEGMENT_MAX);
    assert [] + Picked(ps, us) == Picked(ps, us);
    var slot := SameSlot(ps, us, k);
    ValidSegs(pattern);
    FirstIsNone(Segs(pattern[1..]));
    var names := Placeholders(Segs(pattern[1..]));
    forall j | 0 <= j < slot ensures names[j] != names[slot] {}
    FoundAt(names, names[slot], slot);
  }

  lemma FirstIsNone(segs: seq<bytes>)
    ensures Placeholders([[]] + segs) == Placeholders(segs)
  {
    assert ([[]] + segs)[1..] == segs;
  }
}
