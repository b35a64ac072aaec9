/** Route patterns: the runtime matcher, the generator's overlap check, and what they have to do with each other. */
module Routes {
  import opened Bytes

  const SLASH: byte := 0x2F
  const OPEN: byte := 0x7B
  const CLOSE: byte := 0x7D
  const PATH_PARAM_MAX := 8
  const PARAM_VALUE_LEN := 64
  const ROUTE_SEGMENT_MAX := 66
  const MAX_ROUTE_SEGMENTS := 16
  const MAX_URL := 128
  const MAX_NAME := 64

  // ----- segments -----

  /** The index of the first slash at i or later, or the end. */
  function SlashAt(s: bytes, i: nat): (k: nat)
    requires i <= |s|
    ensures i <= k <= |s| && (k < |s| ==> s[k] == SLASH) && forall j :: i <= j < k ==> s[j] != SLASH
    decreases |s| - i
  {
    if i < |s| && s[i] != SLASH then SlashAt(s, i + 1) else i
  }

  /** The segments of s, as next_segment walks over them: a trailing slash opens no further segment. */
  function Segs(s: bytes): seq<bytes>
    decreases |s|
  {
    if s == [] then []
    else
      var k := SlashAt(s, 0);
      [s[..k]] + if k < |s| then Segs(s[k + 1..]) else []
  }

  method NextSegment(s: bytes, from: nat) returns (len: nat, next: nat)
    requires from <= |s|
    ensures len == SlashAt(s, from) - from
    ensures next == if from + len < |s| then from + len + 1 else |s|
  {
    var i := from;
    while i < |s| && s[i] != SLASH
      invariant from <= i <= |s| && SlashAt(s, i) == SlashAt(s, from)
    {
      i := i + 1;
    }
    return i - from, if i < |s| then i + 1 else i;
  }

  lemma {:induction false} SlashShift(s: bytes, from: nat, i: nat)
    requires from <= i <= |s|
    ensures SlashAt(s[from..], i - from) == SlashAt(s, i) - from
    decreases |s| - i
  {
    if i < |s| && s[i] != SLASH { SlashShift(s, from, i + 1); }
  }

  /** The segments from an index on: the one that starts there, and those from the next index on. */
  lemma SegsFrom(s: bytes, from: nat)
    requires from < |s|
    ensures var k := SlashAt(s, from);
            Segs(s[from..]) == [s[from..k]] + Segs(s[if k < |s| then k + 1 else |s|..])
  {
    hide Segs, SlashAt;
    var k := SlashAt(s, from);
    var t := s[from..];
    SlashShift(s, from, from);
    SegsUnfold(t, k - from);
    assert t[..k - from] == s[from..k];
    if k < |s| {
      assert t[k - from + 1..] == s[k + 1..];
    } else {
      assert s[|s|..] == [];
      EmptySegs();
    }
  }

  lemma SegsUnfold(t: bytes, k: nat)
    requires t != [] && k == SlashAt(t, 0)
    ensures Segs(t) == [t[..k]] + if k < |t| then Segs(t[k + 1..]) else []
  {
  }

  predicate IsDynamic(seg: bytes) { |seg| > 1 && seg[0] == OPEN && seg[|seg| - 1] == CLOSE }

  // ----- matching at run time -----

  datatype Match = No | Invalid | Yes(params: seq<bytes>)

  /** path_matches over the segments that are left, with `guard` rounds to go. */
  function MatchSegs(ps: seq<bytes>, us: seq<bytes>, params: seq<bytes>, guard: nat): Match
    decreases guard
  {
    if guard == 0 then No
    else if ps == [] && us == [] then Yes(params)
    else if ps == [] || us == [] then No
    else if IsDynamic(ps[0]) then
      if |params| >= PATH_PARAM_MAX || us[0] == [] then No
      else if |us[0]| >= PARAM_VALUE_LEN then Invalid
      else MatchSegs(ps[1..], us[1..], params + [us[0]], guard - 1)
    else if ps[0] != us[0] then No
    else MatchSegs(ps[1..], us[1..], params, guard - 1)
  }

  function MatchUrl(pattern: bytes, url: bytes): Match {
    MatchSegs(Segs(pattern), Segs(url), [], ROUTE_SEGMENT_MAX)
  }

  lemma MatchStep(p: bytes, ps: seq<bytes>, u: bytes, us: seq<bytes>, params: seq<bytes>, g: nat)
    requires g > 0
    ensures MatchSegs([p] + ps, [u] + us, params, g)
            == if IsDynamic(p) then
                 if |params| >= PATH_PARAM_MAX || u == [] then No
                 else if |u| >= PARAM_VALUE_LEN then Invalid
                 else MatchSegs(ps, us, params + [u], g - 1)
               else if p != u then No
               else MatchSegs(ps, us, params, g - 1)
  {
    assert ([p] + ps)[1..] == ps && ([u] + us)[1..] == us;
  }

  lemma MatchEnd(ps: seq<bytes>, us: seq<bytes>, params: seq<bytes>, g: nat)
    requires g == 0 || ps == [] || us == []
    ensures MatchSegs(ps, us, params, g) == if g > 0 && ps == [] && us == [] then Yes(params) else No
  {
  }

  method PathMatches(pattern: bytes, url: bytes) returns (m: Match)
    ensures m == MatchUrl(pattern, url)
  {
    hide IsDynamic, Segs, MatchSegs;
    var params: seq<bytes> := [];
    var pi, ui := 0, 0;
    var guard := 0;
    assert pattern[0..] == pattern && url[0..] == url;
    EmptySegs();
    while guard < ROUTE_SEGMENT_MAX
      invariant pi <= |pattern| && ui <= |url| && 0 <= guard <= ROUTE_SEGMENT_MAX
      invariant MatchSegs(Segs(pattern[pi..]), Segs(url[ui..]), params, ROUTE_SEGMENT_MAX - guard) == MatchUrl(pattern, url)
      decreases ROUTE_SEGMENT_MAX - guard
    {
      ghost var g := ROUTE_SEGMENT_MAX - guard;
      assert pi == |pattern| ==> pattern[pi..] == [];
      assert ui == |url| ==> url[ui..] == [];
      if pi < |pattern| { SegsFrom(pattern, pi); }
      if ui < |url| { SegsFrom(url, ui); }
      if pi == |pattern| || ui == |url| {
        MatchEnd(Segs(pattern[pi..]), Segs(url[ui..]), params, g);
        return if pi == |pattern| && ui == |url| then Yes(params) else No;
      }
      var plen, pn := NextSegment(pattern, pi);
      var ulen, un := NextSegment(url, ui);
      var p, u := pattern[pi..pi + plen], url[ui..ui + ulen];
      MatchStep(p, Segs(pattern[pn..]), u, Segs(url[un..]), params, g);
      if IsDynamic(p) {
        if |params| >= PATH_PARAM_MAX { return No; }
        if ulen == 0 { return No; }
        if ulen >= PARAM_VALUE_LEN { return Invalid; }
        params := params + [u];
      } else if plen != ulen || p != u {
        return No;
      }
      pi, ui := pn, un;
      guard := guard + 1;
    }
    MatchEnd(Segs(pattern[pi..]), Segs(url[ui..]), params, 0);
    return No;
  }

  lemma EmptySegs()
    ensures Segs([]) == []
  {
  }

  // ----- overlap at generation time -----

  /** Two patterns overlap when their segments agree wherever both are fixed. */
  predicate OverlapSegs(xs: seq<bytes>, ys: seq<bytes>) {
    |xs| == |ys| && forall k :: 0 <= k < |xs| ==> IsDynamic(xs[k]) || IsDynamic(ys[k]) || xs[k] == ys[k]
  }

  /** Two patterns that match the same segments overlap. */
  lemma {:induction false} BothMatchOverlap(ps: seq<bytes>, qs: seq<bytes>, us: seq<bytes>, a: seq<bytes>,
                                            b: seq<bytes>, g: nat)
    requires MatchSegs(ps, us, a, g).Yes? && MatchSegs(qs, us, b, g).Yes?
    ensures OverlapSegs(ps, qs)
    decreases g
  {
    hide IsDynamic;
    if ps != [] {
      BothMatchOverlap(ps[1..], qs[1..], us[1..], if IsDynamic(ps[0]) then a + [us[0]] else a,
                       if IsDynamic(qs[0]) then b + [us[0]] else b, g - 1);
      forall k | 0 <= k < |ps| ensures IsDynamic(ps[k]) || IsDynamic(qs[k]) || ps[k] == qs[k] {
        if k > 0 { assert ps[k] == ps[1..][k - 1] && qs[k] == qs[1..][k - 1]; }
      }
    }
  }

  // ----- patterns the generator accepts -----

  predicate NoBraces(s: bytes) { OPEN !in s && CLOSE !in s }

  /** A placeholder's name. */
  function NameOf(seg: bytes): bytes
    requires |seg| >= 2
  {
    seg[1..|seg| - 1]
  }

  /** validate_route_segment, apart from names used twice. */
  predicate ValidSegment(s: bytes) {
    && s != [] && s != [0x2E] && s != [0x2E, 0x2E] && SLASH !in s
    && if s[0] == OPEN then |s| >= 3 && s[|s| - 1] == CLOSE && |s| - 2 < MAX_NAME && IsIdentifier(NameOf(s))
       else NoBraces(s)
  }

  /** The names of the placeholders, in order. */
  function Placeholders(segs: seq<bytes>): seq<bytes> {
    if segs == [] then []
    else (if IsDynamic(segs[0]) then [NameOf(segs[0])] else []) + Placeholders(segs[1..])
  }

  predicate ValidSegments(segs: seq<bytes>) {
    && |segs| <= MAX_ROUTE_SEGMENTS && (forall k :: 0 <= k < |segs| ==> ValidSegment(segs[k]))
    && |Placeholders(segs)| <= PATH_PARAM_MAX && Distinct(Placeholders(segs))
  }

  /** validate_route_url. */
  predicate ValidUrl(url: bytes) {
    && 0 < |url| < MAX_URL && url[0] == SLASH && 0x3F !in url && 0x23 !in url && 0x5C !in url
    && (|url| > 1 ==> url[|url| - 1] != SLASH)
    && ValidSegments(Segs(url[1..]))
  }

  lemma ValidSegs(url: bytes)
    requires ValidUrl(url)
    ensures Segs(url) == [[]] + Segs(url[1..]) && |Segs(url)| <= MAX_ROUTE_SEGMENTS + 1
  {
    SegsFrom(url, 0);
    assert url[0..] == url && url[0..0] == [];
  }

  predicate Overlap(a: bytes, b: bytes)
    requires a != [] && b != []
  {
    OverlapSegs(Segs(a[1..]), Segs(b[1..]))
  }

  /** route_patterns_overlap. */
  method PatternsOverlap(a: bytes, b: bytes) returns (r: bool)
    requires ValidUrl(a) && ValidUrl(b)
    ensures r == Overlap(a, b)
  {
    hide IsDynamic, Segs, ValidSegment, Placeholders;
    r := false;
    var pa, pb := 1, 1;
    ghost var xs, ys := Segs(a[1..]), Segs(b[1..]);
    ghost var n: nat := 0;
    EmptySegs();
    var guard := 0;
    while guard < MAX_ROUTE_SEGMENTS
      invariant pa <= |a| && pb <= |b| && guard == n <= |xs| && n <= |ys|
      invariant Segs(a[pa..]) == xs[n..] && Segs(b[pb..]) == ys[n..]
      invariant forall k :: 0 <= k < n ==> IsDynamic(xs[k]) || IsDynamic(ys[k]) || xs[k] == ys[k]
      invariant n > 0 ==> n < |xs| && n < |ys|
      decreases MAX_ROUTE_SEGMENTS - guard
    {
      assert pa == |a| ==> a[pa..] == [];
      assert pb == |b| ==> b[pb..] == [];
      if pa < |a| { SegsFrom(a, pa); }
      if pb < |b| { SegsFrom(b, pb); }
      if pa == |a| || pb == |b| { return pa == |a| && pb == |b|; }
      var sa, sb := SlashAt(a, pa), SlashAt(b, pb);
      var x, y := a[pa..sa], b[pb..sb];
      assert xs[n..][0] == x && ys[n..][0] == y;
      if !IsDynamic(x) && !IsDynamic(y) && x != y { return false; }
      assert xs[n..][1..] == xs[n + 1..] && ys[n..][1..] == ys[n + 1..];
      if sa == |a| || sb == |b| {
        assert sa == |a| ==> a[|a|..] == [];
        assert sb == |b| ==> b[|b|..] == [];
        NoTrailing(a, sa);
        NoTrailing(b, sb);
        return sa == |a| && sb == |b|;
      }
      NoTrailing(a, sa);
      NoTrailing(b, sb);
      pa, pb := sa + 1, sb + 1;
      n := n + 1;
      guard := guard + 1;
    }
    assert false;
  }

  /** After a slash that is not the first byte a valid pattern goes on. */
  lemma NoTrailing(url: bytes, k: nat)
    requires ValidUrl(url) && 1 <= k <= |url| && (k < |url| ==> url[k] == SLASH)
    ensures k < |url| ==> k + 1 < |url| && Segs(url[k + 1..]) != []
  {
  }

  /** Patterns that match one URL are reported as overlapping. */
  lemma MatchesOverlap(a: bytes, b: bytes, url: bytes)
    requires ValidUrl(a) && ValidUrl(b) && MatchUrl(a, url).Yes? && MatchUrl(b, url).Yes?
    ensures Overlap(a, b)
  {
    hide IsDynamic, Segs, ValidSegments, MatchSegs;
    ValidSegs(a);
    ValidSegs(b);
    BothMatchOverlap(Segs(a), Segs(b), Segs(url), [], [], ROUTE_SEGMENT_MAX);
    var xs, ys := Segs(a[1..]), Segs(b[1..]);
    forall k | 0 <= k < |xs| ensures IsDynamic(xs[k]) || IsDynamic(ys[k]) || xs[k] == ys[k] {
      assert Segs(a)[k + 1] == xs[k] && Segs(b)[k + 1] == ys[k];
    }
  }

  // ----- when an overlap is a real one -----

  /** The fixed segments that face a placeholder fit a parameter. */
  predicate Facing(xs: seq<bytes>, ys: seq<bytes>)
    requires |xs| == |ys|
  {
    forall k :: 0 <= k < |xs| && IsDynamic(xs[k]) != IsDynamic(ys[k]) ==>
                  |if IsDynamic(xs[k]) then ys[k] else xs[k]| < PARAM_VALUE_LEN
  }

  /** A URL segment for two overlapping pattern segments. */
  function Common(x: bytes, y: bytes): bytes { if !IsDynamic(x) then x else if !IsDynamic(y) then y else [0x61] }

  function Commons(xs: seq<bytes>, ys: seq<bytes>): (us: seq<bytes>)
    requires |xs| == |ys|
    ensures |us| == |xs|
  {
    if xs == [] then [] else [Common(xs[0], ys[0])] + Commons(xs[1..], ys[1..])
  }

  function Dynamics(segs: seq<bytes>): nat {
    if segs == [] then 0 else (if IsDynamic(segs[0]) then 1 else 0) + Dynamics(segs[1..])
  }

  lemma {:induction false} DynamicsArePlaceholders(segs: seq<bytes>)
    ensures |Placeholders(segs)| == Dynamics(segs)
    decreases |segs|
  {
    if segs != [] { DynamicsArePlaceholders(segs[1..]); }
  }

  /** Overlapping segments match their common segments. */
  lemma {:induction false} CommonsMatch(xs: seq<bytes>, ys: seq<bytes>, params: seq<bytes>, g: nat)
    requires OverlapSegs(xs, ys) && Facing(xs, ys) && |xs| < g && |params| + Dynamics(xs) <= PATH_PARAM_MAX
    requires forall k :: 0 <= k < |xs| ==> xs[k] != [] && ys[k] != []
    ensures MatchSegs(xs, Commons(xs, ys), params, g).Yes?
    decreases |xs|
  {
    hide IsDynamic;
    if xs != [] {
      var us := Commons(xs, ys);
      assert us[1..] == Commons(xs[1..], ys[1..]);
      assert OverlapSegs(xs[1..], ys[1..]) && Facing(xs[1..], ys[1..]);
      assert IsDynamic(xs[0]) ==> us[0] != [] && |us[0]| < PARAM_VALUE_LEN;
      CommonsMatch(xs[1..], ys[1..], if IsDynamic(xs[0]) then params + [us[0]] else params, g - 1);
    }
  }

  lemma {:induction false} CommonsSymmetric(xs: seq<bytes>, ys: seq<bytes>)
    requires OverlapSegs(xs, ys)
    ensures Commons(xs, ys) == Commons(ys, xs)
    decreases |xs|
  {
    if xs != [] { CommonsSymmetric(xs[1..], ys[1..]); }
  }

  /** Segments written one after another, each with its slash. */
  function Join(us: seq<bytes>): bytes { if us == [] then [] else [SLASH] + us[0] + Join(us[1..]) }

  lemma {:induction false} JoinSegs(us: seq<bytes>)
    requires forall k :: 0 <= k < |us| ==> us[k] != [] && SLASH !in us[k]
    ensures us != [] ==> Segs(Join(us)[1..]) == us
    decreases |us|
  {
    hide Segs, SlashAt;
    if us != [] {
      var t := Join(us)[1..];
      var rest := Join(us[1..]);
      assert t == us[0] + rest;
      assert |us| > 1 ==> rest[0] == SLASH;
      SlashAfter(us[0], rest, 0);
      SegsUnfold(t, |us[0]|);
      assert t[..|us[0]|] == us[0];
      if |us| > 1 {
        JoinSegs(us[1..]);
        assert t[|us[0]| + 1..] == rest[1..];
      } else {
        assert rest == [];
      }
    }
  }

  lemma {:induction false} SlashAfter(a: bytes, rest: bytes, i: nat)
    requires SLASH !in a && i <= |a| && (rest != [] ==> rest[0] == SLASH)
    ensures SlashAt(a + rest, i) == |a|
    decreases |a| - i
  {
    if i < |a| { SlashAfter(a, rest, i + 1); }
  }

  lemma {:induction false} CommonsPlain(xs: seq<bytes>, ys: seq<bytes>)
    requires |xs| == |ys|
    requires forall k :: 0 <= k < |xs| ==> xs[k] != [] && ys[k] != [] && SLASH !in xs[k] && SLASH !in ys[k]
    ensures forall k :: 0 <= k < |xs| ==> Commons(xs, ys)[k] != [] && SLASH !in Commons(xs, ys)[k]
    decreases |xs|
  {
    if xs != [] { CommonsPlain(xs[1..], ys[1..]); }
  }

  /** Facing is about the segments two patterns share a URL in. */
  lemma {:induction false} MatchesFace(xs: seq<bytes>, ys: seq<bytes>, us: seq<bytes>, a: seq<bytes>, b: seq<bytes>, g: nat)
    requires MatchSegs(xs, us, a, g).Yes? && MatchSegs(ys, us, b, g).Yes?
    ensures |xs| == |ys| && Facing(xs, ys)
    decreases g
  {
    hide IsDynamic;
    if xs != [] {
      MatchesFace(xs[1..], ys[1..], us[1..], if IsDynamic(xs[0]) then a + [us[0]] else a,
                  if IsDynamic(ys[0]) then b + [us[0]] else b, g - 1);
      forall k | 0 <= k < |xs| && IsDynamic(xs[k]) != IsDynamic(ys[k])
        ensures |if IsDynamic(xs[k]) then ys[k] else xs[k]| < PARAM_VALUE_LEN
      {
        if k > 0 { assert xs[k] == xs[1..][k - 1] && ys[k] == ys[1..][k - 1]; }
      }
    }
  }

  /**
   The reported overlap is real, that is, some URL matches both patterns, exactly when no fixed segment of 64 bytes or
   more faces a placeholder.
   */
  lemma OverlapIsReal(a: bytes, b: bytes)
    requires ValidUrl(a) && ValidUrl(b)
    ensures (exists url :: MatchUrl(a, url).Yes? && MatchUrl(b, url).Yes?)
            <==> Overlap(a, b) && Facing(Segs(a[1..]), Segs(b[1..]))
  {
    hide IsDynamic, Segs, Placeholders, Dynamics;
    var xs, ys := Segs(a[1..]), Segs(b[1..]);
    ValidSegs(a);
    ValidSegs(b);
    forall url | MatchUrl(a, url).Yes? && MatchUrl(b, url).Yes?
      ensures Overlap(a, b) && Facing(xs, ys)
    {
      MatchesOverlap(a, b, url);
      MatchesFace(Segs(a), Segs(b), Segs(url), [], [], ROUTE_SEGMENT_MAX);
      assert forall k :: 0 <= k < |xs| ==> Segs(a)[k + 1] == xs[k] && Segs(b)[k + 1] == ys[k];
    }
    if Overlap(a, b) && Facing(xs, ys) {
      var url := RealUrl(a, b);
    }
  }

  lemma RealUrl(a: bytes, b: bytes) returns (url: bytes)
    requires ValidUrl(a) && ValidUrl(b) && Overlap(a, b) && Facing(Segs(a[1..]), Segs(b[1..]))
    ensures MatchUrl(a, url).Yes? && MatchUrl(b, url).Yes?
  {
    hide IsDynamic, Segs, Placeholders, Dynamics;
    var xs, ys := Segs(a[1..]), Segs(b[1..]);
    ValidSegs(a);
    ValidSegs(b);
    var us := Commons(xs, ys);
    CommonsPlain(xs, ys);
    CommonsSymmetric(xs, ys);
    DynamicsArePlaceholders(xs);
    DynamicsArePlaceholders(ys);
    CommonsMatch(xs, ys, [], ROUTE_SEGMENT_MAX - 1);
    CommonsMatch(ys, xs, [], ROUTE_SEGMENT_MAX - 1);
    url := if us == [] then [SLASH] else Join(us);
    UrlOfSegments(us, url);
    assert ([[]] + xs)[1..] == xs && ([[]] + ys)[1..] == ys && ([[]] + us)[1..] == us;
    NotDynamic();
  }

  lemma NotDynamic()
    ensures !IsDynamic([])
  {
  }

  lemma UrlOfSegments(us: seq<bytes>, url: bytes)
    requires forall k :: 0 <= k < |us| ==> us[k] != [] && SLASH !in us[k]
    requires url == if us == [] then [SLASH] else Join(us)
    ensures Segs(url) == [[]] + us
  {
    hide Segs;
    SegsFrom(url, 0);
    assert url[0..] == url && url[0..0] == [];
    EmptySegs();
    JoinSegs(us);
    if us == [] { assert url[1..] == []; }
  }

  lemma OneSegment(x: bytes)
    requires x != [] && SLASH !in x
    ensures Segs(x) == [x]
  {
    hide Segs;
    SlashAfter(x, [], 0);
    assert x + [] == x && x[..|x|] == x;
    SegsUnfold(x, |x|);
  }

  /** The two notions do differ: a placeholder and a fixed segment of 64 bytes are reported, and no URL matches both. */
  lemma OverlapNotReal(a: bytes, b: bytes)
    requires a == [SLASH, OPEN, 0x78, CLOSE] && |b| == 65 && b[0] == SLASH && forall k :: 1 <= k < 65 ==> b[k] == 0x61
    ensures ValidUrl(a) && ValidUrl(b) && Overlap(a, b)
    ensures !exists url :: MatchUrl(a, url).Yes? && MatchUrl(b, url).Yes?
  {
    hide Segs;
    var x, y := a[1..], b[1..];
    assert x == [OPEN, 0x78, CLOSE] && NameOf(x) == [0x78];
    assert y[0] == 0x61 && forall k :: 0 <= k < 64 ==> y[k] == b[k + 1];
    OneSegment(x);
    OneSegment(y);
    assert Placeholders([x][1..]) == [] && Placeholders([y][1..]) == [];
    OverlapIsReal(a, b);
  }
}
