/** The generated route table: which routes are accepted, in which order they are written, and which one is found. */
module RouteTable {
  import opened Bytes
  import opened Routes

  datatype Route = Route(method_: bytes, url: bytes, handler: bool)

  const GET: bytes := [0x47, 0x45, 0x54]
  const OPENAPI: bytes := [0x2F, 0x6F, 0x70, 0x65, 0x6E, 0x61, 0x70, 0x69, 0x2E, 0x6A, 0x73, 0x6F, 0x6E]
  const HEALTH_LIVE: bytes := [0x2F, 0x68, 0x65, 0x61, 0x6C, 0x74, 0x68, 0x2F, 0x6C, 0x69, 0x76, 0x65]
  const HEALTH_READY: bytes := [0x2F, 0x68, 0x65, 0x61, 0x6C, 0x74, 0x68, 0x2F, 0x72, 0x65, 0x61, 0x64, 0x79]

  // ----- counting placeholders -----

  function CountOpen(s: bytes): nat {
    if s == [] then 0 else (if s[0] == OPEN then 1 else 0) + CountOpen(s[1..])
  }

  /** dynamic_segment_count, count_url_params and dynamic_segments: one loop, over at most 128 bytes. */
  function Braces(url: bytes): nat { CountOpen(if |url| <= MAX_URL then url else url[..MAX_URL]) }

  method CountBraces(url: bytes) returns (n: nat)
    ensures n == Braces(url)
  {
    ghost var u := if |url| <= MAX_URL then url else url[..MAX_URL];
    n := 0;
    var i := 0;
    assert u[0..] == u;
    while i < MAX_URL && i < |url|
      invariant 0 <= i <= |u| && n + CountOpen(u[i..]) == CountOpen(u)
    {
      assert u[i..][1..] == u[i + 1..] && u[i..][0] == url[i];
      if url[i] == OPEN { n := n + 1; }
      i := i + 1;
    }
    assert u[i..] == [];
  }

  lemma {:induction false} CountConcat(a: bytes, b: bytes)
    ensures CountOpen(a + b) == CountOpen(a) + CountOpen(b)
    decreases |a|
  {
    if a == [] {
      assert a + b == b;
    } else {
      assert (a + b)[1..] == a[1..] + b;
      CountConcat(a[1..], b);
    }
  }

  /** A segment has one brace to open if it is a placeholder, and none otherwise. */
  lemma CountSegment(s: bytes)
    requires ValidSegment(s)
    ensures CountOpen(s) == if IsDynamic(s) then 1 else 0
  {
    if s[0] == OPEN {
      forall k | 1 <= k < |s| ensures s[k] != OPEN {
        if k < |s| - 1 { assert s[k] == NameOf(s)[k - 1]; }
      }
      NoneOpen(s[1..]);
    } else {
      NoneOpen(s);
    }
  }

  lemma {:induction false} CountSegments(s: bytes)
    requires forall k :: 0 <= k < |Segs(s)| ==> ValidSegment(Segs(s)[k])
    ensures CountOpen(s) == |Placeholders(Segs(s))|
    decreases |s|
  {
    hide ValidSegment, CountOpen, SlashAt;
    if s == [] {
      NoneOpen(s);
    } else {
      var k := SlashAt(s, 0);
      assert Segs(s)[0] == s[..k];
      CountSegment(s[..k]);
      CountFirst(s, k);
      if k < |s| {
        assert Segs(s)[1..] == Segs(s[k + 1..]);
        CountSegments(s[k + 1..]);
      }
    }
  }

  lemma CountFirst(s: bytes, k: nat)
    requires k <= |s| && (k < |s| ==> s[k] == SLASH)
    ensures CountOpen(s) == CountOpen(s[..k]) + if k < |s| then CountOpen(s[k + 1..]) else 0
  {
    hide CountOpen;
    assert s == s[..k] + s[k..];
    CountConcat(s[..k], s[k..]);
    if k < |s| {
      assert s[k..] == [SLASH] + s[k + 1..];
      CountConcat([SLASH], s[k + 1..]);
      NoneOpen([SLASH]);
    } else {
      NoneOpen(s[k..]);
    }
  }

  /** How many placeholders a pattern has. */
  function Slots(url: bytes): nat { |Placeholders(Segs(url))| }

  /** Counting opening braces in a valid URL is counting its placeholders. */
  lemma BracesAreSlots(url: bytes)
    requires ValidUrl(url)
    ensures Braces(url) == Slots(url)
  {
    hide ValidSegment, CountOpen, Segs;
    ValidSegs(url);
    assert Segs(url)[0] == [] && Segs(url)[1..] == Segs(url[1..]);
    CountSegments(url[1..]);
    assert url == [SLASH] + url[1..];
    CountConcat([SLASH], url[1..]);
    NoneOpen([SLASH]);
  }

  // ----- finding a route at run time -----

  predicate Candidate(r: Route, method_: bytes) { r.handler && r.method_ == method_ }

  predicate Hits(r: Route, method_: bytes, url: bytes) { Candidate(r, method_) && MatchUrl(r.url, url).Yes? }

  /** Route i matches, and every other route that matches has more placeholders. */
  ghost predicate UniqueBest(table: seq<Route>, method_: bytes, url: bytes, i: nat) {
    && i < |table| && Hits(table[i], method_, url)
    && forall j :: 0 <= j < |table| && j != i && Hits(table[j], method_, url) ==> Braces(table[j].url) > Braces(table[i].url)
  }

  /** The same in placeholders. */
  ghost predicate FewestSlots(table: seq<Route>, method_: bytes, url: bytes, i: nat) {
    && i < |table| && Hits(table[i], method_, url)
    && forall j :: 0 <= j < |table| && j != i && Hits(table[j], method_, url) ==> Slots(table[j].url) > Slots(table[i].url)
  }

  lemma BestHasFewestSlots(table: seq<Route>, method_: bytes, url: bytes, i: nat)
    requires forall j :: 0 <= j < |table| ==> ValidUrl(table[j].url)
    ensures UniqueBest(table, method_, url, i) <==> FewestSlots(table, method_, url, i)
  {
    hide ValidUrl, Slots, Braces, Hits;
    forall j | 0 <= j < |table| ensures Braces(table[j].url) == Slots(table[j].url) { BracesAreSlots(table[j].url); }
  }

  /** route_find_exact. */
  method RouteFindExact(table: seq<Route>, method_: bytes, url: bytes)
    returns (best: Option<nat>, params: seq<bytes>, invalid: bool)
    ensures best.Some? <==> exists i: nat :: UniqueBest(table, method_, url, i)
    ensures best.Some? ==> UniqueBest(table, method_, url, best.value) && !invalid
    ensures best.Some? ==> MatchUrl(table[best.value].url, url) == Yes(params)
    ensures best.None? ==>
              (invalid <==> exists j :: 0 <= j < |table| && Candidate(table[j], method_) && !MatchUrl(table[j].url, url).No?)
  {
    hide MatchUrl, Braces;
    var sawInvalid, ambiguous := false, false;
    var bestDynamic := 0;
    best, params := None, [];
    var i := 0;
    while i < |table|
      invariant 0 <= i <= |table|
      invariant best.None? ==> !ambiguous && forall j :: 0 <= j < i ==> !Hits(table[j], method_, url)
      invariant best.Some? ==>
                  && best.value < i && Hits(table[best.value], method_, url)
                  && MatchUrl(table[best.value].url, url) == Yes(params) && bestDynamic == Braces(table[best.value].url)
                  && (forall j :: 0 <= j < i && Hits(table[j], method_, url) ==> Braces(table[j].url) >= bestDynamic)
                  && (ambiguous <==> exists j :: 0 <= j < i && j != best.value && Hits(table[j], method_, url)
                                                 && Braces(table[j].url) == bestDynamic)
      invariant sawInvalid <==> exists j :: 0 <= j < i && Candidate(table[j], method_) && MatchUrl(table[j].url, url).Invalid?
    {
      var r := table[i];
      if r.handler && r.method_ == method_ {
        var m := PathMatches(r.url, url);
        if m.Yes? {
          assert Hits(r, method_, url);
          var dynamic := CountBraces(r.url);
          if best.None? || dynamic < bestDynamic {
            best, params, bestDynamic, ambiguous := Some(i), m.params, dynamic, false;
          } else if dynamic == bestDynamic {
            ambiguous := true;
          }
        }
        if m.Invalid? { sawInvalid := true; }
      }
      i := i + 1;
    }
    invalid := false;
    if best.Some? {
      assert forall k: nat :: UniqueBest(table, method_, url, k) ==> k == best.value;
      if ambiguous {
        ghost var j :| 0 <= j < |table| && j != best.value && Hits(table[j], method_, url)
                       && Braces(table[j].url) == bestDynamic;
        assert !UniqueBest(table, method_, url, best.value);
        best, params, invalid := None, [], true;
      } else {
        assert UniqueBest(table, method_, url, best.value);
      }
    } else {
      invalid := sawInvalid;
    }
  }

  // ----- accepting routes -----

  predicate Reserved(url: bytes) { url == OPENAPI || url == HEALTH_LIVE || url == HEALTH_READY }

  predicate Clash(a: Route, b: Route) {
    a.url != [] && b.url != [] && a.method_ == b.method_ && Braces(a.url) == Braces(b.url) && Overlap(a.url, b.url)
  }

  /** What the generator demands of the routes together. */
  ghost predicate Accepted(routes: seq<Route>) {
    && (forall i :: 0 <= i < |routes| ==> ValidUrl(routes[i].url) && !Reserved(routes[i].url) && routes[i].handler)
    && forall i, j :: 0 <= j < i < |routes| ==> !Clash(routes[i], routes[j])
  }

  /** validate_routes and validate_route_clashes, for routes whose URLs have passed validate_route_url. */
  method ValidateRoutes(routes: seq<Route>) returns (ok: bool)
    requires forall i :: 0 <= i < |routes| ==> ValidUrl(routes[i].url) && routes[i].handler
    ensures ok <==> Accepted(routes)
  {
    hide ValidUrl, Overlap, Braces;
    ok := true;
    var i := 0;
    while i < |routes|
      invariant 0 <= i <= |routes|
      invariant ok ==> forall k :: 0 <= k < i ==> !Reserved(routes[k].url)
      invariant ok ==> forall k, j :: 0 <= j < k < i ==> !Clash(routes[k], routes[j])
      invariant !ok ==> !Accepted(routes)
    {
      var bad := Reserved(routes[i].url);
      var prior := 0;
      while prior < i
        invariant 0 <= prior <= i
        invariant !bad ==> !Reserved(routes[i].url) && forall j :: 0 <= j < prior ==> !Clash(routes[i], routes[j])
        invariant bad ==> !Accepted(routes)
      {
        ValidNonEmpty(routes[i].url);
        ValidNonEmpty(routes[prior].url);
        if routes[i].method_ == routes[prior].method_ {
          var a := CountBraces(routes[i].url);
          var b := CountBraces(routes[prior].url);
          if a == b {
            var o := PatternsOverlap(routes[i].url, routes[prior].url);
            if o { bad := true; }
          }
        }
        prior := prior + 1;
      }
      if bad { ok := false; }
      i := i + 1;
    }
  }

  lemma ValidNonEmpty(url: bytes)
    requires ValidUrl(url)
    ensures url != []
  {
  }

  /**
   A clash is what makes a request ambiguous: when no fixed segment too long for a parameter faces a placeholder, two
   routes clash exactly when they have one method and some URL matches both, with as many placeholders in each.
   */
  lemma ClashIs(a: Route, b: Route)
    requires ValidUrl(a.url) && ValidUrl(b.url)
    requires Overlap(a.url, b.url) ==> Facing(Segs(a.url[1..]), Segs(b.url[1..]))
    ensures Clash(a, b) <==>
            && a.method_ == b.method_ && Slots(a.url) == Slots(b.url)
            && exists url :: MatchUrl(a.url, url).Yes? && MatchUrl(b.url, url).Yes?
  {
    hide MatchUrl, Overlap, Facing, Braces, Slots, Segs, ValidSegments;
    OverlapIsReal(a.url, b.url);
    BracesAreSlots(a.url);
    BracesAreSlots(b.url);
  }

  // ----- writing the table -----

  /** Routes with fewer placeholders first, and otherwise in the order of declaration. */
  predicate Before(routes: seq<Route>, a: nat, b: nat)
    requires a < |routes| && b < |routes|
  {
    Braces(routes[a].url) < Braces(routes[b].url) || (Braces(routes[a].url) == Braces(routes[b].url) && a < b)
  }

  ghost predicate EmitOrder(routes: seq<Route>, order: seq<nat>) {
    && |order| == |routes| && (forall p :: 0 <= p < |order| ==> order[p] < |routes|)
    && (forall i :: 0 <= i < |routes| ==> i in order)
    && forall p, q :: 0 <= p < q < |order| ==> Before(routes, order[p], order[q])
  }

  /** emit_route_table: repeatedly the first route with the fewest placeholders among those not yet written. */
  method EmitRouteTable(routes: seq<Route>) returns (order: seq<nat>)
    ensures EmitOrder(routes, order)
  {
    hide Braces;
    var emitted := seq(|routes|, _ => false);
    order := [];
    NoneWritten(emitted);
    while |order| < |routes|
      invariant |emitted| == |routes| && |order| == Written(emitted)
      invariant forall p :: 0 <= p < |order| ==> order[p] < |routes|
      invariant forall i :: 0 <= i < |routes| && emitted[i] ==> i in order
      invariant forall p, i :: 0 <= p < |order| && 0 <= i < |routes| && !emitted[i] ==> Before(routes, order[p], i)
      invariant forall p, q :: 0 <= p < q < |order| ==> Before(routes, order[p], order[q])
      decreases |routes| - |order|
    {
      var best: Option<nat> := None;
      var bestDynamic := 0;
      var i := 0;
      while i < |routes|
        invariant 0 <= i <= |routes|
        invariant best.None? ==> forall j :: 0 <= j < i ==> emitted[j]
        invariant best.Some? ==> best.value < i && !emitted[best.value] && bestDynamic == Braces(routes[best.value].url)
        invariant best.Some? ==> forall j :: 0 <= j < i && !emitted[j] && j != best.value ==> Before(routes, best.value, j)
      {
        var dynamic := CountBraces(routes[i].url);
        if !emitted[i] && (best.None? || dynamic < bestDynamic) {
          best, bestDynamic := Some(i), dynamic;
        }
        i := i + 1;
      }
      AllWritten(emitted);
      WrittenMore(emitted, best.value);
      emitted := emitted[best.value := true];
      order := order + [best.value];
    }
    AllWritten(emitted);
  }

  /** How many routes are marked as written. */
  ghost function Written(emitted: seq<bool>): nat {
    if emitted == [] then 0 else (if emitted[0] then 1 else 0) + Written(emitted[1..])
  }

  lemma {:induction false} NoneWritten(e: seq<bool>)
    requires forall i :: 0 <= i < |e| ==> !e[i]
    ensures Written(e) == 0
    decreases |e|
  {
    if e != [] { NoneWritten(e[1..]); }
  }

  lemma {:induction false} AllWritten(e: seq<bool>)
    ensures Written(e) <= |e| && (Written(e) == |e| <==> forall i :: 0 <= i < |e| ==> e[i])
    decreases |e|
  {
    if e != [] {
      AllWritten(e[1..]);
      assert (forall i :: 0 <= i < |e| ==> e[i]) ==> e[0] && forall i :: 0 <= i < |e[1..]| ==> e[1..][i];
      assert forall i :: 1 <= i < |e| ==> e[i] == e[1..][i - 1];
    }
  }

  lemma {:induction false} WrittenMore(e: seq<bool>, i: nat)
    requires i < |e| && !e[i]
    ensures Written(e[i := true]) == Written(e) + 1
    decreases |e|
  {
    if i > 0 {
      WrittenMore(e[1..], i - 1);
      assert e[i := true][1..] == e[1..][i - 1 := true];
    } else {
      assert e[i := true][1..] == e[1..];
    }
  }

  /** The table in the generated program: the OpenAPI document first, then the routes in order. */
  function Table(routes: seq<Route>, order: seq<nat>): (t: seq<Route>)
    requires forall p :: 0 <= p < |order| ==> order[p] < |routes|
    ensures |t| == |order| + 1
  {
    [Route(GET, OPENAPI, true)] + seq(|order|, p requires 0 <= p < |order| => routes[order[p]])
  }

  // ----- the three pieces agree -----

  lemma JoinNothing()
    ensures Join([]) == []
  {
  }

  lemma JoinCons(s: bytes, segs: seq<bytes>)
    ensures Join([s] + segs) == [SLASH] + s + Join(segs)
  {
    assert ([s] + segs)[1..] == segs;
  }

  /** Segments put back together are the URL they came from. */
  lemma {:induction false} JoinBack(s: bytes)
    requires s != [] && s[|s| - 1] != SLASH
    ensures Join(Segs(s)) == [SLASH] + s
    decreases |s|
  {
    hide Segs, SlashAt, Join;
    JoinNothing();
    var k := SlashAt(s, 0);
    SegsUnfold(s, k);
    SlashWithin(s);
    if k < |s| {
      JoinBack(s[k + 1..]);
      JoinCons(s[..k], Segs(s[k + 1..]));
      assert s == s[..k] + ([SLASH] + s[k + 1..]);
    } else {
      assert s[..k] == s;
      JoinCons(s, []);
      assert [s] + [] == [s];
    }
  }

  lemma SlashWithin(s: bytes)
    requires s != []
    ensures var k := SlashAt(s, 0); k < |s| ==> s[k] == SLASH && (k == |s| - 1 ==> s[|s| - 1] == SLASH)
  {
  }

  lemma {:induction false} OpenInSegs(s: bytes, seg: bytes)
    requires seg in Segs(s) && CountOpen(s) == 0
    ensures OPEN !in seg
    decreases |s|
  {
    hide SlashAt;
    var k := SlashAt(s, 0);
    NoOpen(s);
    if seg != s[..k] && k < |s| {
      NoOpenTail(s, k + 1);
      assert seg in Segs(s[k + 1..]);
      OpenInSegs(s[k + 1..], seg);
    }
  }

  lemma {:induction false} NoOpen(s: bytes)
    requires CountOpen(s) == 0
    ensures OPEN !in s
    decreases |s|
  {
    if s != [] { NoOpen(s[1..]); assert s == [s[0]] + s[1..]; }
  }

  lemma {:induction false} NoOpenTail(s: bytes, k: nat)
    requires CountOpen(s) == 0 && k <= |s|
    ensures CountOpen(s[k..]) == 0
    decreases k
  {
    if k > 0 {
      NoOpenTail(s, k - 1);
      assert s[k - 1..][1..] == s[k..];
    } else {
      assert s[k..] == s;
    }
  }

  /** Overlapping patterns without placeholders are one pattern. */
  lemma FixedOverlap(a: bytes, b: bytes)
    requires ValidUrl(a) && ValidUrl(b) && Braces(a) == 0 && Braces(b) == 0 && Overlap(a, b)
    ensures a == b
  {
    hide Segs, ValidSegments;
    NoOpenTail(a, 1);
    NoOpenTail(b, 1);
    var xs, ys := Segs(a[1..]), Segs(b[1..]);
    forall k | 0 <= k < |xs| ensures xs[k] == ys[k] {
      OpenInSegs(a[1..], xs[k]);
      OpenInSegs(b[1..], ys[k]);
    }
    assert xs == ys;
    EmptySegs();
    if |a| > 1 { JoinBack(a[1..]); SegsNonEmpty(a[1..]); }
    if |b| > 1 { JoinBack(b[1..]); SegsNonEmpty(b[1..]); }
    assert a == [SLASH] + a[1..] && b == [SLASH] + b[1..];
  }

  lemma SegsNonEmpty(s: bytes)
    requires s != []
    ensures Segs(s) != []
  {
  }

  lemma OpenApiValid()
    ensures ValidUrl(OPENAPI) && Braces(OPENAPI) == 0
  {
    hide Segs, ValidSegment, CountOpen;
    var x := OPENAPI[1..];
    OpenApiSegment(x);
    OneSegment(x);
    assert Placeholders([x][1..]) == [];
    NoneOpen(OPENAPI);
  }

  lemma OpenApiSegment(x: bytes)
    requires x == OPENAPI[1..]
    ensures ValidSegment(x) && !IsDynamic(x) && |x| == 12 && SLASH !in x
  {
    assert x == [0x6F, 0x70, 0x65, 0x6E, 0x61, 0x70, 0x69, 0x2E, 0x6A, 0x73, 0x6F, 0x6E];
  }

  lemma {:induction false} NoneOpen(s: bytes)
    requires OPEN !in s
    ensures CountOpen(s) == 0
    decreases |s|
  {
    if s != [] { NoneOpen(s[1..]); }
  }

  lemma TableValid(routes: seq<Route>, order: seq<nat>, k: nat)
    requires Accepted(routes) && EmitOrder(routes, order) && k <= |order|
    ensures ValidUrl(Table(routes, order)[k].url)
  {
    hide ValidUrl, Reserved, Clash, Before;
    if k == 0 {
      OpenApiValid();
    } else {
      assert Table(routes, order)[k] == routes[order[k - 1]];
    }
  }

  /** Of two routes of the table that match one request, the earlier has fewer placeholders. */
  lemma EarlierIsBetter(routes: seq<Route>, order: seq<nat>, method_: bytes, url: bytes, i: nat, j: nat)
    requires Accepted(routes) && EmitOrder(routes, order) && i < j <= |order|
    requires var t := Table(routes, order); Hits(t[i], method_, url) && Hits(t[j], method_, url)
    ensures var t := Table(routes, order); Slots(t[i].url) < Slots(t[j].url)
  {
    hide MatchUrl, Overlap, ValidUrl, Braces, Clash, Slots;
    TableValid(routes, order, i);
    TableValid(routes, order, j);
    BracesAreSlots(Table(routes, order)[i].url);
    BracesAreSlots(Table(routes, order)[j].url);
    var q := order[j - 1];
    if i == 0 {
      OpenApiIsBetter(routes[q], url);
    } else {
      var p := order[i - 1];
      assert Before(routes, p, q);
      if Braces(routes[p].url) == Braces(routes[q].url) { ClashOnMatch(routes[q], routes[p], url); }
    }
  }

  lemma OpenApiIsBetter(r: Route, url: bytes)
    requires ValidUrl(r.url) && !Reserved(r.url) && MatchUrl(OPENAPI, url).Yes? && MatchUrl(r.url, url).Yes?
    ensures Braces(OPENAPI) < Braces(r.url)
  {
    hide MatchUrl, Overlap, ValidUrl, Braces;
    OpenApiValid();
    MatchesOverlap(OPENAPI, r.url, url);
    if Braces(r.url) == 0 { FixedOverlap(OPENAPI, r.url); }
  }

  lemma ClashOnMatch(a: Route, b: Route, url: bytes)
    requires ValidUrl(a.url) && ValidUrl(b.url) && MatchUrl(a.url, url).Yes? && MatchUrl(b.url, url).Yes?
    requires a.method_ == b.method_ && Braces(a.url) == Braces(b.url)
    ensures Clash(a, b)
  {
    hide MatchUrl, Overlap, Braces;
    MatchesOverlap(a.url, b.url, url);
  }

  /**
   For every accepted set of routes and every request, route_find_exact finds a route exactly when one matches, it is
   the first match of the table, and it has the fewest placeholders of all that match: no match is ambiguous.
   */
  lemma FirstMatchIsFound(routes: seq<Route>, order: seq<nat>, method_: bytes, url: bytes, i: nat)
    requires Accepted(routes) && EmitOrder(routes, order) && i <= |order|
    requires var t := Table(routes, order);
             Hits(t[i], method_, url) && forall j :: 0 <= j < i ==> !Hits(t[j], method_, url)
    ensures FewestSlots(Table(routes, order), method_, url, i) && UniqueBest(Table(routes, order), method_, url, i)
  {
    hide MatchUrl, Hits, Accepted, Before, Slots, Braces, ValidUrl;
    var t := Table(routes, order);
    forall j | 0 <= j < |t| && j != i && Hits(t[j], method_, url) ensures Slots(t[j].url) > Slots(t[i].url) {
      EarlierIsBetter(routes, order, method_, url, i, j);
    }
    forall k | 0 <= k < |t| ensures ValidUrl(t[k].url) { TableValid(routes, order, k); }
    BestHasFewestSlots(t, method_, url, i);
  }

  lemma Spelling()
    ensures GET == Ascii("GET") && OPENAPI == Ascii("/openapi.json")
    ensures HEALTH_LIVE == Ascii("/health/live") && HEALTH_READY == Ascii("/health/ready")
  {
  }
}
