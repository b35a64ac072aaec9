/** validate_nesting_depth: how deep the types of a program nest. */
module Nesting {
  import opened Bytes
  import opened Graphs
  import opened StructTypes

  const MAX_NESTING := 8

  /** A declared type: its name, and the type names of its fields that are structs. */
  datatype ParsedType = ParsedType(name: bytes, nested: seq<bytes>)

  /** The first type of that name is number k. */
  ghost predicate Called(types: seq<ParsedType>, name: bytes, k: int) {
    0 <= k < |types| && types[k].name == name && forall j :: 0 <= j < k ==> types[j].name != name
  }

  function TypeIndexFrom(types: seq<ParsedType>, name: bytes, i: nat): (k: int)
    requires i <= |types|
    ensures -1 <= k < |types|
    ensures k == -1 ==> forall j :: i <= j < |types| ==> types[j].name != name
    ensures k >= 0 ==> i <= k && types[k].name == name && forall j :: i <= j < k ==> types[j].name != name
    decreases |types| - i
  {
    if i == |types| then -1 else if types[i].name == name then i else TypeIndexFrom(types, name, i + 1)
  }

  /** type_index. */
  function TypeIndex(types: seq<ParsedType>, name: bytes): (k: int)
    ensures -1 <= k < |types|
    ensures k >= 0 ==> Called(types, name, k)
    ensures k == -1 ==> forall j :: 0 <= j < |types| ==> types[j].name != name
  {
    TypeIndexFrom(types, name, 0)
  }

  // ----- the nesting graph -----

  /** A field of type i is of a struct type by the name of type k. */
  ghost function Nests(types: seq<ParsedType>): Edges {
    (i: nat, k: nat) => i < |types| && exists j :: 0 <= j < |types[i].nested| && Called(types, types[i].nested[j], k)
  }

  /** Every nested type is declared. */
  ghost predicate Closed(types: seq<ParsedType>) {
    forall i, j :: 0 <= i < |types| && 0 <= j < |types[i].nested| ==> exists k :: 0 <= k < |types| && types[k].name == types[i].nested[j]
  }

  /** No chain of nested types is longer than that, so there is no cycle either. */
  ghost predicate AtMost(types: seq<ParsedType>, levels: nat) {
    forall p :: IsPath(|types|, Nests(types), p) ==> |p| <= levels
  }

  // ----- one round for one type -----

  /** The depth of type i as far as the depths of its nested types are known; 0 when one is not. */
  function ValueFrom(types: seq<ParsedType>, d: seq<nat>, i: nat, j: nat, value: nat): nat
    requires |d| == |types| && i < |types| && j <= |types[i].nested|
    decreases |types[i].nested| - j
  {
    if j == |types[i].nested| then value
    else
      var k := TypeIndex(types, types[i].nested[j]);
      if k < 0 || d[k] == 0 then 0 else ValueFrom(types, d, i, j + 1, if d[k] + 1 > value then d[k] + 1 else value)
  }

  function ValueOf(types: seq<ParsedType>, d: seq<nat>, i: nat): nat
    requires |d| == |types| && i < |types|
  {
    ValueFrom(types, d, i, 0, 1)
  }

  /** What the loop computes: 0, or one more than the greatest of the depths, and at least `value`. */
  lemma {:induction false} ValueFromIs(types: seq<ParsedType>, d: seq<nat>, i: nat, j: nat, value: nat)
    requires |d| == |types| && i < |types| && j <= |types[i].nested| && value >= 1
    ensures var v := ValueFrom(types, d, i, j, value);
            var ks := types[i].nested;
            && (v == 0 <==> exists m :: j <= m < |ks| && (TypeIndex(types, ks[m]) < 0 || d[TypeIndex(types, ks[m])] == 0))
            && (v != 0 ==> v >= value && forall m :: j <= m < |ks| ==> d[TypeIndex(types, ks[m])] < v)
            && (v != 0 ==> v == value || exists m :: j <= m < |ks| && d[TypeIndex(types, ks[m])] + 1 == v)
    decreases |types[i].nested| - j
  {
    hide TypeIndex;
    if j < |types[i].nested| {
      var k := TypeIndex(types, types[i].nested[j]);
      if k >= 0 && d[k] != 0 { ValueFromIs(types, d, i, j + 1, if d[k] + 1 > value then d[k] + 1 else value); }
    }
  }

  method ComputeValue(types: seq<ParsedType>, depth: array<nat>, i: nat) returns (value: nat)
    requires depth.Length == |types| && i < |types|
    ensures value == ValueOf(types, depth[..], i)
  {
    hide TypeIndex;
    value := 1;
    var j := 0;
    while j < |types[i].nested|
      invariant 0 <= j <= |types[i].nested|
      invariant ValueFrom(types, depth[..], i, j, value) == ValueOf(types, depth[..], i)
    {
      var k := TypeIndex(types, types[i].nested[j]);
      if k < 0 || depth[k] == 0 { return 0; }
      if depth[k] + 1 > value { value := depth[k] + 1; }
      j := j + 1;
    }
  }

  // ----- depths that are known are right -----

  /** Every depth that is known is what its nested types say. */
  ghost predicate Consistent(types: seq<ParsedType>, d: seq<nat>) {
    |d| == |types| && forall i :: 0 <= i < |d| && d[i] != 0 ==> ValueOf(types, d, i) == d[i]
  }

  /** Every type whose depth is not known nests one whose depth is not known, or one that is not declared. */
  ghost predicate Stuck(types: seq<ParsedType>, d: seq<nat>) {
    |d| == |types| && forall i :: 0 <= i < |d| && d[i] == 0 ==> ValueOf(types, d, i) == 0
  }

  function Known(d: seq<nat>): nat { if d == [] then 0 else Known(d[..|d| - 1]) + if d[|d| - 1] != 0 then 1 else 0 }

  lemma {:induction false} KnownSet(d: seq<nat>, i: nat, v: nat)
    requires i < |d| && d[i] == 0 && v != 0
    ensures Known(d[i := v]) == Known(d) + 1
    decreases |d|
  {
    var d' := d[i := v];
    var n := |d| - 1;
    if i == n {
      assert d'[..n] == d[..n];
    } else {
      KnownSet(d[..n], i, v);
      assert d'[..n] == d[..n][i := v];
    }
  }

  lemma {:induction false} KnownAll(d: seq<nat>)
    ensures Known(d) <= |d| && (Known(d) == |d| ==> forall i :: 0 <= i < |d| ==> d[i] != 0)
    decreases |d|
  {
    if d != [] { KnownAll(d[..|d| - 1]); }
  }

  /** Making one more depth known does not disturb those that were known. */
  lemma {:induction false} ValueKept(types: seq<ParsedType>, d: seq<nat>, i: nat, k: nat, v: nat, j: nat, value: nat)
    requires |d| == |types| && i < |types| && k < |types| && d[k] == 0 && value >= 1 && j <= |types[i].nested|
    requires ValueFrom(types, d, i, j, value) != 0
    ensures ValueFrom(types, d[k := v], i, j, value) == ValueFrom(types, d, i, j, value)
    decreases |types[i].nested| - j
  {
    hide TypeIndex;
    if j < |types[i].nested| {
      var m := TypeIndex(types, types[i].nested[j]);
      ValueKept(types, d, i, k, v, j + 1, if d[m] + 1 > value then d[m] + 1 else value);
    }
  }

  lemma ConsistentSet(types: seq<ParsedType>, d: seq<nat>, k: nat)
    requires Consistent(types, d) && k < |d| && d[k] == 0
    ensures Consistent(types, d[k := ValueOf(types, d, k)])
  {
    hide ValueFrom;
    var v := ValueOf(types, d, k);
    var d' := d[k := v];
    if v == 0 { assert d' == d; }
    forall i | 0 <= i < |d'| && d'[i] != 0 ensures ValueOf(types, d', i) == d'[i] { ValueKept(types, d, i, k, v, 0, 1); }
  }

  lemma KnownNested(types: seq<ParsedType>, d: seq<nat>, i: nat, k: nat)
    requires Consistent(types, d) && i < |types| && k < |types| && d[i] != 0 && Nests(types)(i, k)
    ensures 0 < d[k] < d[i]
  {
    hide ValueFrom, TypeIndex;
    ValueFromIs(types, d, i, 0, 1);
    var j :| 0 <= j < |types[i].nested| && Called(types, types[i].nested[j], k);
    assert TypeIndex(types, types[i].nested[j]) == k;
    assert !(TypeIndex(types, types[i].nested[j]) < 0 || d[TypeIndex(types, types[i].nested[j])] == 0);
  }

  /** A known depth is the length of the longest chain that starts there: none is longer ... */
  lemma {:induction false} NoLongerPath(types: seq<ParsedType>, d: seq<nat>, p: seq<nat>)
    requires Consistent(types, d) && IsPath(|types|, Nests(types), p) && d[p[0]] != 0
    ensures |p| <= d[p[0]]
    decreases |p|
  {
    hide Consistent, Nests;
    ConsistentLength(types, d);
    if |p| > 1 {
      PathNodes(|types|, Nests(types), p, 1);
      KnownNested(types, d, p[0], p[1]);
      NoLongerPath(types, d, p[1..]);
    }
  }

  lemma ConsistentLength(types: seq<ParsedType>, d: seq<nat>)
    requires Consistent(types, d)
    ensures |d| == |types|
  {
  }

  /** ... and one is that long. */
  lemma {:induction false} PathThatLong(types: seq<ParsedType>, d: seq<nat>, i: nat) returns (p: seq<nat>)
    requires Consistent(types, d) && i < |types| && d[i] != 0
    ensures IsPath(|types|, Nests(types), p) && p[0] == i && |p| == d[i]
    decreases d[i]
  {
    hide ValueFrom, TypeIndex;
    ValueFromIs(types, d, i, 0, 1);
    if d[i] == 1 {
      p := [i];
    } else {
      var m :| 0 <= m < |types[i].nested| && d[TypeIndex(types, types[i].nested[m])] + 1 == d[i];
      var k := TypeIndex(types, types[i].nested[m]);
      assert Called(types, types[i].nested[m], k);
      assert Nests(types)(i, k);
      var q := PathThatLong(types, d, k);
      p := [i] + q;
      assert p[1..] == q;
    }
  }

  /** When the passes are stuck, a type without a depth starts chains of every length, or some type is not declared. */
  lemma StuckPath(types: seq<ParsedType>, d: seq<nat>, i: nat, m: nat) returns (p: seq<nat>)
    requires Stuck(types, d) && i < |types| && d[i] == 0 && Closed(types) && m > 0
    ensures IsPath(|types|, Nests(types), p) && |p| == m
  {
    hide IsPath;
    var bad := (k: nat) => k < |d| && d[k] == 0;
    assert Onward(|types|, Nests(types), bad) by {
      forall j | 0 <= j < |types| && bad(j) ensures HasNext(|types|, Nests(types), bad, j) { StuckNext(types, d, j, bad); }
    }
    p := LongPath(|types|, Nests(types), bad, i, m);
  }

  lemma StuckNext(types: seq<ParsedType>, d: seq<nat>, j: nat, bad: nat -> bool)
    requires Stuck(types, d) && j < |types| && d[j] == 0 && Closed(types) && forall k: nat :: bad(k) <==> k < |d| && d[k] == 0
    ensures HasNext(|types|, Nests(types), bad, j)
  {
    hide ValueFrom, TypeIndex;
    ValueFromIs(types, d, j, 0, 1);
    var m :| 0 <= m < |types[j].nested| &&
             (TypeIndex(types, types[j].nested[m]) < 0 || d[TypeIndex(types, types[j].nested[m])] == 0);
    var k := TypeIndex(types, types[j].nested[m]);
    assert exists n :: 0 <= n < |types| && types[n].name == types[j].nested[m];
    assert k >= 0 && Called(types, types[j].nested[m], k);
    assert Nests(types)(j, k) && bad(k);
  }

  // ----- the passes -----

  /** One pass over the types: it makes at least one more depth known, or it is stuck. */
  method Pass(types: seq<ParsedType>, depth: array<nat>)
    requires depth.Length == |types| && Consistent(types, depth[..])
    modifies depth
    ensures Consistent(types, depth[..])
    ensures Known(depth[..]) > old(Known(depth[..])) || Stuck(types, depth[..])
    ensures old(Stuck(types, depth[..])) ==> depth[..] == old(depth[..])
  {
    hide Consistent, Known, ValueOf;
    ghost var before := depth[..];
    var i := 0;
    while i < |types|
      invariant 0 <= i <= |types| && Consistent(types, depth[..])
      invariant Known(depth[..]) > Known(before) || depth[..] == before
      invariant depth[..] == before ==> forall k :: 0 <= k < i && before[k] == 0 ==> ValueOf(types, before, k) == 0
      invariant Stuck(types, before) ==> depth[..] == before
    {
      if depth[i] == 0 {
        ghost var d := depth[..];
        ConsistentSet(types, d, i);
        var value := ComputeValue(types, depth, i);
        if value != 0 { KnownSet(d, i, value); }
        depth[i] := value;
        assert depth[..] == d[i := value];
        if value == 0 { assert depth[..] == d; }
      }
      i := i + 1;
    }
  }

  /** The height of type i: the length of the longest chain of nested types that starts with it. */
  ghost predicate IsHeight(types: seq<ParsedType>, i: nat, h: nat) {
    && (exists p :: IsPath(|types|, Nests(types), p) && p[0] == i && |p| == h)
    && (forall p :: IsPath(|types|, Nests(types), p) && p[0] == i ==> |p| <= h)
  }

  lemma ConsistentHeight(types: seq<ParsedType>, d: seq<nat>, i: nat)
    requires Consistent(types, d) && i < |types| && d[i] != 0
    ensures IsHeight(types, i, d[i])
  {
    hide Consistent, Nests;
    ConsistentLength(types, d);
    var p := PathThatLong(types, d, i);
    forall q | IsPath(|types|, Nests(types), q) && q[0] == i ensures |q| <= d[i] { NoLongerPath(types, d, q); }
  }

  /** Known depths mean that the nested types are declared. */
  lemma AllKnownClosed(types: seq<ParsedType>, d: seq<nat>)
    requires Consistent(types, d) && forall i :: 0 <= i < |d| ==> d[i] != 0
    ensures Closed(types)
  {
    hide ValueFrom, TypeIndex;
    forall i, j | 0 <= i < |types| && 0 <= j < |types[i].nested|
      ensures exists k :: 0 <= k < |types| && types[k].name == types[i].nested[j]
    {
      assert ValueOf(types, d, i) == d[i];
      ValueFromIs(types, d, i, 0, 1);
      assert !(TypeIndex(types, types[i].nested[j]) < 0 || d[TypeIndex(types, types[i].nested[j])] == 0);
      assert Called(types, types[i].nested[j], TypeIndex(types, types[i].nested[j]));
    }
  }

  /** What the final depths say about the whole graph. */
  lemma Verdict(types: seq<ParsedType>, d: seq<nat>)
    requires Consistent(types, d) && Stuck(types, d)
    ensures (forall i :: 0 <= i < |d| ==> 0 < d[i] <= MAX_NESTING) <==> Closed(types) && AtMost(types, MAX_NESTING)
  {
    hide Nests, Closed;
    ConsistentLength(types, d);
    if forall i :: 0 <= i < |d| ==> 0 < d[i] <= MAX_NESTING {
      AllKnownClosed(types, d);
      forall p | IsPath(|types|, Nests(types), p) ensures |p| <= MAX_NESTING {
        PathNodes(|types|, Nests(types), p, 0);
        NoLongerPath(types, d, p);
      }
    } else if Closed(types) {
      var i :| 0 <= i < |d| && !(0 < d[i] <= MAX_NESTING);
      var p;
      if d[i] == 0 { p := StuckPath(types, d, i, MAX_NESTING + 1); } else { p := PathThatLong(types, d, i); }
      assert IsPath(|types|, Nests(types), p) && |p| > MAX_NESTING;
    }
  }

  lemma EnoughPasses(types: seq<ParsedType>, d: seq<nat>)
    requires |d| == |types| && (Known(d) >= |types| || Stuck(types, d))
    ensures Stuck(types, d)
  {
    KnownAll(d);
  }

  /** validate_nesting_depth: accepts exactly the closed graphs without a chain of more than 8, and finds each height. */
  method ValidateNestingDepth(types: seq<ParsedType>) returns (ok: bool, depths: seq<nat>)
    ensures ok <==> Closed(types) && AtMost(types, MAX_NESTING)
    ensures ok ==> |depths| == |types| && forall i :: 0 <= i < |types| ==> 0 < depths[i] <= MAX_NESTING && IsHeight(types, i, depths[i])
  {
    hide Known, Stuck, IsHeight, Closed, AtMost, ValueOf;
    var depth := new nat[|types|](_ => 0);
    assert Consistent(types, depth[..]);
    hide Consistent;
    var pass := 0;
    while pass < |types|
      invariant 0 <= pass <= |types| && Consistent(types, depth[..]) && (Known(depth[..]) >= pass || Stuck(types, depth[..]))
    {
      Pass(types, depth);
      pass := pass + 1;
    }
    depths := depth[..];
    ConsistentLength(types, depths);
    EnoughPasses(types, depths);
    Verdict(types, depths);
    ok := true;
    var i := 0;
    while i < |types|
      invariant 0 <= i <= |types| && depths == depth[..] && (ok <==> forall k :: 0 <= k < i ==> 0 < depths[k] <= MAX_NESTING)
    {
      if depths[i] == 0 || depths[i] > MAX_NESTING { ok := false; }
      i := i + 1;
    }
    if ok {
      forall k | 0 <= k < |types| ensures IsHeight(types, k, depths[k]) { ConsistentHeight(types, depths, k); }
    }
  }

  /** A bound on chains excludes cycles. */
  lemma NoCycle(types: seq<ParsedType>, levels: nat, c: seq<nat>)
    requires AtMost(types, levels)
    ensures !IsCycle(|types|, Nests(types), c)
  {
    hide Nests, IsPath;
    if IsCycle(|types|, Nests(types), c) {
      var p := RoundAndRound(|types|, Nests(types), c, levels + 1);
      assert false;
    }
  }

  // ----- at run time -----

  /** t is a description emitted for type i: its struct fields describe types nested in i. */
  ghost predicate Emitted(types: seq<ParsedType>, i: nat, t: TypeInfo)
    decreases t
  {
    forall f :: 0 <= f < |t.fields| && t.fields[f].kind.FIELD_OBJECT? ==>
      exists k: nat {:trigger Nests(types)(i, k)} ::
        k < |types| && Nests(types)(i, k) && Emitted(types, k, t.fields[f].kind.nested)
  }

  /** In an accepted program no type nests deeper than the writer and the reader go, so their guards never fire. */
  lemma {:induction false} GuardsNeverFire(types: seq<ParsedType>, i: nat, t: TypeInfo, p: seq<nat>, levels: nat)
    requires AtMost(types, levels) && Emitted(types, i, t) && i < |types|
    requires IsPath(|types|, Nests(types), p) && p[|p| - 1] == i
    ensures |p| <= levels && Fits(t, levels - |p| + 1)
    decreases t
  {
    hide Nests, IsPath;
    forall f | 0 <= f < |t.fields| && t.fields[f].kind.FIELD_OBJECT?
      ensures levels - |p| >= 0 && Fits(t.fields[f].kind.nested, levels - |p|)
    {
      var k: nat :| k < |types| && Nests(types)(i, k) && Emitted(types, k, t.fields[f].kind.nested);
      PathExtends(|types|, Nests(types), p, k);
      GuardsNeverFire(types, k, t.fields[f].kind.nested, p + [k], levels);
    }
  }

  lemma {:induction false} PathExtends(n: nat, e: Edges, p: seq<nat>, k: nat)
    requires IsPath(n, e, p) && k < n && e(p[|p| - 1], k)
    ensures IsPath(n, e, p + [k])
    decreases |p|
  {
    if |p| > 1 {
      PathExtends(n, e, p[1..], k);
      assert (p + [k])[1..] == p[1..] + [k];
    } else {
      assert (p + [k])[1..] == [k];
      assert IsPath(n, e, [k]);
    }
  }
}
