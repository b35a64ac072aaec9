/** emit_model_includes: the order in which model files are included. */
module ModelIncludes {
  import opened Bytes
  import opened Graphs

  /** A declared type: the file it stands in, its name, the type it is derived from, and the types of its struct fields. */
  datatype ModelType = ModelType(file: nat, name: bytes, source: bytes, nested: seq<bytes>)

  datatype Model = Model(types: seq<ModelType>, hasTable: seq<bool>)

  ghost predicate Valid(m: Model) { forall t :: 0 <= t < |m.types| ==> m.types[t].file < |m.hasTable| }

  /** Type t of a file uses type k of another file. */
  predicate Uses(m: Model, t: nat, k: nat)
    requires t < |m.types| && k < |m.types|
  {
    m.types[t].source == m.types[k].name || m.types[k].name in m.types[t].nested
  }

  /** File a cannot be included before file b. */
  function Requires(m: Model): Edges {
    (a: nat, b: nat) =>
      a != b && exists t, k :: 0 <= t < |m.types| && 0 <= k < |m.types| && m.types[t].file == a && m.types[k].file == b && Uses(m, t, k)
  }

  // ----- model_file_ready -----

  ghost predicate Ready(m: Model, file: nat, included: seq<bool>)
    requires |included| == |m.hasTable|
  {
    forall b :: 0 <= b < |included| && Requires(m)(file, b) ==> included[b]
  }

  /** The loops of model_file_ready for type t against every type. */
  method TypeReady(m: Model, file: nat, t: nat, included: seq<bool>) returns (ready: bool)
    requires Valid(m) && |included| == |m.hasTable| && t < |m.types|
    ensures ready <==> forall k :: 0 <= k < |m.types| && m.types[k].file != file && Uses(m, t, k) ==> included[m.types[k].file]
  {
    var k := 0;
    while k < |m.types|
      invariant 0 <= k <= |m.types|
      invariant forall j :: 0 <= j < k && m.types[j].file != file && m.types[t].source == m.types[j].name ==> included[m.types[j].file]
    {
      var dependency := m.types[k].file;
      if m.types[t].source == m.types[k].name && dependency != file && !included[dependency] {
        assert Uses(m, t, k);
        return false;
      }
      k := k + 1;
    }
    var f := 0;
    while f < |m.types[t].nested|
      invariant 0 <= f <= |m.types[t].nested|
      invariant forall g, j :: 0 <= g < f && 0 <= j < |m.types| && m.types[j].file != file && m.types[t].nested[g] == m.types[j].name
                  ==> included[m.types[j].file]
    {
      k := 0;
      while k < |m.types|
        invariant 0 <= k <= |m.types|
        invariant forall j :: 0 <= j < k && m.types[j].file != file && m.types[t].nested[f] == m.types[j].name ==> included[m.types[j].file]
      {
        var dependency := m.types[k].file;
        if m.types[t].nested[f] == m.types[k].name && dependency != file && !included[dependency] {
          assert Uses(m, t, k);
          return false;
        }
        k := k + 1;
      }
      f := f + 1;
    }
    return true;
  }

  method ModelFileReady(m: Model, file: nat, included: seq<bool>) returns (ready: bool)
    requires Valid(m) && |included| == |m.hasTable|
    ensures ready <==> Ready(m, file, included)
  {
    hide Uses;
    var t := 0;
    while t < |m.types|
      invariant 0 <= t <= |m.types|
      invariant forall s, k :: 0 <= s < t && m.types[s].file == file && 0 <= k < |m.types| && m.types[k].file != file && Uses(m, s, k)
                  ==> included[m.types[k].file]
    {
      if m.types[t].file == file {
        var ok := TypeReady(m, file, t, included);
        if !ok {
          ghost var k :| 0 <= k < |m.types| && m.types[k].file != file && Uses(m, t, k) && !included[m.types[k].file];
          assert Requires(m)(file, m.types[k].file);
          return false;
        }
      }
      t := t + 1;
    }
    return true;
  }

  // ----- the order so far -----

  /** Every file in the order stands after all the files it requires. */
  ghost predicate AfterItsFiles(m: Model, order: seq<nat>) {
    forall p :: 0 <= p < |order| ==> forall b: nat :: b < |m.hasTable| && Requires(m)(order[p], b) ==> b in order[..p]
  }

  ghost predicate Once(order: seq<nat>) { forall p, q :: 0 <= p < q < |order| ==> order[p] != order[q] }

  /** The files marked are those in the order, once each, and all of them are model files. */
  ghost predicate Marked(m: Model, included: seq<bool>, order: seq<nat>) {
    && |included| == |m.hasTable| && Once(order)
    && (forall p :: 0 <= p < |order| ==> order[p] < |included| && included[order[p]] && m.hasTable[order[p]])
    && (forall i :: 0 <= i < |included| && included[i] ==> i in order)
  }

  /** No model file that is left is ready. */
  ghost predicate Stuck(m: Model, included: seq<bool>) {
    |included| == |m.hasTable| && forall i :: 0 <= i < |included| && m.hasTable[i] && !included[i] ==> !Ready(m, i, included)
  }

  lemma Include(m: Model, included: seq<bool>, order: seq<nat>, i: nat)
    requires Marked(m, included, order) && AfterItsFiles(m, order) && i < |included|
    requires !included[i] && m.hasTable[i] && Ready(m, i, included)
    ensures Marked(m, included[i := true], order + [i]) && AfterItsFiles(m, order + [i])
  {
    hide Requires;
    var order', included' := order + [i], included[i := true];
    forall p | 0 <= p < |order'|
      ensures forall b: nat :: b < |m.hasTable| && Requires(m)(order'[p], b) ==> b in order'[..p]
    {
      if p < |order| {
        assert order'[..p] == order[..p] && order'[p] == order[p];
      } else {
        assert order'[..p] == order;
      }
    }
    forall k | 0 <= k < |included'| && included'[k] ensures k in order' {
      if k != i { assert included[k]; } else { assert order'[|order|] == i; }
    }
  }

  /** One pass over the files: at least one more is included, or none of the rest is ready. */
  method Pass(m: Model, included: array<bool>, before: seq<nat>) returns (order: seq<nat>)
    requires Valid(m) && Marked(m, included[..], before) && AfterItsFiles(m, before)
    modifies included
    ensures Marked(m, included[..], order) && AfterItsFiles(m, order)
    ensures |order| > |before| || Stuck(m, included[..])
    ensures Stuck(m, old(included[..])) ==> included[..] == old(included[..])
  {
    hide Marked, AfterItsFiles, Ready;
    ghost var was := included[..];
    MarkedLength(m, was, before);
    order := before;
    var i := 0;
    while i < |m.hasTable|
      invariant 0 <= i <= |m.hasTable| && Marked(m, included[..], order) && AfterItsFiles(m, order)
      invariant |order| > |before| || (included[..] == was && |order| == |before|)
      invariant |order| == |before| ==> forall k :: 0 <= k < i && m.hasTable[k] && !was[k] ==> !Ready(m, k, was)
      invariant Stuck(m, was) ==> included[..] == was
    {
      ghost var now := included[..];
      if !included[i] && m.hasTable[i] {
        var ready := ModelFileReady(m, i, included[..]);
        if ready {
          Include(m, now, order, i);
          included[i] := true;
          assert included[..] == now[i := true];
          order := order + [i];
        }
      }
      i := i + 1;
    }
  }

  lemma MarkedLength(m: Model, included: seq<bool>, order: seq<nat>)
    requires Marked(m, included, order)
    ensures |included| == |m.hasTable| && |order| <= |included|
  {
    if |order| > |included| && |included| > 0 {
      var i, j := Repeats(order, |included|);
      assert false;
    }
    if |order| > 0 { assert order[0] < |included|; }
  }

  // ----- what the outcome says -----

  predicate AllModel(m: Model, c: seq<nat>) { forall k :: 0 <= k < |c| ==> c[k] < |m.hasTable| && m.hasTable[c[k]] }

  /** A model file needs a file that is not one, or model files need each other in a circle. */
  ghost predicate Hopeless(m: Model) {
    || (exists a: nat, b: nat :: a < |m.hasTable| && b < |m.hasTable| && m.hasTable[a] && !m.hasTable[b] && Requires(m)(a, b))
    || (exists c :: IsCycle(|m.hasTable|, Requires(m), c) && AllModel(m, c))
  }

  function LeftOut(m: Model, included: seq<bool>): nat -> bool {
    (k: nat) => k < |m.hasTable| && k < |included| && m.hasTable[k] && !included[k]
  }

  lemma StuckOnward(m: Model, included: seq<bool>)
    requires Stuck(m, included)
    requires !exists a: nat, b: nat :: a < |m.hasTable| && b < |m.hasTable| && m.hasTable[a] && !m.hasTable[b] && Requires(m)(a, b)
    ensures Onward(|m.hasTable|, Requires(m), LeftOut(m, included))
  {
    hide Requires;
    forall j | 0 <= j < |m.hasTable| && LeftOut(m, included)(j)
      ensures HasNext(|m.hasTable|, Requires(m), LeftOut(m, included), j)
    {
      assert !Ready(m, j, included);
      var b :| 0 <= b < |included| && Requires(m)(j, b) && !included[b];
      assert LeftOut(m, included)(b);
    }
  }

  lemma StuckIsHopeless(m: Model, included: seq<bool>, i: nat)
    requires Stuck(m, included) && i < |included| && m.hasTable[i] && !included[i]
    ensures Hopeless(m)
  {
    hide Requires, IsPath, Stuck, Onward;
    var n := |m.hasTable|;
    assert |included| == n by { StuckLength(m, included); }
    if !(exists a: nat, b: nat :: a < n && b < n && m.hasTable[a] && !m.hasTable[b] && Requires(m)(a, b)) {
      StuckOnward(m, included);
      var p := LongPath(n, Requires(m), LeftOut(m, included), i, n + 1);
      var c := CycleInside(n, Requires(m), p);
      forall l | 0 <= l < |c| ensures c[l] < |m.hasTable| && m.hasTable[c[l]] {
        assert c[l] in p;
        var k :| 0 <= k < |p| && p[k] == c[l];
        assert LeftOut(m, included)(p[k]);
      }
    }
  }

  lemma StuckLength(m: Model, included: seq<bool>)
    requires Stuck(m, included)
    ensures |included| == |m.hasTable|
  {
  }

  function Position(order: seq<nat>, x: nat): (p: int)
    ensures -1 <= p < |order| && (p >= 0 ==> order[p] == x)
    ensures forall j :: 0 <= j < (if p >= 0 then p else |order|) ==> order[j] != x
  {
    if order == [] then -1
    else if order[0] == x then 0
    else
      var p := Position(order[1..], x);
      if p >= 0 then p + 1 else -1
  }

  /** A complete order leaves no hopeless file. */
  lemma CompleteIsNotHopeless(m: Model, included: seq<bool>, order: seq<nat>)
    requires Marked(m, included, order) && AfterItsFiles(m, order)
    requires forall i :: 0 <= i < |included| && m.hasTable[i] ==> included[i]
    ensures !Hopeless(m)
  {
    hide Requires, IsPath;
    var n := |m.hasTable|;
    forall a: nat, b: nat | a < n && b < n && m.hasTable[a] && Requires(m)(a, b) ensures m.hasTable[b] && Position(order, b) < Position(order, a) {
      Earlier(m, included, order, a, b);
    }
    forall c | IsCycle(n, Requires(m), c) ensures !AllModel(m, c) {
      if AllModel(m, c) { CycleImpossible(m, order, c); }
    }
  }

  lemma Earlier(m: Model, included: seq<bool>, order: seq<nat>, a: nat, b: nat)
    requires Marked(m, included, order) && AfterItsFiles(m, order) && a < |included| && b < |included| && included[a] && Requires(m)(a, b)
    ensures m.hasTable[b] && Position(order, b) < Position(order, a)
  {
    hide Requires;
    var p := Position(order, a);
    assert b in order[..p];
    var q :| 0 <= q < p && order[..p][q] == b;
    assert order[q] == b;
    var r := Position(order, b);
    assert r >= 0 && order[r] == b;
  }

  lemma {:induction false} PositionDrops(m: Model, order: seq<nat>, c: seq<nat>)
    requires IsPath(|m.hasTable|, Requires(m), c) && AllModel(m, c)
    requires forall a: nat, b: nat :: a < |m.hasTable| && b < |m.hasTable| && m.hasTable[a] && Requires(m)(a, b) ==>
               Position(order, b) < Position(order, a)
    ensures |c| > 1 ==> Position(order, c[|c| - 1]) < Position(order, c[0])
    decreases |c|
  {
    hide Requires, Position;
    if |c| > 1 {
      PathNodes(|m.hasTable|, Requires(m), c, 1);
      PathNodes(|m.hasTable|, Requires(m), c, 0);
      PositionDrops(m, order, c[1..]);
    }
  }

  lemma CycleImpossible(m: Model, order: seq<nat>, c: seq<nat>)
    requires IsPath(|m.hasTable|, Requires(m), c) && |c| >= 2 && AllModel(m, c)
    requires forall a: nat, b: nat :: a < |m.hasTable| && b < |m.hasTable| && m.hasTable[a] && Requires(m)(a, b) ==>
               Position(order, b) < Position(order, a)
    ensures c[0] != c[|c| - 1]
  {
    PositionDrops(m, order, c);
  }

  /**
   emit_model_includes: every model file once, after all the files it requires; it fails exactly when some model file
   requires a file that is not one, or model files require each other in a circle.
   */
  method EmitModelIncludes(m: Model) returns (ok: bool, order: seq<nat>)
    requires Valid(m)
    ensures ok <==> !Hopeless(m)
    ensures ok ==> Once(order) && AfterItsFiles(m, order) && forall i: nat :: i in order <==> i < |m.hasTable| && m.hasTable[i]
  {
    hide Hopeless, AfterItsFiles, Stuck, Ready;
    var included := new bool[|m.hasTable|](_ => false);
    order := [];
    assert Marked(m, included[..], []);
    NothingBefore(m);
    var pass := 0;
    while pass < |m.hasTable|
      invariant 0 <= pass <= |m.hasTable| && Marked(m, included[..], order) && AfterItsFiles(m, order)
      invariant |order| >= pass || Stuck(m, included[..])
    {
      order := Pass(m, included, order);
      pass := pass + 1;
    }
    if |order| >= |m.hasTable| { FullOrder(m, included[..], order); }
    var i := 0;
    while i < |m.hasTable|
      invariant 0 <= i <= |m.hasTable| && forall k :: 0 <= k < i && m.hasTable[k] ==> included[k]
    {
      if m.hasTable[i] && !included[i] {
        StuckIsHopeless(m, included[..], i);
        return false, order;
      }
      i := i + 1;
    }
    CompleteIsNotHopeless(m, included[..], order);
    return true, order;
  }

  lemma NothingBefore(m: Model)
    ensures AfterItsFiles(m, [])
  {
  }

  /** An order as long as there are files leaves none out. */
  lemma FullOrder(m: Model, included: seq<bool>, order: seq<nat>)
    requires Marked(m, included, order) && |order| >= |included|
    ensures Stuck(m, included)
  {
    forall i | 0 <= i < |included| ensures included[i] {
      if !included[i] {
        var a, b := Repeats(order + [i], |included|);
        assert false;
      }
    }
  }
}
