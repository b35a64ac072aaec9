/** Paths in finite graphs: what a pass that gets stuck, and a path that is too long, say about cycles. */
module Graphs {
  /** Is there an edge between two nodes? */
  type Edges = (nat, nat) -> bool

  /** A path of nodes below n along the edges. */
  ghost predicate IsPath(n: nat, e: Edges, p: seq<nat>) {
    p != [] && p[0] < n && (|p| == 1 || (e(p[0], p[1]) && IsPath(n, e, p[1..])))
  }

  ghost predicate IsCycle(n: nat, e: Edges, p: seq<nat>) { IsPath(n, e, p) && |p| >= 2 && p[0] == p[|p| - 1] }

  lemma {:induction false} PathNodes(n: nat, e: Edges, p: seq<nat>, k: nat)
    requires IsPath(n, e, p) && k < |p|
    ensures p[k] < n && (k + 1 < |p| ==> e(p[k], p[k + 1]))
    decreases k
  {
    if k > 0 { PathNodes(n, e, p[1..], k - 1); }
  }

  lemma {:induction false} PathFrom(n: nat, e: Edges, p: seq<nat>, i: nat)
    requires IsPath(n, e, p) && i < |p|
    ensures IsPath(n, e, p[i..])
    decreases i
  {
    if i > 0 {
      PathFrom(n, e, p[1..], i - 1);
      assert p[1..][i - 1..] == p[i..];
    } else {
      assert p[0..] == p;
    }
  }

  lemma {:induction false} PathTo(n: nat, e: Edges, p: seq<nat>, j: nat)
    requires IsPath(n, e, p) && 0 < j <= |p|
    ensures IsPath(n, e, p[..j])
    decreases j
  {
    if j > 1 {
      PathTo(n, e, p[1..], j - 1);
      assert p[..j][1..] == p[1..][..j - 1];
    }
  }

  /** Every node of a kind has a successor of that kind. */
  ghost predicate Onward(n: nat, e: Edges, bad: nat -> bool) {
    forall j :: 0 <= j < n && bad(j) ==> HasNext(n, e, bad, j)
  }

  ghost predicate HasNext(n: nat, e: Edges, bad: nat -> bool, j: nat) { exists k :: 0 <= k < n && e(j, k) && bad(k) }

  lemma NextNode(n: nat, e: Edges, bad: nat -> bool, j: nat) returns (k: nat)
    requires Onward(n, e, bad) && j < n && bad(j)
    ensures k < n && e(j, k) && bad(k)
  {
    assert HasNext(n, e, bad, j);
    k :| 0 <= k < n && e(j, k) && bad(k);
  }

  /** When every node of a kind has a successor of that kind, there are paths of that kind of every length. */
  lemma {:induction false} LongPath(n: nat, e: Edges, bad: nat -> bool, i: nat, m: nat) returns (p: seq<nat>)
    requires i < n && bad(i) && m > 0
    requires Onward(n, e, bad)
    ensures IsPath(n, e, p) && |p| == m && p[0] == i && forall k :: 0 <= k < m ==> bad(p[k])
    decreases m
  {
    hide Onward;
    if m == 1 {
      p := [i];
    } else {
      var k := NextNode(n, e, bad, i);
      var q := LongPath(n, e, bad, k, m - 1);
      p := [i] + q;
      assert p[1..] == q;
    }
  }

  /** The pigeonhole principle. */
  lemma {:induction false} Repeats(p: seq<nat>, n: nat) returns (i: nat, j: nat)
    requires |p| > n > 0 && forall k :: 0 <= k < |p| ==> p[k] < n
    ensures i < j < |p| && p[i] == p[j]
    decreases n
  {
    if n == 1 {
      i, j := 0, 1;
    } else if k :| 0 <= k < |p| && p[k] == n - 1 {
      if l :| 0 <= l < |p| && l != k && p[l] == n - 1 {
        i, j := if k < l then k else l, if k < l then l else k;
      } else {
        var q := p[..k] + p[k + 1..];
        var a, b := Repeats(q, n - 1);
        i, j := if a < k then a else a + 1, if b < k then b else b + 1;
      }
    } else {
      i, j := Repeats(p, n - 1);
    }
  }

  /** A path longer than there are nodes contains a cycle. */
  lemma CycleInside(n: nat, e: Edges, p: seq<nat>) returns (c: seq<nat>)
    requires IsPath(n, e, p) && |p| > n
    ensures IsCycle(n, e, c) && forall x :: x in c ==> x in p
  {
    forall k | 0 <= k < |p| ensures p[k] < n { PathNodes(n, e, p, k); }
    var i, j := Repeats(p, n);
    PathFrom(n, e, p, i);
    PathTo(n, e, p[i..], j - i + 1);
    c := p[i..][..j - i + 1];
  }

  /** Round a cycle there are paths of every length. */
  lemma RoundAndRound(n: nat, e: Edges, c: seq<nat>, m: nat) returns (p: seq<nat>)
    requires IsCycle(n, e, c) && m > 0
    ensures IsPath(n, e, p) && |p| == m
  {
    hide IsPath;
    var bad := (k: nat) => k in c;
    PathNodes(n, e, c, 0);
    assert Onward(n, e, bad) by {
      forall j | 0 <= j < n && bad(j) ensures HasNext(n, e, bad, j) {
        var k :| 0 <= k < |c| && c[k] == j;
        var at := if k + 1 < |c| then k else 0;
        assert c[at] == j;
        PathNodes(n, e, c, at);
        PathNodes(n, e, c, at + 1);
        assert e(j, c[at + 1]) && bad(c[at + 1]);
      }
    }
    p := LongPath(n, e, bad, c[0], m);
  }
}
