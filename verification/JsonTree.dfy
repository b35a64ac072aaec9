/** The token array is the tree: order, nesting and separation of the spans, and looking up a member. */
module JsonTree {
  import opened Bytes
  import opened JsonGrammar
  import opened JsonMeaning
  import opened JsonScan
  import opened JsonDecode
  import opened JsonParserProof
  import opened JsonEngine

  // ----- spans -----

  predicate Within(t: Token, lo: int, hi: int) { lo <= t.start <= t.end <= hi }

  ghost predicate AllWithin(ts: seq<Token>, lo: int, hi: int) { forall k :: 0 <= k < |ts| ==> Within(ts[k], lo, hi) }

  /** A later token lies strictly inside an earlier container, or strictly after the earlier token. */
  predicate Apart(a: Token, b: Token) {
    a.end < b.start || ((a.kind == OBJ || a.kind == ARR) && a.start < b.start && b.end < a.end)
  }

  ghost predicate Laminar(ts: seq<Token>) { forall i, j :: 0 <= i < j < |ts| ==> Apart(ts[i], ts[j]) }

  lemma LaminarJoin(a: seq<Token>, b: seq<Token>, lo: int, mid: int, hi: int)
    requires Laminar(a) && Laminar(b) && AllWithin(a, lo, mid) && AllWithin(b, mid + 1, hi) && lo <= mid < hi
    ensures Laminar(a + b) && AllWithin(a + b, lo, hi)
  {
    var c := a + b;
    forall i, j | 0 <= i < j < |c| ensures Apart(c[i], c[j]) {
      if j < |a| {
        assert c[i] == a[i] && c[j] == a[j];
      } else if i >= |a| {
        assert c[i] == b[i - |a|] && c[j] == b[j - |a|];
      } else {
        assert Within(a[i], lo, mid) && Within(b[j - |a|], mid + 1, hi);
      }
    }
    forall k | 0 <= k < |c| ensures Within(c[k], lo, hi) {
      if k < |a| { assert Within(a[k], lo, mid); } else { assert Within(b[k - |a|], mid + 1, hi); }
    }
  }

  lemma LaminarNest(t: Token, b: seq<Token>)
    requires Laminar(b) && (t.kind == OBJ || t.kind == ARR) && t.start < t.end && AllWithin(b, t.start + 1, t.end - 1)
    ensures Laminar([t] + b) && AllWithin([t] + b, t.start, t.end)
  {
    var c := [t] + b;
    forall i, j | 0 <= i < j < |c| ensures Apart(c[i], c[j]) {
      assert c[j] == b[j - 1];
      if i > 0 { assert c[i] == b[i - 1]; } else { assert Within(b[j - 1], t.start + 1, t.end - 1); }
    }
    forall k | 0 <= k < |c| ensures Within(c[k], t.start, t.end) {
      if k > 0 { assert Within(b[k - 1], t.start + 1, t.end - 1); }
    }
  }

  lemma WithinWider(ts: seq<Token>, lo: int, hi: int, lo': int, hi': int)
    requires AllWithin(ts, lo, hi) && lo' <= lo && hi <= hi'
    ensures AllWithin(ts, lo', hi')
  {
    forall k | 0 <= k < |ts| ensures Within(ts[k], lo', hi') { assert Within(ts[k], lo, hi); }
  }

  lemma QuotedLength(ps: seq<Piece>)
    ensures |Quoted(ps)| == |StringText(ps)| + 2
  {
  }

  /** The spans of a tree's tokens lie inside its text and never cross. */
  lemma {:induction false} ValueSpans(v: Value, at: nat, parent: int, base: nat)
    ensures Laminar(Tokens(v, at, parent, base))
    ensures AllWithin(Tokens(v, at, parent, base), at, at + |ValueText(v)|)
    decreases v
  {
    hide Laminar, AllWithin, ItemsTokens, MembersTokens, ItemsText, MembersText;
    var end := at + |ValueText(v)|;
    if v.Array? {
      ItemsSpans(v.items, at + 1, base, base + 1);
      ItemsLength(v.items, 0);
      LaminarNest(Token(ARR, at, end, parent), ItemsTokens(v.items, at + 1, base, base + 1));
    } else if v.Object? {
      MembersSpans(v.members, at + 1, base, base + 1);
      MembersLength(v.members, 0);
      LaminarNest(Token(OBJ, at, end, parent), MembersTokens(v.members, at + 1, base, base + 1));
    } else {
      LeafSpans(v, at, parent, base);
    }
  }

  lemma LeafSpans(v: Value, at: nat, parent: int, base: nat)
    requires !v.Array? && !v.Object?
    ensures Laminar(Tokens(v, at, parent, base))
    ensures AllWithin(Tokens(v, at, parent, base), at, at + |ValueText(v)|)
  {
    hide Laminar, AllWithin, NumberText, Quoted;
    var end := at + |ValueText(v)|;
    match v
    case Str(ps) => QuotedLength(ps); LeafSpan(Token(STR, at + 1, end - 1, parent), at, end);
    case Num(_) => LeafSpan(Token(PRIM, at, end, parent), at, end);
    case Lit(_) => LeafSpan(Token(PRIM, at, end, parent), at, end);
    case EmptyArray(_) => LeafSpan(Token(ARR, at, end, parent), at, end);
    case EmptyObject(_) => LeafSpan(Token(OBJ, at, end, parent), at, end);
  }

  lemma LeafSpan(t: Token, lo: int, hi: int)
    requires Within(t, lo, hi)
    ensures Laminar([t]) && AllWithin([t], lo, hi)
  {
  }

  lemma {:induction false} ItemsSpans(x: Items, at: nat, parent: int, base: nat)
    ensures Laminar(ItemsTokens(x, at, parent, base))
    ensures AllWithin(ItemsTokens(x, at, parent, base), at, at + |ItemsText(x)| - 1)
    decreases x
  {
    hide Laminar, AllWithin, Tokens, ValueText, ItemsText;
    ItemsLength(x, at);
    var head := Tokens(x.item, ItemStart(at, x), parent, base);
    ValueSpans(x.item, ItemStart(at, x), parent, base);
    WithinWider(head, ItemStart(at, x), ItemEnd(at, x), at, ItemStop(at, x));
    if x.MoreItems? {
      var rest := ItemsTokens(x.rest, ItemStop(at, x) + 1, parent, base + Size(x.item));
      ItemsSpans(x.rest, ItemStop(at, x) + 1, parent, base + Size(x.item));
      ItemsLength(x.rest, 0);
      LaminarJoin(head, rest, at, ItemStop(at, x), at + |ItemsText(x)| - 1);
    } else {
      assert ItemsTokens(x, at, parent, base) == head;
    }
  }

  lemma ItemsLength(x: Items, at: nat)
    ensures |ItemsText(x)| == ItemStop(at, x) - at + 1 + if x.LastItem? then 0 else |ItemsText(x.rest)|
    ensures |ItemsText(x)| >= 1
  {
    hide ValueText;
  }

  lemma MembersLength(m: Members, at: nat)
    ensures |MembersText(m)| == MemberStop(at, m) - at + 1 + if m.LastMember? then 0 else |MembersText(m.others)|
    ensures |MembersText(m)| >= 1
  {
    hide ValueText, Quoted;
  }

  lemma {:induction false} MembersSpans(m: Members, at: nat, parent: int, base: nat)
    ensures Laminar(MembersTokens(m, at, parent, base))
    ensures AllWithin(MembersTokens(m, at, parent, base), at, at + |MembersText(m)| - 1)
    decreases m, 1
  {
    hide Laminar, AllWithin, TailTokens, ValueText, MembersText, Quoted;
    MembersLength(m, at);
    QuotedLength(m.key);
    TailSpans(m, at, parent, base + 1);
    var key := Token(STR, KeyStart(at, m) + 1, KeyEnd(at, m) - 1, parent);
    LeafSpan(key, at, KeyEnd(at, m) - 1);
    LaminarJoin([key], TailTokens(m, at, parent, base + 1), at, KeyEnd(at, m) - 1, at + |MembersText(m)| - 1);
  }

  lemma {:induction false} TailSpans(m: Members, at: nat, parent: int, base: nat)
    ensures Laminar(TailTokens(m, at, parent, base))
    ensures AllWithin(TailTokens(m, at, parent, base), KeyEnd(at, m), at + |MembersText(m)| - 1)
    decreases m, 0
  {
    hide Laminar, AllWithin, Tokens, ValueText, MembersText, Quoted, MembersTokens;
    MembersLength(m, at);
    var head := Tokens(m.member, MemberStart(at, m), parent, base);
    ValueSpans(m.member, MemberStart(at, m), parent, base);
    WithinWider(head, MemberStart(at, m), MemberEnd(at, m), KeyEnd(at, m), MemberStop(at, m));
    if m.MoreMembers? {
      var rest := MembersTokens(m.others, MemberStop(at, m) + 1, parent, base + Size(m.member));
      MembersSpans(m.others, MemberStop(at, m) + 1, parent, base + Size(m.member));
      MembersLength(m.others, 0);
      LaminarJoin(head, rest, KeyEnd(at, m), MemberStop(at, m), at + |MembersText(m)| - 1);
    } else {
      assert TailTokens(m, at, parent, base) == head;
    }
  }

  // ----- parents -----

  /** Tokens below the root have their parent inside the tree, before them. */
  ghost predicate Rooted(ts: seq<Token>, parent: int, base: nat) {
    forall k :: 0 <= k < |ts| ==> ts[k].parent == parent || base <= ts[k].parent < base + k
  }

  lemma RootedJoin(a: seq<Token>, b: seq<Token>, parent: int, base: nat)
    requires Rooted(a, parent, base) && Rooted(b, parent, base + |a|)
    ensures Rooted(a + b, parent, base)
  {
    var c := a + b;
    forall k | 0 <= k < |c| ensures c[k].parent == parent || base <= c[k].parent < base + k {
      if k < |a| { assert c[k] == a[k]; } else { assert c[k] == b[k - |a|]; }
    }
  }

  lemma RootedNest(t: Token, b: seq<Token>, base: nat)
    requires Rooted(b, base, base + 1)
    ensures Rooted([t] + b, t.parent, base)
    ensures forall k :: 1 <= k < |[t] + b| ==> base <= ([t] + b)[k].parent
  {
    var c := [t] + b;
    forall k | 0 <= k < |c|
      ensures (c[k].parent == t.parent || base <= c[k].parent < base + k) && (k >= 1 ==> base <= c[k].parent)
    {
      if k > 0 { assert c[k] == b[k - 1]; }
    }
  }

  /** Every token after the root of a tree is a descendant of the root: its parent comes before it, not before the root. */
  lemma {:induction false} ValueParents(v: Value, at: nat, parent: int, base: nat)
    ensures var ts := Tokens(v, at, parent, base);
            && ts[0].parent == parent && Rooted(ts, parent, base)
            && forall k :: 1 <= k < |ts| ==> base <= ts[k].parent
    decreases v
  {
    hide Rooted;
    match v
    case Array(x) =>
      ItemsParents(x, at + 1, base, base + 1);
      RootedNest(Token(ARR, at, at + |ValueText(v)|, parent), ItemsTokens(x, at + 1, base, base + 1), base);
    case Object(m) =>
      MembersParents(m, at + 1, base, base + 1);
      RootedNest(Token(OBJ, at, at + |ValueText(v)|, parent), MembersTokens(m, at + 1, base, base + 1), base);
    case _ => RootedOne(Tokens(v, at, parent, base)[0], base);
  }

  lemma RootedOne(t: Token, base: nat)
    ensures Rooted([t], t.parent, base)
  {
  }

  lemma {:induction false} ItemsParents(x: Items, at: nat, parent: int, base: nat)
    ensures Rooted(ItemsTokens(x, at, parent, base), parent, base)
    decreases x
  {
    hide Rooted, Tokens, ValueText;
    var head := Tokens(x.item, ItemStart(at, x), parent, base);
    ValueParents(x.item, ItemStart(at, x), parent, base);
    if x.MoreItems? {
      ItemsParents(x.rest, ItemStop(at, x) + 1, parent, base + Size(x.item));
      RootedJoin(head, ItemsTokens(x.rest, ItemStop(at, x) + 1, parent, base + Size(x.item)), parent, base);
    } else {
      assert ItemsTokens(x, at, parent, base) == head;
    }
  }

  lemma {:induction false} MembersParents(m: Members, at: nat, parent: int, base: nat)
    ensures Rooted(MembersTokens(m, at, parent, base), parent, base)
    decreases m, 1
  {
    hide Rooted, TailTokens;
    TailParents(m, at, parent, base + 1);
    var key := Token(STR, KeyStart(at, m) + 1, KeyEnd(at, m) - 1, parent);
    RootedOne(key, base);
    RootedJoin([key], TailTokens(m, at, parent, base + 1), parent, base);
  }

  lemma {:induction false} TailParents(m: Members, at: nat, parent: int, base: nat)
    ensures Rooted(TailTokens(m, at, parent, base), parent, base)
    decreases m, 0
  {
    hide Rooted, Tokens, MembersTokens, ValueText;
    var head := Tokens(m.member, MemberStart(at, m), parent, base);
    ValueParents(m.member, MemberStart(at, m), parent, base);
    if m.MoreMembers? {
      MembersParents(m.others, MemberStop(at, m) + 1, parent, base + Size(m.member));
      RootedJoin(head, MembersTokens(m.others, MemberStop(at, m) + 1, parent, base + Size(m.member)), parent, base);
    } else {
      assert TailTokens(m, at, parent, base) == head;
    }
  }
}
