/** Where the members of an object stand, in the text and in the token array, while their values are decoded in place. */
module JsonPlaces {
  import opened Bytes
  import opened JsonGrammar
  import opened JsonMeaning
  import opened JsonParserProof
  import opened JsonTree
  import opened JsonLookup

  datatype Found = Found(value: Value, at: nat)

  /** The value of the first member called `key`, and where its text starts. */
  function Member(m: Members, at: nat, key: bytes): (r: Option<Found>)
    requires AreMembers(m)
    ensures r.Some? ==> IsValue(r.value.value) && r.value.value < m
    decreases m
  {
    if Name(m.key) == key then Some(Found(m.member, MemberStart(at, m)))
    else if m.LastMember? then None
    else Member(m.others, MemberStop(at, m) + 1, key)
  }

  function MemberOf(v: Value, at: nat, key: bytes): (r: Option<Found>)
    requires IsValue(v)
    ensures r.Some? ==> IsValue(r.value.value) && r.value.value < v
  {
    if v.Object? then Member(v.members, at + 1, key) else None
  }

  predicate IsObject(v: Value) { v.Object? || v.EmptyObject? }

  function FoundEnd(f: Found): nat { f.at + |ValueText(f.value)| }

  // ----- in the text -----

  ghost predicate SameOutside(a: bytes, b: bytes, lo: nat, hi: nat) {
    |a| == |b| && forall k :: 0 <= k < |a| && (k < lo || hi <= k) ==> a[k] == b[k]
  }

  ghost predicate SameInside(a: bytes, b: bytes, lo: nat, hi: nat) {
    |a| == |b| && forall k :: lo <= k < hi && k < |a| ==> a[k] == b[k]
  }

  lemma AtKept(a: bytes, b: bytes, i: nat, t: bytes, lo: nat, hi: nat)
    requires SameOutside(a, b, lo, hi) && At(a, i, t) && (i + |t| <= lo || hi <= i)
    ensures At(b, i, t)
  {
    forall k | 0 <= k < |t| ensures b[i..i + |t|][k] == t[k] { assert a[i..i + |t|][k] == a[i + k] == b[i + k]; }
  }

  lemma AtInside(a: bytes, b: bytes, i: nat, t: bytes, lo: nat, hi: nat)
    requires SameInside(a, b, lo, hi) && At(a, i, t) && lo <= i && i + |t| <= hi
    ensures At(b, i, t)
  {
    forall k | 0 <= k < |t| ensures b[i..i + |t|][k] == t[k] { assert a[i..i + |t|][k] == a[i + k] == b[i + k]; }
  }

  /** A found value lies between the braces. */
  lemma {:induction false} FoundWithin(m: Members, at: nat, key: bytes)
    requires AreMembers(m) && Member(m, at, key).Some?
    ensures var f := Member(m, at, key).value; at < f.at && FoundEnd(f) < at + |MembersText(m)|
    decreases m
  {
    hide ValueText, MembersText, Quoted, Name;
    MembersLength(m, at);
    if Name(m.key) != key {
      FoundWithin(m.others, MemberStop(at, m) + 1, key);
    }
  }

  /** Members of different names have their values in different places. */
  lemma {:induction false} FoundApart(m: Members, at: nat, a: bytes, b: bytes)
    requires AreMembers(m) && a != b && Member(m, at, a).Some? && Member(m, at, b).Some?
    ensures var f, g := Member(m, at, a).value, Member(m, at, b).value; FoundEnd(f) <= g.at || FoundEnd(g) <= f.at
    decreases m
  {
    hide ValueText, MembersText, Quoted, Name;
    if Name(m.key) == a {
      FoundWithin(m.others, MemberStop(at, m) + 1, b);
    } else if Name(m.key) == b {
      FoundWithin(m.others, MemberStop(at, m) + 1, a);
    } else {
      FoundApart(m.others, MemberStop(at, m) + 1, a, b);
    }
  }

  /** Every key stands in js, and so does every value, except those of the members already dealt with. */
  ghost predicate Intact(js: bytes, at: nat, m: Members, done: set<bytes>)
    requires AreMembers(m)
    decreases m
  {
    && At(js, KeyStart(at, m), Quoted(m.key))
    && (Name(m.key) in done || At(js, MemberStart(at, m), ValueText(m.member)))
    && (m.MoreMembers? ==> Intact(js, MemberStop(at, m) + 1, m.others, done))
  }

  lemma {:induction false} IntactAtFirst(js: bytes, at: nat, m: Members)
    requires AreMembers(m) && At(js, at, MembersText(m))
    ensures Intact(js, at, m, {})
    decreases m
  {
    hide At, ValueText, MembersText, Quoted, Name, IsValue;
    MembersParts(js, at, m);
    if m.MoreMembers? { IntactAtFirst(js, MemberStop(at, m) + 1, m.others); }
  }

  lemma {:induction false} IntactKeys(js: bytes, at: nat, m: Members, done: set<bytes>)
    requires AreMembers(m) && Intact(js, at, m, done)
    ensures KeysAt(js, at, m)
    decreases m
  {
    hide At, ValueText, Quoted, Name, IsValue;
    if m.MoreMembers? { IntactKeys(js, MemberStop(at, m) + 1, m.others, done); }
  }

  /** A value that has not been dealt with is still there. */
  lemma {:induction false} IntactValue(js: bytes, at: nat, m: Members, done: set<bytes>, key: bytes)
    requires AreMembers(m) && Intact(js, at, m, done) && key !in done && Member(m, at, key).Some?
    ensures var f := Member(m, at, key).value; At(js, f.at, ValueText(f.value))
    decreases m
  {
    hide At, ValueText, Quoted, Name, IsValue;
    if Name(m.key) != key { IntactValue(js, MemberStop(at, m) + 1, m.others, done, key); }
  }

  /** Changes before the members do not matter to them. */
  lemma {:induction false} IntactBefore(js: bytes, js': bytes, at: nat, m: Members, done: set<bytes>, more: set<bytes>,
                                        lo: nat, hi: nat)
    requires AreMembers(m) && Intact(js, at, m, done) && SameOutside(js, js', lo, hi) && hi <= at && done <= more
    ensures Intact(js', at, m, more)
    decreases m
  {
    hide At, ValueText, Quoted, Name, IsValue, SameOutside;
    AtKept(js, js', KeyStart(at, m), Quoted(m.key), lo, hi);
    if Name(m.key) !in done { AtKept(js, js', MemberStart(at, m), ValueText(m.member), lo, hi); }
    if m.MoreMembers? { IntactBefore(js, js', MemberStop(at, m) + 1, m.others, done, more, lo, hi); }
  }

  /** Changing one value in place leaves every key and every other value. */
  lemma {:induction false} IntactAfter(js: bytes, js': bytes, at: nat, m: Members, done: set<bytes>, key: bytes)
    requires AreMembers(m) && Intact(js, at, m, done) && Member(m, at, key).Some?
    requires var f := Member(m, at, key).value; SameOutside(js, js', f.at, FoundEnd(f))
    ensures Intact(js', at, m, done + {key})
    decreases m
  {
    hide At, ValueText, Quoted, Name, IsValue, SameOutside;
    var f := Member(m, at, key).value;
    if Name(m.key) == key {
      AtKept(js, js', KeyStart(at, m), Quoted(m.key), f.at, FoundEnd(f));
      if m.MoreMembers? {
        IntactBefore(js, js', MemberStop(at, m) + 1, m.others, done, done + {key}, f.at, FoundEnd(f));
      }
    } else {
      FoundWithin(m.others, MemberStop(at, m) + 1, key);
      AtKept(js, js', KeyStart(at, m), Quoted(m.key), f.at, FoundEnd(f));
      if Name(m.key) !in done { AtKept(js, js', MemberStart(at, m), ValueText(m.member), f.at, FoundEnd(f)); }
      IntactAfter(js, js', MemberStop(at, m) + 1, m.others, done, key);
    }
  }

  /** Names that no member has make no difference. */
  lemma {:induction false} IntactMore(js: bytes, at: nat, m: Members, done: set<bytes>, more: set<bytes>)
    requires AreMembers(m) && Intact(js, at, m, done) && done <= more
    ensures Intact(js, at, m, more)
    decreases m
  {
    hide At, ValueText, Quoted, Name, IsValue;
    if m.MoreMembers? { IntactMore(js, MemberStop(at, m) + 1, m.others, done, more); }
  }

  // ----- in the token array -----

  /** Tokens from `end` on belong to nothing in [base, end), and lie beyond `hi`. */
  ghost predicate Closed(toks: seq<Token>, base: nat, end: nat, hi: nat) {
    && end <= |toks| && (end < |toks| ==> toks[end].start >= hi)
    && forall k :: end <= k < |toks| ==> toks[k].parent < base || toks[k].parent >= end
  }

  /** The tokens of v, whose text starts at `at`, stand at idx, and no others belong to them. */
  ghost predicate Placed(toks: seq<Token>, v: Value, at: nat, parent: int, idx: nat) {
    Segment(toks, idx, Tokens(v, at, parent, idx)) && Closed(toks, idx, idx + Size(v), at + |ValueText(v)|)
  }

  ghost predicate MembersPlaced(toks: seq<Token>, m: Members, at: nat, obj: nat, base: nat) {
    && obj < base && Segment(toks, base, MembersTokens(m, at, obj, base))
    && Closed(toks, base, base + MembersSize(m), at + |MembersText(m)|)
  }

  lemma RootPlaced(v: Value, at: nat)
    ensures Placed(Tokens(v, at, -1, 0), v, at, -1, 0)
  {
    hide Tokens, ValueText;
  }

  lemma ObjectPlaced(toks: seq<Token>, m: Members, at: nat, parent: int, idx: nat)
    requires Placed(toks, Object(m), at, parent, idx) && parent < idx
    ensures idx < |toks| && toks[idx] == Token(OBJ, at, at + 1 + |MembersText(m)|, parent)
    ensures MembersPlaced(toks, m, at + 1, idx, idx + 1)
  {
    hide Segment, MembersTokens, MembersText;
    var t := Token(OBJ, at, at + |ValueText(Object(m))|, parent);
    var rest := MembersTokens(m, at + 1, idx, idx + 1);
    SegmentHead(toks, idx, t, rest);
    SegmentSplit(toks, idx, [t], rest);
  }

  /** The tokens after the first value in an object belong to the object or to later values. */
  lemma OthersClosed(toks: seq<Token>, m: Members, at: nat, obj: nat, base: nat, lo: nat)
    requires MembersPlaced(toks, m, at, obj, base) && obj < lo < base
    requires forall k :: base + MembersSize(m) <= k < |toks| ==> toks[k].parent < lo || toks[k].parent >= base
    ensures Closed(toks, lo, base, at)
  {
    hide MembersTokens, Segment, MembersText, Tokens, Rooted;
    MembersParents(m, at, obj, base);
    MembersSplit(toks, obj, m, at, base);
    var ts := MembersTokens(m, at, obj, base);
    assert |ts| == MembersSize(m);
    forall k | base <= k < |toks| ensures toks[k].parent < lo || toks[k].parent >= base {
      if k < base + MembersSize(m) {
        SegmentIndex(toks, base, ts, k - base);
        RootedIndex(ts, obj, base, k - base);
      }
    }
    QuotedLength(m.key);
  }

  lemma SegmentIndex(toks: seq<Token>, base: nat, part: seq<Token>, k: nat)
    requires Segment(toks, base, part) && k < |part|
    ensures base + k < |toks| && toks[base + k] == part[k]
  {
  }

  lemma RootedIndex(ts: seq<Token>, parent: int, base: nat, k: nat)
    requires Rooted(ts, parent, base) && k < |ts|
    ensures ts[k].parent == parent || base <= ts[k].parent
  {
  }

  /** The first member's value and the other members, each in its place. */
  lemma FirstPlaced(toks: seq<Token>, m: Members, at: nat, obj: nat, base: nat)
    requires MembersPlaced(toks, m, at, obj, base)
    ensures base < |toks| && toks[base] == Token(STR, KeyStart(at, m) + 1, KeyEnd(at, m) - 1, obj)
    ensures Placed(toks, m.member, MemberStart(at, m), obj, base + 1)
    ensures m.MoreMembers? ==> MembersPlaced(toks, m.others, MemberStop(at, m) + 1, obj, base + 1 + Size(m.member))
  {
    hide Segment, MembersTokens, MembersText, Tokens, ValueText, Quoted;
    MembersSplit(toks, obj, m, at, base);
    MembersLength(m, at);
    if m.MoreMembers? {
      OthersClosed(toks, m.others, MemberStop(at, m) + 1, obj, base + 1 + Size(m.member), base + 1);
    }
  }

  /** The token that json_object_get finds is the value's, in its place. */
  lemma {:induction false} FoundPlaced(toks: seq<Token>, m: Members, at: nat, obj: nat, base: nat, key: bytes)
    requires AreMembers(m) && MembersPlaced(toks, m, at, obj, base)
    ensures Member(m, at, key).None? <==> FindMember(m, base, key) == -1
    ensures Member(m, at, key).Some? ==>
              var t := FindMember(m, base, key);
              var f := Member(m, at, key).value;
              base < t < |toks| && Placed(toks, f.value, f.at, obj, t)
    decreases m
  {
    hide MembersPlaced, Placed, ValueText, Quoted, Name, IsValue;
    FirstPlaced(toks, m, at, obj, base);
    PlacedInside(toks, m.member, MemberStart(at, m), obj, base + 1);
    if Name(m.key) != key && m.MoreMembers? {
      FoundPlaced(toks, m.others, MemberStop(at, m) + 1, obj, base + 1 + Size(m.member), key);
    }
  }

  lemma PlacedInside(toks: seq<Token>, v: Value, at: nat, parent: int, idx: nat)
    requires Placed(toks, v, at, parent, idx)
    ensures idx + Size(v) <= |toks| && toks[idx] == Tokens(v, at, parent, idx)[0]
  {
    hide Tokens, ValueText;
    assert Tokens(v, at, parent, idx)[0] == toks[idx + 0];
  }
}
