/** json_object_get over the tokens of a document. */
module JsonLookup {
  import opened Bytes
  import opened JsonGrammar
  import opened JsonMeaning
  import opened JsonScan
  import opened JsonDecode
  import opened JsonParserProof
  import opened JsonEngine
  import opened JsonTree

  predicate IsKey(js: bytes, t: Token, key: bytes)
    requires t.kind == STR ==> 0 <= t.start <= t.end <= |js|
  {
    t.kind == STR && t.end - t.start < MAX_KEY_BYTES && TokenName(js, t) == key
  }

  /** The search of json_object_get from token i on, `direct` children of obj having been passed. */
  function Lookup(js: bytes, toks: seq<Token>, obj: nat, i: nat, direct: nat, key: bytes): (r: int)
    requires Sane(js, toks) && obj < |toks|
    decreases |toks| - i
  {
    if i >= |toks| || toks[i].start >= toks[obj].end then -1
    else if toks[i].parent != obj then Lookup(js, toks, obj, i + 1, direct, key)
    else if direct % 2 == 0 && IsKey(js, toks[i], key) then (if i + 1 < |toks| then i + 1 else -1)
    else Lookup(js, toks, obj, i + 1, direct + 1, key)
  }

  /** json_object_get. */
  method ObjectGet(js: bytes, toks: seq<Token>, obj: int, key: bytes) returns (r: int)
    requires Sane(js, toks)
    ensures r == if 0 <= obj < |toks| && toks[obj].kind == OBJ && |key| < MAX_KEY_BYTES
                 then Lookup(js, toks, obj, obj + 1, 0, key) else -1
  {
    hide Sane, TokenName;
    if obj < 0 || obj >= |toks| || toks[obj].kind != OBJ || |key| >= MAX_KEY_BYTES { return -1; }
    var direct := 0;
    var i := obj + 1;
    while i < |toks| && toks[i].start < toks[obj].end
      invariant obj < i <= |toks|
      invariant Lookup(js, toks, obj, i, direct, key) == Lookup(js, toks, obj, obj + 1, 0, key)
      decreases |toks| - i
    {
      if toks[i].parent == obj {
        if direct % 2 == 0 && toks[i].kind == STR {
          SaneAt(js, toks, i);
          var rawLen := toks[i].end - toks[i].start;
          if rawLen < MAX_KEY_BYTES && TokenName(js, toks[i]) == key {
            return if i + 1 < |toks| then i + 1 else -1;
          }
        }
        direct := direct + 1;
      }
      i := i + 1;
    }
    return -1;
  }

  // ----- what the search finds in a tree -----

  /** The token of the value of the first member called `key`, or -1. */
  function FindMember(m: Members, base: nat, key: bytes): int
    requires AreMembers(m)
  {
    if Name(m.key) == key then base + 1
    else if m.LastMember? then -1
    else FindMember(m.others, base + 1 + Size(m.member), key)
  }

  /** The token of the value of member number k. */
  function MemberIndex(m: Members, base: nat, k: nat): int {
    if k == 0 || m.LastMember? then base + 1 else MemberIndex(m.others, base + 1 + Size(m.member), k - 1)
  }

  /** The number of a member is the only one with its name, so its value is the one found; other names are not found. */
  lemma {:induction false} FindMemberIs(m: Members, base: nat, key: bytes)
    requires AreMembers(m) && Distinct(Names(m))
    ensures key !in Names(m) ==> FindMember(m, base, key) == -1
    ensures forall k :: 0 <= k < |Names(m)| && Names(m)[k] == key ==> FindMember(m, base, key) == MemberIndex(m, base, k)
    decreases m
  {
    hide Name;
    if m.MoreMembers? {
      var names, rest := Names(m), Names(m.others);
      assert names == [names[0]] + rest && names[1..] == rest;
      assert Distinct(rest) by {
        forall i, j | 0 <= i < j < |rest| ensures rest[i] != rest[j] {
          assert names[i + 1] != names[j + 1];
        }
      }
      FindMemberIs(m.others, base + 1 + Size(m.member), key);
      forall k | 0 <= k < |names| && names[k] == key ensures FindMember(m, base, key) == MemberIndex(m, base, k) {
        if k > 0 { assert rest[k - 1] == key && names[0] != names[k]; }
      }
      assert key in rest ==> key in names by {
        if key in rest { var k :| 0 <= k < |rest| && rest[k] == key; assert names[k + 1] == key; }
      }
    }
  }

  /** The tokens of a piece of a tree stand in the array at index base. */
  ghost predicate Segment(toks: seq<Token>, base: nat, part: seq<Token>) {
    base + |part| <= |toks| && forall k {:trigger part[k]} :: 0 <= k < |part| ==> toks[base + k] == part[k]
  }

  lemma SegmentSplit(toks: seq<Token>, base: nat, a: seq<Token>, b: seq<Token>)
    requires Segment(toks, base, a + b)
    ensures Segment(toks, base, a) && Segment(toks, base + |a|, b)
  {
    forall k | 0 <= k < |a| ensures toks[base + k] == a[k] { assert (a + b)[k] == a[k]; }
    forall k | 0 <= k < |b| ensures toks[base + |a| + k] == b[k] { assert (a + b)[|a| + k] == b[k]; }
  }

  /** Tokens that are not children of obj are passed over. */
  lemma {:induction false} PassOver(js: bytes, toks: seq<Token>, obj: nat, from: nat, to: nat, direct: nat, key: bytes)
    requires Sane(js, toks) && obj < |toks| && from <= to <= |toks|
    requires forall k :: from <= k < to ==> toks[k].parent != obj && toks[k].start < toks[obj].end
    ensures Lookup(js, toks, obj, from, direct, key) == Lookup(js, toks, obj, to, direct, key)
    decreases |toks| - from
  {
    hide Sane, IsKey;
    if from < to { PassOver(js, toks, obj, from + 1, to, direct, key); }
  }

  /** The value of a member is passed over, whatever is inside it. */
  lemma PassValue(js: bytes, toks: seq<Token>, obj: nat, v: Value, at: nat, base: nat, direct: nat, key: bytes)
    requires Sane(js, toks) && obj < base && Segment(toks, base, Tokens(v, at, obj, base)) && direct % 2 == 1
    requires obj < |toks| && at + |ValueText(v)| < toks[obj].end
    ensures Lookup(js, toks, obj, base, direct, key) == Lookup(js, toks, obj, base + Size(v), direct + 1, key)
  {
    hide Sane, IsKey, Tokens, ValueText, Rooted;
    var ts := Tokens(v, at, obj, base);
    ValueParents(v, at, obj, base);
    ValueSpans(v, at, obj, base);
    forall k | base <= k < base + Size(v)
      ensures toks[k].start < toks[obj].end && (k > base ==> toks[k].parent != obj) && (k == base ==> toks[k].parent == obj)
    {
      assert toks[base + (k - base)] == ts[k - base] && Within(ts[k - base], at, at + |ValueText(v)|);
    }
    assert toks[base].parent == obj;
    PassOver(js, toks, obj, base + 1, base + Size(v), direct + 1, key);
  }

  /** The keys of the members stand in js; their values may have been decoded in place since. */
  ghost predicate KeysAt(js: bytes, at: nat, m: Members)
    decreases m
  {
    At(js, KeyStart(at, m), Quoted(m.key)) && (m.MoreMembers? ==> KeysAt(js, MemberStop(at, m) + 1, m.others))
  }

  ghost predicate MembersIn(js: bytes, toks: seq<Token>, obj: nat, m: Members, at: nat, base: nat) {
    && obj < base && Segment(toks, base, MembersTokens(m, at, obj, base))
    && AreMembers(m) && ShortKeys(m) && KeysAt(js, at, m)
    && toks[obj].end == at + |MembersText(m)|
    && (base + MembersSize(m) < |toks| ==> toks[base + MembersSize(m)].start >= toks[obj].end)
  }

  /** The tokens of the first member and of the members after it. */
  lemma MembersSplit(toks: seq<Token>, obj: nat, m: Members, at: nat, base: nat)
    requires Segment(toks, base, MembersTokens(m, at, obj, base))
    ensures base < |toks| && toks[base] == Token(STR, KeyStart(at, m) + 1, KeyEnd(at, m) - 1, obj)
    ensures base + 1 + Size(m.member) <= |toks|
    ensures Segment(toks, base + 1, Tokens(m.member, MemberStart(at, m), obj, base + 1))
    ensures m.MoreMembers? ==>
              var next := base + 1 + Size(m.member);
              Segment(toks, next, MembersTokens(m.others, MemberStop(at, m) + 1, obj, next))
  {
    hide Tokens, ValueText, Segment, Quoted, TailTokens;
    var t := Token(STR, KeyStart(at, m) + 1, KeyEnd(at, m) - 1, obj);
    var tail := TailTokens(m, at, obj, base + 1);
    SegmentHead(toks, base, t, tail);
    SegmentSplit(toks, base, [t], tail);
    TailSplit(toks, obj, m, at, base);
  }

  lemma TailSplit(toks: seq<Token>, obj: nat, m: Members, at: nat, base: nat)
    requires Segment(toks, base + 1, TailTokens(m, at, obj, base + 1))
    ensures base + 1 + Size(m.member) <= |toks|
    ensures Segment(toks, base + 1, Tokens(m.member, MemberStart(at, m), obj, base + 1))
    ensures m.MoreMembers? ==>
              var next := base + 1 + Size(m.member);
              Segment(toks, next, MembersTokens(m.others, MemberStop(at, m) + 1, obj, next))
  {
    hide Tokens, ValueText, Segment, Quoted, MembersTokens;
    var v := Tokens(m.member, MemberStart(at, m), obj, base + 1);
    var rest := if m.LastMember? then [] else MembersTokens(m.others, MemberStop(at, m) + 1, obj, base + 1 + Size(m.member));
    SegmentSplit(toks, base + 1, v, rest);
    SegmentLength(toks, base + 1, v);
  }

  /** The first member and the members after it, found in the token array. */
  lemma MembersInParts(js: bytes, toks: seq<Token>, obj: nat, m: Members, at: nat, base: nat)
    requires MembersIn(js, toks, obj, m, at, base)
    ensures base < |toks| && toks[base] == Token(STR, KeyStart(at, m) + 1, KeyEnd(at, m) - 1, obj)
    ensures Segment(toks, base + 1, Tokens(m.member, MemberStart(at, m), obj, base + 1))
    ensures base + 1 + Size(m.member) <= |toks| && MemberEnd(at, m) < toks[obj].end
    ensures At(js, KeyStart(at, m), Quoted(m.key))
    ensures KeyStart(at, m) + 1 < toks[obj].end
    ensures m.MoreMembers? ==>
              MembersIn(js, toks, obj, m.others, MemberStop(at, m) + 1, base + 1 + Size(m.member))
  {
    hide Tokens, ValueText, MembersText, Segment, At, Quoted, IsValue, ArePieces, MembersTokens;
    MembersLength(m, at);
    QuotedLength(m.key);
    MembersSplit(toks, obj, m, at, base);
    if m.MoreMembers? { MembersLength(m.others, 0); }
  }

  /** The search looks at one member. */
  lemma LookupOne(js: bytes, toks: seq<Token>, obj: nat, m: Members, at: nat, base: nat, direct: nat, key: bytes)
    requires Sane(js, toks) && MembersIn(js, toks, obj, m, at, base) && direct % 2 == 0
    ensures base + 1 + Size(m.member) <= |toks|
    ensures Lookup(js, toks, obj, base, direct, key)
            == if Name(m.key) == key then base + 1
               else Lookup(js, toks, obj, base + 1 + Size(m.member), direct + 2, key)
  {
    hide Sane, Tokens, ValueText, MembersText, Segment, At, Quoted, Name, IsValue, IsKey, MembersTokens, KeysAt;
    MembersInParts(js, toks, obj, m, at, base);
    KeyIs(js, toks, m, at, base, key);
    PassValue(js, toks, obj, m.member, MemberStart(at, m), base + 1, direct + 1, key);
  }

  /** Among the members of an object, the search finds the value of the first member with the given name. */
  lemma {:induction false} LookupMembers(js: bytes, toks: seq<Token>, obj: nat, m: Members, at: nat, base: nat,
                                         direct: nat, key: bytes)
    requires Sane(js, toks) && MembersIn(js, toks, obj, m, at, base) && direct % 2 == 0
    ensures Lookup(js, toks, obj, base, direct, key) == FindMember(m, base, key)
    decreases m
  {
    hide Sane, Tokens, ValueText, MembersText, Segment, At, Quoted, Name, IsValue, IsKey, MembersTokens, KeysAt;
    MembersInParts(js, toks, obj, m, at, base);
    LookupOne(js, toks, obj, m, at, base, direct, key);
    if Name(m.key) != key && m.MoreMembers? {
      LookupMembers(js, toks, obj, m.others, MemberStop(at, m) + 1, base + 1 + Size(m.member), direct + 2, key);
    }
  }

  lemma SegmentLength(toks: seq<Token>, base: nat, part: seq<Token>)
    requires Segment(toks, base, part)
    ensures base + |part| <= |toks|
  {
  }

  lemma SegmentHead(toks: seq<Token>, base: nat, t: Token, rest: seq<Token>)
    requires Segment(toks, base, [t] + rest)
    ensures base < |toks| && toks[base] == t
  {
    assert ([t] + rest)[0] == t;
    assert toks[base + 0] == t;
  }

  /** The key token of a member matches exactly the member's name. */
  lemma KeyIs(js: bytes, toks: seq<Token>, m: Members, at: nat, base: nat, key: bytes)
    requires Sane(js, toks) && base < |toks|
    requires toks[base].kind == STR && toks[base].start == KeyStart(at, m) + 1 && toks[base].end == KeyEnd(at, m) - 1
    requires AreMembers(m) && ShortKeys(m) && At(js, KeyStart(at, m), Quoted(m.key))
    ensures 0 <= toks[base].start <= toks[base].end <= |js|
    ensures IsKey(js, toks[base], key) <==> Name(m.key) == key
  {
    hide At, ValueText, Quoted, Name, RawName, IsValue, Sane;
    SaneAt(js, toks, base);
    QuotedParts(js, KeyStart(at, m), m.key);
    AtIs(js, KeyStart(at, m) + 1, StringText(m.key));
    RawNameIsName(m.key);
  }

  /**
   json_object_get on an object of the document, whose values may have been decoded in place: the value of the unique member with that name, or -1 exactly when
   no member has it.
   */
  lemma ObjectGetFinds(js: bytes, toks: seq<Token>, m: Members, at: nat, parent: int, obj: nat, key: bytes)
    requires Sane(js, toks) && Segment(toks, obj, Tokens(Object(m), at, parent, obj))
    requires AreMembers(m) && ShortKeys(m) && Distinct(Names(m)) && KeysAt(js, at + 1, m)
    requires var next := obj + Size(Object(m)); next < |toks| ==> toks[next].start >= at + |ValueText(Object(m))|
    ensures obj < |toks| && toks[obj].kind == OBJ
    ensures var r := Lookup(js, toks, obj, obj + 1, 0, key);
            && (r == -1 <==> key !in Names(m)) && r == FindMember(m, obj + 1, key)
            && forall k :: 0 <= k < |Names(m)| && Names(m)[k] == key ==> r == MemberIndex(m, obj + 1, k)
  {
    hide Sane, Segment, KeysAt, MembersText, MembersTokens, Distinct, Names;
    var t := Token(OBJ, at, at + |ValueText(Object(m))|, parent);
    var rest := MembersTokens(m, at + 1, obj, obj + 1);
    SegmentHead(toks, obj, t, rest);
    SegmentSplit(toks, obj, [t], rest);
    LookupMembers(js, toks, obj, m, at + 1, obj + 1, 0, key);
    FindMemberIs(m, obj + 1, key);
    if key in Names(m) {
      var k :| 0 <= k < |Names(m)| && Names(m)[k] == key;
      MemberIndexPositive(m, obj + 1, k);
    }
  }

  lemma {:induction false} MemberIndexPositive(m: Members, base: nat, k: nat)
    ensures MemberIndex(m, base, k) > base
    decreases m
  {
    if k > 0 && m.MoreMembers? { MemberIndexPositive(m.others, base + 1 + Size(m.member), k - 1); }
  }
}
