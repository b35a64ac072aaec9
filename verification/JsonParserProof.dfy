/** The recursive parser accepts exactly the grammar. */
module JsonParserProof {
  import opened Bytes
  import opened JsonGrammar
  import opened JsonMeaning
  import opened JsonScan
  import opened JsonDecode
  import opened JsonParser

  // ----- how the texts of trees divide -----

  ghost predicate ByteAt(js: bytes, i: nat, b: byte) { i < |js| && js[i] == b }

  lemma AtOne(js: bytes, i: nat, b: byte)
    ensures At(js, i, [b]) <==> ByteAt(js, i, b)
  {
    if i < |js| { assert js[i..i + 1] == [js[i]]; }
  }

  lemma QuotedParts(js: bytes, i: nat, ps: seq<Piece>)
    ensures At(js, i, Quoted(ps)) <==>
            ByteAt(js, i, 0x22) && At(js, i + 1, StringText(ps)) && ByteAt(js, i + 1 + |StringText(ps)|, 0x22)
    ensures |Quoted(ps)| == |StringText(ps)| + 2
  {
    hide At;
    AtConcat(js, i, [0x22] + StringText(ps), [0x22]);
    AtConcat(js, i, [0x22], StringText(ps));
    AtOne(js, i, 0x22);
    AtOne(js, i + 1 + |StringText(ps)|, 0x22);
  }

  ghost predicate ItemsAt(js: bytes, i: nat, x: Items) {
    && At(js, i, x.before) && At(js, ItemStart(i, x), ValueText(x.item)) && At(js, ItemEnd(i, x), x.after)
    && ByteAt(js, ItemStop(i, x), if x.LastItem? then 0x5D else 0x2C)
    && (x.MoreItems? ==> At(js, ItemStop(i, x) + 1, ItemsText(x.rest)))
  }

  lemma ItemsParts(js: bytes, i: nat, x: Items)
    ensures At(js, i, ItemsText(x)) <==> ItemsAt(js, i, x)
    ensures |ItemsText(x)| == ItemStop(i, x) - i + 1 + if x.LastItem? then 0 else |ItemsText(x.rest)|
  {
    hide At, ValueText;
    var t := ValueText(x.item);
    var tail := if x.LastItem? then [0x5D] else [0x2C] + ItemsText(x.rest);
    AtConcat(js, i, x.before + t + x.after, tail);
    AtConcat(js, i, x.before + t, x.after);
    AtConcat(js, i, x.before, t);
    var stop := ItemStop(i, x);
    if x.LastItem? {
      AtOne(js, stop, 0x5D);
    } else {
      AtConcat(js, stop, [0x2C], ItemsText(x.rest));
      AtOne(js, stop, 0x2C);
    }
  }

  ghost predicate MembersAt(js: bytes, i: nat, m: Members) {
    && At(js, i, m.before) && At(js, KeyStart(i, m), Quoted(m.key)) && At(js, KeyEnd(i, m), m.mid)
    && ByteAt(js, ColonAt(i, m), 0x3A) && At(js, ColonAt(i, m) + 1, m.lead)
    && At(js, MemberStart(i, m), ValueText(m.member)) && At(js, MemberEnd(i, m), m.after)
    && ByteAt(js, MemberStop(i, m), if m.LastMember? then 0x7D else 0x2C)
    && (m.MoreMembers? ==> At(js, MemberStop(i, m) + 1, MembersText(m.others)))
  }

  lemma MembersParts(js: bytes, i: nat, m: Members)
    ensures At(js, i, MembersText(m)) <==> MembersAt(js, i, m)
    ensures |MembersText(m)| == MemberStop(i, m) - i + 1 + if m.LastMember? then 0 else |MembersText(m.others)|
  {
    hide At, ValueText, Quoted;
    var q, t := Quoted(m.key), ValueText(m.member);
    var tail := if m.LastMember? then [0x7D] else [0x2C] + MembersText(m.others);
    AtConcat(js, i, m.before + q + m.mid + [0x3A] + m.lead + t + m.after, tail);
    AtConcat(js, i, m.before + q + m.mid + [0x3A] + m.lead + t, m.after);
    AtConcat(js, i, m.before + q + m.mid + [0x3A] + m.lead, t);
    AtConcat(js, i, m.before + q + m.mid + [0x3A], m.lead);
    AtConcat(js, i, m.before + q + m.mid, [0x3A]);
    AtConcat(js, i, m.before + q, m.mid);
    AtConcat(js, i, m.before, q);
    AtOne(js, ColonAt(i, m), 0x3A);
    var stop := MemberStop(i, m);
    if m.LastMember? {
      AtOne(js, stop, 0x7D);
    } else {
      AtConcat(js, stop, [0x2C], MembersText(m.others));
      AtOne(js, stop, 0x2C);
    }
  }

  // ----- white space and delimiters -----

  lemma {:induction false} SkipPad(js: bytes, i: nat, w: bytes)
    requires IsPad(w) && At(js, i, w) && (i + |w| < |js| ==> !IsSpace(js[i + |w|]))
    ensures SkipSpace(js, i) == i + |w|
    decreases |w|
  {
    hide At;
    AtIs(js, i, w);
    if w != [] {
      AtIndex(js, i, w, 0);
      assert w == [w[0]] + w[1..];
      AtConcat(js, i, [w[0]], w[1..]);
      SkipPad(js, i + 1, w[1..]);
    }
  }

  /** The white space SkipSpace passes over. */
  lemma {:induction false} PadSkipped(js: bytes, i: nat)
    requires i <= |js|
    ensures var j := SkipSpace(js, i); i <= j <= |js| && IsPad(js[i..j])
    decreases |js| - i
  {
    if i < |js| && IsSpace(js[i]) {
      PadSkipped(js, i + 1);
      var j := SkipSpace(js, i);
      assert js[i..j] == [js[i]] + js[i + 1..j];
    }
  }

  /** A value's text is non-empty and does not start with white space or a closing bracket. */
  lemma ValueStart(v: Value)
    requires IsValue(v)
    ensures var t := ValueText(v); t != [] && !IsSpace(t[0]) && t[0] != 0x5D && t[0] != 0x7D
  {
    if IsPrimitive(v) { PrimitiveStart(v); }
  }

  /** After white space and a separator or closing bracket, what precedes is delimited. */
  lemma PadDelimits(js: bytes, i: nat, w: bytes)
    requires IsPad(w) && At(js, i, w)
    requires var e := i + |w|; e >= |js| || js[e] == 0x2C || js[e] == 0x5D || js[e] == 0x7D
    ensures IsDelimiter(js, i)
  {
    if w != [] { AtIndex(js, i, w, 0); }
  }

  // ----- every tree within the limits is parsed -----

  ghost predicate Room(size: nat, deep: nat, base: nat, depth: nat, max: int) {
    base + size <= max && depth + deep <= MAX_DEPTH
  }

  lemma {:induction false} ValueComplete(js: bytes, i: nat, v: Value, parent: int, base: nat, depth: nat, max: int)
    requires IsValue(v) && At(js, i, ValueText(v)) && (IsPrimitive(v) ==> IsDelimiter(js, i + |ValueText(v)|))
    requires ObjectsFit(v) && Room(Size(v), Depth(v), base, depth, max)
    ensures ParseValue(js, i, parent, base, depth, max) == Ok(Tokens(v, i, parent, base), i + |ValueText(v)|)
    decreases v, 2
  {
    hide At, ParseValue, ParseRest, IsNumber, NumberText, Tokens;
    match v
    case Str(ps) => StringCase(js, i, ps, parent, base, depth, max);
    case Num(_) => PrimitiveCase(js, i, v, parent, base, depth, max);
    case Lit(_) => PrimitiveCase(js, i, v, parent, base, depth, max);
    case EmptyArray(pad) => EmptyCase(js, i, v, parent, base, depth, max);
    case EmptyObject(pad) => EmptyCase(js, i, v, parent, base, depth, max);
    case Array(items) => ArrayComplete(js, i, items, parent, base, depth, max);
    case Object(members) => ObjectComplete(js, i, members, parent, base, depth, max);
  }

  lemma StringCase(js: bytes, i: nat, ps: seq<Piece>, parent: int, base: nat, depth: nat, max: int)
    requires ArePieces(ps) && At(js, i, Quoted(ps)) && base < max
    ensures ParseValue(js, i, parent, base, depth, max) == Ok(Tokens(Str(ps), i, parent, base), i + |Quoted(ps)|)
  {
    hide At, StringEnd;
    QuotedParts(js, i, ps);
    StringComplete(js, i + 1, ps);
  }

  lemma PrimitiveCase(js: bytes, i: nat, v: Value, parent: int, base: nat, depth: nat, max: int)
    requires IsValue(v) && IsPrimitive(v) && At(js, i, ValueText(v)) && IsDelimiter(js, i + |ValueText(v)|)
    requires base < max
    ensures ParseValue(js, i, parent, base, depth, max) == Ok(Tokens(v, i, parent, base), i + |ValueText(v)|)
  {
    hide At, StringEnd, PrimitiveEnd, ValueText, IsValue;
    PrimitiveStart(v);
    AtIndex(js, i, ValueText(v), 0);
    PrimitiveComplete(js, i, v);
  }

  /** An opening bracket is followed by the rest of its container. */
  lemma OpenStep(js: bytes, i: nat, parent: int, base: nat, depth: nat, max: int)
    requires ByteAt(js, i, 0x5B) || ByteAt(js, i, 0x7B)
    requires base < max && depth < MAX_DEPTH
    ensures var kind := if js[i] == 0x7B then OBJ else ARR;
            var rest := ParseRest(js, i + 1, Opened(kind), [], base, base + 1, depth + 1, max);
            ParseValue(js, i, parent, base, depth, max)
            == if rest.Fail? then Fail else Ok([Token(kind, i, rest.end, parent)] + rest.toks, rest.end)
  {
    hide ParseRest;
  }

  lemma EmptyCase(js: bytes, i: nat, v: Value, parent: int, base: nat, depth: nat, max: int)
    requires v.EmptyArray? || v.EmptyObject?
    requires IsPad(v.pad) && At(js, i, ValueText(v)) && base < max && depth < MAX_DEPTH
    ensures ParseValue(js, i, parent, base, depth, max) == Ok(Tokens(v, i, parent, base), i + |ValueText(v)|)
  {
    hide At, ParseValue;
    var pad := v.pad;
    var kind, open, close := if v.EmptyArray? then ARR else OBJ, if v.EmptyArray? then 0x5B else 0x7B,
                             if v.EmptyArray? then 0x5D else 0x7D;
    AtConcat(js, i, [open] + pad, [close]);
    AtConcat(js, i, [open], pad);
    AtOne(js, i, open);
    AtOne(js, i + 1 + |pad|, close);
    SkipPad(js, i + 1, pad);
    OpenStep(js, i, parent, base, depth, max);
    assert ParseRest(js, i + 1, Opened(kind), [], base, base + 1, depth + 1, max) == Ok([], i + |pad| + 2);
  }

  lemma ArrayComplete(js: bytes, i: nat, x: Items, parent: int, base: nat, depth: nat, max: int)
    requires AreItems(x) && At(js, i, ValueText(Array(x))) && ItemsFit(x)
    requires Room(ItemsSize(x), ItemsDepth(x), base + 1, depth + 1, max)
    ensures ParseValue(js, i, parent, base, depth, max)
            == Ok(Tokens(Array(x), i, parent, base), i + |ValueText(Array(x))|)
    decreases x, 1
  {
    hide At, ParseValue, ParseRest, ItemsText, ItemsTokens, ItemsSize, ItemsDepth, AreItems, ItemsFit;
    AtConcat(js, i, [0x5B], ItemsText(x));
    ItemsComplete(js, i + 1, x, ARR_VALUE_OR_END, base, base + 1, depth + 1, max);
    AtOne(js, i, 0x5B);
    OpenStep(js, i, parent, base, depth, max);
  }

  lemma ObjectComplete(js: bytes, i: nat, m: Members, parent: int, base: nat, depth: nat, max: int)
    requires AreMembers(m) && At(js, i, ValueText(Object(m))) && MembersFit(m) && ShortKeys(m)
    requires |Names(m)| <= MAX_OBJECT_KEYS && Distinct(Names(m))
    requires Room(MembersSize(m), MembersDepth(m), base + 1, depth + 1, max)
    ensures ParseValue(js, i, parent, base, depth, max)
            == Ok(Tokens(Object(m), i, parent, base), i + |ValueText(Object(m))|)
    decreases m, 1
  {
    hide At, ParseValue, ParseRest, MembersText, MembersTokens, MembersSize, MembersDepth, AreMembers, MembersFit;
    hide Names, ShortKeys, Distinct;
    AtConcat(js, i, [0x7B], MembersText(m));
    assert [] + Names(m) == Names(m);
    MembersComplete(js, i + 1, m, OBJ_KEY_OR_END, [], base, base + 1, depth + 1, max);
    AtOne(js, i, 0x7B);
    OpenStep(js, i, parent, base, depth, max);
  }

  lemma ItemShape(js: bytes, i: nat, x: Items)
    requires AreItems(x) && ItemsAt(js, i, x)
    ensures var s, e, stop := ItemStart(i, x), ItemEnd(i, x), ItemStop(i, x);
            && SkipSpace(js, i) == s < |js| && js[s] != 0x5D && IsDelimiter(js, e) && SkipSpace(js, e) == stop
  {
    hide ItemsText, At, ValueText, IsValue;
    var s, e := ItemStart(i, x), ItemEnd(i, x);
    ValueStart(x.item);
    AtIs(js, s, ValueText(x.item));
    AtIndex(js, s, ValueText(x.item), 0);
    SkipPad(js, i, x.before);
    PadDelimits(js, e, x.after);
    SkipPad(js, e, x.after);
  }

  lemma MemberShape(js: bytes, i: nat, m: Members)
    requires AreMembers(m) && MembersAt(js, i, m)
    ensures var k, s, e, stop := KeyStart(i, m), MemberStart(i, m), MemberEnd(i, m), MemberStop(i, m);
            && SkipSpace(js, i) == k && SkipSpace(js, ColonAt(i, m) + 1) == s < |js|
            && IsDelimiter(js, e) && SkipSpace(js, e) == stop
  {
    hide MembersText, ArePieces, At, ValueText, IsValue, Quoted;
    var k, s, e := KeyStart(i, m), MemberStart(i, m), MemberEnd(i, m);
    QuotedParts(js, k, m.key);
    SkipPad(js, i, m.before);
    ValueStart(m.member);
    AtIs(js, s, ValueText(m.member));
    AtIndex(js, s, ValueText(m.member), 0);
    SkipPad(js, ColonAt(i, m) + 1, m.lead);
    PadDelimits(js, e, m.after);
    SkipPad(js, e, m.after);
  }

  lemma {:induction false} ItemsComplete(js: bytes, i: nat, x: Items, state: State, self: nat, base: nat, depth: nat,
                                         max: int)
    requires state == ARR_VALUE_OR_END || state == ARR_VALUE
    requires AreItems(x) && At(js, i, ItemsText(x)) && ItemsFit(x) && Room(ItemsSize(x), ItemsDepth(x), base, depth, max)
    ensures ParseRest(js, i, state, [], self, base, depth, max)
            == Ok(ItemsTokens(x, i, self, base), i + |ItemsText(x)|)
    decreases x, 0
  {
    hide ItemsText, At, ValueText, ParseValue, ParseRest, Tokens, SkipSpace, IsDelimiter;
    var s, e, stop := ItemStart(i, x), ItemEnd(i, x), ItemStop(i, x);
    ItemsParts(js, i, x);
    ItemShape(js, i, x);
    ValueComplete(js, s, x.item, self, base, depth, max);
    ItemStep(js, i, state, self, base, depth, max);
    NextItem(js, e, self, base + Size(x.item), depth, max);
    if x.MoreItems? {
      ItemsComplete(js, stop + 1, x.rest, ARR_VALUE, self, base + Size(x.item), depth, max);
    }
  }

  lemma ItemStep(js: bytes, i: nat, state: State, self: nat, base: nat, depth: nat, max: int)
    requires state == ARR_VALUE_OR_END || state == ARR_VALUE
    requires SkipSpace(js, i) < |js| && js[SkipSpace(js, i)] != 0x5D
    ensures var v := ParseValue(js, SkipSpace(js, i), self, base, depth, max);
            var rest := if v.Fail? then Fail else ParseRest(js, v.end, ARR_NEXT, [], self, base + |v.toks|, depth, max);
            ParseRest(js, i, state, [], self, base, depth, max)
            == if rest.Fail? then Fail else Ok(v.toks + rest.toks, rest.end)
  {
    hide ParseValue;
  }

  /** After an item, a closing bracket ends the array and a comma goes on with it. */
  lemma NextItem(js: bytes, e: nat, self: nat, base: nat, depth: nat, max: int)
    ensures var j := SkipSpace(js, e);
            j < |js| && (js[j] == 0x5D || js[j] == 0x2C) ==>
              ParseRest(js, e, ARR_NEXT, [], self, base, depth, max)
              == if js[j] == 0x5D then Ok([], j + 1) else ParseRest(js, j + 1, ARR_VALUE, [], self, base, depth, max)
  {
  }

  lemma {:induction false} MembersComplete(js: bytes, i: nat, m: Members, state: State, names: seq<bytes>, self: nat,
                                           base: nat, depth: nat, max: int)
    requires state == OBJ_KEY_OR_END || state == OBJ_KEY
    requires AreMembers(m) && At(js, i, MembersText(m)) && MembersFit(m) && ShortKeys(m)
    requires |names| + |Names(m)| <= MAX_OBJECT_KEYS && Distinct(names + Names(m))
    requires Room(MembersSize(m), MembersDepth(m), base, depth, max)
    ensures ParseRest(js, i, state, names, self, base, depth, max)
            == Ok(MembersTokens(m, i, self, base), i + |MembersText(m)|)
    decreases m, 0
  {
    hide MembersText, ArePieces, At, ValueText, ParseValue, ParseRest, Tokens, Quoted, Name, Distinct, SkipSpace, IsDelimiter, MembersTokens;
    MembersParts(js, i, m);
    MemberShape(js, i, m);
    FreshName(names, Name(m.key), Names(m)[1..]);
    ValueComplete(js, MemberStart(i, m), m.member, self, base + 1, depth, max);
    if m.MoreMembers? {
      MembersComplete(js, MemberStop(i, m) + 1, m.others, OBJ_KEY, names + [Name(m.key)], self,
                      base + 1 + Size(m.member), depth, max);
    }
    MemberRound(js, i, m, state, names, self, base, depth, max);
  }

  /** One member, given how its value and the members after it parse. */
  lemma MemberRound(js: bytes, i: nat, m: Members, state: State, names: seq<bytes>, self: nat, base: nat, depth: nat,
                    max: int)
    requires state == OBJ_KEY_OR_END || state == OBJ_KEY
    requires AreMembers(m) && MembersAt(js, i, m) && |StringText(m.key)| < MAX_KEY_BYTES
    requires base < max && |names| < MAX_OBJECT_KEYS && Name(m.key) !in names
    requires ParseValue(js, MemberStart(i, m), self, base + 1, depth, max)
             == Ok(Tokens(m.member, MemberStart(i, m), self, base + 1), MemberEnd(i, m))
    requires m.MoreMembers? ==>
               var next := MemberStop(i, m) + 1;
               ParseRest(js, next, OBJ_KEY, names + [Name(m.key)], self, base + 1 + Size(m.member), depth, max)
               == Ok(MembersTokens(m.others, next, self, base + 1 + Size(m.member)), next + |MembersText(m.others)|)
    ensures ParseRest(js, i, state, names, self, base, depth, max)
            == Ok(MembersTokens(m, i, self, base), i + |MembersText(m)|)
  {
    hide MembersText, ArePieces, At, ValueText, ParseValue, ParseRest, Tokens, TailTokens, Quoted, Name, SkipSpace;
    hide IsDelimiter, Size, IsValue;
    MembersParts(js, i, m);
    MemberShape(js, i, m);
    MemberTail(js, i, m, names + [Name(m.key)], self, base + 1, depth, max);
    KeyStep(js, i, m.key, state, names, self, base, depth, max);
  }

  lemma MemberTail(js: bytes, i: nat, m: Members, names: seq<bytes>, self: nat, base: nat, depth: nat, max: int)
    requires AreMembers(m) && MembersAt(js, i, m)
    requires ParseValue(js, MemberStart(i, m), self, base, depth, max)
             == Ok(Tokens(m.member, MemberStart(i, m), self, base), MemberEnd(i, m))
    requires m.MoreMembers? ==>
               var next := MemberStop(i, m) + 1;
               ParseRest(js, next, OBJ_KEY, names, self, base + Size(m.member), depth, max)
               == Ok(MembersTokens(m.others, next, self, base + Size(m.member)), next + |MembersText(m.others)|)
    ensures ParseRest(js, KeyEnd(i, m), OBJ_COLON, names, self, base, depth, max)
            == Ok(TailTokens(m, i, self, base), i + |MembersText(m)|)
  {
    hide MembersText, ArePieces, At, ValueText, ParseValue, ParseRest, Tokens, Quoted, SkipSpace, IsDelimiter, Size, IsValue;
    MembersParts(js, i, m);
    MemberShape(js, i, m);
    NextMember(js, MemberEnd(i, m), names, self, base + Size(m.member), depth, max);
    ValueStep(js, ColonAt(i, m) + 1, names, self, base, depth, max);
    ColonStep(js, KeyEnd(i, m), m.mid, names, self, base, depth, max);
  }

  lemma FreshName(names: seq<bytes>, n: bytes, rest: seq<bytes>)
    ensures Distinct(names + ([n] + rest)) <==> Distinct(names + [n] + rest)
    ensures Distinct(names + [n] + rest) ==> n !in names
  {
    var all := names + [n] + rest;
    assert names + ([n] + rest) == all;
    forall k | 0 <= k < |names| && Distinct(all) ensures names[k] != n {
      assert all[k] == names[k] && all[|names|] == n;
    }
  }

  lemma KeyStep(js: bytes, i: nat, key: seq<Piece>, state: State, names: seq<bytes>, self: nat, base: nat, depth: nat,
                max: int)
    requires state == OBJ_KEY_OR_END || state == OBJ_KEY
    requires ArePieces(key) && At(js, SkipSpace(js, i), Quoted(key)) && |StringText(key)| < MAX_KEY_BYTES
    requires base < max && |names| < MAX_OBJECT_KEYS && Name(key) !in names
    ensures var k := SkipSpace(js, i);
            var e := k + |Quoted(key)|;
            var rest := ParseRest(js, e, OBJ_COLON, names + [Name(key)], self, base + 1, depth, max);
            ParseRest(js, i, state, names, self, base, depth, max)
            == if rest.Fail? then Fail else Ok([Token(STR, k + 1, e - 1, self)] + rest.toks, rest.end)
  {
    hide At, Name, RawName, StringEnd;
    var k := SkipSpace(js, i);
    QuotedParts(js, k, key);
    StringComplete(js, k + 1, key);
    AtIs(js, k + 1, StringText(key));
    RawNameIsName(key);
  }

  lemma ColonStep(js: bytes, i: nat, mid: bytes, names: seq<bytes>, self: nat, base: nat, depth: nat, max: int)
    requires IsPad(mid) && At(js, i, mid) && ByteAt(js, i + |mid|, 0x3A)
    ensures ParseRest(js, i, OBJ_COLON, names, self, base, depth, max)
            == ParseRest(js, i + |mid| + 1, OBJ_VALUE, names, self, base, depth, max)
  {
    hide At;
    SkipPad(js, i, mid);
  }

  lemma ValueStep(js: bytes, i: nat, names: seq<bytes>, self: nat, base: nat, depth: nat, max: int)
    requires SkipSpace(js, i) < |js|
    ensures var v := ParseValue(js, SkipSpace(js, i), self, base, depth, max);
            v.Ok? ==>
              var rest := ParseRest(js, v.end, OBJ_NEXT, names, self, base + |v.toks|, depth, max);
              ParseRest(js, i, OBJ_VALUE, names, self, base, depth, max)
              == if rest.Fail? then Fail else Ok(v.toks + rest.toks, rest.end)
  {
  }

  lemma NextMember(js: bytes, e: nat, names: seq<bytes>, self: nat, base: nat, depth: nat, max: int)
    ensures var j := SkipSpace(js, e);
            j < |js| && (js[j] == 0x7D || js[j] == 0x2C) ==>
              ParseRest(js, e, OBJ_NEXT, names, self, base, depth, max)
              == if js[j] == 0x7D then Ok([], j + 1) else ParseRest(js, j + 1, OBJ_KEY, names, self, base, depth, max)
  {
  }

  // ----- everything parsed is a tree within the limits -----

  lemma {:induction false} ValueSound(js: bytes, i: nat, parent: int, base: nat, depth: nat, max: int)
    returns (v: Value)
    requires ParseValue(js, i, parent, base, depth, max).Ok? && depth <= MAX_DEPTH
    ensures IsValue(v) && At(js, i, ValueText(v)) && (IsPrimitive(v) ==> IsDelimiter(js, i + |ValueText(v)|))
    ensures ObjectsFit(v) && Room(Size(v), Depth(v), base, depth, max)
    decreases |js| - i, 0
  {
    hide At, StringEnd, PrimitiveEnd, ParseRest, IsNumber, NumberText;
    if js[i] == 0x22 {
      var ps := StringSound(js, i + 1);
      QuotedParts(js, i, ps);
      v := Str(ps);
    } else if js[i] == 0x5B {
      v := ArraySound(js, i, base, depth, max);
    } else if js[i] == 0x7B {
      v := ObjectSound(js, i, base, depth, max);
    } else {
      v := PrimitiveSound(js, i);
      PrimitiveDelimited(js, i);
    }
  }

  lemma PrimitiveDelimited(js: bytes, i: nat)
    requires i < |js| && PrimitiveEnd(js, i).Some?
    ensures IsDelimiter(js, PrimitiveEnd(js, i).value)
  {
  }

  lemma EmptySound(js: bytes, i: nat, open: byte, close: byte) returns (pad: bytes)
    requires i < |js| && js[i] == open
    requires var j := SkipSpace(js, i + 1); j < |js| && js[j] == close
    ensures IsPad(pad) && At(js, i, [open] + pad + [close])
  {
    hide At;
    var j := SkipSpace(js, i + 1);
    PadSkipped(js, i + 1);
    pad := js[i + 1..j];
    AtSlice(js, i + 1, j);
    AtOne(js, i, open);
    AtOne(js, j, close);
    AtConcat(js, i, [open], pad);
    AtConcat(js, i, [open] + pad, [close]);
  }

  lemma ArraySound(js: bytes, i: nat, base: nat, depth: nat, max: int) returns (v: Value)
    requires i < |js| && js[i] == 0x5B && base < max && depth < MAX_DEPTH
    requires ParseRest(js, i + 1, ARR_VALUE_OR_END, [], base, base + 1, depth + 1, max).Ok?
    ensures IsValue(v) && !IsPrimitive(v) && At(js, i, ValueText(v))
    ensures ObjectsFit(v) && Room(Size(v), Depth(v), base, depth, max)
    decreases |js| - i - 1, 5
  {
    hide At, ParseInner, ItemsText;
    var j := SkipSpace(js, i + 1);
    if js[j] == 0x5D {
      var pad := EmptySound(js, i, 0x5B, 0x5D);
      v := EmptyArray(pad);
    } else {
      var x := ItemsSound(js, i + 1, ARR_VALUE_OR_END, base, base + 1, depth + 1, max);
      AtOne(js, i, 0x5B);
      AtConcat(js, i, [0x5B], ItemsText(x));
      v := Array(x);
    }
  }

  lemma ObjectSound(js: bytes, i: nat, base: nat, depth: nat, max: int) returns (v: Value)
    requires i < |js| && js[i] == 0x7B && base < max && depth < MAX_DEPTH
    requires ParseRest(js, i + 1, OBJ_KEY_OR_END, [], base, base + 1, depth + 1, max).Ok?
    ensures IsValue(v) && !IsPrimitive(v) && At(js, i, ValueText(v))
    ensures ObjectsFit(v) && Room(Size(v), Depth(v), base, depth, max)
    decreases |js| - i - 1, 5
  {
    hide At, ParseKey, MembersText, Distinct;
    var j := SkipSpace(js, i + 1);
    if js[j] == 0x7D {
      var pad := EmptySound(js, i, 0x7B, 0x7D);
      v := EmptyObject(pad);
    } else {
      NoNames();
      var m := MembersSound(js, i + 1, OBJ_KEY_OR_END, [], base, base + 1, depth + 1, max);
      AtOne(js, i, 0x7B);
      AtConcat(js, i, [0x7B], MembersText(m));
      assert [] + Names(m) == Names(m);
      v := Object(m);
    }
  }

  lemma NoNames()
    ensures Distinct([])
  {
  }

  lemma {:induction false} ItemsSound(js: bytes, i: nat, state: State, self: nat, base: nat, depth: nat, max: int)
    returns (x: Items)
    requires state == ARR_VALUE_OR_END || state == ARR_VALUE
    requires var j := SkipSpace(js, i); j < |js| && js[j] != 0x5D
    requires ParseRest(js, i, state, [], self, base, depth, max).Ok? && depth <= MAX_DEPTH
    ensures AreItems(x) && At(js, i, ItemsText(x)) && ItemsFit(x) && Room(ItemsSize(x), ItemsDepth(x), base, depth, max)
    decreases |js| - i, 3
  {
    hide At, ValueText, ParseValue, ParseRest, ItemsText, Tokens, IsPad;
    var s := SkipSpace(js, i);
    PadSkipped(js, i);
    AtSlice(js, i, s);
    ItemStep(js, i, state, self, base, depth, max);
    var v := ValueSound(js, s, self, base, depth, max);
    ValueComplete(js, s, v, self, base, depth, max);
    var e := s + |ValueText(v)|;
    AtIs(js, s, ValueText(v));
    var stop := SkipSpace(js, e);
    PadSkipped(js, e);
    AtSlice(js, e, stop);
    var next := base + Size(v);
    SeparatorFollows(js, e, self, next, depth, max);
    NextItem(js, e, self, next, depth, max);
    if js[stop] == 0x5D {
      x := LastItem(js[i..s], v, js[e..stop]);
    } else {
      ElementFollows(js, stop + 1, self, next, depth, max);
      var rest := ItemsSound(js, stop + 1, ARR_VALUE, self, next, depth, max);
      x := MoreItems(js[i..s], v, js[e..stop], rest);
    }
    ItemsParts(js, i, x);
  }

  lemma SeparatorFollows(js: bytes, e: nat, self: nat, base: nat, depth: nat, max: int)
    requires ParseRest(js, e, ARR_NEXT, [], self, base, depth, max).Ok?
    ensures var j := SkipSpace(js, e); j < |js| && (js[j] == 0x5D || js[j] == 0x2C)
  {
  }

  lemma ElementFollows(js: bytes, i: nat, self: nat, base: nat, depth: nat, max: int)
    requires ParseRest(js, i, ARR_VALUE, [], self, base, depth, max).Ok?
    ensures var j := SkipSpace(js, i); j < |js| && js[j] != 0x5D
  {
  }

  lemma {:induction false} MembersSound(js: bytes, i: nat, state: State, names: seq<bytes>, self: nat, base: nat,
                                        depth: nat, max: int)
    returns (m: Members)
    requires state == OBJ_KEY_OR_END || state == OBJ_KEY
    requires var j := SkipSpace(js, i); j < |js| && js[j] != 0x7D
    requires ParseRest(js, i, state, names, self, base, depth, max).Ok? && Distinct(names) && depth <= MAX_DEPTH
    ensures AreMembers(m) && At(js, i, MembersText(m)) && MembersFit(m) && ShortKeys(m)
    ensures |names| + |Names(m)| <= MAX_OBJECT_KEYS && Distinct(names + Names(m))
    ensures Room(MembersSize(m), MembersDepth(m), base, depth, max)
    decreases |js| - i, 4
  {
    hide At, ValueText, ParseValue, ParseRest, MembersText, Tokens, IsPad, Name, Distinct, Quoted, ArePieces;
    hide SkipSpace, IsDelimiter;
    var k := SkipSpace(js, i);
    PadSkipped(js, i);
    AtSlice(js, i, k);
    var key := KeySound(js, i, state, names, self, base, depth, max);
    var c, names' := k + |Quoted(key)|, names + [Name(key)];
    AtIs(js, k, Quoted(key));
    var mid, lead, v := MemberValueSound(js, c, names', self, base + 1, depth, max);
    var e := c + |mid| + 1 + |lead| + |ValueText(v)|;
    var after, others := MembersEnd(js, e, names', self, base + 1 + Size(v), depth, max);
    if others.None? {
      m := LastMember(js[i..k], key, mid, lead, v, after);
      assert names + Names(m) == names';
    } else {
      m := MoreMembers(js[i..k], key, mid, lead, v, after, others.value);
      FreshName(names, Name(key), Names(others.value));
    }
    MembersParts(js, i, m);
  }

  /** What follows a member: the end of the object, or a comma and more members. */
  lemma MembersEnd(js: bytes, e: nat, names: seq<bytes>, self: nat, base: nat, depth: nat, max: int)
    returns (after: bytes, others: Option<Members>)
    requires e <= |js| && depth <= MAX_DEPTH && Distinct(names)
    requires ParseRest(js, e, OBJ_NEXT, names, self, base, depth, max).Ok?
    ensures IsPad(after) && At(js, e, after) && ByteAt(js, e + |after|, if others.None? then 0x7D else 0x2C)
    ensures others.Some? ==>
              var m := others.value;
              && AreMembers(m) && At(js, e + |after| + 1, MembersText(m)) && MembersFit(m) && ShortKeys(m)
              && |names| + |Names(m)| <= MAX_OBJECT_KEYS && Distinct(names + Names(m))
              && Room(MembersSize(m), MembersDepth(m), base, depth, max)
    decreases |js| - e, 3
  {
    hide At, ParseRest, MembersText, IsPad, Distinct, Names;
    var stop := SkipSpace(js, e);
    PadSkipped(js, e);
    AtSlice(js, e, stop);
    after := js[e..stop];
    CommaFollows(js, e, names, self, base, depth, max);
    NextMember(js, e, names, self, base, depth, max);
    if js[stop] == 0x7D {
      others := None;
    } else {
      KeyFollows(js, stop + 1, names, self, base, depth, max);
      var m := MembersSound(js, stop + 1, OBJ_KEY, names, self, base, depth, max);
      others := Some(m);
    }
  }

  lemma CommaFollows(js: bytes, e: nat, names: seq<bytes>, self: nat, base: nat, depth: nat, max: int)
    requires ParseRest(js, e, OBJ_NEXT, names, self, base, depth, max).Ok?
    ensures var j := SkipSpace(js, e); j < |js| && (js[j] == 0x7D || js[j] == 0x2C)
  {
  }

  lemma KeyFollows(js: bytes, i: nat, names: seq<bytes>, self: nat, base: nat, depth: nat, max: int)
    requires ParseRest(js, i, OBJ_KEY, names, self, base, depth, max).Ok?
    ensures var j := SkipSpace(js, i); j < |js| && js[j] != 0x7D
  {
  }

  lemma KeySound(js: bytes, i: nat, state: State, names: seq<bytes>, self: nat, base: nat, depth: nat, max: int)
    returns (key: seq<Piece>)
    requires state == OBJ_KEY_OR_END || state == OBJ_KEY
    requires var j := SkipSpace(js, i); j < |js| && js[j] != 0x7D
    requires ParseRest(js, i, state, names, self, base, depth, max).Ok? && Distinct(names)
    ensures ArePieces(key) && At(js, SkipSpace(js, i), Quoted(key)) && |StringText(key)| < MAX_KEY_BYTES
    ensures base < max && |names| < MAX_OBJECT_KEYS && Distinct(names + [Name(key)])
    ensures ParseRest(js, SkipSpace(js, i) + |Quoted(key)|, OBJ_COLON, names + [Name(key)], self, base + 1, depth, max).Ok?
  {
    hide At, Name, RawName, StringEnd;
    var k := SkipSpace(js, i);
    key := StringSound(js, k + 1);
    AtIs(js, k + 1, StringText(key));
    QuotedParts(js, k, key);
    RawNameIsName(key);
  }

  lemma ColonSound(js: bytes, c: nat, names: seq<bytes>, self: nat, base: nat, depth: nat, max: int)
    returns (mid: bytes)
    requires c <= |js| && ParseRest(js, c, OBJ_COLON, names, self, base, depth, max).Ok?
    ensures IsPad(mid) && At(js, c, mid) && ByteAt(js, c + |mid|, 0x3A)
    ensures ParseRest(js, c + |mid| + 1, OBJ_VALUE, names, self, base, depth, max).Ok?
  {
    hide At, IsPad;
    var colon := SkipSpace(js, c);
    PadSkipped(js, c);
    AtSlice(js, c, colon);
    mid := js[c..colon];
  }

  lemma ValueFollows(js: bytes, i: nat, names: seq<bytes>, self: nat, base: nat, depth: nat, max: int)
    requires ParseRest(js, i, OBJ_VALUE, names, self, base, depth, max).Ok?
    ensures var s := SkipSpace(js, i); s < |js| && ParseValue(js, s, self, base, depth, max).Ok?
  {
    hide ParseValue;
  }

  lemma MemberValueSound(js: bytes, c: nat, names: seq<bytes>, self: nat, base: nat, depth: nat, max: int)
    returns (mid: bytes, lead: bytes, v: Value)
    requires c <= |js| && ParseRest(js, c, OBJ_COLON, names, self, base, depth, max).Ok? && depth <= MAX_DEPTH
    ensures IsPad(mid) && At(js, c, mid) && ByteAt(js, c + |mid|, 0x3A) && IsPad(lead) && At(js, c + |mid| + 1, lead)
    ensures IsValue(v) && ObjectsFit(v) && Room(Size(v), Depth(v), base, depth, max)
    ensures var s := c + |mid| + 1 + |lead|;
            At(js, s, ValueText(v)) &&
            ParseRest(js, s + |ValueText(v)|, OBJ_NEXT, names, self, base + Size(v), depth, max).Ok?
    decreases |js| - c, 2
  {
    hide At, ValueText, ParseValue, ParseRest, Tokens, IsPad;
    mid := ColonSound(js, c, names, self, base, depth, max);
    var colon := c + |mid|;
    var s := SkipSpace(js, colon + 1);
    PadSkipped(js, colon + 1);
    AtSlice(js, colon + 1, s);
    lead := js[colon + 1..s];
    ValueFollows(js, colon + 1, names, self, base, depth, max);
    ValueStep(js, colon + 1, names, self, base, depth, max);
    v := ValueSound(js, s, self, base, depth, max);
    ValueComplete(js, s, v, self, base, depth, max);
  }

  // ----- whole texts -----

  /** The texts json_parse accepts, said without a parser. */
  ghost predicate Describes(d: Document, js: bytes, max: int) {
    IsDocument(d) && DocumentText(d) == js && WithinLimits(d.root, max)
  }

  /** The parser accepts a text exactly when it is a document within the limits ... */
  lemma TextSound(js: bytes, max: int) returns (d: Document)
    requires ParseText(js, max).Some?
    ensures Describes(d, js, max)
  {
    hide At, ValueText, ParseValue, IsPad;
    var s := SkipSpace(js, 0);
    PadSkipped(js, 0);
    AtSlice(js, 0, s);
    var v := ValueSound(js, s, -1, 0, 0, max);
    ValueComplete(js, s, v, -1, 0, 0, max);
    var e := s + |ValueText(v)|;
    PadSkipped(js, e);
    AtSlice(js, e, |js|);
    d := Document(js[0..s], v, js[e..|js|]);
    AtConcat(js, 0, d.before, ValueText(v));
    AtConcat(js, 0, d.before + ValueText(v), d.after);
    AtIs(js, 0, DocumentText(d));
    assert js[0..|js|] == js;
  }

  /** ... and then its tokens are those of the document. */
  lemma TextComplete(d: Document, js: bytes, max: int)
    requires Describes(d, js, max)
    ensures ParseText(js, max) == Some(Tokens(d.root, |d.before|, -1, 0))
  {
    hide At, ValueText, ParseValue, IsPad, Tokens;
    var v := d.root;
    AtSlice(js, 0, |js|);
    assert js[0..|js|] == js;
    AtConcat(js, 0, d.before + ValueText(v), d.after);
    AtConcat(js, 0, d.before, ValueText(v));
    var s := |d.before|;
    var e := s + |ValueText(v)|;
    ValueStart(v);
    AtIs(js, s, ValueText(v));
    AtIndex(js, s, ValueText(v), 0);
    SkipPad(js, 0, d.before);
    PadDelimits(js, e, d.after);
    ValueComplete(js, s, v, -1, 0, 0, max);
    SkipPad(js, e, d.after);
  }
}
