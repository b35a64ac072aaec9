/** json_parse as written: a token array and a stack of frames updated in place. */
module JsonEngine {
  import opened Bytes
  import opened JsonGrammar
  import opened JsonMeaning
  import opened JsonScan
  import opened JsonDecode
  import opened JsonParser
  import opened JsonParserProof
  import opened JsonMachine

  // ----- the keys of an object, as duplicate_key finds them in the token array -----

  predicate Sane(js: bytes, toks: seq<Token>) {
    forall k :: 0 <= k < |toks| && toks[k].kind == STR ==> 0 <= toks[k].start <= toks[k].end <= |js|
  }

  function TokenName(js: bytes, t: Token): bytes
    requires 0 <= t.start <= t.end <= |js|
  {
    RawName(js[t.start..t.end])
  }

  /** The names of the string tokens at even positions among the direct children of `parent` from index `from` on. */
  function KeyNames(js: bytes, toks: seq<Token>, parent: int, from: nat, direct: nat): seq<bytes>
    requires Sane(js, toks)
    decreases |toks| - from
  {
    if from >= |toks| then []
    else if toks[from].parent != parent then KeyNames(js, toks, parent, from + 1, direct)
    else
      (if direct % 2 == 0 && toks[from].kind == STR then [TokenName(js, toks[from])] else [])
      + KeyNames(js, toks, parent, from + 1, direct + 1)
  }

  function Direct(toks: seq<Token>, parent: int, from: nat): nat
    decreases |toks| - from
  {
    if from >= |toks| then 0 else (if toks[from].parent == parent then 1 else 0) + Direct(toks, parent, from + 1)
  }

  function Contribution(js: bytes, t: Token, parent: int, direct: nat): seq<bytes>
    requires t.kind == STR ==> 0 <= t.start <= t.end <= |js|
  {
    if t.parent == parent && direct % 2 == 0 && t.kind == STR then [TokenName(js, t)] else []
  }

  lemma {:induction false} DirectAppend(toks: seq<Token>, t: Token, parent: int, from: nat)
    requires from <= |toks|
    ensures Direct(toks + [t], parent, from) == Direct(toks, parent, from) + if t.parent == parent then 1 else 0
    decreases |toks| - from
  {
    if from < |toks| { DirectAppend(toks, t, parent, from + 1); }
  }

  lemma {:induction false} KeyNamesAppend(js: bytes, toks: seq<Token>, t: Token, parent: int, from: nat, direct: nat)
    requires Sane(js, toks) && Sane(js, toks + [t]) && from <= |toks|
    requires t.kind == STR ==> 0 <= t.start <= t.end <= |js|
    ensures KeyNames(js, toks + [t], parent, from, direct)
            == KeyNames(js, toks, parent, from, direct)
               + Contribution(js, t, parent, direct + Direct(toks, parent, from))
    decreases |toks| - from
  {
    hide TokenName, Sane;
    assert from < |toks| ==> (toks + [t])[from] == toks[from];
    if from < |toks| {
      KeyNamesAppend(js, toks, t, parent, from + 1, if toks[from].parent == parent then direct + 1 else direct);
    } else {
      assert KeyNames(js, toks + [t], parent, from + 1, direct) == [];
      assert KeyNames(js, toks + [t], parent, from + 1, direct + 1) == [];
    }
  }

  lemma {:induction false} KeyNamesClosed(js: bytes, toks: seq<Token>, k: nat, end: int, parent: int, from: nat,
                                          direct: nat)
    requires Sane(js, toks) && k < |toks| && toks[k].kind != STR && from <= |toks|
    ensures var toks' := toks[k := toks[k].(end := end)];
            && Sane(js, toks') && KeyNames(js, toks', parent, from, direct) == KeyNames(js, toks, parent, from, direct)
            && Direct(toks', parent, from) == Direct(toks, parent, from)
    decreases |toks| - from
  {
    hide TokenName;
    if from < |toks| {
      KeyNamesClosed(js, toks, k, end, parent, from + 1, direct);
      KeyNamesClosed(js, toks, k, end, parent, from + 1, direct + 1);
    }
  }

  // ----- open frames -----

  predicate AwaitsValue(s: State) { s == OBJ_COLON || s == OBJ_VALUE }
  predicate InArray(s: State) { s == ARR_VALUE_OR_END || s == ARR_VALUE || s == ARR_NEXT }

  /**
   What a frame remembers about its tokens.  `owed` says that its next value is about to be scanned although its
   state has already moved on.
   */
  ghost predicate FrameOk(js: bytes, toks: seq<Token>, f: Frame, seen: seq<bytes>, owed: bool)
    requires Sane(js, toks)
  {
    && f.token < |toks| && toks[f.token].kind == f.kind && (f.kind == OBJ || f.kind == ARR)
    && (f.kind == ARR <==> InArray(f.state))
    && (f.kind == ARR ==> seen == [])
    && (f.kind == OBJ ==>
          && f.members == |seen| && KeyNames(js, toks, f.token, f.token + 1, 0) == seen
          && Direct(toks, f.token, f.token + 1) == 2 * |seen| - if AwaitsValue(f.state) || owed then 1 else 0)
  }

  predicate Nested(stack: seq<Frame>) {
    forall a, b :: 0 <= a < b < |stack| ==> stack[a].token < stack[b].token
  }

  ghost predicate FramesOk(js: bytes, toks: seq<Token>, stack: seq<Frame>, names: seq<seq<bytes>>, owed: bool) {
    && |names| == |stack| && Sane(js, toks) && Nested(stack)
    && forall k :: 0 <= k < |stack| ==> FrameOk(js, toks, stack[k], names[k], owed && k == |stack| - 1)
  }

  /** A token that does not belong to a frame leaves it as it is. */
  lemma OtherToken(js: bytes, toks: seq<Token>, t: Token, f: Frame, seen: seq<bytes>)
    requires Sane(js, toks) && FrameOk(js, toks, f, seen, false) && t.parent != f.token
    requires Sane(js, toks + [t]) && (t.kind == STR ==> 0 <= t.start <= t.end <= |js|)
    ensures FrameOk(js, toks + [t], f, seen, false)
  {
    hide KeyNames, Direct;
    if f.kind == OBJ {
      KeyNamesAppend(js, toks, t, f.token, f.token + 1, 0);
      DirectAppend(toks, t, f.token, f.token + 1);
    }
  }

  /** The value a frame owes. */
  lemma OwedToken(js: bytes, toks: seq<Token>, t: Token, f: Frame, seen: seq<bytes>)
    requires Sane(js, toks) && FrameOk(js, toks, f, seen, true) && t.parent == f.token && !AwaitsValue(f.state)
    requires Sane(js, toks + [t]) && (t.kind == STR ==> 0 <= t.start <= t.end <= |js|)
    ensures FrameOk(js, toks + [t], f, seen, false)
  {
    hide KeyNames, Direct;
    if f.kind == OBJ {
      KeyNamesAppend(js, toks, t, f.token, f.token + 1, 0);
      DirectAppend(toks, t, f.token, f.token + 1);
    }
  }

  /** A new key of an object. */
  lemma KeyToken(js: bytes, toks: seq<Token>, t: Token, f: Frame, seen: seq<bytes>)
    requires Sane(js, toks) && FrameOk(js, toks, f, seen, false) && t.parent == f.token
    requires f.state == OBJ_KEY_OR_END || f.state == OBJ_KEY
    requires Sane(js, toks + [t]) && t.kind == STR && 0 <= t.start <= t.end <= |js|
    ensures FrameOk(js, toks + [t], f.(state := OBJ_COLON, members := f.members + 1), seen + [TokenName(js, t)], false)
  {
    hide KeyNames, Direct;
    KeyNamesAppend(js, toks, t, f.token, f.token + 1, 0);
    DirectAppend(toks, t, f.token, f.token + 1);
  }

  lemma SaneAppend(js: bytes, toks: seq<Token>, t: Token)
    requires Sane(js, toks) && (t.kind == STR ==> 0 <= t.start <= t.end <= |js|)
    ensures Sane(js, toks + [t])
  {
  }

  /** The token of a value for the top frame. */
  lemma ValueToken(js: bytes, toks: seq<Token>, t: Token, stack: seq<Frame>, names: seq<seq<bytes>>)
    requires FramesOk(js, toks, stack, names, true) && (t.kind == STR ==> 0 <= t.start <= t.end <= |js|)
    requires stack != [] ==> var f := stack[|stack| - 1]; t.parent == f.token && !AwaitsValue(f.state)
    ensures FramesOk(js, toks + [t], stack, names, false)
  {
    hide FrameOk, Sane;
    SaneAppend(js, toks, t);
    var n := |stack| - 1;
    forall k | 0 <= k < |stack| ensures FrameOk(js, toks + [t], stack[k], names[k], false) {
      if k == n {
        OwedToken(js, toks, t, stack[k], names[k]);
      } else {
        assert stack[k].token < stack[n].token;
        OtherToken(js, toks, t, stack[k], names[k]);
      }
    }
  }

  /** The token of an array or object, and its new frame. */
  lemma PushedFrame(js: bytes, toks: seq<Token>, t: Token, stack: seq<Frame>, names: seq<seq<bytes>>)
    requires FramesOk(js, toks, stack, names, true) && (t.kind == OBJ || t.kind == ARR)
    requires stack != [] ==> var f := stack[|stack| - 1]; t.parent == f.token && !AwaitsValue(f.state)
    ensures var f := Frame(|toks|, t.kind, Opened(t.kind), 0);
            FramesOk(js, toks + [t], stack + [f], names + [[]], false)
  {
    var f := Frame(|toks|, t.kind, Opened(t.kind), 0);
    ValueToken(js, toks, t, stack, names);
    var toks', stack', names' := toks + [t], stack + [f], names + [[]];
    assert FrameOk(js, toks', f, [], false);
    forall k | 0 <= k < |stack'| ensures FrameOk(js, toks', stack'[k], names'[k], false) {
      if k < |stack| { assert FrameOk(js, toks', stack[k], names[k], false); }
    }
  }

  /** Closing the top frame. */
  lemma PoppedFrame(js: bytes, toks: seq<Token>, stack: seq<Frame>, names: seq<seq<bytes>>, end: nat)
    requires FramesOk(js, toks, stack, names, false) && stack != []
    ensures var n := |stack| - 1;
            var k := stack[n].token;
            k < |toks| && FramesOk(js, toks[k := toks[k].(end := end)], stack[..n], names[..n], false)
  {
    hide KeyNames, Direct;
    var n := |stack| - 1;
    assert FrameOk(js, toks, stack[n], names[n], false);
    var k := stack[n].token;
    var toks' := toks[k := toks[k].(end := end)];
    forall m | 0 <= m < n ensures Sane(js, toks') && FrameOk(js, toks', stack[m], names[m], false) {
      assert FrameOk(js, toks, stack[m], names[m], false);
      KeyNamesClosed(js, toks, k, end, stack[m].token, stack[m].token + 1, 0);
    }
  }

  /** The top frame changes, and perhaps one of its own tokens is added. */
  lemma ChangedTop(js: bytes, toks: seq<Token>, new': seq<Token>, stack: seq<Frame>, names: seq<seq<bytes>>, f: Frame,
                   seen: seq<bytes>, owed: bool)
    requires FramesOk(js, toks, stack, names, false) && stack != [] && f.token == stack[|stack| - 1].token
    requires |new'| <= 1 && Sane(js, toks + new') && FrameOk(js, toks + new', f, seen, owed)
    requires |new'| == 1 ==> new'[0].parent == f.token
    ensures FramesOk(js, toks + new', stack[|stack| - 1 := f], names[|stack| - 1 := seen], owed)
  {
    hide FrameOk;
    var n := |stack| - 1;
    forall k | 0 <= k < n ensures FrameOk(js, toks + new', stack[k], names[k], false) {
      assert FrameOk(js, toks, stack[k], names[k], false);
      if |new'| == 1 {
        assert stack[k].token < stack[n].token && new' == [new'[0]] && (toks + new')[|toks|] == new'[0];
        OtherToken(js, toks, new'[0], stack[k], names[k]);
      } else {
        assert toks + new' == toks;
      }
    }
  }

  lemma FramesPlaced(js: bytes, toks: seq<Token>, stack: seq<Frame>, names: seq<seq<bytes>>, owed: bool)
    requires FramesOk(js, toks, stack, names, owed)
    ensures Placed(stack, |toks|)
  {
    forall k | 0 <= k < |stack| ensures stack[k].token < |toks| {
      assert FrameOk(js, toks, stack[k], names[k], owed && k == |stack| - 1);
    }
  }

  /** duplicate_key: is the name of the last token among the keys before it? */
  method DuplicateKey(js: bytes, toks: seq<Token>, parent: nat, key: nat) returns (dup: bool)
    requires Sane(js, toks) && parent < key < |toks| && toks[key].kind == STR
    requires Sane(js, toks[..key])
    ensures dup <==> TokenName(js, toks[key]) in KeyNames(js, toks[..key], parent, parent + 1, 0)
  {
    hide Sane, TokenName;
    SaneAt(js, toks, key);
    var name := TokenName(js, toks[key]);
    ghost var before := toks[..key];
    ghost var all := KeyNames(js, before, parent, parent + 1, 0);
    var direct := 0;
    var prior := parent + 1;
    while prior < key
      invariant parent < prior <= key
      invariant name in all <==> name in KeyNames(js, before, parent, prior, direct)
    {
      assert before[prior] == toks[prior];
      if toks[prior].parent == parent {
        if direct % 2 == 0 && toks[prior].kind == STR {
          SaneAt(js, toks, prior);
          if TokenName(js, toks[prior]) == name { return true; }
        }
        direct := direct + 1;
      }
      prior := prior + 1;
    }
    return false;
  }

  lemma SaneAt(js: bytes, toks: seq<Token>, k: nat)
    requires Sane(js, toks) && k < |toks| && toks[k].kind == STR
    ensures 0 <= toks[k].start <= toks[k].end <= |js|
  {
  }

  lemma SanePrefix(js: bytes, toks: seq<Token>, t: Token)
    requires Sane(js, toks + [t])
    ensures Sane(js, toks) && (toks + [t])[..|toks|] == toks
  {
    assert (toks + [t])[..|toks|] == toks;
    forall k | 0 <= k < |toks| && toks[k].kind == STR ensures 0 <= toks[k].start <= toks[k].end <= |js| {
      assert (toks + [t])[k] == toks[k];
    }
  }

  /** The mutable state of json_parse. */
  class Parser {
    const js: bytes
    const max: int
    var toks: seq<Token>
    var stack: seq<Frame>
    var i: nat
    ghost var names: seq<seq<bytes>>

    constructor (js: bytes, max: int)
      ensures this.js == js && this.max == max && toks == [] && stack == [] && names == [] && i == 0
    {
      this.js, this.max := js, max;
      toks, stack, names, i := [], [], [], 0;
    }

    ghost predicate Valid(owed: bool)
      reads this
    {
      && |names| == |stack| <= MAX_DEPTH && FramesOk(js, toks, stack, names, owed) && Placed(stack, |toks|)
      && i <= |js|
    }

    /** What the run will return from here. */
    ghost function Result(): Option<seq<Token>>
      requires |names| == |stack| && Placed(stack, |toks|)
      reads this
    {
      Goal(js, i, toks, stack, names, max)
    }

    /** What the run will return when a value is scanned right here. */
    ghost function ValueResult(parent: int): Option<seq<Token>>
      requires |names| == |stack| && Placed(stack, |toks|)
      reads this
    {
      ValueGoal(js, i, parent, toks, stack, names, max)
    }

    /** The white space before a step. */
    method SkipWhite()
      requires Valid(false)
      modifies this`i
      ensures Valid(false) && i >= old(i) && (i < |js| ==> !IsSpace(js[i]))
      ensures Result() == old(Result()) && SkipSpace(js, i) == old(SkipSpace(js, i))
    {
      hide FramesOk, Resume;
      while i < |js| && IsSpace(js[i])
        invariant Valid(false) && i >= old(i) && Result() == old(Result()) && SkipSpace(js, i) == old(SkipSpace(js, i))
        decreases |js| - i
      {
        SpaceSkipped(js, i, stack, names, |toks|, max);
        i := i + 1;
      }
    }

    /** token_string: allocate a token, then scan. */
    method TokenString(parent: int) returns (key: Option<nat>)
      requires i < |js|
      modifies this`toks, this`i
      ensures key.Some? <==> |old(toks)| < max && StringEnd(js, old(i) + 1).Some?
      ensures key.Some? ==>
                var e := StringEnd(js, old(i) + 1).value;
                && key == Some(|old(toks)|) && toks == old(toks) + [Token(STR, old(i) + 1, e, parent)] && i == e + 1
    {
      if |toks| >= max { return None; }
      var e := ScanString(js, i + 1);
      if e.None? { return None; }
      key := Some(|toks|);
      toks := toks + [Token(STR, i + 1, e.value, parent)];
      i := e.value + 1;
    }

    /** token_primitive: scan, then allocate. */
    method TokenPrimitive(parent: int) returns (ok: bool)
      requires i < |js|
      modifies this`toks, this`i
      ensures ok <==> PrimitiveEnd(js, old(i)).Some? && |old(toks)| < max
      ensures ok ==>
                var e := PrimitiveEnd(js, old(i)).value;
                toks == old(toks) + [Token(PRIM, old(i), e, parent)] && i == e
    {
      var e := ScanPrimitive(js, i);
      if e.None? || |toks| >= max { return false; }
      toks := toks + [Token(PRIM, i, e.value, parent)];
      i := e.value;
      return true;
    }

    /** scan_value. */
    method ScanValue(parent: int) returns (ok: bool)
      requires Valid(true) && i < |js|
      requires if stack == [] then parent == -1
               else var f := stack[|stack| - 1]; parent == f.token && !AwaitsValue(f.state)
      modifies this
      ensures ok ==> Valid(false) && i > old(i) && Result() == old(ValueResult(parent))
      ensures !ok ==> old(ValueResult(parent)).None?
    {
      hide FramesOk, ParseRest, Resume, StringEnd, PrimitiveEnd, Finish;
      var c := js[i];
      if c == 0x22 {
        var t := TokenString(parent);
        ok := t.Some?;
        if ok {
          ghost var tok := toks[|old(toks)|];
          LeafStep(js, old(i), tok, i, old(toks), stack, names, max);
          ValueToken(js, old(toks), tok, stack, names);
          FramesPlaced(js, toks, stack, names, false);
        }
      } else if c == 0x7B || c == 0x5B {
        if |stack| >= MAX_DEPTH || |toks| >= max { return false; }
        var kind := if c == 0x7B then OBJ else ARR;
        PushStep(js, i, parent, toks, stack, names, max);
        PushedFrame(js, toks, Token(kind, i, -1, parent), stack, names);
        stack := stack + [Frame(|toks|, kind, Opened(kind), 0)];
        toks := toks + [Token(kind, i, -1, parent)];
        names := names + [[]];
        i := i + 1;
        ok := true;
      } else {
        ok := TokenPrimitive(parent);
        if ok {
          ghost var tok := toks[|old(toks)|];
          LeafStep(js, old(i), tok, i, old(toks), stack, names, max);
          ValueToken(js, old(toks), tok, stack, names);
          FramesPlaced(js, toks, stack, names, false);
        }
      }
    }

    /** close_container. */
    method CloseContainer()
      requires Valid(false) && stack != [] && i < |js|
      requires var f := stack[|stack| - 1];
               ParseRest(js, i, f.state, names[|stack| - 1], f.token, |toks|, |stack|, max) == Ok([], i + 1)
      modifies this
      ensures Valid(false) && i == old(i) + 1 && Result() == old(Result())
    {
      hide FramesOk, ParseRest, Resume, Finish;
      var n := |stack| - 1;
      var k := stack[n].token;
      PopStep(js, i, i + 1, toks, stack, names, max);
      PoppedFrame(js, toks, stack, names, i + 1);
      i := i + 1;
      toks := toks[k := toks[k].(end := i)];
      stack := stack[..n];
      names := names[..n];
      FramesPlaced(js, toks, stack, names, false);
    }

    /** scan_object_key. */
    method ScanObjectKey() returns (ok: bool)
      requires Valid(false) && stack != [] && i < |js| && !IsSpace(js[i])
      requires var f := stack[|stack| - 1]; f.state == OBJ_KEY_OR_END || f.state == OBJ_KEY
      modifies this
      ensures ok ==> Valid(false) && i > old(i) && Result() == old(Result())
      ensures !ok ==> old(Result()).None?
    {
      hide FramesOk, Resume, Finish, StringEnd, RawName, KeyNames, Direct, IsSpace;
      var n := |stack| - 1;
      var f := stack[n];
      TopFrame(js, toks, stack, names);
      if js[i] == 0x7D {
        if f.state == OBJ_KEY { StuckTop(js, i, toks, stack, names, max); return false; }
        CloseContainer();
        return true;
      }
      if js[i] != 0x22 { StuckTop(js, i, toks, stack, names, max); return false; }
      ghost var before, start, seen := toks, i, names[n];
      var key := TokenString(f.token);
      if key.None? || f.members >= MAX_OBJECT_KEYS || toks[key.value].end - toks[key.value].start >= MAX_KEY_BYTES {
        StuckTop(js, start, before, stack, names, max);
        return false;
      }
      ghost var t := toks[key.value];
      SaneAppend(js, before, t);
      SanePrefix(js, before, t);
      var dup := DuplicateKey(js, toks, f.token, key.value);
      if dup { StuckTop(js, start, before, stack, names, max); return false; }
      KeyToken(js, before, t, f, seen);
      f := f.(state := OBJ_COLON, members := f.members + 1);
      TopStep(js, start, i, before, [t], stack, names, f, seen + [TokenName(js, t)], max);
      ChangedTop(js, before, [t], stack, names, f, seen + [TokenName(js, t)], false);
      stack := stack[n := f];
      names := names[n := seen + [TokenName(js, t)]];
      ok := true;
    }

    /** The top frame moves on to state `next` without a token. */
    method Advance(next: State)
      requires Valid(false) && stack != [] && i < |js|
      requires var f := stack[|stack| - 1];
               && !InArray(f.state) == !InArray(next) && (AwaitsValue(f.state) <==> AwaitsValue(next))
               && ParseRest(js, i, f.state, names[|stack| - 1], f.token, |toks|, |stack|, max)
                  == ParseRest(js, i + 1, next, names[|stack| - 1], f.token, |toks|, |stack|, max)
      modifies this
      ensures Valid(false) && i == old(i) + 1 && Result() == old(Result())
    {
      hide FramesOk, Resume, Finish, ParseRest, KeyNames, Direct;
      var n := |stack| - 1;
      var f := stack[n].(state := next);
      TopFrame(js, toks, stack, names);
      assert toks + [] == toks && names[n := names[n]] == names;
      Nothing(ParseRest(js, i + 1, next, names[n], f.token, |toks|, |stack|, max));
      TopStep(js, i, i + 1, toks, [], stack, names, f, names[n], max);
      ChangedTop(js, toks, [], stack, names, f, names[n], false);
      stack := stack[n := f];
      i := i + 1;
    }

    /** The top frame hands over to scan_value and moves on to state `next`. */
    method Enter(next: State) returns (ok: bool)
      requires Valid(false) && stack != [] && i < |js|
      requires var f := stack[|stack| - 1];
               && (if next == ARR_NEXT then InArray(f.state) else next == OBJ_NEXT && f.state == OBJ_VALUE)
               && ParseRest(js, i, f.state, names[|stack| - 1], f.token, |toks|, |stack|, max)
                  == ParseInner(js, i, next, names[|stack| - 1], f.token, |toks|, |stack|, max)
      modifies this
      ensures ok ==> Valid(false) && i > old(i) && Result() == old(Result())
      ensures !ok ==> old(Result()).None?
    {
      hide FramesOk, Resume, Finish, ParseRest, KeyNames, Direct, ParseInner;
      var n := |stack| - 1;
      var f := stack[n].(state := next);
      TopFrame(js, toks, stack, names);
      InnerStep(js, i, next, toks, stack, names, max);
      assert toks + [] == toks && names[n := names[n]] == names;
      ChangedTop(js, toks, [], stack, names, f, names[n], true);
      stack := stack[n := f];
      ok := ScanValue(f.token);
    }

    /** scan_array_element. */
    method ScanArrayElement() returns (ok: bool)
      requires Valid(false) && stack != [] && i < |js| && !IsSpace(js[i])
      requires var f := stack[|stack| - 1]; f.state == ARR_VALUE_OR_END || f.state == ARR_VALUE
      modifies this
      ensures ok ==> Valid(false) && i > old(i) && Result() == old(Result())
      ensures !ok ==> old(Result()).None?
    {
      hide FramesOk, Resume, Finish, ParseInner;
      if js[i] == 0x5D {
        if stack[|stack| - 1].state == ARR_VALUE { StuckTop(js, i, toks, stack, names, max); return false; }
        CloseContainer();
        return true;
      }
      ok := Enter(ARR_NEXT);
    }

    /** scan_separator. */
    method ScanSeparator(closer: byte, next: State) returns (ok: bool)
      requires Valid(false) && stack != [] && i < |js| && !IsSpace(js[i])
      requires var f := stack[|stack| - 1];
               if f.state == OBJ_NEXT then closer == 0x7D && next == OBJ_KEY
               else f.state == ARR_NEXT && closer == 0x5D && next == ARR_VALUE
      modifies this
      ensures ok ==> Valid(false) && i > old(i) && Result() == old(Result())
      ensures !ok ==> old(Result()).None?
    {
      hide FramesOk, Resume, Finish, ParseInner, ParseKey;
      if js[i] == 0x2C {
        Advance(next);
        return true;
      }
      if js[i] != closer { StuckTop(js, i, toks, stack, names, max); return false; }
      CloseContainer();
      return true;
    }

    /** scan_frame. */
    method ScanFrame() returns (ok: bool)
      requires Valid(false) && stack != [] && i < |js| && !IsSpace(js[i])
      modifies this
      ensures ok ==> Valid(false) && i > old(i) && Result() == old(Result())
      ensures !ok ==> old(Result()).None?
    {
      hide FramesOk, Resume, Finish, ParseInner, ParseKey;
      match stack[|stack| - 1].state
      case OBJ_KEY_OR_END => ok := ScanObjectKey();
      case OBJ_KEY => ok := ScanObjectKey();
      case OBJ_COLON =>
        if js[i] != 0x3A { StuckTop(js, i, toks, stack, names, max); return false; }
        Advance(OBJ_VALUE);
        ok := true;
      case OBJ_VALUE => ok := Enter(OBJ_NEXT);
      case OBJ_NEXT => ok := ScanSeparator(0x7D, OBJ_KEY);
      case ARR_VALUE_OR_END => ok := ScanArrayElement();
      case ARR_VALUE => ok := ScanArrayElement();
      case ARR_NEXT => ok := ScanSeparator(0x5D, ARR_VALUE);
    }
  }

  lemma Nothing(p: Parse)
    ensures p == if p.Fail? then Fail else Ok([] + p.toks, p.end)
  {
    if p.Ok? { assert [] + p.toks == p.toks; }
  }
  /** What Valid says about the top frame. */
  lemma TopFrame(js: bytes, toks: seq<Token>, stack: seq<Frame>, names: seq<seq<bytes>>)
    requires FramesOk(js, toks, stack, names, false) && stack != []
    ensures Sane(js, toks) && FrameOk(js, toks, stack[|stack| - 1], names[|stack| - 1], false)
  {
  }

  /** When the top frame cannot be finished, the run fails. */
  lemma StuckTop(js: bytes, i: nat, toks: seq<Token>, stack: seq<Frame>, names: seq<seq<bytes>>, max: int)
    requires |names| == |stack| && Placed(stack, |toks|) && stack != []
    requires var n := |stack| - 1;
             ParseRest(js, i, stack[n].state, names[n], stack[n].token, |toks|, |stack|, max).Fail?
    ensures Goal(js, i, toks, stack, names, max) == None
  {
  }

  lemma SpaceSkipped(js: bytes, i: nat, stack: seq<Frame>, names: seq<seq<bytes>>, base: nat, max: int)
    requires |names| == |stack| && i < |js| && IsSpace(js[i])
    ensures Resume(js, i, stack, names, base, max) == Resume(js, i + 1, stack, names, base, max)
    ensures SkipSpace(js, i) == SkipSpace(js, i + 1)
  {
    hide ParseValue, ParseInner, ParseKey;
    if stack != [] {
      var f := stack[|stack| - 1];
      SpaceBefore(js, i, f.state, names[|stack| - 1], f.token, base, |stack|, max);
    }
  }

  lemma SpaceBefore(js: bytes, i: nat, state: State, names: seq<bytes>, self: nat, base: nat, depth: nat, max: int)
    requires i < |js| && IsSpace(js[i])
    ensures ParseRest(js, i, state, names, self, base, depth, max)
            == ParseRest(js, i + 1, state, names, self, base, depth, max)
  {
    hide ParseValue, ParseInner, ParseKey;
  }

  /** A text that ends inside a container is no document. */
  lemma Unfinished(js: bytes, i: nat, toks: seq<Token>, stack: seq<Frame>, names: seq<seq<bytes>>, max: int)
    requires |names| == |stack| && Placed(stack, |toks|) && i >= |js|
    ensures Goal(js, i, toks, stack, names, max) == if stack == [] then Some(toks) else None
  {
    if stack == [] { assert toks + [] == toks; }
  }

  lemma NoFrames(js: bytes, owed: bool)
    ensures FramesOk(js, [], [], [], owed) && Placed([], 0)
  {
  }

  /** A text is white space, a value scanned with no open frame, and white space. */
  lemma TextGoal(js: bytes, i: nat, max: int)
    requires i == SkipSpace(js, 0)
    ensures ValueGoal(js, i, -1, [], [], [], max) == ParseText(js, max)
  {
    var v := ParseValue(js, i, -1, 0, 0, max);
    if v.Ok? { assert [] + (v.toks + []) == v.toks; }
  }

  /** The loop of json_parse is the recursive parser. */
  method Run(js: bytes, max: int) returns (r: Option<seq<Token>>)
    ensures r == ParseText(js, max)
  {
    hide FramesOk, Resume, Finish, ParseValue, ParseRest;
    var p := new Parser(js, max);
    var seen, done := false, false;
    NoFrames(js, false);
    while p.i < |js|
      invariant p.js == js && p.max == max && p.Valid(false)
      invariant !seen ==> p.toks == [] && p.stack == [] && p.names == [] && SkipSpace(js, p.i) == SkipSpace(js, 0)
      invariant seen ==> p.Result() == ParseText(js, max)
      invariant done <==> seen && p.stack == []
      decreases |js| - p.i
    {
      p.SkipWhite();
      if p.i >= |js| { break; }
      if p.stack == [] {
        if seen || done {
          Trailing(js, p.i, p.toks, p.names, max);
          return None;
        }
        seen := true;
        NoFrames(js, true);
        TextGoal(js, p.i, max);
        var ok := p.ScanValue(-1);
        if !ok { return None; }
        if p.stack == [] { done := true; }
        continue;
      }
      var ok := p.ScanFrame();
      if !ok { return None; }
      if p.stack == [] { done := true; }
    }
    Unfinished(js, p.i, p.toks, p.stack, p.names, max);
    if !seen { Blank(js, p.i, max); }
    r := if seen && done && p.stack == [] then Some(p.toks) else None;
  }

  lemma Trailing(js: bytes, i: nat, toks: seq<Token>, names: seq<seq<bytes>>, max: int)
    requires names == [] && i < |js| && !IsSpace(js[i])
    ensures Goal(js, i, toks, [], names, max) == None
  {
  }

  lemma Blank(js: bytes, i: nat, max: int)
    requires i >= |js| && SkipSpace(js, i) == SkipSpace(js, 0)
    ensures ParseText(js, max) == None
  {
  }

  /**
   json_parse.  The count is positive exactly for the documents of RFC 8259 within the limits of the parser, and the
   tokens are then the preorder of the document's tree.
   */
  method JsonParse(js: bytes, max: int) returns (r: int, toks: seq<Token>)
    ensures r > 0 <==> |js| <= INT_MAX && exists d :: Describes(d, js, max)
    ensures r > 0 ==> r == |toks| && forall d :: Describes(d, js, max) ==> toks == Tokens(d.root, |d.before|, -1, 0)
    ensures r <= 0 ==> r == -1
  {
    hide WithinLimits, IsDocument, ParseText;
    forall d | Describes(d, js, max) ensures ParseText(js, max) == Some(Tokens(d.root, |d.before|, -1, 0)) {
      TextComplete(d, js, max);
    }
    r, toks := -1, [];
    if max <= 0 || |js| == 0 || |js| > INT_MAX {
      if |js| <= INT_MAX { Refused(js, max); }
      return;
    }
    var t := Run(js, max);
    if t.Some? {
      var d := TextSound(js, max);
      r, toks := |t.value|, t.value;
    }
  }

  lemma Refused(js: bytes, max: int)
    requires max <= 0 || |js| == 0
    ensures ParseText(js, max) == None
  {
  }
}
