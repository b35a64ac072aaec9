/** json_parse: one loop over an explicit stack of frames, and the proof that it is the recursive parser. */
module JsonMachine {
  import opened Bytes
  import opened JsonGrammar
  import opened JsonMeaning
  import opened JsonScan
  import opened JsonDecode
  import opened JsonParser
  import opened JsonParserProof

  const INT_MAX := 0x7FFF_FFFF

  datatype Frame = Frame(token: nat, kind: Kind, state: State, members: nat)

  // ----- what the open frames still expect -----

  datatype Outcome = Reject | Accept(ends: seq<nat>, more: seq<Token>)

  /**
   What the recursive parser would make of the rest of the text: it finishes each open frame from the innermost
   outwards, then white space.  `ends` are the closing positions of the frames, `more` the tokens still to come.
   */
  function Resume(js: bytes, i: nat, stack: seq<Frame>, names: seq<seq<bytes>>, base: nat, max: int): (o: Outcome)
    requires |names| == |stack|
    ensures o.Accept? ==> |o.ends| == |stack|
    decreases |stack|
  {
    if stack == [] then
      if SkipSpace(js, i) >= |js| then Accept([], []) else Reject
    else
      var n := |stack| - 1;
      var r := ParseRest(js, i, stack[n].state, names[n], stack[n].token, base, |stack|, max);
      if r.Fail? then Reject
      else
        var o := Resume(js, r.end, stack[..n], names[..n], base + |r.toks|, max);
        if o.Reject? then Reject else Accept(o.ends + [r.end], r.toks + o.more)
  }

  predicate Placed(stack: seq<Frame>, n: nat) { forall k :: 0 <= k < |stack| ==> stack[k].token < n }

  /** The tokens once every open frame is closed at its position. */
  function Closed(toks: seq<Token>, stack: seq<Frame>, ends: seq<nat>): (t: seq<Token>)
    requires |ends| == |stack| && Placed(stack, |toks|)
    ensures |t| == |toks|
    decreases |stack|
  {
    if stack == [] then toks
    else
      var n := |stack| - 1;
      var k := stack[n].token;
      Closed(toks[k := toks[k].(end := ends[n])], stack[..n], ends[..n])
  }

  function Finish(toks: seq<Token>, stack: seq<Frame>, o: Outcome): Option<seq<Token>>
    requires Placed(stack, |toks|) && (o.Accept? ==> |o.ends| == |stack|)
  {
    if o.Reject? then None else Some(Closed(toks, stack, o.ends) + o.more)
  }

  /** The outcome of a run from this state. */
  function Goal(js: bytes, i: nat, toks: seq<Token>, stack: seq<Frame>, names: seq<seq<bytes>>, max: int)
    : Option<seq<Token>>
    requires |names| == |stack| && Placed(stack, |toks|)
  {
    Finish(toks, stack, Resume(js, i, stack, names, |toks|, max))
  }

  /** The outcome when a value for the top frame is expected right at i. */
  function ValueGoal(js: bytes, i: nat, parent: int, toks: seq<Token>, stack: seq<Frame>, names: seq<seq<bytes>>,
                     max: int)
    : Option<seq<Token>>
    requires |names| == |stack| && Placed(stack, |toks|)
  {
    var v := ParseValue(js, i, parent, |toks|, |stack|, max);
    if v.Fail? then None else Finish(toks, stack, Before(v.toks, Resume(js, v.end, stack, names, |toks| + |v.toks|, max)))
  }

  function Before(toks: seq<Token>, o: Outcome): (r: Outcome)
    ensures r.Accept? <==> o.Accept?
    ensures r.Accept? ==> r.ends == o.ends && r.more == toks + o.more
  {
    if o.Reject? then Reject else Accept(o.ends, toks + o.more)
  }

  // ----- steps of the machine keep the goal -----

  lemma {:induction false} ClosedAppend(toks: seq<Token>, t: Token, stack: seq<Frame>, ends: seq<nat>)
    requires |ends| == |stack| && Placed(stack, |toks|)
    ensures Closed(toks + [t], stack, ends) == Closed(toks, stack, ends) + [t]
    decreases |stack|
  {
    if stack != [] {
      var n := |stack| - 1;
      var k := stack[n].token;
      var t' := toks[k].(end := ends[n]);
      assert (toks + [t])[k := t'] == toks[k := t'] + [t];
      ClosedAppend(toks[k := t'], t, stack[..n], ends[..n]);
    }
  }

  /** A token scanned now is a token that was still to come. */
  lemma FinishAppend(toks: seq<Token>, t: Token, stack: seq<Frame>, o: Outcome)
    requires Placed(stack, |toks|) && (o.Accept? ==> |o.ends| == |stack|)
    ensures Finish(toks, stack, Before([t], o)) == Finish(toks + [t], stack, o)
  {
    if o.Accept? {
      ClosedAppend(toks, t, stack, o.ends);
      var c := Closed(toks, stack, o.ends);
      assert c + ([t] + o.more) == c + [t] + o.more;
    }
  }

  /** Scanning a string or a primitive. */
  lemma LeafStep(js: bytes, i: nat, t: Token, end: nat, toks: seq<Token>, stack: seq<Frame>, names: seq<seq<bytes>>,
                 max: int)
    requires |names| == |stack| && Placed(stack, |toks|)
    requires ParseValue(js, i, t.parent, |toks|, |stack|, max) == Ok([t], end)
    ensures ValueGoal(js, i, t.parent, toks, stack, names, max) == Goal(js, end, toks + [t], stack, names, max)
  {
    hide ParseValue, Resume, Finish;
    FinishAppend(toks, t, stack, Resume(js, end, stack, names, |toks| + 1, max));
  }

  /** Opening a container: push a frame. */
  lemma PushStep(js: bytes, i: nat, parent: int, toks: seq<Token>, stack: seq<Frame>, names: seq<seq<bytes>>, max: int)
    requires |names| == |stack| < MAX_DEPTH && Placed(stack, |toks|) && |toks| < max
    requires ByteAt(js, i, 0x5B) || ByteAt(js, i, 0x7B)
    ensures var kind := if js[i] == 0x7B then OBJ else ARR;
            var f := Frame(|toks|, kind, Opened(kind), 0);
            Placed(stack + [f], |toks| + 1) &&
            ValueGoal(js, i, parent, toks, stack, names, max)
            == Goal(js, i + 1, toks + [Token(kind, i, -1, parent)], stack + [f], names + [[]], max)
  {
    hide ParseValue, ParseRest;
    var kind := if js[i] == 0x7B then OBJ else ARR;
    var f := Frame(|toks|, kind, Opened(kind), 0);
    var open := Token(kind, i, -1, parent);
    var stack', names' := stack + [f], names + [[]];
    OpenStep(js, i, parent, |toks|, |stack|, max);
    assert stack'[..|stack|] == stack && names'[..|stack|] == names;
    var r := ParseRest(js, i + 1, Opened(kind), [], |toks|, |toks| + 1, |stack| + 1, max);
    if r.Ok? {
      var shut := open.(end := r.end);
      var o := Resume(js, r.end, stack, names, |toks| + 1 + |r.toks|, max);
      if o.Accept? {
        assert (o.ends + [r.end])[..|stack|] == o.ends;
        assert (toks + [open])[|toks| := shut] == toks + [shut];
        ClosedAppend(toks, shut, stack, o.ends);
        var c := Closed(toks, stack, o.ends);
        assert c + ([shut] + r.toks + o.more) == c + [shut] + (r.toks + o.more);
      }
    }
  }

  /** Closing the top frame at its closing bracket: pop it. */
  lemma PopStep(js: bytes, i: nat, end: nat, toks: seq<Token>, stack: seq<Frame>, names: seq<seq<bytes>>, max: int)
    requires |names| == |stack| && Placed(stack, |toks|) && stack != []
    requires var n := |stack| - 1;
             ParseRest(js, i, stack[n].state, names[n], stack[n].token, |toks|, |stack|, max) == Ok([], end)
    ensures var n := |stack| - 1;
            var k := stack[n].token;
            var toks' := toks[k := toks[k].(end := end)];
            Goal(js, i, toks, stack, names, max) == Goal(js, end, toks', stack[..n], names[..n], max)
  {
    hide ParseRest;
    var n := |stack| - 1;
    var o := Resume(js, end, stack[..n], names[..n], |toks|, max);
    if o.Accept? {
      assert (o.ends + [end])[..n] == o.ends;
      assert [] + o.more == o.more;
      assert Resume(js, i, stack, names, |toks|, max) == Accept(o.ends + [end], o.more);
    }
  }

  /** A step that only changes the top frame: its state, the names seen, the position, and perhaps one more token. */
  lemma TopStep(js: bytes, i: nat, j: nat, toks: seq<Token>, new': seq<Token>, stack: seq<Frame>,
                names: seq<seq<bytes>>, f: Frame, seen: seq<bytes>, max: int)
    requires |names| == |stack| && Placed(stack, |toks|) && stack != [] && |new'| <= 1
    requires var n := |stack| - 1;
             var rest := ParseRest(js, j, f.state, seen, f.token, |toks| + |new'|, |stack|, max);
             && f.token == stack[n].token
             && ParseRest(js, i, stack[n].state, names[n], stack[n].token, |toks|, |stack|, max)
                == if rest.Fail? then Fail else Ok(new' + rest.toks, rest.end)
    ensures var n := |stack| - 1;
            Placed(stack[n := f], |toks + new'|) &&
            Goal(js, i, toks, stack, names, max) == Goal(js, j, toks + new', stack[n := f], names[n := seen], max)
  {
    hide ParseRest;
    var n := |stack| - 1;
    var stack', names' := stack[n := f], names[n := seen];
    assert stack'[..n] == stack[..n] && names'[..n] == names[..n];
    var rest := ParseRest(js, j, f.state, seen, f.token, |toks| + |new'|, |stack|, max);
    if rest.Ok? {
      var o := Resume(js, rest.end, stack[..n], names[..n], |toks| + |new'| + |rest.toks|, max);
      if o.Accept? {
        var ends := o.ends + [rest.end];
        assert Resume(js, i, stack, names, |toks|, max) == Accept(ends, new' + rest.toks + o.more);
        assert Resume(js, j, stack', names', |toks + new'|, max) == Accept(ends, rest.toks + o.more);
        ClosedTop(toks, stack, f, ends);
        var c := Closed(toks, stack, ends);
        if |new'| == 1 {
          assert new' == [new'[0]];
          ClosedAppend(toks, new'[0], stack', ends);
        } else {
          assert toks + new' == toks && c + new' == c;
        }
        assert c + (new' + rest.toks + o.more) == c + new' + (rest.toks + o.more);
      }
    }
  }

  /** Closing depends on where the frames' tokens are, not on their states. */
  lemma ClosedTop(toks: seq<Token>, stack: seq<Frame>, f: Frame, ends: seq<nat>)
    requires |ends| == |stack| && Placed(stack, |toks|) && stack != [] && f.token == stack[|stack| - 1].token
    ensures Placed(stack[|stack| - 1 := f], |toks|)
    ensures Closed(toks, stack[|stack| - 1 := f], ends) == Closed(toks, stack, ends)
  {
    var n := |stack| - 1;
    assert stack[n := f][..n] == stack[..n];
  }

  /** A frame that expects a value right here expects it from ScanValue, and goes on in state next. */
  lemma InnerStep(js: bytes, i: nat, next: State, toks: seq<Token>, stack: seq<Frame>, names: seq<seq<bytes>>, max: int)
    requires |names| == |stack| && Placed(stack, |toks|) && stack != [] && i < |js|
    requires var n := |stack| - 1;
             ParseRest(js, i, stack[n].state, names[n], stack[n].token, |toks|, |stack|, max)
             == ParseInner(js, i, next, names[n], stack[n].token, |toks|, |stack|, max)
    ensures var n := |stack| - 1;
            var f := stack[n].(state := next);
            Placed(stack[n := f], |toks|) &&
            Goal(js, i, toks, stack, names, max)
            == ValueGoal(js, i, f.token, toks, stack[n := f], names, max)
  {
    hide ParseRest, ParseValue;
    var n := |stack| - 1;
    var f := stack[n].(state := next);
    var stack' := stack[n := f];
    assert stack'[..n] == stack[..n];
    var v := ParseValue(js, i, f.token, |toks|, |stack|, max);
    if v.Ok? {
      var rest := ParseRest(js, v.end, next, names[n], f.token, |toks| + |v.toks|, |stack|, max);
      if rest.Ok? {
        var o := Resume(js, rest.end, stack[..n], names[..n], |toks| + |v.toks| + |rest.toks|, max);
        if o.Accept? {
          ClosedTop(toks, stack, f, o.ends + [rest.end]);
          assert v.toks + rest.toks + o.more == v.toks + (rest.toks + o.more);
        }
      }
    }
  }
}
