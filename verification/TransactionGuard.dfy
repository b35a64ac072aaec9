/** guard_transaction: which `return` statements of a handler stand inside a $transaction block. */
module TransactionGuard {
  import opened Bytes
  import opened GuardTokens

  const MAX_BLOCKS := 16

  const TRANSACTION: bytes := [0x24, 0x74, 0x72, 0x61, 0x6E, 0x73, 0x61, 0x63, 0x74, 0x69, 0x6F, 0x6E]
  const RETURN: bytes := [0x72, 0x65, 0x74, 0x75, 0x72, 0x6E]

  // ----- what is meant: a stack of open blocks, each transactional or not -----

  datatype Complaint = ReturnInside | TooDeep

  datatype Blocks = Blocks(stack: seq<bool>, armed: bool)

  function Transactional(stack: seq<bool>): nat {
    if stack == [] then 0 else Transactional(stack[..|stack| - 1]) + if stack[|stack| - 1] then 1 else 0
  }

  datatype Result = Result(blocks: Blocks, out: seq<Complaint>)

  /** A block is transactional when $transaction was seen since the last block opened. */
  function Step(b: Blocks, t: Token): Result {
    match t
    case Word(w) =>
      Result(if w == TRANSACTION then b.(armed := true) else b, if w == RETURN && true in b.stack then [ReturnInside] else [])
    case Open =>
      if b.armed && Transactional(b.stack) >= MAX_BLOCKS then Result(Blocks(b.stack + [false], false), [TooDeep])
      else Result(Blocks(b.stack + [b.armed], false), [])
    case Close => Result(if b.stack == [] then b else b.(stack := b.stack[..|b.stack| - 1]), [])
  }

  function Then(out: seq<Complaint>, r: Result): Result { Result(r.blocks, out + r.out) }

  function Steps(b: Blocks, ts: seq<Token>): Result
    decreases |ts|
  {
    if ts == [] then Result(b, []) else Then(Step(b, ts[0]).out, Steps(Step(b, ts[0]).blocks, ts[1..]))
  }

  /** The same without a limit: every armed block is transactional. */
  function FreeStep(b: Blocks, t: Token): Result {
    if t.Open? then Result(Blocks(b.stack + [b.armed], false), []) else Step(b, t)
  }

  function FreeSteps(b: Blocks, ts: seq<Token>): Result
    decreases |ts|
  {
    if ts == [] then Result(b, []) else Then(FreeStep(b, ts[0]).out, FreeSteps(FreeStep(b, ts[0]).blocks, ts[1..]))
  }

  /** More than 16 transactional blocks are open at some point. */
  predicate GoesTooDeep(b: Blocks, ts: seq<Token>)
    decreases |ts|
  {
    Transactional(b.stack) > MAX_BLOCKS || (ts != [] && GoesTooDeep(FreeStep(b, ts[0]).blocks, ts[1..]))
  }

  lemma StepWithin(b: Blocks, t: Token)
    requires Transactional(b.stack) <= MAX_BLOCKS
    ensures TooDeep in Step(b, t).out <==> Transactional(FreeStep(b, t).blocks.stack) > MAX_BLOCKS
    ensures TooDeep !in Step(b, t).out ==> Step(b, t) == FreeStep(b, t)
  {
    assert (b.stack + [b.armed])[..|b.stack|] == b.stack;
  }

  /** The limit is complained about exactly when it is exceeded; until then it makes no difference. */
  lemma {:induction false} WithinLimit(b: Blocks, ts: seq<Token>)
    requires Transactional(b.stack) <= MAX_BLOCKS
    ensures TooDeep in Steps(b, ts).out <==> GoesTooDeep(b, ts)
    ensures !GoesTooDeep(b, ts) ==> Steps(b, ts) == FreeSteps(b, ts)
    decreases |ts|
  {
    hide Step, FreeStep, Transactional;
    if ts != [] {
      StepWithin(b, ts[0]);
      if TooDeep !in Step(b, ts[0]).out {
        WithinLimit(FreeStep(b, ts[0]).blocks, ts[1..]);
      } else {
        DeepAlready(FreeStep(b, ts[0]).blocks, ts[1..]);
      }
    }
  }

  lemma DeepAlready(b: Blocks, ts: seq<Token>)
    requires Transactional(b.stack) > MAX_BLOCKS
    ensures GoesTooDeep(b, ts)
  {
    hide Transactional;
  }

  // ----- what the complaints mean, said of the tokens alone -----

  function Weight(t: Token): int { if t.Open? then 1 else if t.Close? then -1 else 0 }

  /** Opening less closing braces from token i up to token j. */
  function Balance(ts: seq<Token>, i: nat, j: nat): int
    requires j <= |ts|
    decreases j
  {
    if j <= i then 0 else Balance(ts, i, j - 1) + Weight(ts[j - 1])
  }

  /** The brace at i has not been closed before token n. */
  ghost predicate StaysOpen(ts: seq<Token>, i: nat, n: nat) {
    i < n <= |ts| && ts[i].Open? && forall j :: i < j <= n ==> Balance(ts, i, j) >= 1
  }

  /** $transaction stands before token i, with no opening brace in between. */
  ghost predicate ArmedAt(ts: seq<Token>, i: nat) {
    i <= |ts| && exists k :: 0 <= k < i && ts[k] == Word(TRANSACTION) && forall l :: k < l < i ==> !ts[l].Open?
  }

  /** Token n stands inside a block that $transaction opened. */
  ghost predicate InsideTransaction(ts: seq<Token>, n: nat) { exists i :: StaysOpen(ts, i, n) && ArmedAt(ts, i) }

  /** The braces that are open before token n, outermost first. */
  function OpenBraces(ts: seq<Token>, n: nat): (o: seq<nat>)
    requires n <= |ts|
  {
    if n == 0 then []
    else
      var o := OpenBraces(ts, n - 1);
      match ts[n - 1]
      case Word(_) => o
      case Open => o + [n - 1]
      case Close => if o == [] then o else o[..|o| - 1]
  }

  /** The brace at i is open, and d closing braces away from being closed. */
  ghost predicate OpenAt(ts: seq<Token>, i: nat, n: nat, d: int)
    requires n <= |ts|
  {
    StaysOpen(ts, i, n) && Balance(ts, i, n) == d
  }

  ghost predicate AllOpen(ts: seq<Token>, o: seq<nat>, n: nat)
    requires n <= |ts|
  {
    forall k :: 0 <= k < |o| ==> OpenAt(ts, o[k], n, |o| - k)
  }

  /** Each of them is open, and the k-th from the inside is k closing braces away from being closed. */
  lemma {:induction false} OpenBracesBalance(ts: seq<Token>, n: nat)
    requires n <= |ts|
    ensures AllOpen(ts, OpenBraces(ts, n), n)
    decreases n
  {
    hide StaysOpen, Balance;
    if n > 0 {
      OpenBracesBalance(ts, n - 1);
      var before, o := OpenBraces(ts, n - 1), OpenBraces(ts, n);
      forall k | 0 <= k < |o| ensures OpenAt(ts, o[k], n, |o| - k) {
        if k < |before| {
          assert OpenAt(ts, before[k], n - 1, |before| - k);
          Longer(ts, before[k], n);
        } else {
          JustOpened(ts, n);
        }
      }
    }
  }

  lemma JustOpened(ts: seq<Token>, n: nat)
    requires 0 < n <= |ts| && ts[n - 1].Open?
    ensures OpenAt(ts, n - 1, n, 1)
  {
    assert Balance(ts, n - 1, n - 1) == 0;
  }

  lemma Longer(ts: seq<Token>, i: nat, n: nat)
    requires n > 0 && StaysOpen(ts, i, n - 1) && n <= |ts|
    ensures Balance(ts, i, n) == Balance(ts, i, n - 1) + Weight(ts[n - 1])
    ensures Balance(ts, i, n) >= 1 ==> StaysOpen(ts, i, n)
  {
  }

  /** No other brace is open. */
  lemma {:induction false} OpenBracesAll(ts: seq<Token>, n: nat, i: nat)
    requires n <= |ts| && StaysOpen(ts, i, n)
    ensures i in OpenBraces(ts, n)
    decreases n
  {
    var before, o := if n > 0 then OpenBraces(ts, n - 1) else [], OpenBraces(ts, n);
    if i == n - 1 {
      assert o[|before|] == i;
    } else {
      OpenBracesAll(ts, n - 1, i);
      OpenBracesBalance(ts, n - 1);
      var k :| 0 <= k < |before| && before[k] == i;
      assert OpenAt(ts, before[k], n - 1, |before| - k);
      Longer(ts, i, n);
      assert Balance(ts, i, n) >= 1;
      assert o[k] == i;
    }
  }

  lemma {:induction false} FreeAppend(b: Blocks, ts: seq<Token>, t: Token)
    ensures FreeSteps(b, ts + [t]).blocks == FreeStep(FreeSteps(b, ts).blocks, t).blocks
    decreases |ts|
  {
    hide FreeStep;
    if ts == [] {
      assert ts + [t] == [t] && [t][1..] == [];
      assert FreeSteps(FreeStep(b, t).blocks, []) == Result(FreeStep(b, t).blocks, []);
    } else {
      assert (ts + [t])[1..] == ts[1..] + [t];
      FreeAppend(FreeStep(b, ts[0]).blocks, ts[1..], t);
    }
  }

  /** The stack is those braces, each with whether $transaction opened it. */
  lemma {:induction false} StackIsBraces(ts: seq<Token>, n: nat)
    requires n <= |ts|
    ensures var b := FreeSteps(Blocks([], false), ts[..n]).blocks;
            && (b.armed <==> ArmedAt(ts, n)) && |b.stack| == |OpenBraces(ts, n)|
            && forall k :: 0 <= k < |b.stack| ==> (b.stack[k] <==> ArmedAt(ts, OpenBraces(ts, n)[k]))
    decreases n
  {
    if n > 0 {
      StackIsBraces(ts, n - 1);
      var b := FreeSteps(Blocks([], false), ts[..n - 1]).blocks;
      assert ts[..n] == ts[..n - 1] + [ts[n - 1]];
      FreeAppend(Blocks([], false), ts[..n - 1], ts[n - 1]);
      ArmedNext(ts, n);
    }
  }

  lemma ArmedNext(ts: seq<Token>, n: nat)
    requires 0 < n <= |ts|
    ensures ArmedAt(ts, n) <==> ts[n - 1] == Word(TRANSACTION) || (!ts[n - 1].Open? && ArmedAt(ts, n - 1))
  {
    if ArmedAt(ts, n) {
      var k :| 0 <= k < n && ts[k] == Word(TRANSACTION) && forall l :: k < l < n ==> !ts[l].Open?;
    }
    if !ts[n - 1].Open? && ArmedAt(ts, n - 1) {
      var k :| 0 <= k < n - 1 && ts[k] == Word(TRANSACTION) && forall l :: k < l < n - 1 ==> !ts[l].Open?;
      assert forall l :: k < l < n ==> !ts[l].Open?;
    }
  }

  lemma {:induction false} StepsAppend(b: Blocks, ts: seq<Token>, us: seq<Token>)
    ensures Steps(b, ts + us) == Then(Steps(b, ts).out, Steps(Steps(b, ts).blocks, us))
    decreases |ts|
  {
    hide Step;
    if ts == [] {
      assert ts + us == us;
    } else {
      assert (ts + us)[1..] == ts[1..] + us;
      StepsAppend(Step(b, ts[0]).blocks, ts[1..], us);
    }
  }

  /**
   A `return` is complained about exactly when it stands inside a block that $transaction opened and that has not been
   closed, as long as no more than 16 such blocks were open before it.
   */
  lemma ReturnReported(pre: seq<Token>, post: seq<Token>)
    requires !GoesTooDeep(Blocks([], false), pre)
    ensures var start := Blocks([], false);
            Steps(start, pre + [Word(RETURN)] + post).out ==
            Steps(start, pre).out + (if InsideTransaction(pre, |pre|) then [ReturnInside] else [])
            + Steps(Steps(start, pre).blocks, post).out
  {
    hide GoesTooDeep, InsideTransaction, Steps, FreeSteps;
    var start := Blocks([], false);
    WithinLimit(start, pre);
    var b := Steps(start, pre).blocks;
    StackTransactional(pre);
    StepsAppend(start, pre, [Word(RETURN)] + post);
    assert pre + ([Word(RETURN)] + post) == pre + [Word(RETURN)] + post;
    Advance([], b, Word(RETURN), post);
    AtStart(Steps(b, [Word(RETURN)] + post));
    assert [] + Step(b, Word(RETURN)).out == Step(b, Word(RETURN)).out;
    Regroup(Steps(start, pre).out, Step(b, Word(RETURN)).out, Steps(b, post).out);
  }

  lemma Regroup(a: seq<Complaint>, b: seq<Complaint>, c: seq<Complaint>)
    ensures a + (b + c) == a + b + c
  {
  }

  lemma StackTransactional(ts: seq<Token>)
    ensures true in FreeSteps(Blocks([], false), ts).blocks.stack <==> InsideTransaction(ts, |ts|)
  {
    hide FreeSteps, Balance, StaysOpen, ArmedAt, OpenBraces;
    var n, b, o := |ts|, FreeSteps(Blocks([], false), ts).blocks, OpenBraces(ts, |ts|);
    assert ts[..n] == ts;
    StackIsBraces(ts, n);
    OpenBracesBalance(ts, n);
    if true in b.stack {
      var k :| 0 <= k < |b.stack| && b.stack[k];
      assert StaysOpen(ts, o[k], n) && ArmedAt(ts, o[k]);
    }
    if InsideTransaction(ts, n) {
      var i :| StaysOpen(ts, i, n) && ArmedAt(ts, i);
      OpenBracesAll(ts, n, i);
      var k :| 0 <= k < |o| && o[k] == i;
      assert b.stack[k];
    }
  }

  // ----- what is kept: a counter and the depths of the transactional blocks -----

  /** The depths, counted from 1, of the transactional blocks of a stack. */
  function Depths(stack: seq<bool>): (d: seq<nat>)
    ensures |d| == Transactional(stack)
  {
    if stack == [] then []
    else
      var n := |stack| - 1;
      Depths(stack[..n]) + if stack[n] then [n + 1] else []
  }

  /** Recorded depths are strictly increasing and at most the present depth. */
  lemma {:induction false} DepthsIncrease(stack: seq<bool>)
    ensures forall k :: 0 <= k < |Depths(stack)| ==> 1 <= Depths(stack)[k] <= |stack|
    ensures forall j, k :: 0 <= j < k < |Depths(stack)| ==> Depths(stack)[j] < Depths(stack)[k]
    decreases |stack|
  {
    if stack != [] { DepthsIncrease(stack[..|stack| - 1]); }
  }

  lemma {:induction false} DepthsAny(stack: seq<bool>)
    ensures Depths(stack) != [] <==> true in stack
    decreases |stack|
  {
    if stack != [] {
      var n := |stack| - 1;
      DepthsAny(stack[..n]);
      assert stack == stack[..n] + [stack[n]];
    }
  }

  lemma DepthsPush(stack: seq<bool>, b: bool)
    ensures Depths(stack + [b]) == Depths(stack) + if b then [|stack| + 1] else []
  {
    hide Transactional;
    var all := stack + [b];
    assert all[..|all| - 1] == stack && all[|all| - 1] == b;
  }

  /** The last recorded depth is the present one exactly when the innermost block is transactional. */
  lemma DepthsPop(stack: seq<bool>)
    requires stack != []
    ensures var d, n := Depths(stack), |stack| - 1;
            Depths(stack[..n]) == if d != [] && d[|d| - 1] == |stack| then d[..|d| - 1] else d
  {
    var n := |stack| - 1;
    DepthsIncrease(stack[..n]);
    var d := Depths(stack[..n]);
    assert (d + [n + 1])[..|d|] == d;
  }

  class ParseState {
    var braceDepth: nat
    var armed: bool
    const depths: array<nat>
    var count: nat
    /** The blocks that are open. */
    ghost var blocks: seq<bool>

    ghost predicate Valid()
      reads this, depths
    {
      depths.Length == MAX_BLOCKS && count <= MAX_BLOCKS && braceDepth == |blocks| && depths[..count] == Depths(blocks)
    }

    ghost function State(): Blocks
      reads this
    {
      Blocks(blocks, armed)
    }

    constructor ()
      ensures Valid() && State() == Blocks([], false) && fresh(depths)
    {
      depths := new nat[MAX_BLOCKS](_ => 0);
      braceDepth, armed, count, blocks := 0, false, 0, [];
    }

    method TakeWord(w: bytes) returns (out: seq<Complaint>)
      requires Valid()
      modifies this
      ensures Valid() && Result(State(), out) == old(Step(State(), Word(w)))
    {
      DepthsAny(blocks);
      out := [];
      if w == TRANSACTION { armed := true; }
      if w == RETURN && count > 0 { out := [ReturnInside]; }
    }

    method OpenBlock() returns (out: seq<Complaint>)
      requires Valid()
      modifies this, depths
      ensures Valid() && Result(State(), out) == old(Step(State(), Open))
    {
      hide Depths, Transactional;
      DepthsPush(blocks, true);
      DepthsPush(blocks, false);
      out := [];
      ghost var deep := count >= MAX_BLOCKS;
      ghost var transactional := armed && !deep;
      braceDepth := braceDepth + 1;
      if armed {
        if count >= MAX_BLOCKS {
          out := [TooDeep];
        } else {
          ghost var before := depths[..count];
          depths[count] := braceDepth;
          count := count + 1;
          assert depths[..count] == before + [braceDepth];
        }
        armed := false;
      }
      blocks := blocks + [transactional];
    }

    method CloseBlock()
      requires Valid()
      modifies this
      ensures Valid() && Result(State(), []) == old(Step(State(), Close))
    {
      hide Depths, Transactional;
      if blocks != [] { DepthsPop(blocks); }
      DepthsNone();
      if count > 0 && depths[count - 1] == braceDepth { count := count - 1; }
      if braceDepth > 0 {
        braceDepth := braceDepth - 1;
        blocks := blocks[..|blocks| - 1];
      }
    }

    /** guard_transaction: on every line it complains just as the stack of blocks says of the line's tokens. */
    method GuardTransaction(line: bytes) returns (out: seq<Complaint>, ghost ts: seq<Token>)
      requires Valid() && 0 !in line
      modifies this, depths
      ensures LineTokens(line, ts)
      ensures Valid() && Result(State(), out) == old(Steps(State(), ts))
    {
      hide Step, Steps, Then, LineTokens;
      ts := Scan(line, 0, 0);
      ScanIsReading(line);
      out := [];
      ghost var all := Steps(State(), Scan(line, 0, 0));
      AtStart(all);
      var i := 0;
      var quote: byte := 0;
      while i < |line| && i < MAX_LINE
        invariant 0 <= i <= |line| && Valid() && all == Then(out, Steps(State(), Scan(line, i, quote)))
        decreases |line| - i
      {
        var c := line[i];
        if quote != 0 {
          if c == 0x5C && i + 1 < |line| {
            i := i + 2;
            continue;
          }
          if c == quote { quote := 0; }
          i := i + 1;
          continue;
        }
        if IsQuote(c) {
          quote := c;
          i := i + 1;
          continue;
        }
        ghost var b, done := State(), out;
        if IsStart(c) {
          var k := FindWordEnd(line, i + 1);
          var more := TakeWord(line[i..k]);
          out := out + more;
          Advance(done, b, Word(line[i..k]), Scan(line, k, 0));
          i := k;
          continue;
        }
        if c == 0x7B {
          var more := OpenBlock();
          out := out + more;
          Advance(done, b, Open, Scan(line, i + 1, 0));
        }
        if c == 0x7D {
          CloseBlock();
          assert out + [] == out;
          Advance(done, b, Close, Scan(line, i + 1, 0));
        }
        i := i + 1;
      }
      AtEnd(out, State());
    }
  }

  /** The tokens of all lines, one after another. */
  ghost function Joined(tss: seq<seq<Token>>): seq<Token> {
    if tss == [] then [] else Joined(tss[..|tss| - 1]) + tss[|tss| - 1]
  }

  /** Each line with its tokens. */
  ghost predicate FileTokens(lines: seq<bytes>, tss: seq<seq<Token>>) {
    |tss| == |lines| && forall l :: 0 <= l < |lines| ==> LineTokens(lines[l], tss[l])
  }

  /** What is complained about in each line: what its tokens add to the complaints about the lines before it. */
  ghost predicate FileComplaints(tss: seq<seq<Token>>, outs: seq<seq<Complaint>>) {
    && |outs| == |tss|
    && forall l :: 0 <= l < |tss| ==> outs[l] == Steps(Steps(Blocks([], false), Joined(tss[..l])).blocks, tss[l]).out
  }

  /** A file, line by line. */
  method GuardFile(lines: seq<bytes>) returns (outs: seq<seq<Complaint>>, ghost tss: seq<seq<Token>>)
    requires forall k :: 0 <= k < |lines| ==> 0 !in lines[k]
    ensures FileTokens(lines, tss) && FileComplaints(tss, outs)
  {
    hide Steps, LineTokens, Joined, FileTokens, FileComplaints;
    var st := new ParseState();
    outs, tss := [], [];
    var k := 0;
    ghost var start := Blocks([], false);
    NothingYet();
    while k < |lines|
      invariant 0 <= k <= |lines| && st.Valid() && fresh(st) && fresh(st.depths)
      invariant FileTokens(lines[..k], tss) && FileComplaints(tss, outs)
      invariant st.State() == Steps(start, Joined(tss)).blocks
    {
      var out, ts := st.GuardTransaction(lines[k]);
      FileStep(tss, outs, ts, out);
      LineStep(lines, tss, ts, k);
      outs, tss := outs + [out], tss + [ts];
      k := k + 1;
    }
    assert lines[..k] == lines;
  }

  /** One line more. */
  lemma FileStep(tss: seq<seq<Token>>, outs: seq<seq<Complaint>>, ts: seq<Token>, out: seq<Complaint>)
    requires FileComplaints(tss, outs) && out == Steps(Steps(Blocks([], false), Joined(tss)).blocks, ts).out
    ensures FileComplaints(tss + [ts], outs + [out])
    ensures Steps(Blocks([], false), Joined(tss + [ts])).blocks == Steps(Steps(Blocks([], false), Joined(tss)).blocks, ts).blocks
  {
    hide Steps;
    var n, more, all := |tss|, outs + [out], tss + [ts];
    assert all[..n] == tss && all[n] == ts;
    StepsAppend(Blocks([], false), Joined(tss), ts);
    forall l | 0 <= l < |all| ensures more[l] == Steps(Steps(Blocks([], false), Joined(all[..l])).blocks, all[l]).out {
      if l < n { assert all[..l] == tss[..l]; }
    }
  }

  lemma LineStep(lines: seq<bytes>, tss: seq<seq<Token>>, ts: seq<Token>, k: nat)
    requires k < |lines| && FileTokens(lines[..k], tss) && LineTokens(lines[k], ts)
    ensures FileTokens(lines[..k + 1], tss + [ts])
  {
    hide LineTokens;
  }

  lemma NothingYet()
    ensures Joined([]) == [] && Steps(Blocks([], false), []) == Result(Blocks([], false), [])
    ensures FileTokens([], []) && FileComplaints([], [])
  {
  }

  lemma DepthsNone()
    ensures Depths([]) == []
  {
  }

  method FindWordEnd(line: bytes, i: nat) returns (k: nat)
    requires i <= |line|
    ensures k == WordEnd(line, i)
  {
    k := i;
    while k < |line| && IsPart(line[k])
      invariant i <= k <= |line| && WordEnd(line, i) == WordEnd(line, k)
    {
      k := k + 1;
    }
  }

  lemma AtStart(r: Result)
    ensures Then([], r) == r
  {
  }

  lemma AtEnd(out: seq<Complaint>, b: Blocks)
    ensures Then(out, Steps(b, [])) == Result(b, out)
  {
  }

  lemma Advance(out: seq<Complaint>, b: Blocks, t: Token, rest: seq<Token>)
    ensures Then(out, Steps(b, [t] + rest)) == Then(out + Step(b, t).out, Steps(Step(b, t).blocks, rest))
  {
    hide Step;
    assert ([t] + rest)[0] == t && ([t] + rest)[1..] == rest;
  }

  lemma Spelling()
    ensures TRANSACTION == Ascii("$transaction") && RETURN == Ascii("return")
  {
  }
}
