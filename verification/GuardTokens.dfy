/** The words and braces of a source line that stand outside literals, said of the characters and found by a scan. */
module GuardTokens {
  import opened Bytes

  const MAX_LINE := 512

  datatype Token = Word(text: bytes) | Open | Close

  predicate IsStart(c: byte) { IsNameStart(c) || c == 0x24 }
  predicate IsPart(c: byte) { IsStart(c) || IsDigit(c) }
  predicate IsQuote(c: byte) { c == 0x22 || c == 0x27 }

  // ----- what stands where -----

  /** The reverse solidi directly before k, counted back to the quotation mark at a. */
  function Slashes(line: bytes, a: nat, k: nat): nat
    requires a < k <= |line|
    decreases k
  {
    if k == a + 1 || line[k - 1] != 0x5C then 0 else 1 + Slashes(line, a, k - 1)
  }

  /** The literal that opens at a ends at k: the same quotation mark, after an even number of reverse solidi. */
  predicate Closes(line: bytes, a: nat, k: nat) { a < k < |line| && line[k] == line[a] && Slashes(line, a, k) % 2 == 0 }

  /** Every literal that opens before i has ended before i. */
  ghost predicate Outside(line: bytes, i: nat)
    requires i <= |line|
    decreases i
  {
    forall a :: 0 <= a < i && IsQuote(line[a]) && Outside(line, a) ==> exists k :: a < k < i && Closes(line, a, k)
  }

  /** The characters from j to i could be one word. */
  predicate Run(line: bytes, j: nat, i: nat) {
    j < i <= |line| && IsStart(line[j]) && forall k :: j <= k < i ==> IsPart(line[k])
  }

  /** A token stands at p, outside literals: a brace, or the first character of a word that cannot be made longer. */
  ghost predicate Stands(line: bytes, p: nat, t: Token) {
    && p < |line| && p < MAX_LINE && Outside(line, p)
    && match t
       case Open => line[p] == 0x7B
       case Close => line[p] == 0x7D
       case Word(w) =>
         && p + |w| <= |line| && w == line[p..p + |w|] && Run(line, p, p + |w|) && (forall j :: 0 <= j < p ==> !Run(line, j, p))
         && (p + |w| < |line| ==> !IsPart(line[p + |w|]))
  }

  /** The tokens from index `from` on, each with its place: in order, and all of them. */
  ghost predicate Reads(line: bytes, from: nat, ps: seq<nat>, ts: seq<Token>) {
    && |ps| == |ts| && (forall n :: 0 <= n < |ps| ==> from <= ps[n] && Stands(line, ps[n], ts[n]))
    && (forall m, n :: 0 <= m < n < |ps| ==> ps[m] < ps[n])
    && forall p: nat, t :: from <= p && Stands(line, p, t) ==> p in ps
  }

  /** The tokens of a line. */
  ghost predicate LineTokens(line: bytes, ts: seq<Token>) { exists ps :: Reads(line, 0, ps, ts) }

  // ----- there is one such sequence -----

  lemma OneToken(line: bytes, p: nat, t: Token, u: Token)
    requires Stands(line, p, t) && Stands(line, p, u)
    ensures t == u
  {
    hide Outside;
    if t.Word? && u.Word? {
      if |t.text| != |u.text| { assert false; }
    }
  }

  lemma {:induction false} SamePlaces(ps: seq<nat>, qs: seq<nat>)
    requires forall m, n :: 0 <= m < n < |ps| ==> ps[m] < ps[n]
    requires forall m, n :: 0 <= m < n < |qs| ==> qs[m] < qs[n]
    requires forall p :: p in ps <==> p in qs
    ensures ps == qs
    decreases |ps|
  {
    assert qs != [] ==> qs[0] in qs;
    if ps != [] {
      assert ps[0] in qs;
      assert qs[0] in ps;
      var a: nat :| a < |ps| && ps[a] == qs[0];
      var b: nat :| b < |qs| && qs[b] == ps[0];
      assert ps[0] == qs[0];
      forall p ensures p in ps[1..] <==> p in qs[1..] {
        if p in ps[1..] { assert p in ps && p != ps[0]; assert p in qs; }
        if p in qs[1..] { assert p in qs && p != qs[0]; assert p in ps; }
      }
      SamePlaces(ps[1..], qs[1..]);
    }
  }

  /** A line has one sequence of tokens. */
  lemma OneReading(line: bytes, ts: seq<Token>, us: seq<Token>)
    requires LineTokens(line, ts) && LineTokens(line, us)
    ensures ts == us
  {
    hide Stands;
    var ps :| Reads(line, 0, ps, ts);
    var qs :| Reads(line, 0, qs, us);
    forall p ensures p in ps <==> p in qs {
      if p in ps { var n :| 0 <= n < |ps| && ps[n] == p; assert Stands(line, p, ts[n]); }
      if p in qs { var n :| 0 <= n < |qs| && qs[n] == p; assert Stands(line, p, us[n]); }
    }
    SamePlaces(ps, qs);
    forall n | 0 <= n < |ts| ensures ts[n] == us[n] { OneToken(line, ps[n], ts[n], us[n]); }
  }

  // ----- the scan -----

  function WordEnd(line: bytes, i: nat): (k: nat)
    requires i <= |line|
    ensures i <= k <= |line| && (k < |line| ==> !IsPart(line[k])) && forall j :: i <= j < k ==> IsPart(line[j])
    decreases |line| - i
  {
    if i < |line| && IsPart(line[i]) then WordEnd(line, i + 1) else i
  }

  /** The tokens from index i on; quote is 0 outside literals, and else the quotation mark that ends the literal. */
  function Scan(line: bytes, i: nat, quote: byte): seq<Token>
    requires i <= |line|
    decreases |line| - i
  {
    if i >= |line| || i >= MAX_LINE then []
    else
      var c := line[i];
      if quote != 0 then
        if c == 0x5C && i + 1 < |line| then Scan(line, i + 2, quote) else Scan(line, i + 1, if c == quote then 0 else quote)
      else if IsQuote(c) then Scan(line, i + 1, c)
      else if IsStart(c) then
        var k := WordEnd(line, i + 1);
        [Word(line[i..k])] + Scan(line, k, 0)
      else if c == 0x7B then [Open] + Scan(line, i + 1, 0)
      else if c == 0x7D then [Close] + Scan(line, i + 1, 0)
      else Scan(line, i + 1, 0)
  }

  /** Index i is outside literals, and not inside a word. */
  ghost predicate Between(line: bytes, i: nat) {
    i <= |line| && Outside(line, i) && (i < |line| && IsPart(line[i]) ==> forall j :: 0 <= j < i ==> !Run(line, j, i))
  }

  /** Index i is inside the literal that opens at a, and not escaped. */
  ghost predicate Inside(line: bytes, a: nat, i: nat) {
    && a < i <= |line| && IsQuote(line[a]) && Outside(line, a) && Slashes(line, a, i) % 2 == 0
    && forall k :: a < k < i ==> !Closes(line, a, k)
  }

  lemma LineStart(line: bytes)
    ensures Between(line, 0)
  {
  }

  lemma Opened(line: bytes, i: nat)
    requires i < |line| && Between(line, i) && IsQuote(line[i])
    ensures Inside(line, i, i + 1)
  {
  }

  lemma Passed(line: bytes, i: nat)
    requires i < |line| && Between(line, i) && !IsQuote(line[i]) && !IsStart(line[i])
    ensures Between(line, i + 1)
  {
    var n := i + 1;
    forall j | 0 <= j < n && n < |line| && IsPart(line[n]) ensures !Run(line, j, n) {
      if Run(line, j, n) {
        assert IsPart(line[i]);
        if j < i { assert Run(line, j, i); }
      }
    }
    OutsideNext(line, i);
  }

  lemma OutsideNext(line: bytes, i: nat)
    requires i < |line| && Outside(line, i) && !IsQuote(line[i])
    ensures Outside(line, i + 1)
  {
    hide Closes;
    forall a | 0 <= a < i + 1 && IsQuote(line[a]) && Outside(line, a) ensures exists k :: a < k < i + 1 && Closes(line, a, k) {
      var k :| a < k < i && Closes(line, a, k);
    }
  }

  lemma {:induction false} OutsideRun(line: bytes, i: nat, k: nat)
    requires i <= k <= |line| && Outside(line, i) && forall j :: i <= j < k ==> IsPart(line[j])
    ensures Outside(line, k)
    decreases k - i
  {
    if i < k {
      OutsideNext(line, i);
      OutsideRun(line, i + 1, k);
    }
  }

  lemma AfterWord(line: bytes, i: nat, k: nat)
    requires i < |line| && i < MAX_LINE && Between(line, i) && IsStart(line[i]) && k == WordEnd(line, i + 1)
    ensures Between(line, k) && Stands(line, i, Word(line[i..k]))
  {
    hide Outside;
    OutsideRun(line, i, k);
    assert Run(line, i, k);
  }

  lemma Escape(line: bytes, a: nat, i: nat)
    requires Inside(line, a, i) && i + 1 < |line| && line[i] == 0x5C
    ensures Inside(line, a, i + 2)
  {
    hide Outside;
    assert Slashes(line, a, i + 1) == Slashes(line, a, i) + 1;
  }

  lemma Ended(line: bytes, a: nat, i: nat)
    requires Inside(line, a, i) && i < |line| && line[i] == line[a]
    ensures Between(line, i + 1)
  {
    assert Closes(line, a, i);
    forall b | 0 <= b < i + 1 && IsQuote(line[b]) && Outside(line, b) ensures exists k :: b < k < i + 1 && Closes(line, b, k) {
      if b < a {
        var k :| b < k < a && Closes(line, b, k);
      }
    }
    var n := i + 1;
    forall j | 0 <= j < n ensures !Run(line, j, n) { assert !IsPart(line[i]); }
  }

  lemma Goes(line: bytes, a: nat, i: nat)
    requires Inside(line, a, i) && i < |line| && line[i] != line[a] && (line[i] == 0x5C ==> i + 1 == |line|)
    ensures i + 1 < |line| ==> Inside(line, a, i + 1)
  {
    hide Outside;
  }

  /** Nothing stands inside a literal. */
  lemma Nothing(line: bytes, a: nat, i: nat, p: nat, t: Token)
    requires Inside(line, a, i) && a < p <= i
    ensures !Stands(line, p, t)
  {
    hide Closes;
    if p < |line| { assert !Outside(line, p); }
  }

  lemma Skip(line: bytes, i: nat, next: nat, ps: seq<nat>, ts: seq<Token>)
    requires Reads(line, next, ps, ts) && i <= next && forall p, t :: i <= p < next ==> !Stands(line, p, t)
    ensures Reads(line, i, ps, ts)
  {
    hide Stands;
  }

  lemma Take(line: bytes, i: nat, t: Token, next: nat, ps: seq<nat>, ts: seq<Token>)
    requires Reads(line, next, ps, ts) && i < next && Stands(line, i, t)
    requires forall p, u :: i < p < next ==> !Stands(line, p, u)
    ensures Reads(line, i, [i] + ps, [t] + ts)
  {
    hide Stands;
    forall p: nat, u | i <= p && Stands(line, p, u) ensures p in [i] + ps {
      if p >= next { assert p in ps; }
    }
  }

  lemma NothingBehind(line: bytes, i: nat)
    requires i >= |line| || i >= MAX_LINE
    ensures Reads(line, i, [], [])
  {
  }

  lemma InWord(line: bytes, i: nat, k: nat)
    requires i < |line| && IsStart(line[i]) && k == WordEnd(line, i + 1)
    ensures forall p, u :: i < p < k ==> !Stands(line, p, u)
  {
    hide Outside;
    forall p, u | i < p < k ensures !Stands(line, p, u) { assert Run(line, i, p) && IsPart(line[p]); }
  }

  lemma PassedNothing(line: bytes, i: nat, t: Token)
    requires i < |line| && !IsStart(line[i])
    ensures Stands(line, i, t) ==> (t == Open && line[i] == 0x7B) || (t == Close && line[i] == 0x7D)
  {
    hide Outside;
  }

  /** The scan finds the tokens, from any point between them. */
  lemma {:induction false} ScanOutside(line: bytes, i: nat) returns (ps: seq<nat>)
    requires Between(line, i)
    ensures Reads(line, i, ps, Scan(line, i, 0))
    decreases |line| - i
  {
    hide Reads, Stands, Between, Inside, Outside, WordEnd;
    BetweenBound(line, i);
    if i >= |line| || i >= MAX_LINE {
      NothingBehind(line, i);
      ps := [];
    } else {
      var c := line[i];
      forall p, t | i <= p < i + 1 && !IsStart(c) && c != 0x7B && c != 0x7D ensures !Stands(line, p, t) { PassedNothing(line, i, t); }
      if IsQuote(c) {
        Opened(line, i);
        ps := ScanInside(line, i, i + 1);
        Skip(line, i, i + 1, ps, Scan(line, i + 1, c));
      } else if IsStart(c) {
        var k := WordEnd(line, i + 1);
        AfterWord(line, i, k);
        InWord(line, i, k);
        var rest := ScanOutside(line, k);
        Take(line, i, Word(line[i..k]), k, rest, Scan(line, k, 0));
        ps := [i] + rest;
      } else {
        Passed(line, i);
        var rest := ScanOutside(line, i + 1);
        if c == 0x7B || c == 0x7D {
          var t := if c == 0x7B then Open else Close;
          BraceStands(line, i, t);
          Take(line, i, t, i + 1, rest, Scan(line, i + 1, 0));
          ps := [i] + rest;
        } else {
          Skip(line, i, i + 1, rest, Scan(line, i + 1, 0));
          ps := rest;
        }
      }
    }
  }

  lemma BetweenBound(line: bytes, i: nat)
    requires Between(line, i)
    ensures i <= |line|
  {
  }

  lemma BraceStands(line: bytes, i: nat, t: Token)
    requires i < |line| && i < MAX_LINE && Between(line, i)
    requires (t == Open && line[i] == 0x7B) || (t == Close && line[i] == 0x7D)
    ensures Stands(line, i, t)
  {
    hide Outside;
  }

  lemma InsideBound(line: bytes, a: nat, i: nat)
    requires Inside(line, a, i)
    ensures a < i <= |line| && IsQuote(line[a])
  {
  }

  lemma {:induction false} ScanInside(line: bytes, a: nat, i: nat) returns (ps: seq<nat>)
    requires Inside(line, a, i)
    ensures a < |line| && i <= |line| && Reads(line, i, ps, Scan(line, i, line[a]))
    decreases |line| - i
  {
    hide Reads, Stands, Between, Inside, Outside;
    InsideBound(line, a, i);
    if i >= |line| || i >= MAX_LINE {
      NothingBehind(line, i);
      ps := [];
    } else {
      var c := line[i];
      forall t ensures !Stands(line, i, t) { Nothing(line, a, i, i, t); }
      if c == 0x5C && i + 1 < |line| {
        Escape(line, a, i);
        forall p, t | i <= p < i + 2 ensures !Stands(line, p, t) { Nothing(line, a, i + 2, p, t); }
        ps := ScanInside(line, a, i + 2);
        Skip(line, i, i + 2, ps, Scan(line, i + 2, line[a]));
      } else if c == line[a] {
        Ended(line, a, i);
        ps := ScanOutside(line, i + 1);
        Skip(line, i, i + 1, ps, Scan(line, i + 1, 0));
      } else if i + 1 < |line| {
        Goes(line, a, i);
        ps := ScanInside(line, a, i + 1);
        Skip(line, i, i + 1, ps, Scan(line, i + 1, line[a]));
      } else {
        NothingBehind(line, i + 1);
        ps := [];
        Skip(line, i, i + 1, ps, Scan(line, i + 1, line[a]));
      }
    }
  }

  /** The scan of a line finds its tokens. */
  lemma ScanIsReading(line: bytes)
    ensures LineTokens(line, Scan(line, 0, 0))
  {
    hide Reads, Scan;
    LineStart(line);
    var ps := ScanOutside(line, 0);
  }

  lemma SourceCharacters(c: byte)
    ensures IsStart(c) <==> IsNameStart(c) || c == Code('$')
    ensures IsPart(c) <==> IsStart(c) || IsDigit(c)
    ensures IsQuote(c) <==> c == Code('"') || c == Code('\'')
    ensures forall line, p :: Stands(line, p, Open) ==> line[p] == Code('{')
    ensures forall line, p :: Stands(line, p, Close) ==> line[p] == Code('}')
  {
    hide Outside;
  }
}
