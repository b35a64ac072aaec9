/** What guard_transaction reports, said of the characters of a file: no token, no stack. */
module GuardText {
  import opened Bytes
  import opened GuardTokens
  import opened TransactionGuard

  /** A place in a file: before the character in that column, or at the end of the line. */
  datatype Place = Place(line: nat, col: nat)

  predicate IsPlace(lines: seq<bytes>, q: Place) { q.line < |lines| && q.col <= |lines[q.line]| }

  predicate Precedes(p: Place, q: Place) { p.line < q.line || (p.line == q.line && p.col < q.col) }

  // ----- what is meant -----

  /** A brace outside literals opens or closes a level. */
  ghost function Turn(line: bytes, c: nat): int
    requires c < |line|
  {
    if Stands(line, c, Open) then 1 else if Stands(line, c, Close) then -1 else 0
  }

  /** Opening less closing braces before a place. */
  ghost function Level(lines: seq<bytes>, l: nat, c: nat): int
    requires l < |lines| && c <= |lines[l]|
    decreases l, c
  {
    if c > 0 then Level(lines, l, c - 1) + Turn(lines[l], c - 1)
    else if l > 0 then Level(lines, l - 1, |lines[l - 1]|)
    else 0
  }

  ghost predicate StandsAt(lines: seq<bytes>, q: Place, t: Token) { q.line < |lines| && Stands(lines[q.line], q.col, t) }

  /** The brace at b has not been closed before p. */
  ghost predicate OpenUntil(lines: seq<bytes>, b: Place, p: Place) {
    && StandsAt(lines, b, Open) && IsPlace(lines, b) && Precedes(b, p)
    && forall q :: IsPlace(lines, q) && Precedes(b, q) && !Precedes(p, q) ==>
         Level(lines, q.line, q.col) - Level(lines, b.line, b.col) >= 1
  }

  /** $transaction stands before b, with no opening brace in between. */
  ghost predicate ArmedFor(lines: seq<bytes>, b: Place) {
    exists a :: StandsAt(lines, a, Word(TRANSACTION)) && Precedes(a, b)
                && forall q :: Precedes(a, q) && Precedes(q, b) ==> !StandsAt(lines, q, Open)
  }

  /** A `return` in a block that $transaction opened. */
  ghost predicate Offends(lines: seq<bytes>, p: Place) {
    StandsAt(lines, p, Word(RETURN)) && exists b :: OpenUntil(lines, b, p) && ArmedFor(lines, b)
  }

  ghost function Offences(lines: seq<bytes>, l: nat, c: nat): nat
    requires l < |lines|
  {
    if c == 0 then 0 else Offences(lines, l, c - 1) + if Offends(lines, Place(l, c - 1)) then 1 else 0
  }

  // ----- the tokens of a file in their places -----

  /** All tokens of the first m lines, in order. */
  ghost predicate Listed(lines: seq<bytes>, m: nat, ps: seq<Place>, ts: seq<Token>) {
    && m <= |lines| && |ps| == |ts| && (forall n :: 0 <= n < |ps| ==> ps[n].line < m && StandsAt(lines, ps[n], ts[n]))
    && (forall i, j :: 0 <= i < j < |ps| ==> Precedes(ps[i], ps[j]))
    && forall q: Place, t :: q.line < m && StandsAt(lines, q, t) ==> q in ps
  }

  /** The tokens of line m, in places. */
  ghost predicate InLine(lines: seq<bytes>, m: nat, qs: seq<Place>, us: seq<Token>) {
    && m < |lines| && |qs| == |us| && (forall n :: 0 <= n < |qs| ==> qs[n].line == m && StandsAt(lines, qs[n], us[n]))
    && (forall i, j :: 0 <= i < j < |qs| ==> Precedes(qs[i], qs[j]))
    && forall q: Place, t :: q.line == m && StandsAt(lines, q, t) ==> q in qs
  }

  function PlacesIn(m: nat, cols: seq<nat>): (qs: seq<Place>)
    ensures |qs| == |cols| && forall k :: 0 <= k < |cols| ==> qs[k] == Place(m, cols[k])
  {
    seq(|cols|, k requires 0 <= k < |cols| => Place(m, cols[k]))
  }

  lemma LineStands(lines: seq<bytes>, m: nat, cols: seq<nat>, us: seq<Token>, n: nat)
    requires m < |lines| && Reads(lines[m], 0, cols, us) && n < |us|
    ensures n < |cols| && StandsAt(lines, Place(m, cols[n]), us[n])
  {
    hide Stands;
  }

  lemma LineHas(lines: seq<bytes>, m: nat, cols: seq<nat>, us: seq<Token>, q: Place, t: Token)
    requires m < |lines| && Reads(lines[m], 0, cols, us) && q.line == m && StandsAt(lines, q, t)
    ensures q in PlacesIn(m, cols)
  {
    hide Stands;
    assert q.col in cols;
    var k :| 0 <= k < |cols| && cols[k] == q.col;
    assert PlacesIn(m, cols)[k] == q;
  }

  lemma LineInPlaces(lines: seq<bytes>, m: nat, us: seq<Token>) returns (qs: seq<Place>)
    requires m < |lines| && LineTokens(lines[m], us)
    ensures InLine(lines, m, qs, us)
  {
    hide StandsAt, Reads, PlacesIn;
    var cols :| Reads(lines[m], 0, cols, us);
    ReadsShape(lines[m], cols, us);
    qs := PlacesIn(m, cols);
    forall n | 0 <= n < |qs| ensures StandsAt(lines, qs[n], us[n]) { LineStands(lines, m, cols, us, n); }
    forall q: Place, t | q.line == m && StandsAt(lines, q, t) ensures q in qs { LineHas(lines, m, cols, us, q, t); }
  }

  lemma ReadsShape(line: bytes, cols: seq<nat>, us: seq<Token>)
    requires Reads(line, 0, cols, us)
    ensures |cols| == |us| && forall m, n :: 0 <= m < n < |cols| ==> cols[m] < cols[n]
  {
    hide Stands;
  }

  lemma ListedLine(lines: seq<bytes>, m: nat, ps: seq<Place>, ts: seq<Token>, us: seq<Token>) returns (qs: seq<Place>)
    requires Listed(lines, m, ps, ts) && m < |lines| && LineTokens(lines[m], us)
    ensures Listed(lines, m + 1, ps + qs, ts + us)
    ensures forall k :: 0 <= k < |qs| ==> qs[k].line == m
  {
    hide StandsAt, LineTokens, Precedes;
    qs := LineInPlaces(lines, m, us);
    var all := ps + qs;
    forall n | 0 <= n < |all| ensures all[n].line < m + 1 && StandsAt(lines, all[n], (ts + us)[n]) {
      if n < |ps| { assert all[n] == ps[n] && (ts + us)[n] == ts[n]; } else { assert all[n] == qs[n - |ps|]; }
    }
    ListedOrder(m, ps, qs);
    forall q: Place, t | q.line < m + 1 && StandsAt(lines, q, t) ensures q in all {
      if q.line == m { assert q in qs; } else { assert q in ps; }
    }
  }

  lemma ListedOrder(m: nat, ps: seq<Place>, qs: seq<Place>)
    requires forall i, j :: 0 <= i < j < |ps| ==> Precedes(ps[i], ps[j])
    requires forall i, j :: 0 <= i < j < |qs| ==> Precedes(qs[i], qs[j])
    requires (forall k :: 0 <= k < |ps| ==> ps[k].line < m) && forall k :: 0 <= k < |qs| ==> qs[k].line == m
    ensures forall i, j :: 0 <= i < j < |ps + qs| ==> Precedes((ps + qs)[i], (ps + qs)[j])
  {
    var all := ps + qs;
    forall i, j | 0 <= i < j < |all| ensures Precedes(all[i], all[j]) {
      if j < |ps| { assert Precedes(ps[i], ps[j]); } else if i >= |ps| { assert Precedes(qs[i - |ps|], qs[j - |ps|]); }
    }
  }

  lemma {:induction false} ListedFile(lines: seq<bytes>, tss: seq<seq<Token>>, m: nat) returns (ps: seq<Place>)
    requires FileTokens(lines, tss) && m <= |lines|
    ensures Listed(lines, m, ps, Joined(tss[..m]))
    decreases m
  {
    hide LineTokens, Listed;
    if m == 0 {
      ps := [];
      NothingListed(lines);
      assert tss[..0] == [];
    } else {
      ps := ListedFile(lines, tss, m - 1);
      var qs := ListedLine(lines, m - 1, ps, Joined(tss[..m - 1]), tss[m - 1]);
      ps := ps + qs;
      assert tss[..m][..m - 1] == tss[..m - 1];
    }
  }

  lemma NothingListed(lines: seq<bytes>)
    ensures Listed(lines, 0, [], [])
  {
  }

  /** Exactly the first n tokens stand before q. */
  ghost predicate Before(ps: seq<Place>, q: Place, n: nat) {
    n <= |ps| && (forall k :: 0 <= k < n ==> Precedes(ps[k], q)) && forall k :: n <= k < |ps| ==> !Precedes(ps[k], q)
  }

  lemma BeforeOne(lines: seq<bytes>, m: nat, ps: seq<Place>, ts: seq<Token>, n: nat)
    requires Listed(lines, m, ps, ts) && n < |ps|
    ensures Before(ps, ps[n], n)
  {
    hide StandsAt;
    forall k | n <= k < |ps| ensures !Precedes(ps[k], ps[n]) {
      if k > n { assert Precedes(ps[n], ps[k]); }
    }
  }

  lemma {:induction false} Cut(ps: seq<Place>, q: Place, m: nat) returns (n: nat)
    requires m <= |ps| && forall i, j :: 0 <= i < j < |ps| ==> Precedes(ps[i], ps[j])
    requires forall k :: m <= k < |ps| ==> !Precedes(ps[k], q)
    ensures Before(ps, q, n)
    decreases m
  {
    if m == 0 || Precedes(ps[m - 1], q) {
      n := m;
      forall k | 0 <= k < n ensures Precedes(ps[k], q) {
        if k < n - 1 { assert Precedes(ps[k], ps[n - 1]); }
      }
    } else {
      n := Cut(ps, q, m - 1);
    }
  }

  /** One character on: a token stands there and is counted, or none does. */
  lemma BeforeNext(lines: seq<bytes>, m: nat, ps: seq<Place>, ts: seq<Token>, l: nat, c: nat, n: nat) returns (k: nat)
    requires Listed(lines, m, ps, ts) && l < m && c < |lines[l]| && Before(ps, Place(l, c + 1), n)
    ensures k <= n && Before(ps, Place(l, c), k) && (k == n || (k == n - 1 && ps[k] == Place(l, c)))
    ensures k == n ==> forall t :: !StandsAt(lines, Place(l, c), t)
  {
    hide Stands;
    var q := Place(l, c);
    if n > 0 && ps[n - 1] == q {
      k := n - 1;
      BeforeOne(lines, m, ps, ts, k);
    } else {
      k := n;
      forall i | 0 <= i < n ensures Precedes(ps[i], q) {
        assert Precedes(ps[i], Place(l, c + 1));
        if i < n - 1 { assert Precedes(ps[i], ps[n - 1]) && Precedes(ps[n - 1], Place(l, c + 1)); }
      }
      assert Precedes(q, Place(l, c + 1));
      forall i | 0 <= i < |ps| ensures ps[i] != q { assert i < n ==> Precedes(ps[i], q); }
      assert q !in ps;
    }
  }

  /** The level at a place is the balance of the tokens before it. */
  lemma {:induction false} LevelIs(lines: seq<bytes>, m: nat, ps: seq<Place>, ts: seq<Token>, l: nat, c: nat, n: nat)
    requires Listed(lines, m, ps, ts) && l < m && c <= |lines[l]| && Before(ps, Place(l, c), n)
    ensures Level(lines, l, c) == Balance(ts, 0, n)
    decreases l, c
  {
    hide Listed, Before, Stands;
    BeforeBound(lines, m, ps, ts, Place(l, c), n);
    if c > 0 {
      var k := BeforeNext(lines, m, ps, ts, l, c - 1, n);
      LevelIs(lines, m, ps, ts, l, c - 1, k);
      if k < n {
        TurnIs(lines, m, ps, ts, k);
      } else {
        assert !StandsAt(lines, Place(l, c - 1), Open) && !StandsAt(lines, Place(l, c - 1), Close);
      }
    } else if l > 0 {
      LineEndsBefore(lines, m, ps, ts, l, n);
      LevelIs(lines, m, ps, ts, l - 1, |lines[l - 1]|, n);
    } else {
      NothingBefore(ps, n);
    }
  }

  lemma BeforeBound(lines: seq<bytes>, m: nat, ps: seq<Place>, ts: seq<Token>, q: Place, n: nat)
    requires Listed(lines, m, ps, ts) && Before(ps, q, n)
    ensures m <= |lines| && n <= |ps| == |ts|
  {
  }

  lemma TurnIs(lines: seq<bytes>, m: nat, ps: seq<Place>, ts: seq<Token>, k: nat)
    requires Listed(lines, m, ps, ts) && k < |ps|
    ensures k < |ts| && ps[k].line < |lines| && ps[k].col < |lines[ps[k].line]|
    ensures Turn(lines[ps[k].line], ps[k].col) == Weight(ts[k]) && Stands(lines[ps[k].line], ps[k].col, ts[k])
  {
    hide Outside;
    assert StandsAt(lines, ps[k], ts[k]);
  }

  lemma LineEndsBefore(lines: seq<bytes>, m: nat, ps: seq<Place>, ts: seq<Token>, l: nat, n: nat)
    requires Listed(lines, m, ps, ts) && 0 < l < m && Before(ps, Place(l, 0), n)
    ensures Before(ps, Place(l - 1, |lines[l - 1]|), n)
  {
    hide Outside;
    forall k | 0 <= k < n ensures Precedes(ps[k], Place(l - 1, |lines[l - 1]|)) {
      assert StandsAt(lines, ps[k], ts[k]) && Precedes(ps[k], Place(l, 0));
    }
  }

  lemma NothingBefore(ps: seq<Place>, n: nat)
    requires Before(ps, Place(0, 0), n)
    ensures n == 0
  {
    var first := if ps == [] then Place(0, 0) else ps[0];
    assert !Precedes(first, Place(0, 0));
  }

  lemma {:induction false} BalanceSplit(ts: seq<Token>, i: nat, j: nat)
    requires i <= j <= |ts|
    ensures Balance(ts, i, j) == Balance(ts, 0, j) - Balance(ts, 0, i)
    decreases j
  {
    if i < j { BalanceSplit(ts, i, j - 1); }
  }

  // ----- open and armed, in tokens and in places -----

  lemma OpenIs(lines: seq<bytes>, ps: seq<Place>, ts: seq<Token>, i: nat, n: nat)
    requires Listed(lines, |lines|, ps, ts) && i < n < |ps|
    ensures StaysOpen(ts, i, n) <==> OpenUntil(lines, ps[i], ps[n])
  {
    hide Before, Stands, Level, Balance;
    TurnIs(lines, |lines|, ps, ts, i);
    TurnIs(lines, |lines|, ps, ts, n);
    BeforeOne(lines, |lines|, ps, ts, i);
    LevelIs(lines, |lines|, ps, ts, ps[i].line, ps[i].col, i);
    assert Precedes(ps[i], ps[n]);
    OpenToken(lines, ps[i], ts[i]);
    if StaysOpen(ts, i, n) {
      forall q | IsPlace(lines, q) && Precedes(ps[i], q) && !Precedes(ps[n], q)
        ensures Level(lines, q.line, q.col) - Level(lines, ps[i].line, ps[i].col) >= 1
      {
        var j := Cut(ps, q, |ps|);
        CutBetween(ps, q, j, i, n);
        LevelIs(lines, |lines|, ps, ts, q.line, q.col, j);
        BalanceSplit(ts, i, j);
      }
    }
    if OpenUntil(lines, ps[i], ps[n]) {
      forall j | i < j <= n ensures Balance(ts, i, j) >= 1 {
        TurnIs(lines, |lines|, ps, ts, j);
        BeforeOne(lines, |lines|, ps, ts, j);
        LevelIs(lines, |lines|, ps, ts, ps[j].line, ps[j].col, j);
        BalanceSplit(ts, i, j);
        assert Precedes(ps[i], ps[j]);
        assert j < n ==> Precedes(ps[j], ps[n]);
      }
    }
  }

  lemma OpenToken(lines: seq<bytes>, q: Place, t: Token)
    requires StandsAt(lines, q, t)
    ensures StandsAt(lines, q, Open) <==> t.Open?
    ensures forall w :: StandsAt(lines, q, Word(w)) <==> t == Word(w)
  {
    hide Stands;
    if StandsAt(lines, q, Open) { OneToken(lines[q.line], q.col, t, Open); }
    forall w ensures StandsAt(lines, q, Word(w)) <==> t == Word(w) {
      if StandsAt(lines, q, Word(w)) { OneToken(lines[q.line], q.col, t, Word(w)); }
    }
  }

  lemma CutBetween(ps: seq<Place>, q: Place, j: nat, i: nat, n: nat)
    requires Before(ps, q, j) && i < n < |ps| && Precedes(ps[i], q) && !Precedes(ps[n], q)
    ensures i < j <= n
  {
  }

  lemma ArmedIs(lines: seq<bytes>, ps: seq<Place>, ts: seq<Token>, i: nat)
    requires Listed(lines, |lines|, ps, ts) && i < |ps|
    ensures ArmedAt(ts, i) <==> ArmedFor(lines, ps[i])
  {
    hide Stands;
    if ArmedAt(ts, i) {
      var k :| 0 <= k < i && ts[k] == Word(TRANSACTION) && forall l :: k < l < i ==> !ts[l].Open?;
      assert StandsAt(lines, ps[k], ts[k]) && Precedes(ps[k], ps[i]);
      forall q | Precedes(ps[k], q) && Precedes(q, ps[i]) ensures !StandsAt(lines, q, Open) {
        if StandsAt(lines, q, Open) {
          var l := Index(lines, ps, ts, q, Open);
          Ordered(lines, ps, ts, k, l);
          Ordered(lines, ps, ts, l, i);
        }
      }
    }
    if ArmedFor(lines, ps[i]) {
      var a :| StandsAt(lines, a, Word(TRANSACTION)) && Precedes(a, ps[i])
               && forall q :: Precedes(a, q) && Precedes(q, ps[i]) ==> !StandsAt(lines, q, Open);
      var k := Index(lines, ps, ts, a, Word(TRANSACTION));
      Ordered(lines, ps, ts, k, i);
      forall l | k < l < i ensures !ts[l].Open? {
        assert Precedes(ps[k], ps[l]) && Precedes(ps[l], ps[i]);
        assert StandsAt(lines, ps[l], ts[l]);
      }
    }
  }

  /** The number of the token that stands at q. */
  lemma Index(lines: seq<bytes>, ps: seq<Place>, ts: seq<Token>, q: Place, t: Token) returns (k: nat)
    requires Listed(lines, |lines|, ps, ts) && StandsAt(lines, q, t)
    ensures k < |ps| && ps[k] == q && ts[k] == t
  {
    hide Stands;
    assert q in ps;
    k :| 0 <= k < |ps| && ps[k] == q;
    assert StandsAt(lines, ps[k], ts[k]);
    OneToken(lines[q.line], q.col, t, ts[k]);
  }

  lemma Ordered(lines: seq<bytes>, ps: seq<Place>, ts: seq<Token>, i: nat, j: nat)
    requires Listed(lines, |lines|, ps, ts) && i < |ps| && j < |ps| && Precedes(ps[i], ps[j])
    ensures i < j
  {
    hide StandsAt;
    assert !Precedes(ps[j], ps[i]);
  }

  lemma OffendsIs(lines: seq<bytes>, ps: seq<Place>, ts: seq<Token>, n: nat)
    requires Listed(lines, |lines|, ps, ts) && n < |ps|
    ensures ts[n] == Word(RETURN) && InsideTransaction(ts, n) <==> Offends(lines, ps[n])
  {
    hide Stands, StaysOpen, ArmedAt, OpenUntil, ArmedFor;
    assert StandsAt(lines, ps[n], ts[n]);
    OpenToken(lines, ps[n], ts[n]);
    if InsideTransaction(ts, n) {
      var i :| StaysOpen(ts, i, n) && ArmedAt(ts, i);
      StaysBefore(ts, i, n);
      OpenIs(lines, ps, ts, i, n);
      ArmedIs(lines, ps, ts, i);
    }
    if Offends(lines, ps[n]) {
      var b :| OpenUntil(lines, b, ps[n]) && ArmedFor(lines, b);
      UntilOpen(lines, b, ps[n]);
      var i := Index(lines, ps, ts, b, Open);
      Ordered(lines, ps, ts, i, n);
      OpenIs(lines, ps, ts, i, n);
      ArmedIs(lines, ps, ts, i);
    }
  }

  lemma StaysBefore(ts: seq<Token>, i: nat, n: nat)
    requires StaysOpen(ts, i, n)
    ensures i < n <= |ts|
  {
  }

  lemma UntilOpen(lines: seq<bytes>, b: Place, p: Place)
    requires OpenUntil(lines, b, p)
    ensures StandsAt(lines, b, Open) && Precedes(b, p)
  {
    hide Stands;
  }

  // ----- counting -----

  /** How many of the tokens from a up to n are a `return` in a block that $transaction opened. */
  ghost function Returns(ts: seq<Token>, a: nat, n: nat): nat
    requires n <= |ts|
    decreases n
  {
    if n <= a then 0 else Returns(ts, a, n - 1) + if ts[n - 1] == Word(RETURN) && InsideTransaction(ts, n - 1) then 1 else 0
  }

  function Repeat(n: nat): (out: seq<Complaint>)
    ensures |out| == n && forall k :: 0 <= k < n ==> out[k] == ReturnInside
  {
    seq(n, _ => ReturnInside)
  }

  lemma {:induction false} PrefixBalance(ts: seq<Token>, n: nat, i: nat, j: nat)
    requires j <= n <= |ts|
    ensures Balance(ts[..n], i, j) == Balance(ts, i, j)
    decreases j
  {
    if j > i { PrefixBalance(ts, n, i, j - 1); }
  }

  lemma PrefixInside(ts: seq<Token>, n: nat)
    requires n <= |ts|
    ensures InsideTransaction(ts[..n], n) <==> InsideTransaction(ts, n)
  {
    hide Balance;
    forall i: nat | i < n ensures StaysOpen(ts[..n], i, n) == StaysOpen(ts, i, n) && ArmedAt(ts[..n], i) == ArmedAt(ts, i) {
      forall j | i < j <= n ensures Balance(ts[..n], i, j) == Balance(ts, i, j) { PrefixBalance(ts, n, i, j); }
    }
    hide ArmedAt;
    if InsideTransaction(ts[..n], n) {
      var i :| StaysOpen(ts[..n], i, n) && ArmedAt(ts[..n], i);
      assert StaysOpen(ts, i, n) && ArmedAt(ts, i);
    }
    if InsideTransaction(ts, n) {
      var i :| StaysOpen(ts, i, n) && ArmedAt(ts, i);
      assert StaysOpen(ts[..n], i, n) && ArmedAt(ts[..n], i);
    }
  }

  /** As long as nothing goes too deep, the complaints are one for each such return. */
  lemma {:induction false} OutIsReturns(ts: seq<Token>, n: nat)
    requires n <= |ts| && TooDeep !in Steps(Blocks([], false), ts[..n]).out
    ensures |Steps(Blocks([], false), ts[..n]).out| == Returns(ts, 0, n)
    ensures forall k :: 0 <= k < |Steps(Blocks([], false), ts[..n]).out| ==> Steps(Blocks([], false), ts[..n]).out[k] == ReturnInside
    decreases n
  {
    hide Steps, InsideTransaction, GoesTooDeep, FreeSteps;
    var start := Blocks([], false);
    if n == 0 {
      NothingYet();
      assert ts[..0] == [];
    } else {
      var pre, t := ts[..n - 1], ts[n - 1];
      assert ts[..n] == pre + [t];
      StepsAppend(start, pre, [t]);
      var b := Steps(start, pre).blocks;
      OneTokenStep(b, t);
      assert TooDeep !in Steps(start, pre).out;
      OutIsReturns(ts, n - 1);
      WithinLimit(start, pre);
      StackTransactional(pre);
      PrefixInside(ts, n - 1);
    }
  }

  lemma OneTokenStep(b: Blocks, t: Token)
    ensures Steps(b, [t]).out == Step(b, t).out
    ensures TooDeep !in Step(b, t).out ==> Step(b, t).out == if t == Word(RETURN) && true in b.stack then [ReturnInside] else []
  {
    assert [t][1..] == [];
    assert Steps(Step(b, t).blocks, []) == Result(Step(b, t).blocks, []);
  }

  lemma {:induction false} ReturnsSplit(ts: seq<Token>, a: nat, n: nat)
    requires a <= n <= |ts|
    ensures Returns(ts, a, n) == Returns(ts, 0, n) - Returns(ts, 0, a)
    decreases n
  {
    hide InsideTransaction;
    if a < n { ReturnsSplit(ts, a, n - 1); }
  }

  lemma {:induction false} ReturnsPrefix(ts: seq<Token>, n: nat, k: nat)
    requires k <= n <= |ts|
    ensures Returns(ts[..n], 0, k) == Returns(ts, 0, k)
    decreases k
  {
    hide InsideTransaction;
    if k > 0 {
      ReturnsPrefix(ts, n, k - 1);
      PrefixInside(ts[..n], k - 1);
      PrefixInside(ts, k - 1);
      assert ts[..n][..k - 1] == ts[..k - 1];
    }
  }

  /** The returns among the tokens of a line are the offences in its columns. */
  lemma {:induction false} LineReturns(lines: seq<bytes>, ps: seq<Place>, ts: seq<Token>, l: nat, c: nat, a: nat, n: nat)
    requires Listed(lines, |lines|, ps, ts) && l < |lines| && c <= |lines[l]|
    requires Before(ps, Place(l, 0), a) && Before(ps, Place(l, c), n)
    ensures n <= |ts| && a <= n && Returns(ts, a, n) == Offences(lines, l, c)
    decreases c
  {
    hide Listed, Before, InsideTransaction, Offends;
    BeforeBound(lines, |lines|, ps, ts, Place(l, c), n);
    if c == 0 {
      SameCut(ps, Place(l, 0), a, n);
    } else {
      var k := BeforeNext(lines, |lines|, ps, ts, l, c - 1, n);
      LineReturns(lines, ps, ts, l, c - 1, a, k);
      if k < n {
        OffendsIs(lines, ps, ts, k);
      } else {
        NoOffence(lines, Place(l, c - 1));
      }
    }
  }

  lemma NoOffence(lines: seq<bytes>, q: Place)
    requires forall t :: !StandsAt(lines, q, t)
    ensures !Offends(lines, q)
  {
    hide StandsAt;
  }

  lemma SameCut(ps: seq<Place>, q: Place, a: nat, n: nat)
    requires Before(ps, q, a) && Before(ps, q, n)
    ensures a == n
  {
    var x := a < |ps| && Precedes(ps[a], q);
    var y := n < |ps| && Precedes(ps[n], q);
    assert !x && !y;
  }

  // ----- the theorem -----

  /** Nothing in the first m lines goes too deep. */
  ghost predicate Shallow(outs: seq<seq<Complaint>>, m: nat)
    requires m <= |outs|
  {
    forall l :: 0 <= l < m ==> TooDeep !in outs[l]
  }

  lemma {:induction false} JoinedOut(tss: seq<seq<Token>>, outs: seq<seq<Complaint>>, m: nat)
    requires FileComplaints(tss, outs) && m <= |tss| && Shallow(outs, m)
    ensures TooDeep !in Steps(Blocks([], false), Joined(tss[..m])).out
    decreases m
  {
    hide Steps;
    NothingYet();
    if m > 0 {
      JoinedOut(tss, outs, m - 1);
      JoinedNext(tss, m - 1);
      StepsAppend(Blocks([], false), Joined(tss[..m - 1]), tss[m - 1]);
    } else {
      assert tss[..0] == [];
    }
  }

  lemma JoinedNext(tss: seq<seq<Token>>, l: nat)
    requires l < |tss|
    ensures Joined(tss[..l + 1]) == Joined(tss[..l]) + tss[l]
  {
    assert tss[..l + 1][..l] == tss[..l];
  }

  lemma {:induction false} JoinedPrefix(tss: seq<seq<Token>>, l: nat, m: nat)
    requires l <= m <= |tss|
    ensures Joined(tss[..l]) <= Joined(tss[..m])
    decreases m
  {
    if l < m {
      JoinedPrefix(tss, l, m - 1);
      JoinedNext(tss, m - 1);
    }
  }

  /** The tokens before line l are those of the lines before it. */
  lemma {:induction false} LineCut(lines: seq<bytes>, tss: seq<seq<Token>>, m: nat, l: nat) returns (ps: seq<Place>)
    requires FileTokens(lines, tss) && l <= m <= |lines|
    ensures Listed(lines, m, ps, Joined(tss[..m]))
    ensures l < m ==> Before(ps, Place(l, 0), |Joined(tss[..l])|)
    ensures l < m ==> Before(ps, Place(l, |lines[l]|), |Joined(tss[..l + 1])|)
    decreases m
  {
    hide LineTokens;
    if l == m {
      ps := ListedFile(lines, tss, m);
    } else {
      var before := LineCut(lines, tss, m - 1, l);
      var qs := ListedLine(lines, m - 1, before, Joined(tss[..m - 1]), tss[m - 1]);
      ps := before + qs;
      JoinedNext(tss, m - 1);
      CutsAt(lines, m, ps, before, qs, Joined(tss[..m]), l, |Joined(tss[..l])|, |Joined(tss[..l + 1])|);
    }
  }

  lemma CutsAt(lines: seq<bytes>, m: nat, ps: seq<Place>, before: seq<Place>, qs: seq<Place>, ts: seq<Token>, l: nat, a: nat, n: nat)
    requires Listed(lines, m, ps, ts) && ps == before + qs && l < m && (forall k :: 0 <= k < |qs| ==> qs[k].line == m - 1)
    requires forall k :: 0 <= k < |before| ==> before[k].line < m - 1
    requires if l == m - 1 then a == |before| && n == |ps|
             else Before(before, Place(l, 0), a) && Before(before, Place(l, |lines[l]|), n)
    ensures Before(ps, Place(l, 0), a) && Before(ps, Place(l, |lines[l]|), n)
  {
    hide Outside;
    forall k | 0 <= k < |ps|
      ensures (k < a <==> Precedes(ps[k], Place(l, 0))) && (k < n <==> Precedes(ps[k], Place(l, |lines[l]|)))
    {
      assert StandsAt(lines, ps[k], ts[k]);
      if k < |before| { assert ps[k] == before[k]; } else { assert ps[k] == qs[k - |before|]; }
    }
  }

  /** The returns among the tokens of line l, counted in the file. */
  lemma LineCounts(lines: seq<bytes>, tss: seq<seq<Token>>, l: nat)
    requires FileTokens(lines, tss) && l < |lines|
    ensures var ts, a, b := Joined(tss), |Joined(tss[..l])|, |Joined(tss[..l + 1])|;
            && a <= b <= |ts| && ts[..a] == Joined(tss[..l]) && ts[..b] == Joined(tss[..l + 1])
            && Returns(ts, 0, b) - Returns(ts, 0, a) == Offences(lines, l, |lines[l]|)
  {
    hide LineTokens, Listed, Before, Returns, Offences;
    var n := |lines|;
    var ps := LineCut(lines, tss, n, l);
    assert tss[..n] == tss;
    var ts, a, b := Joined(tss), |Joined(tss[..l])|, |Joined(tss[..l + 1])|;
    LineReturns(lines, ps, ts, l, |lines[l]|, a, b);
    JoinedPrefix(tss, l, n);
    JoinedPrefix(tss, l + 1, n);
    ReturnsSplit(ts, a, b);
  }

  /** What a line adds to the complaints of a file in which nothing goes too deep. */
  lemma LineAdds(ts: seq<Token>, a: nat, b: nat, out: seq<Complaint>)
    requires a <= b <= |ts| && Steps(Blocks([], false), ts[..b]).out == Steps(Blocks([], false), ts[..a]).out + out
    requires TooDeep !in Steps(Blocks([], false), ts[..b]).out
    ensures |out| == Returns(ts, 0, b) - Returns(ts, 0, a) && forall k :: 0 <= k < |out| ==> out[k] == ReturnInside
  {
    hide Steps, Returns;
    OutIsReturns(ts, a);
    OutIsReturns(ts, b);
    var x, y := Steps(Blocks([], false), ts[..a]).out, Steps(Blocks([], false), ts[..b]).out;
    forall k | 0 <= k < |out| ensures out[k] == ReturnInside { assert y[|x| + k] == out[k]; }
  }

  /**
   Until more than 16 transactional blocks are open at once, every line of a file is complained about once for each
   `return` in it, outside literals, that stands in a block $transaction opened, and for nothing else.
   */
  lemma LineComplaints(lines: seq<bytes>, tss: seq<seq<Token>>, outs: seq<seq<Complaint>>, l: nat)
    requires FileTokens(lines, tss) && FileComplaints(tss, outs) && l < |lines| && Shallow(outs, l + 1)
    ensures outs[l] == Repeat(Offences(lines, l, |lines[l]|))
  {
    hide Steps, LineTokens, Returns, Offences, FileTokens, Shallow, Joined;
    FileShape(lines, tss);
    LineCounts(lines, tss, l);
    JoinedOut(tss, outs, l + 1);
    JoinedNext(tss, l);
    StepsAppend(Blocks([], false), Joined(tss[..l]), tss[l]);
    LineAdds(Joined(tss), |Joined(tss[..l])|, |Joined(tss[..l + 1])|, outs[l]);
  }

  lemma FileShape(lines: seq<bytes>, tss: seq<seq<Token>>)
    requires FileTokens(lines, tss)
    ensures |tss| == |lines|
  {
  }
}
