/**
 Which handlers can break the promise that an outermost transaction scope is all or nothing.  The answer is read off the
 handler: a statement must be reachable in the scope after a nested scope that can end in order with every transaction
 gone.
 */
module Exposure {
  import opened Bytes
  import opened Sqlite
  import opened Transactions
  import opened Dispatch

  // ----- handlers up to the engine's answers -----

  predicate SameStmt(s: Stmt, t: Stmt) {
    match s
    case Exec(id, _, _, _, _) => t.Exec? && t.id == id
    case Scope(_, _, body, _, _, _) => t.Scope? && SameBlock(body, t.body)
    case _ => t == s
  }

  predicate SameBlock(b: Block, c: Block) {
    if b.Stop? then c.Stop? else c.Then? && SameStmt(b.stmt, c.stmt) && SameBlock(b.rest, c.rest)
  }

  /** A calm engine: a failing statement does not end the transaction, and rollbacks succeed. */
  predicate CalmStmt(s: Stmt) {
    match s
    case Exec(_, _, works, ended, _) => works || !ended
    case Scope(_, _, body, _, rollback, _) => rollback == AsAsked && CalmBlock(body)
    case _ => true
  }

  predicate CalmBlock(b: Block) { b.Then? ==> CalmStmt(b.stmt) && CalmBlock(b.rest) }

  // ----- what a handler can do, whatever the engine answers -----

  /** How a block ends once the request has failed: scopes are passed over, statements go on. */
  function FailedFlow(b: Block): Flow {
    if b.Stop? then Normal
    else match b.stmt
      case Throw => Thrown
      case Leave => Left
      case Return => Returned
      case _ => FailedFlow(b.rest)
  }

  /** Once the request has failed, the block comes to a statement. */
  predicate ExecSoon(b: Block) {
    b.Then? && (b.stmt.Exec? || (!b.stmt.Throw? && !b.stmt.Leave? && !b.stmt.Return? && ExecSoon(b.rest)))
  }

  /** A block at a level can end in order without a failure. */
  predicate CanPass(b: Block, level: nat) {
    b.Stop? ||
    match b.stmt
    case Exec(_, _, _, _, _) => CanPass(b.rest, level)
    case Scope(_, _, body, _, _, _) => level < MAX_LEVELS && CanPass(body, level + 1) && CanPass(b.rest, level)
    case _ => false
  }

  /** It can end by `flow` with the request failed and its transactions still open. */
  predicate CanFail(b: Block, level: nat, flow: Flow) {
    b.Then? &&
    match b.stmt
    case Exec(_, _, _, _, _) => FailedFlow(b.rest) == flow || CanFail(b.rest, level, flow)
    case Fail => FailedFlow(b.rest) == flow
    case Scope(_, _, body, _, _, _) =>
      && level < MAX_LEVELS
      && ((CanPass(body, level + 1) && CanFail(b.rest, level, flow))
          || (CanFail(body, level + 1, Normal) && FailedFlow(b.rest) == flow))
    case _ => false
  }

  /** It can be left early with the request failed and every transaction gone. */
  predicate CanLeaveGone(b: Block, level: nat, calm: bool)
    decreases b, 0
  {
    b.Then? &&
    match b.stmt
    case Exec(_, _, _, _, _) => CanLeaveGone(b.rest, level, calm)
    case Scope(_, _, body, _, _, _) =>
      && level < MAX_LEVELS
      && ((CanPass(body, level + 1) && CanLeaveGone(b.rest, level, calm))
          || (CanLose(body, level + 1, calm) && FailedFlow(b.rest) == Left))
    case _ => false
  }

  /**
   A scope with this body, nested in another, can end in order with every transaction gone: it is left early after a
   failure, or, when the engine need not be calm, its rollback finds no transaction or fails.
   */
  predicate CanLose(body: Block, level: nat, calm: bool)
    decreases body, 1
  {
    CanFail(body, level, Left) || CanLeaveGone(body, level, calm) || (!calm && CanFail(body, level, Normal))
  }

  /** It can come to a statement after such a scope. */
  predicate Strays(b: Block, level: nat, calm: bool) {
    b.Then? &&
    match b.stmt
    case Exec(_, _, _, _, _) => Strays(b.rest, level, calm)
    case Scope(_, _, body, _, _, _) =>
      && level < MAX_LEVELS
      && (|| Strays(body, level + 1, calm)
          || (CanLose(body, level + 1, calm) && ExecSoon(b.rest))
          || (CanPass(body, level + 1) && Strays(b.rest, level, calm)))
    case _ => false
  }

  /** The outermost scope s can lose its transaction and go on writing. */
  predicate Exposed(s: Stmt, calm: bool)
    requires s.Scope?
  {
    Strays(s.body, 1, calm)
  }

  // ----- nothing else happens -----

  ghost predicate Keeps(q: Request) { q.t.depth > 0 ==> Live(q.store) }

  /** A run after the request has failed. */
  lemma {:induction false} FailedRun(b: Block, q: Request, calm: bool)
    requires Sound(q) && q.failed && (calm ==> CalmBlock(b) && Keeps(q))
    ensures var o := RunBlock(b, q, true);
            && o.flow == FailedFlow(b) && o.q.failed && o.q.t.depth == q.t.depth
            && (q.t.depth > 0 || !ExecSoon(b) ==> o.stray == []) && (calm ==> Keeps(o.q))
    decreases b
  {
    hide Execute, Good;
    if b.Then? {
      FailedStep(b.stmt, q, calm);
      var o := RunStmt(b.stmt, q, true);
      if o.flow == Normal { FailedRun(b.rest, o.q, calm); }
    }
  }

  lemma FailedStep(s: Stmt, q: Request, calm: bool)
    requires Sound(q) && q.failed && (calm ==> CalmStmt(s) && Keeps(q))
    ensures var o := RunStmt(s, q, true);
            && o.flow == FailedFlow(Then(s, Stop)) && o.q.failed && o.q.t.depth == q.t.depth
            && (q.t.depth > 0 || !s.Exec? ==> o.stray == []) && (calm ==> Keeps(o.q))
  {
    if s.Exec? {
      ExecuteWrites(Locked(q.store, q.t, ME), q.t, if s.works then Wrote(Contents(q.store) + [s.id]) else Failed(s.ended));
    }
  }

  /** The end of a nested scope, in the cases that go on in order. */
  lemma EndCases(q: Request, level: nat, end: Fate, abort: Fate)
    requires Sound(q) && level > 0 && (q.t.depth == level + 1 || (q.failed && q.t.depth == 0))
    ensures var (q', flow) := EndScope(q, level + 1, end, abort);
            && (flow == Normal || flow == Thrown) && Sound(q')
            && (flow == Normal ==> q.t.depth == level + 1 && q'.failed == q.failed)
            && (flow == Normal && !q.failed ==> q'.t.depth == level && Live(q'.store))
            && (flow == Normal && q.failed ==> (q'.t.depth == level && Live(q'.store)) || q'.t.depth == 0)
            && (flow == Normal && q.failed && Live(q.store) && end == AsAsked ==> q'.t.depth == level)
  {
    RollbackRestoresLevel(q.store, q.t, end);
    CommitPops(q.store, q.t, end);
    AbortSound(q, abort);
    var r := RollbackBody(q.store, q.t, end);
    if r.rc != 0 { AbortSound(q.(store := r.store, t := r.thread), abort); }
    var c := CommitBody(q.store, q.t, end);
    if c.rc != 0 { AbortSound(q.(store := c.store, t := c.thread), abort); }
    if q.t.depth == level + 1 && Live(q.store) { FindLevel(q.store.db.value.saves, level + 1); }
  }

  /** Where a block at a level can be when it ends in order or is left early. */
  ghost predicate Foreseen(b: Block, level: nat, calm: bool, o: Out) {
    && Sound(o.q) && (calm && o.flow != Thrown ==> Keeps(o.q))
    && (o.stray != [] ==> Strays(b, level, calm))
    && (o.flow == Normal ==>
          if o.q.failed then (o.q.t.depth == level && CanFail(b, level, Normal)) || o.q.t.depth == 0
          else o.q.t.depth == level && CanPass(b, level))
    && (o.flow == Left && o.q.failed ==>
          (o.q.t.depth == level && CanFail(b, level, Left)) || (o.q.t.depth == 0 && CanLeaveGone(b, level, calm)))
  }

  /** Where a nested scope can be when it is over. */
  ghost predicate ScopeForeseen(body: Block, level: nat, calm: bool, o: Out) {
    && Sound(o.q) && (calm && o.flow != Thrown ==> Keeps(o.q)) && o.flow != Left
    && (o.stray != [] ==> level < MAX_LEVELS && Strays(body, level + 1, calm))
    && (o.flow == Normal ==>
          && level < MAX_LEVELS
          && if o.q.failed then (o.q.t.depth == level && CanFail(body, level + 1, Normal))
                                || (o.q.t.depth == 0 && CanLose(body, level + 1, calm))
             else o.q.t.depth == level && CanPass(body, level + 1))
  }

  lemma ScopeSound(s: Stmt, q: Request, level: nat, calm: bool)
    requires s.Scope? && Sound(q) && !q.failed && q.t.depth == level > 0 && (calm ==> CalmStmt(s) && Keeps(q))
    ensures ScopeForeseen(s.body, level, calm, RunStmt(s, q, true))
    decreases s, 0
  {
    hide Good, BeginBody, CommitBody, RollbackBody, AbortBody, RunBlock, EndScope, CanPass, CanFail, CanLeaveGone, Strays;
    BeginSound(q, s.granted, s.begin);
    BeginPushesScope(q, s.granted, s.begin);
    BeginLevel(q, s.granted, s.begin);
    var r := BeginScope(q, s.granted, s.begin);
    var q1 := q.(store := r.store, t := r.thread);
    if r.rc == 0 {
      BlockSound(s.body, q1, level + 1, calm);
      var b := RunBlock(s.body, q1, true);
      AbortSound(b.q, s.abort);
      if b.flow == Normal { EndCases(b.q, level, if b.q.failed then s.rollback else s.commit, s.abort); }
    }
  }

  lemma BeginLevel(q: Request, granted: bool, fate: Fate)
    requires Sound(q)
    ensures BeginScope(q, granted, fate).rc == 0 ==> q.t.depth < MAX_LEVELS
    ensures BeginScope(q, granted, fate).rc == 0 || BeginScope(q, granted, fate).thread == q.t
  {
    if q.t.depth < MAX_LEVELS { BeginPushes(Locked(q.store, q.t, ME), q.t, fate); }
  }

  lemma {:induction false} BlockSound(b: Block, q: Request, level: nat, calm: bool)
    requires Sound(q) && !q.failed && q.t.depth == level > 0 && (calm ==> CalmBlock(b) && Keeps(q))
    ensures Foreseen(b, level, calm, RunBlock(b, q, true))
    decreases b
  {
    hide Execute, Good, RunStmt;
    if b.Then? {
      var o := RunStmt(b.stmt, q, true);
      if b.stmt.Scope? {
        ScopeSound(b.stmt, q, level, calm);
      } else {
        StepSound(b.stmt, q, calm);
      }
      if o.flow == Normal {
        if o.q.failed { FailedRun(b.rest, o.q, calm); } else { BlockSound(b.rest, o.q, level, calm); }
      }
    }
  }

  lemma StepSound(s: Stmt, q: Request, calm: bool)
    requires !s.Scope? && Sound(q) && !q.failed && q.t.depth > 0 && (calm ==> CalmStmt(s) && Keeps(q))
    ensures var o := RunStmt(s, q, true);
            && Sound(o.q) && o.stray == [] && o.q.t.depth == q.t.depth && (calm ==> Keeps(o.q))
            && (o.flow == Normal ==> s.Exec? || (s.Fail? && o.q.failed))
            && (o.flow == Left ==> s.Leave? && !o.q.failed)
  {
    if s.Exec? {
      ExecuteWrites(Locked(q.store, q.t, ME), q.t, if s.works then Wrote(Contents(q.store) + [s.id]) else Failed(s.ended));
    }
  }

  // ----- and all of it does happen -----

  /** Every statement works and every control statement goes as asked. */
  function AllGood(b: Block): Block {
    if b.Stop? then Stop
    else
      var stmt := match b.stmt
        case Exec(id, _, _, _, _) => Exec(id, true, true, false, false)
        case Scope(_, _, body, _, _, _) => Scope(true, AsAsked, AllGood(body), AsAsked, AsAsked, AsAsked)
        case s => s;
      Then(stmt, AllGood(b.rest))
  }

  lemma {:induction false} AllGoodShape(b: Block)
    ensures SameBlock(b, AllGood(b)) && CalmBlock(AllGood(b))
    ensures FailedFlow(AllGood(b)) == FailedFlow(b) && (ExecSoon(AllGood(b)) <==> ExecSoon(b))
    decreases b
  {
    if b.Then? {
      AllGoodShape(b.rest);
      if b.stmt.Scope? { AllGoodShape(b.stmt.body); }
    }
  }

  /** At a level, with a live transaction and nothing failed. */
  ghost predicate Fine(q: Request, level: nat) {
    Sound(q) && 0 < level == q.t.depth && Live(q.store) && !q.failed && q.t.failed == 0
  }

  /** At a level, with a live transaction and the request failed. */
  ghost predicate Bad(q: Request, level: nat) { Sound(q) && 0 < level == q.t.depth && Live(q.store) && q.failed }

  /** The request has failed and its transactions are gone. */
  ghost predicate Gone(q: Request) { Sound(q) && q.t.depth == 0 && q.failed && q.store.db == Some(Idle) }

  lemma ExecGood(id: nat, q: Request, level: nat)
    requires Fine(q, level)
    ensures var o := RunStmt(Exec(id, true, true, false, false), q, true); o.flow == Normal && Fine(o.q, level)
  {
    ExecuteWrites(q.store, q.t, Wrote(Contents(q.store) + [id]));
  }

  lemma ExecBad(id: nat, q: Request, level: nat)
    requires Fine(q, level)
    ensures var o := RunStmt(Exec(id, true, false, false, true), q, true); o.flow == Normal && Bad(o.q, level)
  {
    ExecuteWrites(q.store, q.t, Failed(false));
  }

  lemma BeginFine(q: Request, level: nat)
    requires Fine(q, level) && level < MAX_LEVELS
    ensures var r := BeginScope(q, true, AsAsked);
            r.rc == 0 && r.thread.depth == level + 1 && Fine(q.(store := r.store, t := r.thread), level + 1)
  {
    BeginPushes(q.store, q.t, AsAsked);
  }

  lemma CommitFine(q: Request, level: nat)
    requires Fine(q, level + 1) && level > 0
    ensures var (q', flow) := EndScope(q, level + 1, AsAsked, AsAsked); flow == Normal && Fine(q', level)
  {
    CommitPops(q.store, q.t, AsAsked);
    FindLevel(q.store.db.value.saves, level + 1);
  }

  lemma RollbackBad(q: Request, level: nat)
    requires Bad(q, level + 1) && level > 0
    ensures var (q', flow) := EndScope(q, level + 1, AsAsked, AsAsked); flow == Normal && Bad(q', level)
    ensures var (q', flow) := EndScope(q, level + 1, Fails, AsAsked); flow == Normal && Gone(q')
  {
    RollbackRestoresLevel(q.store, q.t, AsAsked);
    RollbackRestoresLevel(q.store, q.t, Fails);
    FindLevel(q.store.db.value.saves, level + 1);
  }

  lemma LeaveGone(q: Request, level: nat)
    requires Bad(q, level) || Gone(q)
    ensures var (q', flow) := CleanupScope(q, Left, AsAsked); flow == Normal && Gone(q')
  {
    AbortClears(q.store, q.t, AsAsked);
  }

  lemma {:induction false} MakePass(b: Block, level: nat, q: Request)
    requires CanPass(b, level) && Fine(q, level)
    ensures var o := RunBlock(AllGood(b), q, true); o.flow == Normal && Fine(o.q, level)
    decreases b
  {
    hide Fine, Execute, Good, BeginBody, CommitBody, EndScope, RunStmt;
    FineSound(q, level);
    if b.Then? {
      if b.stmt.Exec? { ExecGood(b.stmt.id, q, level); } else { PassScope(b.stmt, level, q); }
      MakePass(b.rest, level, RunStmt(AllGood(b).stmt, q, true).q);
    }
  }

  lemma FineSound(q: Request, level: nat)
    requires Fine(q, level)
    ensures Sound(q) && q.t.depth == level > 0 && !q.failed
  {
  }

  /** The answers that take a nested scope through in order. */
  function GoodScope(body: Block, rollback: Fate): Stmt { Scope(true, AsAsked, body, AsAsked, rollback, AsAsked) }

  lemma PassScope(s: Stmt, level: nat, q: Request)
    requires s.Scope? && level < MAX_LEVELS && CanPass(s.body, level + 1) && Fine(q, level)
    ensures Sound(q)
    ensures var o := RunStmt(GoodScope(AllGood(s.body), AsAsked), q, true); o.flow == Normal && Fine(o.q, level)
    decreases s
  {
    BeginFine(q, level);
    var r := BeginScope(q, true, AsAsked);
    var q1 := q.(store := r.store, t := r.thread);
    hide Fine, Execute, Good, BeginScope, EndScope, RunBlock, CanPass, AllGood;
    FineSound(q, level);
    MakePass(s.body, level + 1, q1);
    var o := RunBlock(AllGood(s.body), q1, true);
    FineSound(o.q, level + 1);
    CommitFine(o.q, level);
  }

  /** A nested scope whose body ends in order after a failure. */
  lemma ScopeFails(body: Block, level: nat, q: Request, rollback: Fate)
    requires Fine(q, level) && level < MAX_LEVELS && (rollback == AsAsked || rollback == Fails)
    requires var r := BeginScope(q, true, AsAsked);
             var q1 := q.(store := r.store, t := r.thread);
             Sound(q1) && RunBlock(body, q1, true).flow == Normal && Bad(RunBlock(body, q1, true).q, level + 1)
    ensures Sound(q)
    ensures var o := RunStmt(GoodScope(body, rollback), q, true);
            o.flow == Normal && if rollback == AsAsked then Bad(o.q, level) else Gone(o.q)
  {
    BeginFine(q, level);
    var r := BeginScope(q, true, AsAsked);
    var q1 := q.(store := r.store, t := r.thread);
    RollbackBad(RunBlock(body, q1, true).q, level);
    hide Good, BeginScope, EndScope, RunBlock;
  }

  /** A nested scope that is left early after a failure. */
  lemma ScopeLeft(body: Block, level: nat, q: Request)
    requires Fine(q, level) && level < MAX_LEVELS
    requires var r := BeginScope(q, true, AsAsked);
             var q1 := q.(store := r.store, t := r.thread);
             && Sound(q1) && RunBlock(body, q1, true).flow == Left
             && (Bad(RunBlock(body, q1, true).q, level + 1) || Gone(RunBlock(body, q1, true).q))
    ensures Sound(q)
    ensures var o := RunStmt(GoodScope(body, AsAsked), q, true); o.flow == Normal && Gone(o.q)
  {
    BeginFine(q, level);
    var r := BeginScope(q, true, AsAsked);
    var q1 := q.(store := r.store, t := r.thread);
    LeaveGone(RunBlock(body, q1, true).q, level + 1);
    hide Good, BeginScope, CleanupScope, RunBlock, EndScope;
  }

  /** Once failed at a level, the rest of the block goes its way with the transaction open. */
  lemma BadRest(b: Block, level: nat, q: Request)
    requires Bad(q, level)
    ensures var o := RunBlock(AllGood(b), q, true); o.flow == FailedFlow(b) && Bad(o.q, level)
  {
    AllGoodShape(b);
    FailedRun(AllGood(b), q, true);
  }

  /** Once everything is gone, the rest of the block goes its way, and statements reach the disk. */
  lemma {:induction false} GoneRest(b: Block, q: Request)
    requires Gone(q)
    ensures var o := RunBlock(AllGood(b), q, true);
            o.flow == FailedFlow(b) && Gone(o.q) && (ExecSoon(b) ==> o.stray != [])
    decreases b
  {
    if b.Then? {
      var o := RunStmt(AllGood(b).stmt, q, true);
      if b.stmt.Exec? {
        ExecuteWrites(Locked(q.store, q.t, ME), q.t, Wrote(Contents(q.store) + [b.stmt.id]));
        assert o.flow == Normal && Gone(o.q) && o.stray == [b.stmt.id];
      }
      if o.flow == Normal { GoneRest(b.rest, o.q); }
    }
  }

  /** c is b with answers, calm ones if that is asked. */
  ghost predicate Answered(b: Block, c: Block, calm: bool) { SameBlock(b, c) && (calm ==> CalmBlock(c)) }

  lemma GoodAnswers(b: Block, calm: bool)
    ensures Answered(b, AllGood(b), calm)
  {
    AllGoodShape(b);
  }

  lemma AnswerThen(b: Block, stmt: Stmt, rest: Block, calm: bool)
    requires b.Then? && SameStmt(b.stmt, stmt) && (calm ==> CalmStmt(stmt)) && Answered(b.rest, rest, calm)
    ensures Answered(b, Then(stmt, rest), calm)
  {
  }

  lemma AnswerScope(s: Stmt, body: Block, rollback: Fate, calm: bool)
    requires s.Scope? && Answered(s.body, body, calm) && (calm ==> rollback == AsAsked)
    ensures SameStmt(s, GoodScope(body, rollback)) && (calm ==> CalmStmt(GoodScope(body, rollback)))
  {
  }

  lemma {:induction false} MakeFail(b: Block, level: nat, flow: Flow, q: Request) returns (c: Block)
    requires CanFail(b, level, flow) && Fine(q, level)
    ensures Sound(q) && Answered(b, c, true)
    ensures var o := RunBlock(c, q, true); o.flow == flow && Bad(o.q, level)
    decreases b
  {
    hide Good, Execute, BeginScope, EndScope, CleanupScope, CanPass, AllGood, Answered;
    GoodAnswers(b.rest, true);
    if b.stmt.Exec? {
      var id := b.stmt.id;
      if FailedFlow(b.rest) == flow {
        c := Then(Exec(id, true, false, false, true), AllGood(b.rest));
        ExecBad(id, q, level);
        BadRest(b.rest, level, RunStmt(c.stmt, q, true).q);
        AnswerThen(b, c.stmt, c.rest, true);
      } else {
        ExecGood(id, q, level);
        var rest := MakeFail(b.rest, level, flow, RunStmt(Exec(id, true, true, false, false), q, true).q);
        c := Then(Exec(id, true, true, false, false), rest);
        AnswerThen(b, c.stmt, c.rest, true);
      }
    } else if b.stmt.Fail? {
      c := Then(Fail, AllGood(b.rest));
      BadRest(b.rest, level, RunStmt(Fail, q, true).q);
      AnswerThen(b, c.stmt, c.rest, true);
    } else {
      var body := b.stmt.body;
      GoodAnswers(body, true);
      if CanPass(body, level + 1) && CanFail(b.rest, level, flow) {
        PassScope(b.stmt, level, q);
        var s := GoodScope(AllGood(body), AsAsked);
        var rest := MakeFail(b.rest, level, flow, RunStmt(s, q, true).q);
        c := Then(s, rest);
        AnswerScope(b.stmt, AllGood(body), AsAsked, true);
        AnswerThen(b, c.stmt, c.rest, true);
      } else {
        BeginFine(q, level);
        var r := BeginScope(q, true, AsAsked);
        var inner := MakeFail(body, level + 1, Normal, q.(store := r.store, t := r.thread));
        ScopeFails(inner, level, q, AsAsked);
        c := Then(GoodScope(inner, AsAsked), AllGood(b.rest));
        BadRest(b.rest, level, RunStmt(c.stmt, q, true).q);
        AnswerScope(b.stmt, inner, AsAsked, true);
        AnswerThen(b, c.stmt, c.rest, true);
      }
    }
  }

  lemma CalmScope(body: Block, inner: Block, rollback: Fate, calm: bool)
    requires Answered(body, inner, true) || Answered(body, inner, calm)
    ensures SameBlock(body, inner)
    ensures calm && rollback == AsAsked ==> CalmStmt(GoodScope(inner, rollback))
  {
  }

  /** A nested scope that ends in order with everything gone. */
  lemma {:induction false} MakeLose(body: Block, level: nat, calm: bool, q: Request) returns (s: Stmt)
    requires level < MAX_LEVELS && CanLose(body, level + 1, calm) && Fine(q, level)
    ensures Sound(q) && s.Scope? && SameBlock(body, s.body) && (calm ==> CalmStmt(s))
    ensures var o := RunStmt(s, q, true); o.flow == Normal && Gone(o.q)
    decreases body, 1
  {
    hide Good, Execute, BeginScope, EndScope, CleanupScope, CanPass, CanFail, CanLeaveGone, AllGood, RunBlock, RunStmt;
    BeginFine(q, level);
    var r := BeginScope(q, true, AsAsked);
    var q1 := q.(store := r.store, t := r.thread);
    if CanFail(body, level + 1, Left) {
      var inner := MakeFail(body, level + 1, Left, q1);
      ScopeLeft(inner, level, q);
      s := GoodScope(inner, AsAsked);
      CalmScope(body, inner, AsAsked, calm);
    } else if CanLeaveGone(body, level + 1, calm) {
      var inner := MakeLeaveGone(body, level + 1, calm, q1);
      ScopeLeft(inner, level, q);
      s := GoodScope(inner, AsAsked);
      CalmScope(body, inner, AsAsked, calm);
    } else {
      var inner := MakeFail(body, level + 1, Normal, q1);
      ScopeFails(inner, level, q, Fails);
      s := GoodScope(inner, Fails);
      CalmScope(body, inner, Fails, calm);
    }
  }

  lemma {:induction false} MakeLeaveGone(b: Block, level: nat, calm: bool, q: Request) returns (c: Block)
    requires CanLeaveGone(b, level, calm) && Fine(q, level)
    ensures Sound(q) && Answered(b, c, calm)
    ensures var o := RunBlock(c, q, true); o.flow == Left && Gone(o.q)
    decreases b, 0
  {
    hide Good, Execute, BeginScope, EndScope, CleanupScope, CanPass, CanLose, AllGood, Answered;
    GoodAnswers(b.rest, calm);
    if b.stmt.Exec? {
      var good := Exec(b.stmt.id, true, true, false, false);
      ExecGood(b.stmt.id, q, level);
      var rest := MakeLeaveGone(b.rest, level, calm, RunStmt(good, q, true).q);
      c := Then(good, rest);
      AnswerThen(b, good, rest, calm);
    } else if CanPass(b.stmt.body, level + 1) && CanLeaveGone(b.rest, level, calm) {
      GoodAnswers(b.stmt.body, calm);
      PassScope(b.stmt, level, q);
      var s := GoodScope(AllGood(b.stmt.body), AsAsked);
      var rest := MakeLeaveGone(b.rest, level, calm, RunStmt(s, q, true).q);
      c := Then(s, rest);
      AnswerScope(b.stmt, AllGood(b.stmt.body), AsAsked, calm);
      AnswerThen(b, s, rest, calm);
    } else {
      var s := MakeLose(b.stmt.body, level, calm, q);
      c := Then(s, AllGood(b.rest));
      GoneRest(b.rest, RunStmt(s, q, true).q);
      AnswerThen(b, s, AllGood(b.rest), calm);
    }
  }

  lemma {:induction false} MakeStray(b: Block, level: nat, calm: bool, q: Request) returns (c: Block)
    requires Strays(b, level, calm) && Fine(q, level)
    ensures Sound(q) && Answered(b, c, calm) && RunBlock(c, q, true).stray != []
    decreases b
  {
    hide Good, Execute, BeginScope, EndScope, CleanupScope, CanPass, CanLose, AllGood, Answered;
    GoodAnswers(b.rest, calm);
    if b.stmt.Exec? {
      var good := Exec(b.stmt.id, true, true, false, false);
      ExecGood(b.stmt.id, q, level);
      var rest := MakeStray(b.rest, level, calm, RunStmt(good, q, true).q);
      c := Then(good, rest);
      AnswerThen(b, good, rest, calm);
    } else if Strays(b.stmt.body, level + 1, calm) {
      BeginFine(q, level);
      var r := BeginScope(q, true, AsAsked);
      var inner := MakeStray(b.stmt.body, level + 1, calm, q.(store := r.store, t := r.thread));
      c := Then(GoodScope(inner, AsAsked), AllGood(b.rest));
      StrayInside(inner, q, level);
      AnswerScope(b.stmt, inner, AsAsked, calm);
      AnswerThen(b, c.stmt, c.rest, calm);
    } else if CanLose(b.stmt.body, level + 1, calm) && ExecSoon(b.rest) {
      var s := MakeLose(b.stmt.body, level, calm, q);
      c := Then(s, AllGood(b.rest));
      GoneRest(b.rest, RunStmt(s, q, true).q);
      AnswerThen(b, s, AllGood(b.rest), calm);
    } else {
      GoodAnswers(b.stmt.body, calm);
      PassScope(b.stmt, level, q);
      var s := GoodScope(AllGood(b.stmt.body), AsAsked);
      var rest := MakeStray(b.rest, level, calm, RunStmt(s, q, true).q);
      c := Then(s, rest);
      AnswerScope(b.stmt, AllGood(b.stmt.body), AsAsked, calm);
      AnswerThen(b, s, rest, calm);
    }
  }

  /** Stray writes of a nested scope are stray writes of the scope around it. */
  lemma StrayInside(body: Block, q: Request, level: nat)
    requires Fine(q, level) && level < MAX_LEVELS
    requires var r := BeginScope(q, true, AsAsked);
             Sound(q.(store := r.store, t := r.thread)) && RunBlock(body, q.(store := r.store, t := r.thread), true).stray != []
    ensures Sound(q) && RunStmt(GoodScope(body, AsAsked), q, true).stray != []
  {
    BeginFine(q, level);
    hide Good, BeginScope, EndScope, CleanupScope, RunBlock;
  }

  // ----- the exact condition -----

  /** What an outermost scope promises: all of its writes, or none and a failed request. */
  ghost predicate AllOrNothing(s: Stmt, q: Request)
    requires Sound(q)
  {
    var o := RunStmt(s, q, false);
    o.q.store.disk == if o.q.failed then q.store.disk else q.store.disk + o.writes
  }

  /** A request that comes to an outermost scope. */
  ghost predicate Arrives(q: Request) { Sound(q) && q.t.depth == 0 && !q.failed }

  ghost predicate Always(s: Stmt, calm: bool) {
    forall t, q :: SameStmt(s, t) && (calm ==> CalmStmt(t)) && Arrives(q) ==> AllOrNothing(t, q)
  }

  lemma {:induction false} SameEnds(b: Block, c: Block)
    requires SameBlock(b, c)
    ensures FailedFlow(b) == FailedFlow(c) && ExecSoon(b) == ExecSoon(c)
    decreases b
  {
    if b.Then? { SameEnds(b.rest, c.rest); }
  }

  lemma {:induction false} SamePass(b: Block, c: Block, level: nat)
    requires SameBlock(b, c)
    ensures CanPass(b, level) == CanPass(c, level)
    decreases b
  {
    if b.Then? {
      SamePass(b.rest, c.rest, level);
      if b.stmt.Scope? { SamePass(b.stmt.body, c.stmt.body, level + 1); }
    }
  }

  lemma {:induction false} SameFail(b: Block, c: Block, level: nat, flow: Flow)
    requires SameBlock(b, c)
    ensures CanFail(b, level, flow) == CanFail(c, level, flow)
    decreases b
  {
    hide CanPass, FailedFlow;
    if b.Then? {
      SameEnds(b.rest, c.rest);
      SameFail(b.rest, c.rest, level, flow);
      if b.stmt.Scope? {
        SamePass(b.stmt.body, c.stmt.body, level + 1);
        SameFail(b.stmt.body, c.stmt.body, level + 1, Normal);
      }
    }
  }

  lemma {:induction false} SameLose(b: Block, c: Block, level: nat, calm: bool)
    requires SameBlock(b, c)
    ensures CanLeaveGone(b, level, calm) == CanLeaveGone(c, level, calm) && CanLose(b, level, calm) == CanLose(c, level, calm)
    decreases b
  {
    hide CanPass, FailedFlow, CanFail;
    SameFail(b, c, level, Left);
    SameFail(b, c, level, Normal);
    if b.Then? {
      SameEnds(b.rest, c.rest);
      SameLose(b.rest, c.rest, level, calm);
      if b.stmt.Scope? {
        SamePass(b.stmt.body, c.stmt.body, level + 1);
        SameLose(b.stmt.body, c.stmt.body, level + 1, calm);
      }
    }
  }

  /** Exposure does not depend on the engine's answers. */
  lemma {:induction false} SameStrays(b: Block, c: Block, level: nat, calm: bool)
    requires SameBlock(b, c)
    ensures Strays(b, level, calm) == Strays(c, level, calm)
    decreases b
  {
    hide CanPass, ExecSoon, CanLose;
    if b.Then? {
      SameEnds(b.rest, c.rest);
      SameStrays(b.rest, c.rest, level, calm);
      if b.stmt.Scope? {
        SamePass(b.stmt.body, c.stmt.body, level + 1);
        SameLose(b.stmt.body, c.stmt.body, level + 1, calm);
        SameStrays(b.stmt.body, c.stmt.body, level + 1, calm);
      }
    }
  }

  lemma ScopeDisk(s: Stmt, q: Request)
    requires s.Scope? && Arrives(q)
    ensures var o := RunStmt(s, q, false);
            && (o.stray == [] ==> AllOrNothing(s, q)) && (o.stray != [] ==> !AllOrNothing(s, q))
  {
    hide RunBlock, EndScope, CleanupScope, BeginScope, Good;
    OutermostScope(s, q);
    var o := RunStmt(s, q, false);
    assert q.store.disk + [] == q.store.disk;
    assert |q.store.disk + o.stray| == |q.store.disk| + |o.stray|;
  }

  lemma UnexposedHolds(s: Stmt, q: Request, calm: bool)
    requires s.Scope? && Arrives(q) && !Exposed(s, calm) && (calm ==> CalmStmt(s))
    ensures AllOrNothing(s, q)
  {
    hide Good, BeginBody, RunBlock, Strays, EndScope, CleanupScope;
    ScopeDisk(s, q);
    BeginSound(q, s.granted, s.begin);
    BeginPushesScope(q, s.granted, s.begin);
    var r := BeginScope(q, s.granted, s.begin);
    if r.rc == 0 { BlockSound(s.body, q.(store := r.store, t := r.thread), 1, calm); }
  }

  lemma ExposedFails(s: Stmt, calm: bool) returns (t: Stmt, q: Request)
    requires s.Scope? && Exposed(s, calm)
    ensures SameStmt(s, t) && (calm ==> CalmStmt(t)) && Arrives(q) && !AllOrNothing(t, q)
  {
    hide Strays, EndScope, CleanupScope;
    q := Request(Store([], Some(Idle), None), Thread(0, 0), false);
    var r := BeginScope(q, true, AsAsked);
    var q1 := q.(store := r.store, t := r.thread);
    assert Fine(q1, 1);
    var c := MakeStray(s.body, 1, calm, q1);
    t := GoodScope(c, AsAsked);
    ScopeDisk(t, q);
    hide RunBlock, BeginScope;
    assert RunStmt(t, q, false).stray == RunBlock(c, q1, true).stray;
  }

  /**
   An outermost scope is all or nothing, for every request and whatever the engine answers, exactly when the handler is
   not exposed; and so for every request when the engine is calm.
   */
  lemma ExactlyUnexposed(s: Stmt, calm: bool)
    requires s.Scope?
    ensures Always(s, calm) <==> !Exposed(s, calm)
  {
    hide Strays, AllOrNothing;
    if Exposed(s, calm) {
      var t, q := ExposedFails(s, calm);
    } else {
      forall t, q | SameStmt(s, t) && (calm ==> CalmStmt(t)) && Arrives(q) ensures AllOrNothing(t, q) {
        SameStrays(s.body, t.body, 1, calm);
        UnexposedHolds(t, q, calm);
      }
    }
  }

  // ----- the two causes -----

  const FRESH: Request := Request(Store([], Some(Idle), None), Thread(0, 0), false)
  const LEVEL1: Request := Request(Store([], Some(Txn([], [])), Some(ME)), Thread(1, 0), false)
  const LEVEL2: Request := Request(Store([], Some(Txn([], [Savepoint(2, [])])), Some(ME)), Thread(2, 0), false)
  const LOST: Request := Request(Store([], Some(Idle), None), Thread(0, 0), true)

  function WriteTwo(): Block { Then(Exec(2, true, true, false, true), Stop) }

  /** A scope around an inner one and a write. */
  function Around(inner: Stmt): Stmt { Scope(true, AsAsked, Then(inner, WriteTwo()), AsAsked, AsAsked, AsAsked) }

  lemma WriteEscapes(inner: Stmt)
    requires Sound(LEVEL1) && RunStmt(inner, LEVEL1, true) == Out(LOST, Normal, [], [])
    ensures var o := RunStmt(Around(inner), FRESH, false); o.q.failed && o.q.store.disk == [2]
  {
    var r := BeginScope(FRESH, true, AsAsked);
    assert FRESH.(store := r.store, t := r.thread) == LEVEL1;
    assert [] + [2] == [2] && [2] + [] == [2];
    assert Execute(LOST, Exec(2, true, true, false, true), true).stray == [2];
    assert RunBlock(WriteTwo(), LOST, true).stray == [2];
    hide RunStmt;
    assert RunBlock(Then(inner, WriteTwo()), LEVEL1, true).stray == [2];
    OneScope(Then(inner, WriteTwo()));
    OutermostScope(Around(inner), FRESH);
  }

  lemma OneScope(body: Block)
    requires Sound(LEVEL1)
    ensures RunStmt(GoodScope(body, AsAsked), FRESH, false).stray == RunBlock(body, LEVEL1, true).stray
  {
    var r := BeginScope(FRESH, true, AsAsked);
    assert FRESH.(store := r.store, t := r.thread) == LEVEL1;
    hide BeginScope, RunBlock, EndScope, CleanupScope, Good;
  }

  lemma InnerScope(body: Block, rollback: Fate)
    requires Sound(LEVEL1) && Sound(LEVEL2)
    ensures var b := RunBlock(body, LEVEL2, true);
            RunStmt(GoodScope(body, rollback), LEVEL1, true) ==
            if b.flow == Thrown then b
            else
              var e := if b.flow == Normal then EndScope(b.q, 2, if b.q.failed then rollback else AsAsked, AsAsked)
                       else CleanupScope(b.q, b.flow, AsAsked);
              Out(e.0, e.1, b.writes, b.stray)
  {
    var r := BeginScope(LEVEL1, true, AsAsked);
    var none: seq<Savepoint<Log>> := [];
    assert none + [Savepoint(2, [])] == [Savepoint(2, [])];
    assert LEVEL1.(store := r.store, t := r.thread) == LEVEL2;
    hide BeginScope, RunBlock, EndScope, CleanupScope, Good;
  }

  const FAILS: Block := Then(Exec(1, true, false, true, true), Stop)
  const LEAVES: Block := Then(Fail, Then(Leave, Stop))
  const ENDED: Request := Request(Store([], Some(Idle), Some(ME)), Thread(2, 2), true)

  lemma FailsExposed()
    ensures Exposed(Around(GoodScope(FAILS, AsAsked)), false) && !Exposed(Around(GoodScope(FAILS, AsAsked)), true)
  {
    assert CanFail(FAILS, 2, Normal) && !CanFail(FAILS, 2, Left);
  }

  lemma LeavesExposed()
    ensures CalmStmt(Around(GoodScope(LEAVES, AsAsked))) && Exposed(Around(GoodScope(LEAVES, AsAsked)), true)
  {
    assert CanFail(LEAVES, 2, Left);
  }

  lemma FailsRun()
    ensures Sound(LEVEL2) && RunBlock(FAILS, LEVEL2, true) == Out(ENDED, Normal, [], [])
    ensures Sound(ENDED) && EndScope(ENDED, 2, AsAsked, AsAsked) == (LOST, Normal)
  {
  }

  lemma LeavesRun()
    ensures Sound(LEVEL2) && RunBlock(LEAVES, LEVEL2, true) == Out(LEVEL2.(failed := true), Left, [], [])
    ensures Sound(LEVEL2.(failed := true)) && CleanupScope(LEVEL2.(failed := true), Left, AsAsked) == (LOST, Normal)
  {
  }

  /** An inner statement fails and SQLite ends the transaction; the inner scope is over, and the outer one writes 2. */
  lemma EndedInside()
    ensures var s := Around(GoodScope(FAILS, AsAsked));
            var o := RunStmt(s, FRESH, false);
            Exposed(s, false) && !Exposed(s, true) && o.q.failed && o.q.store.disk == [2]
  {
    hide RunStmt, RunBlock, EndScope, Exposed;
    FailsExposed();
    FailsRun();
    InnerScope(FAILS, AsAsked);
    WriteEscapes(GoodScope(FAILS, AsAsked));
  }

  /** An inner scope is left early after a failure, with a calm engine, and the outer one writes 2. */
  lemma LeftInside()
    ensures var s := Around(GoodScope(LEAVES, AsAsked));
            var o := RunStmt(s, FRESH, false);
            CalmStmt(s) && Exposed(s, true) && o.q.failed && o.q.store.disk == [2]
  {
    hide RunStmt, RunBlock, CleanupScope, Exposed, CalmStmt;
    LeavesExposed();
    LeavesRun();
    InnerScope(LEAVES, AsAsked);
    WriteEscapes(GoodScope(LEAVES, AsAsked));
  }
}
