/** client_limit: the table of connections and requests per client address. */
module ClientLimit {
  datatype Slot = Slot(ip: nat, used: bool, connections: nat, requests: nat, window: int)

  const SLOTS := 256
  const WINDOW := 60

  datatype Action = Connect | Disconnect | Request

  datatype Limits = Limits(connectionsPerIp: nat, requestsPerMinute: nat)

  // ----- what a call does -----

  /** The first used slot of an address from index i on, or -1. */
  function FindSlot(t: seq<Slot>, ip: nat, i: nat): (s: int)
    requires i <= |t|
    ensures s == -1 <==> forall k :: i <= k < |t| ==> !(t[k].used && t[k].ip == ip)
    ensures s != -1 ==> i <= s < |t| && t[s].used && t[s].ip == ip
    decreases |t| - i
  {
    if i == |t| then -1 else if t[i].used && t[i].ip == ip then i else FindSlot(t, ip, i + 1)
  }

  predicate Free(s: Slot, now: int) { !s.used || (s.connections == 0 && now - s.window >= WINDOW) }

  /** The last slot before n that may be taken over, or -1. */
  function LastFree(t: seq<Slot>, now: int, n: nat): (e: int)
    requires n <= |t|
    ensures e == -1 || (0 <= e < n && Free(t[e], now))
    ensures e == -1 ==> forall k :: 0 <= k < n ==> !Free(t[k], now)
  {
    if n == 0 then -1 else if Free(t[n - 1], now) then n - 1 else LastFree(t, now, n - 1)
  }

  datatype Outcome = Outcome(table: seq<Slot>, ok: bool)

  /** What happens to the slot of the address itself. */
  function Act(s: Slot, action: Action, now: int, limits: Limits): (Slot, bool) {
    var c := if now - s.window >= WINDOW then s.(requests := 0, window := now) else s;
    match action
    case Disconnect => (if c.connections > 0 then c.(connections := c.connections - 1) else c, true)
    case Connect =>
      if c.connections < limits.connectionsPerIp then (c.(connections := c.connections + 1), true) else (c, false)
    case Request => if c.requests < limits.requestsPerMinute then (c.(requests := c.requests + 1), true) else (c, false)
  }

  function Limit(t: seq<Slot>, ip: nat, action: Action, now: int, limits: Limits): Outcome {
    var s := FindSlot(t, ip, 0);
    var e := LastFree(t, now, |t|);
    if s >= 0 then var (c, ok) := Act(t[s], action, now, limits); Outcome(t[s := c], ok)
    else if e >= 0 && action.Connect? then
      var (c, ok) := Act(Slot(ip, true, 0, 0, now), action, now, limits); Outcome(t[e := c], ok)
    else Outcome(t, false)
  }

  // ----- what it means -----

  ghost predicate Unique(t: seq<Slot>) {
    forall i, j :: 0 <= i < j < |t| && t[i].used && t[j].used ==> t[i].ip != t[j].ip
  }

  /** The number of connections counted for an address. */
  function Count(t: seq<Slot>, ip: nat): nat {
    var s := FindSlot(t, ip, 0);
    if s >= 0 then t[s].connections else 0
  }

  ghost predicate Within(t: seq<Slot>, limits: Limits) {
    Unique(t) && forall ip :: Count(t, ip) <= limits.connectionsPerIp
  }

  lemma CountAt(t: seq<Slot>, k: nat)
    requires Unique(t) && k < |t| && t[k].used
    ensures Count(t, t[k].ip) == t[k].connections && FindSlot(t, t[k].ip, 0) == k
  {
    var s := FindSlot(t, t[k].ip, 0);
    assert s >= 0 && t[s].ip == t[k].ip;
  }

  lemma CountNone(t: seq<Slot>, ip: nat)
    requires forall k :: 0 <= k < |t| ==> !(t[k].used && t[k].ip == ip)
    ensures Count(t, ip) == 0
  {
  }

  /** Writing the slot of an address, its own or a free one, changes the count of no other address. */
  lemma CountElsewhere(t: seq<Slot>, k: nat, c: Slot, other: nat)
    requires Unique(t) && k < |t| && c.used && other != c.ip
    requires (t[k].used && t[k].ip == c.ip) || (FindSlot(t, c.ip, 0) == -1 && (!t[k].used || t[k].connections == 0))
    ensures Unique(t[k := c]) && Count(t[k := c], other) == Count(t, other) && Count(t[k := c], c.ip) == c.connections
  {
    var t' := t[k := c];
    forall i, j | 0 <= i < j < |t'| && t'[i].used && t'[j].used ensures t'[i].ip != t'[j].ip {
      if i != k && j != k { assert t[i].ip != t[j].ip; }
      if i == k { assert t'[j] == t[j]; }
      if j == k { assert t'[i] == t[i]; }
    }
    CountAt(t', k);
    var s := FindSlot(t, other, 0);
    if s < 0 {
      CountNone(t', other);
    } else if s == k {
      CountAt(t, k);
      assert t[k].ip == other;
      forall m | 0 <= m < |t'| ensures !(t'[m].used && t'[m].ip == other) {
        if m != k && t[m].used { assert if m < k then t[m].ip != t[k].ip else t[k].ip != t[m].ip; }
      }
      CountNone(t', other);
    } else {
      assert t'[s] == t[s];
      CountAt(t', s);
      CountAt(t, s);
    }
  }

  function Max0(n: int): nat { if n < 0 then 0 else n }

  /** The number of connections after a call. */
  function Counted(before: nat, action: Action, ok: bool): nat {
    match action
    case Connect => if ok then before + 1 else before
    case Disconnect => Max0(before - 1)
    case Request => before
  }

  /**
   A call changes the count of its own address only: up by one when a connection is granted, down by one when one is
   given back.  The limit is never exceeded, and the slot of an address with connections is never taken over.
   */
  lemma LimitCounts(t: seq<Slot>, ip: nat, action: Action, now: int, limits: Limits)
    requires Within(t, limits)
    ensures var r := Limit(t, ip, action, now, limits);
            && Within(r.table, limits) && Count(r.table, ip) == Counted(Count(t, ip), action, r.ok)
            && (forall other :: other != ip ==> Count(r.table, other) == Count(t, other))
    ensures var r := Limit(t, ip, action, now, limits);
            |r.table| == |t| && forall k :: 0 <= k < |t| && t[k].used && t[k].connections > 0 ==> r.table[k].used && r.table[k].ip == t[k].ip
    ensures action.Connect? && Limit(t, ip, action, now, limits).ok ==> Count(t, ip) < limits.connectionsPerIp
  {
    var r := Limit(t, ip, action, now, limits);
    var s := FindSlot(t, ip, 0);
    var e := LastFree(t, now, |t|);
    var k := if s >= 0 then s else e;
    if s >= 0 || (e >= 0 && action.Connect?) {
      var c := r.table[k];
      assert r.table == t[k := c] && c.used && c.ip == ip;
      if s >= 0 { CountAt(t, s); }
      CountElsewhere(t, k, c, ip + 1);
      forall other | other != ip ensures Count(r.table, other) == Count(t, other) { CountElsewhere(t, k, c, other); }
      forall other ensures Count(r.table, other) <= limits.connectionsPerIp {
        assert Count(t, other) <= limits.connectionsPerIp;
        if other != ip { assert Count(r.table, other) == Count(t, other); }
      }
    }
  }

  // ----- which calls are granted -----

  ghost predicate IsKnown(t: seq<Slot>, ip: nat) { exists k :: 0 <= k < |t| && t[k].used && t[k].ip == ip }

  /** A slot that no connection keeps, and that has not been used for a minute or never. */
  ghost predicate HasRoom(t: seq<Slot>, now: int) {
    exists k :: 0 <= k < |t| && (!t[k].used || (t[k].connections == 0 && now >= t[k].window + 60))
  }

  /** The requests of the slot in the minute that its window began. */
  ghost predicate Asked(t: seq<Slot>, ip: nat, now: int, n: nat) {
    exists k :: 0 <= k < |t| && t[k].used && t[k].ip == ip && n == if now < t[k].window + 60 then t[k].requests else 0
  }

  /**
   A connection is granted exactly below the limit, to an address that has a slot or finds one; one is given back exactly
   for an address with a slot; and a request is granted exactly when fewer than the limit were in this minute.
   */
  lemma LimitDecides(t: seq<Slot>, ip: nat, action: Action, now: int, limits: Limits)
    requires Unique(t)
    ensures var ok := Limit(t, ip, action, now, limits).ok;
            match action
            case Connect => ok <==> Count(t, ip) < limits.connectionsPerIp && (IsKnown(t, ip) || HasRoom(t, now))
            case Disconnect => ok <==> IsKnown(t, ip)
            case Request => ok <==> exists n: nat :: Asked(t, ip, now, n) && n < limits.requestsPerMinute
  {
    var s := FindSlot(t, ip, 0);
    if s >= 0 {
      var n := if now < t[s].window + 60 then t[s].requests else 0;
      assert Asked(t, ip, now, n);
      forall m | Asked(t, ip, now, m) ensures m == n {
        var k :| 0 <= k < |t| && t[k].used && t[k].ip == ip && m == if now < t[k].window + 60 then t[k].requests else 0;
        CountAt(t, k);
      }
    } else {
      var e := LastFree(t, now, |t|);
      if e >= 0 { assert HasRoom(t, now); }
      if HasRoom(t, now) {
        var k :| 0 <= k < |t| && (!t[k].used || (t[k].connections == 0 && now >= t[k].window + 60));
        assert Free(t[k], now);
      }
    }
  }

  datatype Call = Call(ip: nat, action: Action, now: int)

  /** How many requests of an address a run of calls grants. */
  function Granted(t: seq<Slot>, calls: seq<Call>, ip: nat, limits: Limits): nat
    decreases |calls|
  {
    if calls == [] then 0
    else
      var r := Limit(t, calls[0].ip, calls[0].action, calls[0].now, limits);
      (if calls[0].ip == ip && calls[0].action.Request? && r.ok then 1 else 0) + Granted(r.table, calls[1..], ip, limits)
  }

  /** One call within the minute of slot k leaves it to its address, in the same minute, with what was granted counted. */
  lemma SlotKept(t: seq<Slot>, k: nat, c: Call, limits: Limits)
    requires Within(t, limits) && k < |t| && t[k].used && c.now < t[k].window + 60
    ensures var r := Limit(t, c.ip, c.action, c.now, limits);
            && Within(r.table, limits) && |r.table| == |t| && r.table[k].used && r.table[k].ip == t[k].ip
            && r.table[k].window == t[k].window
            && r.table[k].requests == t[k].requests + (if c.ip == t[k].ip && c.action.Request? && r.ok then 1 else 0)
            && (c.ip == t[k].ip && c.action.Request? && r.ok ==> t[k].requests < limits.requestsPerMinute)
  {
    LimitCounts(t, c.ip, c.action, c.now, limits);
    CountAt(t, k);
  }

  /**
   In every run of calls of any addresses within the minute that began the window of a slot, the requests granted to its
   address, with those before, stay within the limit.
   */
  lemma {:induction false} RateHolds(t: seq<Slot>, k: nat, calls: seq<Call>, limits: Limits)
    requires Within(t, limits) && k < |t| && t[k].used && t[k].requests <= limits.requestsPerMinute
    requires forall i :: 0 <= i < |calls| ==> calls[i].now < t[k].window + 60
    ensures t[k].requests + Granted(t, calls, t[k].ip, limits) <= limits.requestsPerMinute
    decreases |calls|
  {
    if calls != [] {
      SlotKept(t, k, calls[0], limits);
      RateHolds(Limit(t, calls[0].ip, calls[0].action, calls[0].now, limits).table, k, calls[1..], limits);
    }
  }

  // ----- the table itself -----

  class Clients {
    const slots: array<Slot>

    constructor ()
      ensures fresh(slots) && slots.Length == SLOTS && Unique(slots[..]) && forall ip :: Count(slots[..], ip) == 0
    {
      slots := new Slot[SLOTS](_ => Slot(0, false, 0, 0, 0));
      new;
      forall ip ensures Count(slots[..], ip) == 0 { CountNone(slots[..], ip); }
    }

    /** client_limit, with the clock read before the call. */
    method ClientLimit(ip: nat, action: Action, now: int, limits: Limits) returns (ok: bool)
      modifies slots
      ensures var r := Limit(old(slots[..]), ip, action, now, limits); slots[..] == r.table && ok == r.ok
    {
      ghost var t := slots[..];
      var slot, empty := -1, -1;
      var i := 0;
      while i < slots.Length
        invariant 0 <= i <= slots.Length && slots[..] == t && slot == -1
        invariant FindSlot(t, ip, 0) == FindSlot(t, ip, i) && empty == LastFree(t, now, i)
      {
        if slots[i].used && slots[i].ip == ip {
          slot := i;
          break;
        }
        if Free(slots[i], now) { empty := i; }
        i := i + 1;
      }
      assert slot == FindSlot(t, ip, 0);
      if slot < 0 && empty >= 0 && action.Connect? {
        slot := empty;
        slots[slot] := Slot(ip, true, 0, 0, now);
      }
      if slot < 0 { return false; }
      var c := slots[slot];
      if now - c.window >= WINDOW { c := c.(requests := 0, window := now); }
      ok := false;
      match action {
        case Disconnect =>
          if c.connections > 0 { c := c.(connections := c.connections - 1); }
          ok := true;
        case Connect =>
          if c.connections < limits.connectionsPerIp {
            c := c.(connections := c.connections + 1);
            ok := true;
          }
        case Request =>
          if c.requests < limits.requestsPerMinute {
            c := c.(requests := c.requests + 1);
            ok := true;
          }
      }
      slots[slot] := c;
    }
  }
}
