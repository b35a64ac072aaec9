/** Requests read from a connection: the buffer, the read loop, and independence of how the bytes arrive. */
module HttpStream {
  import opened Bytes
  import opened Http
  import opened HttpFraming
  import opened HttpParser

  const MIN_CHUNK := 8192
  const BODY_MAX := 8 * 1024 * 1024
  const READ_STEPS := 4096

  // ----- the verdict of read_request on what it has -----

  datatype Verdict = More | Deliver(req: Request) | Refuse(code: int)

  const CONTINUE_100: bytes := [0x31, 0x30, 0x30, 0x2D, 0x63, 0x6F, 0x6E, 0x74, 0x69, 0x6E, 0x75, 0x65]

  function FindHeader(hs: seq<Header>, name: bytes): Option<bytes> {
    if hs == [] then None else if SameName(hs[0].name, name) then Some(hs[0].value) else FindHeader(hs[1..], name)
  }

  /** handle_expect_continue refuses anything but 100-continue on HTTP/1.1. */
  predicate BadExpect(head: Head) {
    var e := FindHeader(head.headers, EXPECT);
    e.Some? && (head.line.minor != 1 || !SameName(e.value, CONTINUE_100))
  }

  predicate TooLong(head: Head) { Announced(head.headers).Some? && Announced(head.headers).value > BODY_MAX }

  function Judge(buf: bytes): (v: Verdict)
    ensures v.Deliver? ==> 0 < MessageLen(v.req) <= |buf|
  {
    var r := ParseRequest(buf);
    if r.Error? then Refuse(-1)
    else
      var head := if r.Ok? then Some(r.req.head) else r.head;
      if head.Some? && TooLong(head.value) then Refuse(-2)
      else if head.Some? && BadExpect(head.value) then Refuse(-3)
      else if r.Ok? then Deliver(r.req)
      else More
  }

  /** A verdict stands whatever else arrives. */
  lemma JudgeStands(buf: bytes, x: bytes)
    ensures Judge(buf).More? || Judge(buf + x) == Judge(buf)
  {
    hide ParseRequest, TooLong, BadExpect;
    VerdictStands(buf, x);
  }

  // ----- parse, deliver, consume -----

  datatype Drained = Drained(requests: seq<Request>, rest: bytes, code: Option<int>)

  /** Everything the buffer holds, served in order: at most `quota` requests on one connection. */
  function Drain(buf: bytes, quota: nat): (d: Drained)
    ensures |d.requests| <= quota
    decreases quota
  {
    if quota == 0 then Drained([], buf, Some(0))
    else match Judge(buf)
      case More => Drained([], buf, None)
      case Refuse(c) => Drained([], buf, Some(c))
      case Deliver(r) =>
        var d := Drain(buf[MessageLen(r)..], quota - 1);
        d.(requests := [r] + d.requests)
  }

  // ----- read_request on what receives bring, with its two limits -----

  /** The reservation read_request makes when the buffer holds len bytes and no complete message. */
  predicate Reservable(len: nat, max: nat) { len + MIN_CHUNK + 1 <= max }

  /** Waiting is what the source does at the end of the chunks: block in the next receive. */
  datatype Read =
    | Waiting(buf: bytes)
    | Refused(buf: bytes, left: seq<bytes>, code: int)
    | Complete(buf: bytes, left: seq<bytes>, req: Request)

  /**
   read_request with `steps` rounds to go: judge, reserve, receive.  Each chunk is what one receive hands over; an empty
   one is a receive that a signal interrupted.
   */
  function ReadLoop(buf: bytes, chunks: seq<bytes>, steps: nat, max: nat): Read
    decreases steps
  {
    if steps == 0 then Refused(buf, chunks, -1)
    else match Judge(buf)
      case Deliver(r) => Complete(buf, chunks, r)
      case Refuse(c) => Refused(buf, chunks, c)
      case More =>
        if !Reservable(|buf|, max) then Refused(buf, chunks, -2)
        else if chunks == [] then Waiting(buf)
        else ReadLoop(buf + chunks[0], chunks[1..], steps - 1, max)
  }

  /** A connection: read, deliver, consume, at most `quota` times. */
  function Serve(buf: bytes, chunks: seq<bytes>, quota: nat, max: nat): Drained
    decreases quota
  {
    if quota == 0 then Drained([], buf, Some(0))
    else match ReadLoop(buf, chunks, READ_STEPS, max)
      case Waiting(b) => Drained([], b, None)
      case Refused(b, _, c) => Drained([], b, Some(c))
      case Complete(b, left, r) =>
        if MessageLen(r) <= |b| then
          var d := Serve(b[MessageLen(r)..], left, quota - 1, max);
          d.(requests := [r] + d.requests)
        else Drained([], b, Some(-1))
  }

  function Flat(chunks: seq<bytes>): bytes {
    if chunks == [] then [] else chunks[0] + Flat(chunks[1..])
  }

  /** No receive is interrupted: each hands over at least one byte. */
  ghost predicate Received(chunks: seq<bytes>) { forall k :: 0 <= k < |chunks| ==> chunks[k] != [] }

  /** The length up to which a message is read however it arrives. */
  predicate Fits(len: nat, max: nat) { len + MIN_CHUNK <= max && len < READ_STEPS }

  // ----- verdicts on the prefixes of what is there -----

  /** A prefix of a buffer with a complete message asks for more until it holds the message, and then delivers it. */
  lemma PrefixJudged(buf: bytes, k: nat)
    requires Judge(buf).Deliver? && k <= |buf|
    ensures var r := Judge(buf).req; Judge(buf[..k]) == if k < MessageLen(r) then More else Deliver(r)
  {
    hide ParseRequest, TooLong, BadExpect, MessageLen;
    var r := Judge(buf).req;
    var p := buf[..k];
    assert p + buf[k..] == buf;
    VerdictStands(p, buf[k..]);
    JudgeStands(p, buf[k..]);
    if k < MessageLen(r) {
      PrefixNeedsMore(buf, k);
    } else {
      var m := buf[..MessageLen(r)];
      MessageAlone(buf);
      assert m + buf[MessageLen(r)..k] == p;
      VerdictStands(m, buf[MessageLen(r)..k]);
    }
  }

  lemma JudgedPrefix(buf: bytes, x: bytes)
    requires Judge(buf + x).Deliver?
    ensures var r := Judge(buf + x).req; Judge(buf) == if |buf| < MessageLen(r) then More else Deliver(r)
  {
    PrefixJudged(buf + x, |buf|);
    assert (buf + x)[..|buf|] == buf;
  }

  lemma FlatStep(buf: bytes, chunks: seq<bytes>)
    requires chunks != []
    ensures buf + Flat(chunks) == buf + chunks[0] + Flat(chunks[1..])
  {
  }

  // ----- what is delivered -----

  /** However the bytes arrive: a request that is read is the one the whole stream starts with, and nothing is lost. */
  lemma {:induction false} ReadSafe(buf: bytes, chunks: seq<bytes>, steps: nat, max: nat)
    ensures var o := ReadLoop(buf, chunks, steps, max);
            o.Complete? ==> && Judge(buf + Flat(chunks)) == Deliver(o.req) && MessageLen(o.req) <= |o.buf|
                            && o.buf + Flat(o.left) == buf + Flat(chunks)
                            && (Received(chunks) ==> Received(o.left))
    decreases steps
  {
    hide Judge, Received;
    if steps > 0 {
      JudgeStands(buf, Flat(chunks));
      JudgeBound(buf);
      if Judge(buf).More? && Reservable(|buf|, max) && chunks != [] {
        FlatStep(buf, chunks);
        ReadSafe(buf + chunks[0], chunks[1..], steps - 1, max);
        if Received(chunks) { ReceivedRest(chunks); }
      }
    }
  }

  lemma JudgeBound(buf: bytes)
    ensures Judge(buf).Deliver? ==> 0 < MessageLen(Judge(buf).req) <= |buf|
  {
  }

  lemma ReceivedRest(chunks: seq<bytes>)
    requires Received(chunks) && chunks != []
    ensures chunks[0] != [] && Received(chunks[1..])
  {
  }

  /** A message that fits is read whenever the stream holds it: in time, and before the buffer is full. */
  lemma {:induction false} ReadComplete(buf: bytes, chunks: seq<bytes>, steps: nat, max: nat)
    requires Received(chunks) && Judge(buf + Flat(chunks)).Deliver?
    requires var n := MessageLen(Judge(buf + Flat(chunks)).req);
             n + MIN_CHUNK <= max && steps > 0 && (|buf| < n ==> n - |buf| < steps)
    ensures ReadLoop(buf, chunks, steps, max).Complete?
    decreases steps
  {
    hide Judge, Received, MessageLen;
    JudgedPrefix(buf, Flat(chunks));
    JudgeBound(buf + Flat(chunks));
    assert chunks == [] ==> buf + Flat(chunks) == buf;
    if Judge(buf).More? && chunks != [] {
      FlatStep(buf, chunks);
      ReceivedRest(chunks);
      ReadComplete(buf + chunks[0], chunks[1..], steps - 1, max);
    }
  }

  /** Without a complete message in the stream, the reader ends as the whole stream is judged, if what is there fits. */
  lemma {:induction false} ReadRest(buf: bytes, chunks: seq<bytes>, steps: nat, max: nat)
    requires Received(chunks) && !Judge(buf + Flat(chunks)).Deliver?
    ensures !ReadLoop(buf, chunks, steps, max).Complete?
    ensures |buf + Flat(chunks)| + MIN_CHUNK + 1 <= max && steps > |Flat(chunks)| ==>
              var o := ReadLoop(buf, chunks, steps, max);
              match Judge(buf + Flat(chunks))
              case More => o == Waiting(buf + Flat(chunks))
              case Refuse(c) => o.Refused? && o.code == c
              case Deliver(_) => false
    decreases steps
  {
    hide Judge, Received;
    ReadSafe(buf, chunks, steps, max);
    JudgeStands(buf, Flat(chunks));
    if steps > 0 && Judge(buf).More? && Reservable(|buf|, max) {
      if chunks == [] {
        assert buf + [] == buf;
      } else {
        FlatStep(buf, chunks);
        ReceivedRest(chunks);
        ReadRest(buf + chunks[0], chunks[1..], steps - 1, max);
      }
    }
  }

  /** The requests served are a first part of those the whole stream holds, whatever the split, interruptions and limits. */
  lemma {:induction false} ServesPrefix(buf: bytes, chunks: seq<bytes>, quota: nat, max: nat)
    ensures Serve(buf, chunks, quota, max).requests <= Drain(buf + Flat(chunks), quota).requests
    decreases quota
  {
    hide Judge, ReadLoop, MessageLen;
    if quota > 0 {
      ReadSafe(buf, chunks, READ_STEPS, max);
      var o := ReadLoop(buf, chunks, READ_STEPS, max);
      if o.Complete? {
        NextMessage(buf + Flat(chunks), o.buf, o.left, MessageLen(o.req));
        ServesPrefix(o.buf[MessageLen(o.req)..], o.left, quota - 1, max);
      }
    }
  }

  lemma NextMessage(whole: bytes, buf: bytes, left: seq<bytes>, n: nat)
    requires whole == buf + Flat(left) && n <= |buf|
    ensures whole[n..] == buf[n..] + Flat(left)
  {
  }

  /** Every message in the stream fits. */
  ghost predicate AllFit(requests: seq<Request>, max: nat) {
    forall k :: 0 <= k < |requests| ==> Fits(MessageLen(requests[k]), max)
  }

  lemma AllFitRest(r: Request, rest: seq<Request>, max: nat)
    requires AllFit([r] + rest, max)
    ensures Fits(MessageLen(r), max) && AllFit(rest, max)
  {
    hide Fits, MessageLen;
    assert ([r] + rest)[0] == r;
    forall k | 0 <= k < |rest| ensures Fits(MessageLen(rest[k]), max) { assert ([r] + rest)[k + 1] == rest[k]; }
  }

  /**
   For every byte stream whose messages fit and every way receives split it, the requests served are exactly those of
   the whole stream; and when what follows them fits as well, the connection ends, or waits, for the same reason.
   */
  lemma {:induction false} SplitIndependent(buf: bytes, chunks: seq<bytes>, quota: nat, max: nat)
    requires Received(chunks) && AllFit(Drain(buf + Flat(chunks), quota).requests, max)
    ensures var whole := Drain(buf + Flat(chunks), quota);
            var served := Serve(buf, chunks, quota, max);
            && served.requests == whole.requests
            && (Fits(|whole.rest| + 1, max) ==> served.code == whole.code)
    decreases quota
  {
    hide Judge, ReadLoop, MessageLen, Received, AllFit;
    if quota > 0 {
      var b := buf + Flat(chunks);
      JudgeBound(b);
      if Judge(b).Deliver? {
        var r := Judge(b).req;
        var n := MessageLen(r);
        AllFitRest(r, Drain(b[n..], quota - 1).requests, max);
        ReadComplete(buf, chunks, READ_STEPS, max);
        ReadSafe(buf, chunks, READ_STEPS, max);
        var o := ReadLoop(buf, chunks, READ_STEPS, max);
        NextMessage(b, o.buf, o.left, n);
        SplitIndependent(o.buf[n..], o.left, quota - 1, max);
      } else {
        ReadRest(buf, chunks, READ_STEPS, max);
      }
    }
  }

  /** From a fresh connection: any two ways of splitting one stream whose messages fit serve the same requests. */
  lemma TwoSplits(a: seq<bytes>, b: seq<bytes>, quota: nat, max: nat)
    requires Received(a) && Received(b) && Flat(a) == Flat(b) && AllFit(Drain(Flat(a), quota).requests, max)
    ensures var x, y := Serve([], a, quota, max), Serve([], b, quota, max);
            x.requests == y.requests && (Fits(|Drain(Flat(a), quota).rest| + 1, max) ==> x.code == y.code)
  {
    hide Serve, Drain, Received, AllFit, Fits;
    assert [] + Flat(a) == Flat(a) && [] + Flat(b) == Flat(b);
    SplitIndependent([], a, quota, max);
    SplitIndependent([], b, quota, max);
  }

  // ----- the exact limits -----

  /** A way the bytes of m can arrive: a receive hands over one byte or more, and 8192 at once are always possible. */
  ghost predicate IsSplit(chunks: seq<bytes>, m: bytes) {
    Flat(chunks) == m && forall k :: 0 <= k < |chunks| ==> 0 < |chunks[k]| <= MIN_CHUNK
  }

  /** m is a message and nothing more. */
  ghost predicate IsMessage(m: bytes) { Judge(m).Deliver? && MessageLen(Judge(m).req) == |m| }

  ghost predicate Delivered(m: bytes, chunks: seq<bytes>, max: nat) { ReadLoop([], chunks, READ_STEPS, max).Complete? }

  function Bytewise(m: bytes): (chunks: seq<bytes>)
    ensures |chunks| == |m| && forall k :: 0 <= k < |m| ==> chunks[k] == [m[k]]
  {
    seq(|m|, k requires 0 <= k < |m| => [m[k]])
  }

  lemma {:induction false} BytewiseFlat(m: bytes)
    ensures Flat(Bytewise(m)) == m
    decreases |m|
  {
    if m != [] {
      assert Bytewise(m)[1..] == Bytewise(m[1..]);
      BytewiseFlat(m[1..]);
    }
  }

  /** While fewer bytes than the message have come, a reader out of rounds or of room gives up. */
  lemma {:induction false} GivesUp(m: bytes, at: nat, steps: nat, max: nat)
    requires IsMessage(m) && at <= |m| && (|m| - at >= steps || !Reservable(|m| - 1, max)) && (at == |m| ==> steps == 0)
    ensures var o := ReadLoop(m[..at], Bytewise(m[at..]), steps, max);
            o.Refused? && (Reservable(|m| - 1, max) ==> o.code == -1) && (|m| - at < steps ==> o.code == -2)
    decreases steps
  {
    hide Judge;
    if steps > 0 {
      MessagePrefix(m, at);
      if Reservable(at, max) {
        assert Bytewise(m[at..])[1..] == Bytewise(m[at + 1..]);
        assert m[..at] + [m[at]] == m[..at + 1];
        if at + 1 < |m| || steps == 1 { GivesUp(m, at + 1, steps - 1, max); }
      }
    }
  }

  lemma MessagePrefix(m: bytes, k: nat)
    requires IsMessage(m) && k < |m|
    ensures Judge(m[..k]).More?
  {
    hide Judge;
    PrefixJudged(m, k);
  }

  /** The byte-by-byte split of a message that does not fit is refused: -2 for want of room, else -1 for want of rounds. */
  lemma BytewiseRefused(m: bytes, max: nat)
    requires IsMessage(m) && !Fits(|m|, max)
    ensures IsSplit(Bytewise(m), m) && !Delivered(m, Bytewise(m), max)
    ensures var o := ReadLoop([], Bytewise(m), READ_STEPS, max);
            o.Refused? && (|m| < READ_STEPS ==> o.code == -2) && (|m| + MIN_CHUNK <= max ==> o.code == -1)
  {
    hide Judge, ReadLoop;
    BytewiseFlat(m);
    JudgeBound(m);
    assert m[..0] == [] && m[0..] == m;
    GivesUp(m, 0, READ_STEPS, max);
  }

  /** With one byte of a message outstanding and less than 8192 bytes of room behind it, the message is refused. */
  lemma LastByteRefused(m: bytes, chunks: seq<bytes>, steps: nat, max: nat)
    requires IsMessage(m) && |m| + MIN_CHUNK > max && steps > 0
    ensures |m| > 0 && ReadLoop(m[..|m| - 1], chunks, steps, max) == Refused(m[..|m| - 1], chunks, -2)
  {
    hide Judge;
    JudgeBound(m);
    MessagePrefix(m, |m| - 1);
  }

  /** A message is read under every split exactly when it fits: at most 4095 bytes, and 8192 below the buffer's limit. */
  lemma EverySplit(m: bytes, max: nat)
    requires IsMessage(m)
    ensures (forall chunks :: IsSplit(chunks, m) ==> Delivered(m, chunks, max)) <==> Fits(|m|, max)
  {
    hide Judge, ReadLoop;
    if Fits(|m|, max) {
      forall chunks | IsSplit(chunks, m) ensures Delivered(m, chunks, max) {
        assert [] + Flat(chunks) == m;
        ReadComplete([], chunks, READ_STEPS, max);
      }
    } else {
      BytewiseRefused(m, max);
    }
  }

  /** The same message in one piece may well be read: the split decides. */
  lemma OnePiece(m: bytes, max: nat)
    requires IsMessage(m) && Reservable(0, max)
    ensures Delivered(m, [m], max)
  {
    hide Judge;
    JudgeBound(m);
    MessagePrefix(m, 0);
    assert m[..0] == [] && [] + m == m;
  }

  // ----- the buffer -----

  class DynBuf {
    var data: array<byte>
    var len: nat
    const max: nat
    var truncated: bool

    constructor (max: nat)
      requires max > 0
      ensures Valid() && Contents() == [] && this.max == max && !truncated && fresh(data)
    {
      this.max, len, truncated := max, 0, false;
      data := new byte[0];
    }

    ghost predicate Valid()
      reads this
    {
      len <= data.Length && max > 0
    }

    ghost function Contents(): bytes
      requires Valid()
      reads this, data
    {
      data[..len]
    }

    /** dynbuf_reserve; `granted` says whether the memory could be had. */
    method Reserve(need: nat, granted: bool) returns (ok: bool)
      requires Valid()
      modifies this
      ensures Valid() && Contents() == old(Contents()) && len == old(len)
      ensures need > max ==> !ok && truncated
      ensures need <= max ==> truncated == old(truncated) && ok == (need <= old(data.Length) || granted)
      ensures ok ==> data.Length >= need
      ensures data == old(data) || fresh(data)
      ensures data.Length <= old(data.Length) || data.Length <= max || data.Length <= MIN_CHUNK
    {
      if need > max {
        truncated := true;
        return false;
      }
      if need <= data.Length { return true; }
      var cap := if data.Length != 0 then data.Length else MIN_CHUNK;
      ghost var start := cap;
      while cap < need
        invariant cap > 0 && (cap == start || cap <= max)
        decreases need - cap
      {
        if cap > max / 2 {
          cap := max;
          break;
        }
        cap := cap * 2;
      }
      if !granted { return false; }
      var grown := new byte[cap];
      var i := 0;
      while i < len
        invariant 0 <= i <= len && len == old(len) && data == old(data) && truncated == old(truncated)
        invariant forall k :: 0 <= k < i ==> grown[k] == data[k]
        invariant data[..len] == old(data[..len])
      {
        grown[i] := data[i];
        i := i + 1;
      }
      assert grown[..len] == data[..len];
      data := grown;
      return true;
    }

    /** dynbuf_consume: the first n bytes go, the rest moves to the front. */
    method Consume(n: nat)
      requires Valid() && n <= len
      modifies this, data
      ensures Valid() && data == old(data) && len == old(len) - n
      ensures Contents() == old(Contents())[n..]
    {
      var left := len - n;
      var i := 0;
      while i < left
        invariant 0 <= i <= left && len == old(len) && data == old(data)
        invariant forall k :: 0 <= k < i ==> data[k] == old(data[n + k])
        invariant forall k :: i <= k < data.Length ==> data[k] == old(data[k])
      {
        data[i] := data[n + i];
        i := i + 1;
      }
      len := left;
    }

    /** What recv leaves behind. */
    method Receive(c: bytes)
      requires Valid() && len + |c| <= data.Length
      modifies this`len, data
      ensures Valid() && data == old(data) && Contents() == old(Contents()) + c
    {
      var i := 0;
      while i < |c|
        invariant 0 <= i <= |c| && len == old(len) && data == old(data)
        invariant data[..len] == old(data[..len])
        invariant data[len..len + i] == c[..i]
      {
        data[len + i] := c[i];
        i := i + 1;
      }
      assert data[..len + |c|] == data[..len] + data[len..len + |c|];
      len := len + |c|;
    }
  }

  function Min(a: nat, b: nat): nat { if a < b then a else b }

  /** What the kernel does at a receive; Ready(0) is the end of the stream. */
  datatype Receipt = Interrupted | Ready(n: nat)

  /** Having received these chunks, the reader is left with this buffer and the rounds it has not used. */
  ghost predicate Reached(start: bytes, chunks: seq<bytes>, now: bytes, max: nat) {
    |chunks| <= READ_STEPS &&
    forall more :: ReadLoop(start, chunks + more, READ_STEPS, max) == ReadLoop(now, more, READ_STEPS - |chunks|, max)
  }

  lemma ReachedFirst(start: bytes, max: nat)
    ensures Reached(start, [], start, max) && Flat([]) == []
  {
    hide ReadLoop;
    forall more: seq<bytes> ensures [] + more == more {}
  }

  lemma ReachedNext(start: bytes, chunks: seq<bytes>, now: bytes, c: bytes, max: nat)
    requires Reached(start, chunks, now, max) && |chunks| < READ_STEPS && Judge(now).More? && Reservable(|now|, max)
    ensures Reached(start, chunks + [c], now + c, max)
  {
    hide Judge, ReadLoop;
    forall more: seq<bytes>
      ensures ReadLoop(start, chunks + [c] + more, READ_STEPS, max) == ReadLoop(now + c, more, READ_STEPS - |chunks| - 1, max)
    {
      assert chunks + [c] + more == chunks + ([c] + more);
      LoopStep(now, c, more, READ_STEPS - |chunks|, max);
    }
  }

  lemma LoopStep(now: bytes, c: bytes, more: seq<bytes>, steps: nat, max: nat)
    requires steps > 0 && Judge(now).More? && Reservable(|now|, max)
    ensures ReadLoop(now, [c] + more, steps, max) == ReadLoop(now + c, more, steps - 1, max)
  {
    hide Judge;
    assert ([c] + more)[0] == c && ([c] + more)[1..] == more;
  }

  lemma ReachedLast(start: bytes, chunks: seq<bytes>, now: bytes, max: nat)
    requires Reached(start, chunks, now, max)
    ensures ReadLoop(start, chunks, READ_STEPS, max) == ReadLoop(now, [], READ_STEPS - |chunks|, max)
  {
    hide ReadLoop;
    assert chunks + [] == chunks;
  }

  lemma {:induction false} FlatAppend(chunks: seq<bytes>, c: bytes)
    ensures Flat(chunks + [c]) == Flat(chunks) + c
    decreases |chunks|
  {
    if chunks == [] {
      assert [] + [c] == [c] && [c][1..] == [] && Flat([c]) == c + Flat([]);
    } else {
      assert (chunks + [c])[1..] == chunks[1..] + [c];
      FlatAppend(chunks[1..], c);
    }
  }

  /** What read_request reports when the reader ends like this and, if it waits, the peer has closed. */
  ghost predicate Reports(o: Read, rc: int, req: Option<Request>, contents: bytes) {
    match o
    case Complete(b, left, r) => rc == 1 && req == Some(r) && left == [] && contents == b
    case Refused(b, left, c) => rc == c && left == [] && contents == b
    case Waiting(b) => rc == (if b == [] then 0 else -1) && contents == b
  }

  lemma LastRound(now: bytes, steps: nat, max: nat)
    ensures ReadLoop(now, [], steps, max) ==
            if steps == 0 then Refused(now, [], -1)
            else match Judge(now)
              case Deliver(r) => Complete(now, [], r)
              case Refuse(c) => Refused(now, [], c)
              case More => if Reservable(|now|, max) then Waiting(now) else Refused(now, [], -2)
  {
    hide Judge;
  }

  lemma NextPart(start: bytes, stream: bytes, got: nat, n: nat, now: bytes)
    requires got + n <= |stream| && now == start + stream[..got]
    ensures stream[..got] + stream[got..got + n] == stream[..got + n]
    ensures now + stream[got..got + n] == start + stream[..got + n]
  {
    assert stream[..got] + stream[got..got + n] == stream[..got + n];
  }

  /**
   read_request.  `stream` is what the peer sends from here on, receipts[k] what the kernel does at receive k, and
   `chunks` what the receives handed over.
   */
  method ReadRequest(buf: DynBuf, stream: bytes, receipts: seq<Receipt>, granted: bool)
    returns (rc: int, req: Option<Request>, got: nat, ghost chunks: seq<bytes>)
    requires buf.Valid() && |receipts| >= READ_STEPS
    modifies buf, buf.data
    ensures buf.Valid() && got <= |stream| && buf.Contents() == old(buf.Contents()) + stream[..got] && Flat(chunks) == stream[..got]
    ensures rc == 1 ==> Judge(buf.Contents()).Deliver? && req == Some(Judge(buf.Contents()).req)
    ensures granted ==> Reports(ReadLoop(old(buf.Contents()), chunks, READ_STEPS, buf.max), rc, req, buf.Contents())
  {
    hide Judge, Flat, Reached, ReadLoop;
    got, req, chunks := 0, None, [];
    var steps := 0;
    ghost var start := buf.Contents();
    ReachedFirst(start, buf.max);
    EmptyAsksMore();
    assert start + stream[..0] == start;
    while steps < READ_STEPS
      invariant 0 <= steps == |chunks| <= READ_STEPS && got <= |stream| && buf.Valid()
      invariant buf.data == old(buf.data) || fresh(buf.data)
      invariant buf.Contents() == start + stream[..got] && req == None
      invariant Flat(chunks) == stream[..got] && Reached(start, chunks, buf.Contents(), buf.max)
      decreases READ_STEPS - steps
    {
      ReachedLast(start, chunks, buf.Contents(), buf.max);
      LastRound(buf.Contents(), READ_STEPS - steps, buf.max);
      if buf.len > 0 {
        var v := JudgeNow(buf.data[..buf.len]);
        match v
        case Deliver(r) => return 1, Some(r), got, chunks;
        case Refuse(c) => RefuseCodes(buf.Contents()); return c, None, got, chunks;
        case More =>
      }
      var ok := buf.Reserve(buf.len + MIN_CHUNK + 1, granted);
      if !ok { return if buf.len + MIN_CHUNK + 1 > buf.max then -2 else -1, None, got, chunks; }
      ghost var now := buf.Contents();
      var n := 0;
      if receipts[steps].Ready? {
        n := Min(Min(receipts[steps].n, buf.data.Length - buf.len - 1), |stream| - got);
        if n == 0 { return if buf.len == 0 then 0 else -1, None, got, chunks; }
      }
      ghost var c := stream[got..got + n];
      buf.Receive(stream[got..got + n]);
      NextPart(start, stream, got, n, now);
      FlatAppend(chunks, c);
      ReachedNext(start, chunks, now, c, buf.max);
      chunks := chunks + [c];
      got := got + n;
      steps := steps + 1;
    }
    ReachedLast(start, chunks, buf.Contents(), buf.max);
    LastRound(buf.Contents(), 0, buf.max);
    rc := -1;
  }

  lemma EmptyAsksMore()
    ensures Judge([]).More?
  {
  }

  lemma RefuseCodes(buf: bytes)
    requires Judge(buf).Refuse?
    ensures -3 <= Judge(buf).code <= -1
  {
  }

  method JudgeNow(buf: bytes) returns (v: Verdict)
    ensures v == Judge(buf)
  {
    hide ParseRequest;
    var r := HttpParseRequest(buf);
    if r.Error? { return Refuse(-1); }
    var head := if r.Ok? then Some(r.req.head) else r.head;
    if head.Some? && TooLong(head.value) { return Refuse(-2); }
    if head.Some? && BadExpect(head.value) { return Refuse(-3); }
    if r.Ok? { return Deliver(r.req); }
    return More;
  }

  lemma Spelling()
    ensures CONTINUE_100 == Ascii("100-continue")
  {
  }
}
