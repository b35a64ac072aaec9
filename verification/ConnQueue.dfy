/** The queue of accepted connections: a ring of 64 places that is a first-in first-out queue. */
module ConnQueue {
  const SERVER_QUEUE := 64

  datatype Conn = Conn(id: nat, fd: nat, ip: nat)

  /** The place i steps after `head` on the ring. */
  function Place(head: nat, i: nat): (p: nat)
    ensures p < SERVER_QUEUE
  {
    (head + i) % SERVER_QUEUE
  }

  lemma PlaceApart(head: nat, i: nat, j: nat)
    requires i < j < i + SERVER_QUEUE
    ensures Place(head, i) != Place(head, j)
  {
  }

  lemma PlaceNext(head: nat, i: nat)
    ensures Place(Place(head, 1), i) == Place(head, i + 1) && Place(Place(head, i), 1) == Place(head, i + 1)
  {
  }

  lemma PlaceHere(head: nat)
    requires head < SERVER_QUEUE
    ensures Place(head, 0) == head
  {
  }

  class Ring {
    const places: array<Conn>
    var head: nat
    var tail: nat
    var count: nat

    ghost predicate Valid()
      reads this
    {
      places.Length == SERVER_QUEUE && head < SERVER_QUEUE && count <= SERVER_QUEUE && tail == Place(head, count)
    }

    /** The waiting connections, oldest first. */
    ghost function Waiting(): (q: seq<Conn>)
      requires Valid()
      reads this, places
      ensures |q| == count && forall i :: 0 <= i < count ==> q[i] == places[Place(head, i)]
    {
      seq(count, i requires 0 <= i < count && Valid() reads this, places => places[Place(head, i)])
    }

    constructor ()
      ensures Valid() && Waiting() == [] && fresh(places)
    {
      places := new Conn[SERVER_QUEUE](_ => Conn(0, 0, 0));
      head, tail, count := 0, 0, 0;
    }

    /** queue_push: refused exactly when 64 connections wait. */
    method Push(c: Conn) returns (ok: bool)
      requires Valid()
      modifies this`tail, this`count, places
      ensures Valid() && ok == (|old(Waiting())| < SERVER_QUEUE)
      ensures Waiting() == if ok then old(Waiting()) + [c] else old(Waiting())
    {
      hide Place;
      ok := count < SERVER_QUEUE;
      if ok {
        forall i | 0 <= i < count ensures Place(head, i) != tail { PlaceApart(head, i, count); }
        PlaceNext(head, count);
        places[tail] := c;
        tail := Place(tail, 1);
        count := count + 1;
        assert Waiting() == old(Waiting()) + [c];
      }
    }

    /** queue_pop, once a connection waits or the queue is stopping: the oldest connection, or none. */
    method Pop() returns (r: seq<Conn>)
      requires Valid()
      modifies this`head, this`count
      ensures Valid()
      ensures if old(Waiting()) == [] then r == [] && Waiting() == [] else r == old(Waiting())[..1] && Waiting() == old(Waiting())[1..]
    {
      hide Place;
      r := [];
      if count > 0 {
        PlaceHere(head);
        forall i | 0 <= i < count ensures Place(Place(head, 1), i) == Place(head, i + 1) { PlaceNext(head, i); }
        r := [places[head]];
        head := Place(head, 1);
        count := count - 1;
        assert Waiting() == old(Waiting())[1..];
      }
    }
  }
}
