/** The queue of accepted sockets: a fixed array with two indices that are moved
    back now and then, so that they never grow past twice its size. */
module SocketQueue {
  import opened Options

  const SIZE := 20

  type Sock = int

  datatype Ring = Ring(slots: seq<Sock>, head: int, tail: int) {
    predicate Valid() {
      |slots| == SIZE && 0 <= tail <= SIZE && tail <= head <= tail + SIZE
    }

    /** The sockets waiting, oldest first. */
    function Contents(): (c: seq<Sock>)
      requires Valid()
      ensures |c| == head - tail
    {
      seq(head - tail, k requires 0 <= k < head - tail => slots[(tail + k) % SIZE])
    }

    function Put(sp: Sock): (r: Ring)
      requires Valid() && head - tail < SIZE
    {
      Ring(slots[head % SIZE := sp], head + 1, tail)
    }

    function Take(): (r: Ring)
      requires Valid() && head > tail
    {
      if tail + 1 > SIZE then Ring(slots, head - SIZE, tail + 1 - SIZE) else Ring(slots, head, tail + 1)
    }

    function Oldest(): Sock
      requires Valid() && head > tail
    {
      slots[tail % SIZE]
    }
  }

  const EMPTY := Ring(seq(SIZE, _ => 0), 0, 0)

  lemma {:induction false} SlotsApart(i: nat, j: nat)
    requires i < j < i + SIZE
    ensures i % SIZE != j % SIZE
  {
  }

  lemma {:induction false} PutAppends(r: Ring, sp: Sock)
    requires r.Valid() && r.head - r.tail < SIZE
    ensures r.Put(sp).Valid() && r.Put(sp).Contents() == r.Contents() + [sp]
  {
    var c := r.Put(sp).Contents();
    assert |c| == |r.Contents()| + 1;
    forall k | 0 <= k < |c|
      ensures c[k] == (r.Contents() + [sp])[k]
    {
      if k < r.head - r.tail { SlotsApart(r.tail + k, r.head); }
    }
  }

  /** Moving both indices back by the size changes nothing that can be seen. */
  lemma {:induction false} TakeRemovesOldest(r: Ring)
    requires r.Valid() && r.head > r.tail
    ensures r.Take().Valid() && r.Contents() == [r.Oldest()] + r.Take().Contents()
  {
    var c := r.Take().Contents();
    forall k | 0 <= k < |c|
      ensures c[k] == r.Contents()[k + 1]
    {
      assert (r.tail + 1 - SIZE + k) % SIZE == (r.tail + 1 + k) % SIZE;
    }
  }

  /** The queue's part of the server context, updated in place inside critical sections. */
  class Queue {
    const queue: array<Sock>
    var sqHead: int
    var sqTail: int

    ghost function Abs(): Ring
      reads this, queue
    {
      Ring(queue[..], sqHead, sqTail)
    }

    ghost predicate Valid()
      reads this, queue
    {
      Abs().Valid()
    }

    constructor ()
      ensures Valid() && Abs().Contents() == [] && fresh(queue)
    {
      queue := new Sock[SIZE](_ => 0);
      sqHead, sqTail := 0, 0;
    }

    /** The body of produce_socket once it is done waiting. */
    method Produce(sp: Sock)
      requires Valid()
      modifies this`sqHead, queue
      ensures Valid()
      ensures Abs().Contents() ==
              if |old(Abs().Contents())| < SIZE then old(Abs().Contents()) + [sp] else old(Abs().Contents())
      ensures Abs() == if old(sqHead - sqTail) < SIZE then old(Abs()).Put(sp) else old(Abs())
    {
      if sqHead - sqTail < queue.Length {
        PutAppends(Abs(), sp);
        queue[sqHead % queue.Length] := sp;
        sqHead := sqHead + 1;
      }
    }

    /** The body of consume_socket once it is done waiting. */
    method Consume() returns (sp: Option<Sock>)
      requires Valid()
      modifies this`sqHead, this`sqTail
      ensures Valid() && 0 <= sqTail <= SIZE && sqHead <= 2 * SIZE
      ensures var c := old(Abs().Contents());
              if c == [] then sp == None && Abs() == old(Abs())
              else sp == Some(c[0]) && Abs().Contents() == c[1..] && Abs() == old(Abs()).Take()
    {
      sp := None;
      if sqHead > sqTail {
        TakeRemovesOldest(Abs());
        sp := Some(queue[sqTail % queue.Length]);
        sqTail := sqTail + 1;
        while sqTail > queue.Length
          invariant sqHead - sqTail == old(sqHead - sqTail) - 1
          invariant sqTail == old(sqTail) + 1 || (old(sqTail) == SIZE && sqTail == 1)
          decreases sqTail
        {
          sqTail := sqTail - queue.Length;
          sqHead := sqHead - queue.Length;
        }
      }
    }
  }
}
