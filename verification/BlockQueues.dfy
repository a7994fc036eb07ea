/**
 The request queues of `devicemodel/hw/block_if.c` as values: 72 elements move among a
 free, a pending and a busy queue, and a request that starts where an outstanding one
 ends is held back until some request ending there leaves.
 */
module BlockQueues {

  const NUMTHR := 8
  const MAXREQ := 64 + NUMTHR
  const FLUSH_END := 128  // 1 << (sizeof(off_t) - 1), the end block the code gives a flush

  datatype Op = Read | Write | Flush | Discard

  datatype Status = Block | Pend | Busy | Done

  /** `struct blockif_elem` while in use.  `id` numbers submissions; `held` is the status
      decision taken at submission. */
  datatype Elem = Elem(slot: nat, id: nat, req: nat, off: int, block: int, status: Status, held: bool)

  datatype Queues = Queues(freeq: seq<nat>, pendq: seq<Elem>, busyq: seq<Elem>)

  function Sum(lens: seq<nat>): nat {
    if lens == [] then 0 else Sum(lens[..|lens| - 1]) + lens[|lens| - 1]
  }

  /** The total of the segments: nothing for none, a segment for itself, and additive. */
  lemma {:induction false} SumLaws(a: seq<nat>, b: seq<nat>, n: nat)
    ensures Sum([]) == 0 && Sum([n]) == n && Sum(a + b) == Sum(a) + Sum(b)
  {
    assert [n][..0] == [];
    if b == [] {
      assert a + b == a;
    } else {
      var m := |b| - 1;
      SumLaws(a, b[..m], n);
      assert (a + b)[..|a| + m] == a + b[..m];
    }
  }

  /** The block at which the request ends. */
  function EndOf(op: Op, off: int, lens: seq<nat>): int {
    if op.Flush? then FLUSH_END else off + Sum(lens)
  }

  predicate EndsAt(s: seq<Elem>, off: int) {
    exists i :: 0 <= i < |s| && s[i].block == off
  }

  /** The first element a worker may take, or the length of the queue. */
  function FirstReady(s: seq<Elem>): (i: nat)
    ensures i <= |s| && (i < |s| ==> s[i].status.Pend?)
    ensures forall j :: 0 <= j < i ==> !s[j].status.Pend?
  {
    if s == [] then 0 else if s[0].status.Pend? then 0 else 1 + FirstReady(s[1..])
  }

  /** The first element that satisfies `p`, or the length of the queue. */
  function First(s: seq<Elem>, p: Elem -> bool): (i: nat)
    ensures i <= |s| && (i < |s| ==> p(s[i]))
    ensures forall j :: 0 <= j < i ==> !p(s[j])
  {
    if s == [] then 0 else if p(s[0]) then 0 else 1 + First(s[1..], p)
  }

  function FirstOf(s: seq<Elem>, req: nat): (i: nat)
    ensures i <= |s| && (i < |s| ==> s[i].req == req)
    ensures forall j :: 0 <= j < i ==> s[j].req != req
  {
    First(s, (e: Elem) => e.req == req)
  }

  function Without<T>(s: seq<T>, i: nat): seq<T>
    requires i < |s|
  {
    s[..i] + s[i + 1..]
  }

  /** Requests that start at `block` may run. */
  function Released(s: seq<Elem>, block: int): (r: seq<Elem>)
    ensures |r| == |s|
    ensures forall i :: 0 <= i < |s| ==> r[i] == if s[i].off == block then s[i].(status := Pend) else s[i]
  {
    seq(|s|, i requires 0 <= i < |s| => if s[i].off == block then s[i].(status := Pend) else s[i])
  }

  function Enqueued(q: Queues, id: nat, req: nat, off: int, block: int): Queues
    requires q.freeq != []
  {
    var held := EndsAt(q.pendq, off) || EndsAt(q.busyq, off);
    var be := Elem(q.freeq[0], id, req, off, block, if held then Block else Pend, held);
    Queues(q.freeq[1..], q.pendq + [be], q.busyq)
  }

  function Dequeued(q: Queues): Queues
    requires FirstReady(q.pendq) < |q.pendq|
  {
    var i := FirstReady(q.pendq);
    q.(pendq := Without(q.pendq, i), busyq := q.busyq + [q.pendq[i].(status := Busy)])
  }

  /** blockif_complete of the busy element at index `i`. */
  function Completed(q: Queues, i: nat): Queues
    requires i < |q.busyq|
  {
    var be := q.busyq[i];
    Queues(q.freeq + [be.slot], Released(q.pendq, be.block), Without(q.busyq, i))
  }

  /** blockif_complete of the pending element at index `i`, as blockif_cancel calls it. */
  function Cancelled(q: Queues, i: nat): Queues
    requires i < |q.pendq|
  {
    var be := q.pendq[i];
    Queues(q.freeq + [be.slot], Released(Without(q.pendq, i), be.block), q.busyq)
  }
}

/** The queue code itself, in place. */
module BlockIf {
  import opened BlockQueues

  class Context {
    var freeq: seq<nat>
    var pendq: seq<Elem>
    var busyq: seq<Elem>

    ghost function Q(): Queues
      reads this
    {
      Queues(freeq, pendq, busyq)
    }

    constructor ()
      ensures pendq == [] && busyq == [] && |freeq| == MAXREQ
      ensures forall i :: 0 <= i < MAXREQ ==> freeq[i] == MAXREQ - 1 - i
    {
      freeq, pendq, busyq := [], [], [];
      new;
      for i := 0 to MAXREQ
        invariant pendq == [] && busyq == [] && |freeq| == i
        invariant forall j :: 0 <= j < i ==> freeq[j] == i - 1 - j
      {
        freeq := [i] + freeq;
      }
    }

    /** blockif_enqueue: without a free element nothing happens. */
    method Enqueue(id: nat, req: nat, op: Op, offset: int, lens: seq<nat>) returns (ready: bool)
      modifies this
      ensures old(freeq) == [] ==> !ready && Q() == old(Q())
      ensures old(freeq) != [] ==> Q() == Enqueued(old(Q()), id, req, offset, EndOf(op, offset, lens))
      ensures old(freeq) != [] ==> (ready <==> !EndsAt(old(pendq), offset) && !EndsAt(old(busyq), offset))
      ensures old(freeq) != [] ==>
        && |pendq| == |old(pendq)| + 1
        && var be := pendq[|pendq| - 1];
           && be.slot == old(freeq)[0] && be.id == id && be.req == req && be.off == offset
           && be.block == (if op.Flush? then 128 else offset + Sum(lens))
           && be.status == if ready then Pend else Block
    {
      if freeq == [] {
        return false;
      }
      var slot := freeq[0];
      freeq := freeq[1..];
      var off;
      match op {
        case Flush =>
          off := FLUSH_END;
        case _ =>
          off := offset;
          for i := 0 to |lens|
            invariant off == offset + Sum(lens[..i])
          {
            assert lens[..i + 1][..i] == lens[..i];
            off := off + lens[i];
          }
          assert lens[..|lens|] == lens;
      }
      var held := Scan(pendq, offset);
      if !held {
        held := Scan(busyq, offset);
      }
      pendq := pendq + [Elem(slot, id, req, offset, off, if held then Block else Pend, held)];
      ready := !held;
    }

    /** The TAILQ_FOREACH that looks for an outstanding request ending at `offset`. */
    method Scan(s: seq<Elem>, offset: int) returns (found: bool)
      ensures found <==> EndsAt(s, offset)
    {
      for i := 0 to |s|
        invariant !EndsAt(s[..i], offset)
      {
        if s[i].block == offset {
          return true;
        }
      }
      assert s[..|s|] == s;
      return false;
    }

    /** blockif_dequeue. */
    method Dequeue() returns (be: Elem, got: bool)
      modifies this
      ensures got <==> FirstReady(old(pendq)) < |old(pendq)|
      ensures got ==> Q() == Dequeued(old(Q())) && be == busyq[|busyq| - 1]
      ensures !got ==> Q() == old(Q())
    {
      var i := 0;
      while i < |pendq| && !pendq[i].status.Pend?
        invariant 0 <= i <= |pendq| && forall j :: 0 <= j < i ==> !pendq[j].status.Pend?
      {
        i := i + 1;
      }
      if i == |pendq| {
        return Elem(0, 0, 0, 0, 0, Block, false), false;
      }
      be := pendq[i].(status := Busy);
      pendq := pendq[..i] + pendq[i + 1..];
      busyq := busyq + [be];
      got := true;
    }

    /** blockif_complete of the element `be`, which sits at index `at` of its queue. */
    method Complete(be: Elem, at: nat)
      requires if be.status.Done? || be.status.Busy? then at < |busyq| && busyq[at] == be
               else at < |pendq| && pendq[at] == be
      modifies this
      ensures Q() == if be.status.Done? || be.status.Busy? then Completed(old(Q()), at) else Cancelled(old(Q()), at)
    {
      if be.status.Done? || be.status.Busy? {
        busyq := busyq[..at] + busyq[at + 1..];
      } else {
        pendq := pendq[..at] + pendq[at + 1..];
      }
      ghost var was := pendq;
      for i := 0 to |pendq|
        invariant |pendq| == |was| && freeq == old(freeq)
        invariant busyq == if be.status.Done? || be.status.Busy? then Without(old(busyq), at) else old(busyq)
        invariant forall j :: 0 <= j < |was| ==>
          pendq[j] == if j < i && was[j].off == be.block then was[j].(status := Pend) else was[j]
      {
        if pendq[i].off == be.block {
          pendq := pendq[i := pendq[i].(status := Pend)];
        }
      }
      assert pendq == Released(was, be.block);
      freeq := freeq + [be.slot];
    }

    /** The pending half of blockif_cancel: take out the first pending element of `req`, if any. */
    method Cancel(req: nat) returns (found: bool)
      requires forall i :: 0 <= i < |pendq| ==> pendq[i].status.Block? || pendq[i].status.Pend?
      modifies this
      ensures found <==> FirstOf(old(pendq), req) < |old(pendq)|
      ensures Q() == if found then Cancelled(old(Q()), FirstOf(old(pendq), req)) else old(Q())
    {
      var i := 0;
      while i < |pendq| && pendq[i].req != req
        invariant 0 <= i <= |pendq| && forall j :: 0 <= j < i ==> pendq[j].req != req
      {
        i := i + 1;
      }
      found := i < |pendq|;
      if found {
        Complete(pendq[i], i);
      }
    }
  }
}
