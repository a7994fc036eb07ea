/**
 Eight workers and any number of clients over the queues of `block_if.c`.  Each region
 under the context's mutex is one step; callbacks run outside it.
 */
module BlockSched {
  import opened BlockQueues

  datatype Worker = Awake | Waiting | Processing(id: nat) | Exited

  datatype Event =
    | Submitted(id: nat, off: int, block: int, held: bool)
    | Started(id: nat)
    | CalledBack(id: nat)
    | Finished(id: nat)
    | Dropped(id: nat)  // cancelled while pending

  datatype State = State(q: Queues, workers: seq<Worker>, closing: bool, next: nat, log: seq<Event>)

  datatype Action =
    | Submit(req: nat, op: Op, off: int, lens: seq<nat>, woken: nat)  // `woken`: the waiter a signal reaches
    | Take(w: nat)     // blockif_dequeue succeeds
    | Call(w: nat)     // blockif_proc: BST_DONE, then the callback
    | Finish(w: nat)   // blockif_complete
    | Sleep(w: nat)    // nothing to take, not closing: pthread_cond_wait
    | Exit(w: nat)     // nothing to take, closing
    | Wake(w: nat)     // a waiter returns without having been signalled
    | Cancel(req: nat)
    | Close

  function Free(n: nat): seq<nat> {
    if n == 0 then [] else [n - 1] + Free(n - 1)
  }

  function Init(): State {
    State(Queues(Free(MAXREQ), [], []), seq(NUMTHR, _ => Awake), false, 0, [])
  }

  predicate Is(s: State, w: nat, k: Worker) {
    w < |s.workers| && s.workers[w] == k
  }

  predicate AnyWaiting(s: State) {
    exists w :: 0 <= w < |s.workers| && s.workers[w].Waiting?
  }

  function FirstId(s: seq<Elem>, id: nat): (i: nat)
    ensures i <= |s| && (i < |s| ==> s[i].id == id)
    ensures forall j :: 0 <= j < i ==> s[j].id != id
  {
    First(s, (e: Elem) => e.id == id)
  }

  /** The busy element worker `w` is processing. */
  function At(s: State, w: nat): nat
    requires w < |s.workers| && s.workers[w].Processing?
  {
    FirstId(s.q.busyq, s.workers[w].id)
  }

  /** blockif_proc marks the element done before its callback. */
  function Called(q: Queues, i: nat): Queues
    requires i < |q.busyq|
  {
    q.(busyq := q.busyq[i := q.busyq[i].(status := Done)])
  }

  predicate Enabled(s: State, a: Action) {
    match a
    case Submit(_, _, off, _, woken) =>
      // clients do not submit to a context they are closing
      && !s.closing
      && (s.q.freeq != [] && Ready(s.q, off) && AnyWaiting(s) ==> Is(s, woken, Waiting))
    case Take(w) => Is(s, w, Awake) && FirstReady(s.q.pendq) < |s.q.pendq|
    case Call(w) => w < |s.workers| && s.workers[w].Processing? && At(s, w) < |s.q.busyq| && s.q.busyq[At(s, w)].status.Busy?
    case Finish(w) => w < |s.workers| && s.workers[w].Processing? && At(s, w) < |s.q.busyq| && s.q.busyq[At(s, w)].status.Done?
    case Sleep(w) => Is(s, w, Awake) && FirstReady(s.q.pendq) == |s.q.pendq| && !s.closing
    case Exit(w) => Is(s, w, Awake) && FirstReady(s.q.pendq) == |s.q.pendq| && s.closing
    case Wake(w) => Is(s, w, Waiting)
    case Cancel(_) => true
    case Close => !s.closing
  }

  /** The request would be dispatchable at submission. */
  predicate Ready(q: Queues, off: int) {
    !EndsAt(q.pendq, off) && !EndsAt(q.busyq, off)
  }

  function Apply(s: State, a: Action): State
    requires Enabled(s, a)
  {
    match a
    case Submit(req, op, off, lens, woken) =>
      if s.q.freeq == [] then s  // E2BIG
      else
        var block := EndOf(op, off, lens);
        var ws := if Ready(s.q, off) && AnyWaiting(s) then s.workers[woken := Awake] else s.workers;
        s.(q := Enqueued(s.q, s.next, req, off, block), workers := ws, next := s.next + 1,
           log := s.log + [Submitted(s.next, off, block, !Ready(s.q, off))])
    case Take(w) =>
      var id := s.q.pendq[FirstReady(s.q.pendq)].id;
      s.(q := Dequeued(s.q), workers := s.workers[w := Processing(id)], log := s.log + [Started(id)])
    case Call(w) =>
      var i := At(s, w);
      s.(q := Called(s.q, i), log := s.log + [CalledBack(s.workers[w].id)])
    case Finish(w) =>
      s.(q := Completed(s.q, At(s, w)), workers := s.workers[w := Awake], log := s.log + [Finished(s.workers[w].id)])
    case Sleep(w) => s.(workers := s.workers[w := Waiting])
    case Exit(w) => s.(workers := s.workers[w := Exited])
    case Wake(w) => s.(workers := s.workers[w := Awake])
    case Cancel(req) =>
      var i := FirstOf(s.q.pendq, req);
      if i == |s.q.pendq| then s  // in flight or unknown: the queues stay as they are
      else s.(q := Cancelled(s.q, i), log := s.log + [Dropped(s.q.pendq[i].id)])
    case Close =>
      s.(closing := true, workers := seq(|s.workers|, i requires 0 <= i < |s.workers| => if s.workers[i].Waiting? then Awake else s.workers[i]))
  }

  /** The state a sequence of actions leads to; an action that is not enabled is no action. */
  function Reached(acts: seq<Action>): State {
    if acts == [] then Init()
    else
      var s := Reached(acts[..|acts| - 1]);
      if Enabled(s, acts[|acts| - 1]) then Apply(s, acts[|acts| - 1]) else s
  }

  // ---- what every reachable queue satisfies ----

  ghost function Slots(s: seq<Elem>): multiset<nat> {
    if s == [] then multiset{} else Slots(s[..|s| - 1]) + multiset{s[|s| - 1].slot}
  }

  ghost function AllSlots(): multiset<nat> {
    multiset(Free(MAXREQ))
  }

  ghost predicate Conserved(q: Queues) {
    multiset(q.freeq) + Slots(q.pendq) + Slots(q.busyq) == AllSlots()
  }

  /** Pending requests queue in submission order; no submission number is used twice. */
  ghost predicate Numbered(q: Queues, next: nat) {
    && (forall i, j :: 0 <= i < j < |q.pendq| ==> q.pendq[i].id < q.pendq[j].id)
    && (forall i, j :: 0 <= i < j < |q.busyq| ==> q.busyq[i].id != q.busyq[j].id)
    && (forall i, j :: 0 <= i < |q.pendq| && 0 <= j < |q.busyq| ==> q.pendq[i].id != q.busyq[j].id)
    && (forall i :: 0 <= i < |q.pendq| ==> q.pendq[i].id < next)
    && (forall i :: 0 <= i < |q.busyq| ==> q.busyq[i].id < next)
  }

  ghost predicate Unique(s: seq<Elem>) {
    forall i, j :: 0 <= i < j < |s| ==> s[i].id != s[j].id
  }

  ghost predicate Tagged(q: Queues) {
    && (forall i :: 0 <= i < |q.pendq| ==> q.pendq[i].status.Block? || q.pendq[i].status.Pend?)
    && (forall i :: 0 <= i < |q.pendq| ==> q.pendq[i].status.Block? ==> q.pendq[i].held)
    && (forall i :: 0 <= i < |q.busyq| ==> q.busyq[i].status.Busy? || q.busyq[i].status.Done?)
  }

  /** Some element of `s` submitted before `id` ends at `off`. */
  ghost predicate EarlierEnd(s: seq<Elem>, off: int, id: nat) {
    exists j :: 0 <= j < |s| && s[j].block == off && s[j].id < id
  }

  /** Every held-back request waits for an outstanding earlier one that ends where it starts. */
  ghost predicate Justified(q: Queues) {
    forall i :: 0 <= i < |q.pendq| && q.pendq[i].status.Block? ==>
      EarlierEnd(q.pendq, q.pendq[i].off, q.pendq[i].id) || EarlierEnd(q.busyq, q.pendq[i].off, q.pendq[i].id)
  }

  ghost predicate QInv(q: Queues, next: nat) {
    Conserved(q) && Numbered(q, next) && Tagged(q) && Justified(q)
  }

  lemma {:induction false} SlotsAppend(s: seq<Elem>, e: Elem)
    ensures Slots(s + [e]) == Slots(s) + multiset{e.slot}
  {
  }

  lemma {:induction false} SlotsWithout(s: seq<Elem>, i: nat)
    requires i < |s|
    ensures Slots(s) == Slots(Without(s, i)) + multiset{s[i].slot}
  {
    var n := |s| - 1;
    if i == n {
      assert Without(s, i) == s[..n];
    } else {
      SlotsWithout(s[..n], i);
      assert Without(s, i) == Without(s[..n], i) + [s[n]];
      SlotsAppend(Without(s[..n], i), s[n]);
    }
  }

  lemma {:induction false} SlotsSame(s: seq<Elem>, r: seq<Elem>)
    requires |s| == |r| && forall i :: 0 <= i < |s| ==> r[i].slot == s[i].slot
    ensures Slots(s) == Slots(r)
  {
    if s != [] {
      SlotsSame(s[..|s| - 1], r[..|r| - 1]);
    }
  }

  // Each queue operation keeps each of the four properties.

  lemma EnqueuedConserved(q: Queues, id: nat, req: nat, off: int, block: int)
    requires Conserved(q) && q.freeq != []
    ensures Conserved(Enqueued(q, id, req, off, block))
  {
    var r := Enqueued(q, id, req, off, block);
    SlotsAppend(q.pendq, r.pendq[|q.pendq|]);
    assert q.freeq == [q.freeq[0]] + q.freeq[1..];
  }

  lemma DequeuedConserved(q: Queues)
    requires Conserved(q) && FirstReady(q.pendq) < |q.pendq|
    ensures Conserved(Dequeued(q))
  {
    var i := FirstReady(q.pendq);
    SlotsWithout(q.pendq, i);
    SlotsAppend(q.busyq, q.pendq[i].(status := Busy));
  }

  lemma CompletedConserved(q: Queues, i: nat)
    requires Conserved(q) && i < |q.busyq|
    ensures Conserved(Completed(q, i))
  {
    SlotsWithout(q.busyq, i);
    SlotsSame(q.pendq, Released(q.pendq, q.busyq[i].block));
  }

  lemma CancelledConserved(q: Queues, i: nat)
    requires Conserved(q) && i < |q.pendq|
    ensures Conserved(Cancelled(q, i))
  {
    SlotsWithout(q.pendq, i);
    SlotsSame(Without(q.pendq, i), Released(Without(q.pendq, i), q.pendq[i].block));
  }

  /** Element `j` of `s` is element `Past(j, i)` of Without(s, i). */
  function Past(j: nat, i: nat): nat
    requires j != i
  {
    if j < i then j else j - 1
  }

  lemma EnqueuedJustified(q: Queues, next: nat, req: nat, off: int, block: int)
    requires Justified(q) && Numbered(q, next) && q.freeq != []
    ensures Justified(Enqueued(q, next, req, off, block))
  {
    var r := Enqueued(q, next, req, off, block);
    forall i | 0 <= i < |r.pendq| && r.pendq[i].status.Block?
      ensures EarlierEnd(r.pendq, r.pendq[i].off, r.pendq[i].id) || EarlierEnd(r.busyq, r.pendq[i].off, r.pendq[i].id)
    {
      var p := r.pendq[i];
      if i == |q.pendq| {
        assert EarlierEnd(q.pendq, p.off, p.id) || EarlierEnd(q.busyq, p.off, p.id);
      }
      if EarlierEnd(q.pendq, p.off, p.id) {
        var j :| 0 <= j < |q.pendq| && q.pendq[j].block == p.off && q.pendq[j].id < p.id;
        assert r.pendq[j] == q.pendq[j];
      }
    }
  }

  lemma DequeuedJustified(q: Queues)
    requires Justified(q) && FirstReady(q.pendq) < |q.pendq|
    ensures Justified(Dequeued(q))
  {
    var r, t := Dequeued(q), FirstReady(q.pendq);
    forall i | 0 <= i < |r.pendq| && r.pendq[i].status.Block?
      ensures EarlierEnd(r.pendq, r.pendq[i].off, r.pendq[i].id) || EarlierEnd(r.busyq, r.pendq[i].off, r.pendq[i].id)
    {
      var p := r.pendq[i];
      assert p == q.pendq[if i < t then i else i + 1];
      if EarlierEnd(q.pendq, p.off, p.id) {
        var j :| 0 <= j < |q.pendq| && q.pendq[j].block == p.off && q.pendq[j].id < p.id;
        if j == t {
          assert r.busyq[|q.busyq|].block == p.off && r.busyq[|q.busyq|].id < p.id;
        } else {
          assert r.pendq[Past(j, t)] == q.pendq[j];
        }
      } else {
        var j :| 0 <= j < |q.busyq| && q.busyq[j].block == p.off && q.busyq[j].id < p.id;
        assert r.busyq[j] == q.busyq[j];
      }
    }
  }

  lemma CompletedJustified(q: Queues, t: nat)
    requires Justified(q) && t < |q.busyq|
    ensures Justified(Completed(q, t))
  {
    var r := Completed(q, t);
    forall i | 0 <= i < |r.pendq| && r.pendq[i].status.Block?
      ensures EarlierEnd(r.pendq, r.pendq[i].off, r.pendq[i].id) || EarlierEnd(r.busyq, r.pendq[i].off, r.pendq[i].id)
    {
      var p := r.pendq[i];
      assert p == q.pendq[i] && p.off != q.busyq[t].block;
      if EarlierEnd(q.pendq, p.off, p.id) {
        var j :| 0 <= j < |q.pendq| && q.pendq[j].block == p.off && q.pendq[j].id < p.id;
        assert r.pendq[j].block == p.off && r.pendq[j].id < p.id;
      } else {
        var j :| 0 <= j < |q.busyq| && q.busyq[j].block == p.off && q.busyq[j].id < p.id;
        assert r.busyq[Past(j, t)] == q.busyq[j];
      }
    }
  }

  lemma CancelledJustified(q: Queues, t: nat)
    requires Justified(q) && t < |q.pendq|
    ensures Justified(Cancelled(q, t))
  {
    var r := Cancelled(q, t);
    forall i | 0 <= i < |r.pendq| && r.pendq[i].status.Block?
      ensures EarlierEnd(r.pendq, r.pendq[i].off, r.pendq[i].id) || EarlierEnd(r.busyq, r.pendq[i].off, r.pendq[i].id)
    {
      var p := r.pendq[i];
      assert p == q.pendq[if i < t then i else i + 1] && p.off != q.pendq[t].block;
      if EarlierEnd(q.pendq, p.off, p.id) {
        var j :| 0 <= j < |q.pendq| && q.pendq[j].block == p.off && q.pendq[j].id < p.id;
        assert r.pendq[Past(j, t)].block == p.off && r.pendq[Past(j, t)].id < p.id;
      }
    }
  }

  lemma DequeuedNumbered(q: Queues, next: nat)
    requires Numbered(q, next) && FirstReady(q.pendq) < |q.pendq|
    ensures Numbered(Dequeued(q), next)
  {
    var r, t := Dequeued(q), FirstReady(q.pendq);
    assert forall i :: 0 <= i < |r.pendq| ==> r.pendq[i] == q.pendq[if i < t then i else i + 1];
  }

  lemma CompletedNumbered(q: Queues, next: nat, t: nat)
    requires Numbered(q, next) && t < |q.busyq|
    ensures Numbered(Completed(q, t), next)
  {
  }

  lemma CancelledNumbered(q: Queues, next: nat, t: nat)
    requires Numbered(q, next) && t < |q.pendq|
    ensures Numbered(Cancelled(q, t), next)
  {
    var r := Cancelled(q, t);
    assert forall i :: 0 <= i < |r.pendq| ==> r.pendq[i].id == q.pendq[if i < t then i else i + 1].id;
  }

  lemma DequeuedTagged(q: Queues)
    requires Tagged(q) && FirstReady(q.pendq) < |q.pendq|
    ensures Tagged(Dequeued(q))
  {
  }

  lemma CompletedTagged(q: Queues, t: nat)
    requires Tagged(q) && t < |q.busyq|
    ensures Tagged(Completed(q, t))
  {
  }

  lemma EnqueuedNumbered(q: Queues, next: nat, req: nat, off: int, block: int)
    requires Numbered(q, next) && Tagged(q) && q.freeq != []
    ensures Numbered(Enqueued(q, next, req, off, block), next + 1) && Tagged(Enqueued(q, next, req, off, block))
  {
  }

  lemma CancelledTagged(q: Queues, t: nat)
    requires Tagged(q) && t < |q.pendq|
    ensures Tagged(Cancelled(q, t))
  {
  }

  lemma EnqueuedInv(q: Queues, next: nat, req: nat, off: int, block: int)
    requires QInv(q, next) && q.freeq != []
    ensures QInv(Enqueued(q, next, req, off, block), next + 1)
  {
    EnqueuedConserved(q, next, req, off, block);
    EnqueuedNumbered(q, next, req, off, block);
    EnqueuedJustified(q, next, req, off, block);
  }

  lemma DequeuedInv(q: Queues, next: nat)
    requires QInv(q, next) && FirstReady(q.pendq) < |q.pendq|
    ensures QInv(Dequeued(q), next)
  {
    DequeuedConserved(q);
    DequeuedNumbered(q, next);
    DequeuedTagged(q);
    DequeuedJustified(q);
  }

  lemma CompletedInv(q: Queues, next: nat, i: nat)
    requires QInv(q, next) && i < |q.busyq|
    ensures QInv(Completed(q, i), next)
  {
    CompletedConserved(q, i);
    CompletedNumbered(q, next, i);
    CompletedTagged(q, i);
    CompletedJustified(q, i);
  }

  lemma CancelledInv(q: Queues, next: nat, i: nat)
    requires QInv(q, next) && i < |q.pendq|
    ensures QInv(Cancelled(q, i), next)
  {
    CancelledConserved(q, i);
    CancelledNumbered(q, next, i);
    CancelledTagged(q, i);
    CancelledJustified(q, i);
  }

  lemma CalledInv(q: Queues, next: nat, i: nat)
    requires QInv(q, next) && i < |q.busyq|
    ensures QInv(Called(q, i), next)
  {
    SlotsSame(q.busyq, Called(q, i).busyq);
    CalledJustified(q, i);
  }

  lemma CalledJustified(q: Queues, i: nat)
    requires Justified(q) && i < |q.busyq|
    ensures Justified(Called(q, i))
  {
    var r := Called(q, i);
    forall k | 0 <= k < |r.pendq| && r.pendq[k].status.Block?
      ensures EarlierEnd(r.pendq, r.pendq[k].off, r.pendq[k].id) || EarlierEnd(r.busyq, r.pendq[k].off, r.pendq[k].id)
    {
      var p := q.pendq[k];
      if EarlierEnd(q.busyq, p.off, p.id) {
        var j :| 0 <= j < |q.busyq| && q.busyq[j].block == p.off && q.busyq[j].id < p.id;
        assert r.busyq[j].block == p.off && r.busyq[j].id < p.id;
      }
    }
  }

  /** With nothing busy, the head of the pending queue can be dispatched. */
  lemma HeadReady(q: Queues, next: nat)
    requires QInv(q, next) && q.busyq == [] && q.pendq != []
    ensures q.pendq[0].status.Pend? && FirstReady(q.pendq) == 0
  {
  }

  // ---- workers ----

  ghost predicate HasId(s: seq<Elem>, id: nat) {
    exists i :: 0 <= i < |s| && s[i].id == id
  }

  /** Busy elements and processing workers correspond one to one. */
  ghost predicate Manned(s: State) {
    && (forall w :: 0 <= w < |s.workers| && s.workers[w].Processing? ==> HasId(s.q.busyq, s.workers[w].id))
    && (forall i :: 0 <= i < |s.q.busyq| ==> Processing(s.q.busyq[i].id) in s.workers)
    && (forall w, v :: 0 <= w < v < |s.workers| && s.workers[w].Processing? ==> s.workers[v] != s.workers[w])
  }

  ghost predicate Active(s: State) {
    exists w :: 0 <= w < |s.workers| && (s.workers[w].Awake? || s.workers[w].Processing?)
  }

  predicate Outstanding(s: State) {
    s.q.pendq != [] || s.q.busyq != []
  }

  ghost predicate Inv(s: State) {
    && QInv(s.q, s.next) && |s.workers| == NUMTHR && Manned(s)
    && (Outstanding(s) ==> Active(s))
    && (if s.closing then Waiting !in s.workers else Exited !in s.workers)
  }

  lemma InitInv()
    ensures Inv(Init())
  {
  }

  lemma MannedSame(s: State, z: State)
    requires Manned(s) && z.workers == s.workers && |z.q.busyq| == |s.q.busyq|
    requires forall i :: 0 <= i < |s.q.busyq| ==> z.q.busyq[i].id == s.q.busyq[i].id
    ensures Manned(z)
  {
  }

  lemma TakeManned(s: State, w: nat)
    requires Manned(s) && Numbered(s.q, s.next) && Enabled(s, Take(w))
    ensures Manned(Apply(s, Take(w))) && Active(Apply(s, Take(w)))
  {
    var t := FirstReady(s.q.pendq);
    var id, z := s.q.pendq[t].id, Apply(s, Take(w));
    var ws := z.workers;
    assert ws[w] == Processing(id);
    forall v | 0 <= v < |ws| && ws[v].Processing?
      ensures HasId(z.q.busyq, ws[v].id) && (v != w ==> ws[v] != ws[w])
    {
      if v == w {
        assert z.q.busyq[|s.q.busyq|].id == id;
      } else {
        var i :| 0 <= i < |s.q.busyq| && s.q.busyq[i].id == ws[v].id;
        assert z.q.busyq[i] == s.q.busyq[i];
      }
    }
    forall i | 0 <= i < |z.q.busyq| ensures Processing(z.q.busyq[i].id) in ws {
      if i < |s.q.busyq| {
        var v :| 0 <= v < |s.workers| && s.workers[v] == Processing(s.q.busyq[i].id);
        assert ws[v] == s.workers[v];
      }
    }
  }

  /** Removing a worker's element with the worker leaving it. */
  lemma FinishManned(s: State, w: nat, t: nat, z: State)
    requires Manned(s) && Numbered(s.q, s.next) && w < |s.workers| && s.workers[w].Processing?
    requires t < |s.q.busyq| && s.q.busyq[t].id == s.workers[w].id
    requires z.workers == s.workers[w := Awake] && z.q.busyq == Without(s.q.busyq, t)
    ensures Manned(z)
  {
    forall v | 0 <= v < |z.workers| && z.workers[v].Processing? ensures HasId(z.q.busyq, z.workers[v].id) {
      assert z.workers[v] == s.workers[v] != s.workers[w];
      var i :| 0 <= i < |s.q.busyq| && s.q.busyq[i].id == z.workers[v].id;
      assert z.q.busyq[Past(i, t)] == s.q.busyq[i];
    }
    forall i | 0 <= i < |z.q.busyq| ensures Processing(z.q.busyq[i].id) in z.workers {
      var j := if i < t then i else i + 1;
      assert z.q.busyq[i] == s.q.busyq[j];
      var v :| 0 <= v < |s.workers| && s.workers[v] == Processing(s.q.busyq[j].id);
      assert z.workers[v] == s.workers[v];
    }
  }

  /** Changing a worker that is not processing, to a state that is not processing. */
  lemma OtherManned(s: State, w: nat, k: Worker)
    requires Manned(s) && w < |s.workers| && !s.workers[w].Processing? && !k.Processing?
    ensures Manned(s.(workers := s.workers[w := k]))
  {
    var ws := s.workers[w := k];
    forall i | 0 <= i < |s.q.busyq| ensures Processing(s.q.busyq[i].id) in ws {
      var v :| 0 <= v < |s.workers| && s.workers[v] == Processing(s.q.busyq[i].id);
      assert ws[v] == s.workers[v];
    }
  }

  /** A worker that finds nothing to take leaves someone active as long as work is outstanding. */
  lemma StillActive(s: State, w: nat, k: Worker)
    requires QInv(s.q, s.next) && Manned(s) && w < |s.workers| && s.workers[w].Awake? && FirstReady(s.q.pendq) == |s.q.pendq|
    ensures Outstanding(s) ==> Active(s.(workers := s.workers[w := k]))
  {
    if s.q.busyq != [] {
      var v :| 0 <= v < |s.workers| && s.workers[v] == Processing(s.q.busyq[0].id);
      assert s.workers[w := k][v].Processing?;
    } else if s.q.pendq != [] {
      HeadReady(s.q, s.next);
      assert false;
    }
  }

  lemma SubmitManned(s: State, a: Action)
    requires Manned(s) && a.Submit? && Enabled(s, a) && s.q.freeq != []
    ensures Manned(Apply(s, a))
  {
  }

  /** A signal reaches a waiter if there is one; if not, nobody sleeps. */
  lemma SubmitInv(s: State, a: Action)
    requires Inv(s) && a.Submit? && Enabled(s, a)
    ensures Inv(Apply(s, a))
  {
    if s.q.freeq != [] {
      EnqueuedInv(s.q, s.next, a.req, a.off, EndOf(a.op, a.off, a.lens));
      SubmitManned(s, a);
      SubmitActive(s, a);
      assert Exited !in Apply(s, a).workers;
    }
  }

  lemma SubmitActive(s: State, a: Action)
    requires Inv(s) && a.Submit? && Enabled(s, a) && s.q.freeq != []
    ensures Active(Apply(s, a))
  {
    var z := Apply(s, a);
    if Ready(s.q, a.off) && AnyWaiting(s) {
      assert z.workers[a.woken].Awake?;
    } else if Outstanding(s) {
      var w :| 0 <= w < |s.workers| && (s.workers[w].Awake? || s.workers[w].Processing?);
      assert z.workers[w] == s.workers[w];
    } else {
      assert Ready(s.q, a.off) && !AnyWaiting(s);
      assert z.workers[0] == s.workers[0] && s.workers[0] in s.workers;
    }
  }

  lemma TakeInv(s: State, w: nat)
    requires Inv(s) && Enabled(s, Take(w))
    ensures Inv(Apply(s, Take(w)))
  {
    DequeuedInv(s.q, s.next);
    TakeManned(s, w);
  }

  lemma CallInv(s: State, w: nat)
    requires Inv(s) && Enabled(s, Call(w))
    ensures Inv(Apply(s, Call(w)))
  {
    CalledInv(s.q, s.next, At(s, w));
    MannedSame(s, Apply(s, Call(w)));
    assert Apply(s, Call(w)).workers[w].Processing?;
  }

  lemma FinishInv(s: State, w: nat)
    requires Inv(s) && Enabled(s, Finish(w))
    ensures Inv(Apply(s, Finish(w)))
  {
    CompletedInv(s.q, s.next, At(s, w));
    FinishManned(s, w, At(s, w), Apply(s, Finish(w)));
    assert Apply(s, Finish(w)).workers[w].Awake?;
  }

  lemma CancelInv(s: State, req: nat)
    requires Inv(s)
    ensures Inv(Apply(s, Cancel(req)))
  {
    var i, z := FirstOf(s.q.pendq, req), Apply(s, Cancel(req));
    if i == |s.q.pendq| {
      assert z == s;
    } else {
      CancelledInv(s.q, s.next, i);
      MannedSame(s, z);
      assert z.q == Cancelled(s.q, i) && QInv(z.q, z.next);
      assert Active(s) && Active(z);
    }
  }

  lemma SleepInv(s: State, w: nat)
    requires Inv(s) && Enabled(s, Sleep(w))
    ensures Inv(Apply(s, Sleep(w)))
  {
    OtherManned(s, w, Waiting);
    StillActive(s, w, Waiting);
  }

  lemma ExitInv(s: State, w: nat)
    requires Inv(s) && Enabled(s, Exit(w))
    ensures Inv(Apply(s, Exit(w)))
  {
    OtherManned(s, w, Exited);
    StillActive(s, w, Exited);
  }

  lemma WakeInv(s: State, w: nat)
    requires Inv(s) && Enabled(s, Wake(w))
    ensures Inv(Apply(s, Wake(w)))
  {
    OtherManned(s, w, Awake);
    assert Apply(s, Wake(w)).workers[w].Awake?;
  }

  lemma CloseManned(s: State)
    requires Manned(s) && Enabled(s, Close)
    ensures Manned(Apply(s, Close))
  {
    var z := Apply(s, Close);
    forall i | 0 <= i < |s.q.busyq| ensures Processing(s.q.busyq[i].id) in z.workers {
      assert Processing(s.q.busyq[i].id) in s.workers;
      var v :| 0 <= v < |s.workers| && s.workers[v] == Processing(s.q.busyq[i].id);
      assert z.workers[v] == s.workers[v];
    }
  }

  lemma CloseActive(s: State)
    requires Enabled(s, Close)
    ensures Active(s) ==> Active(Apply(s, Close))
    ensures Waiting !in Apply(s, Close).workers
  {
    if Active(s) {
      var w :| 0 <= w < |s.workers| && (s.workers[w].Awake? || s.workers[w].Processing?);
      assert Apply(s, Close).workers[w] == s.workers[w];
    }
  }

  lemma CloseInv(s: State)
    requires Inv(s) && Enabled(s, Close)
    ensures Inv(Apply(s, Close))
  {
    CloseManned(s);
    CloseActive(s);
  }

  lemma ApplyInv(s: State, a: Action)
    requires Inv(s) && Enabled(s, a)
    ensures Inv(Apply(s, a))
  {
    match a
    case Submit(_, _, _, _, _) => SubmitInv(s, a);
    case Take(w) => TakeInv(s, w);
    case Call(w) => CallInv(s, w);
    case Finish(w) => FinishInv(s, w);
    case Sleep(w) => SleepInv(s, w);
    case Exit(w) => ExitInv(s, w);
    case Wake(w) => WakeInv(s, w);
    case Cancel(req) => CancelInv(s, req);
    case Close => CloseInv(s);
  }

  lemma {:induction false} ReachedInv(acts: seq<Action>)
    ensures Inv(Reached(acts))
  {
    if acts == [] {
      InitInv();
    } else {
      var s, a := Reached(acts[..|acts| - 1]), acts[|acts| - 1];
      ReachedInv(acts[..|acts| - 1]);
      if Enabled(s, a) {
        ApplyInv(s, a);
      }
    }
  }

  lemma Extend(acts: seq<Action>, a: Action)
    ensures Reached(acts + [a]) == if Enabled(Reached(acts), a) then Apply(Reached(acts), a) else Reached(acts)
  {
    assert (acts + [a])[..|acts|] == acts;
  }
}
