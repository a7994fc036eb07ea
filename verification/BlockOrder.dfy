/**
 The order guarantee of the block scheduler: what a held-back request waits for.
 */
module BlockOrder {
  import opened BlockQueues
  import opened BlockSched

  // ---- a held-back request starts only after a request ending at its offset has left ----

  /** At log position `r` a request that ends at `off` completes or is cancelled; with `early`, one submitted before `a`. */
  ghost predicate Retires(log: seq<Event>, r: nat, off: int, a: nat, early: bool) {
    r < |log| && exists c :: 0 <= c < r && (early ==> c < a) && log[c].Submitted? && log[c].block == off
                             && (log[r] == Finished(log[c].id) || log[r] == Dropped(log[c].id))
  }

  /** Such a request leaves after position `a`. */
  ghost predicate FreedAfter(log: seq<Event>, a: nat, off: int, early: bool) {
    exists r :: a < r < |log| && Retires(log, r, off, a, early)
  }

  /** `a` is the submission of `p`; if `p` was held back and is no longer, something ending at its
      offset has left since. */
  ghost predicate Traces(log: seq<Event>, a: nat, p: Elem, early: bool) {
    && a < |log| && log[a] == Submitted(p.id, p.off, p.block, p.held)
    && (p.held && !p.status.Block? ==> FreedAfter(log, a, p.off, early))
  }

  ghost predicate Traced(log: seq<Event>, p: Elem, early: bool) {
    exists a: nat :: Traces(log, a, p, early)
  }

  ghost predicate AllTraced(log: seq<Event>, s: seq<Elem>, early: bool) {
    forall i :: 0 <= i < |s| ==> Traced(log, s[i], early)
  }

  /** Submissions are numbered in order, and only submitted requests start. */
  ghost predicate LogNumbered(log: seq<Event>, next: nat) {
    && (forall a, b :: 0 <= a < b < |log| && log[a].Submitted? && log[b].Submitted? ==> log[a].id < log[b].id)
    && (forall a :: 0 <= a < |log| ==> log[a].id < next)
  }

  /** Every start of a request that was held back at submission follows a release. */
  ghost predicate StartsFreed(log: seq<Event>, early: bool) {
    forall a, b :: 0 <= a < |log| && 0 <= b < |log| && log[a].Submitted? && log[a].held && log[b] == Started(log[a].id)
      ==> a < b && FreedAfter(log[..b], a, log[a].off, early)
  }

  ghost predicate LogInv(s: State, early: bool) {
    && AllTraced(s.log, s.q.pendq, early) && AllTraced(s.log, s.q.busyq, early)
    && LogNumbered(s.log, s.next) && StartsFreed(s.log, early)
  }

  lemma FreedMore(log: seq<Event>, e: Event, a: nat, off: int, early: bool)
    requires FreedAfter(log, a, off, early)
    ensures FreedAfter(log + [e], a, off, early)
  {
    var r :| a < r < |log| && Retires(log, r, off, a, early);
    var c :| 0 <= c < r && (early ==> c < a) && log[c].Submitted? && log[c].block == off
             && (log[r] == Finished(log[c].id) || log[r] == Dropped(log[c].id));
    var l := log + [e];
    assert l[c] == log[c] && l[r] == log[r];
    assert Retires(l, r, off, a, early);
  }

  lemma TracedMore(log: seq<Event>, e: Event, p: Elem, early: bool)
    requires Traced(log, p, early)
    ensures Traced(log + [e], p, early)
  {
    var a: nat :| Traces(log, a, p, early);
    if p.held && !p.status.Block? {
      FreedMore(log, e, a, p.off, early);
    }
    assert Traces(log + [e], a, p, early);
  }

  lemma AllTracedMore(log: seq<Event>, e: Event, s: seq<Elem>, early: bool)
    requires AllTraced(log, s, early)
    ensures AllTraced(log + [e], s, early)
  {
    forall i | 0 <= i < |s| ensures Traced(log + [e], s[i], early) {
      TracedMore(log, e, s[i], early);
    }
  }

  /** Logging anything but a start keeps StartsFreed, provided a new submission is new. */
  lemma StartsFreedMore(log: seq<Event>, e: Event, next: nat, early: bool)
    requires StartsFreed(log, early) && LogNumbered(log, next) && !e.Started? && (e.Submitted? ==> e.id == next)
    ensures StartsFreed(log + [e], early)
  {
    var l := log + [e];
    forall a, b | 0 <= a < |l| && 0 <= b < |l| && l[a].Submitted? && l[a].held && l[b] == Started(l[a].id)
      ensures a < b && FreedAfter(l[..b], a, l[a].off, early)
    {
      assert b < |log| && l[b] == log[b];
      assert a < |log| && l[a] == log[a];
      assert l[..b] == log[..b];
    }
  }

  /** A start is logged for a ready element: its release is already in the log. */
  lemma StartsFreedTake(log: seq<Event>, p: Elem, next: nat, early: bool)
    requires StartsFreed(log, early) && LogNumbered(log, next) && Traced(log, p, early) && p.status.Pend?
    ensures StartsFreed(log + [Started(p.id)], early)
  {
    var l := log + [Started(p.id)];
    var at: nat :| Traces(log, at, p, early);
    forall a, b | 0 <= a < |l| && 0 <= b < |l| && l[a].Submitted? && l[a].held && l[b] == Started(l[a].id)
      ensures a < b && FreedAfter(l[..b], a, l[a].off, early)
    {
      assert l[a] == log[a];
      if b < |log| {
        assert l[b] == log[b] && l[..b] == log[..b];
      } else {
        assert a == at && l[..b] == log;
      }
    }
  }

  /** The releases that the departure of `be` may make: with `early`, only of later requests. */
  ghost predicate FreesLater(s: seq<Elem>, be: Elem) {
    forall i :: 0 <= i < |s| && s[i].status.Block? && s[i].off == be.block ==> be.id < s[i].id
  }

  /** When `e` with end block `block` leaves, everything waiting at that block is released. */
  lemma ReleasedTraced(log: seq<Event>, s: seq<Elem>, be: Elem, e: Event, next: nat, early: bool)
    requires AllTraced(log, s, early) && Traced(log, be, early) && (e == Finished(be.id) || e == Dropped(be.id))
    requires LogNumbered(log, next) && (early ==> FreesLater(s, be))
    ensures AllTraced(log + [e], Released(s, be.block), early)
  {
    var l, r := log + [e], Released(s, be.block);
    var c: nat :| Traces(log, c, be, early);
    assert l[c] == log[c] && l[|log|] == e;
    forall i | 0 <= i < |s| ensures Traced(l, r[i], early) {
      TracedMore(log, e, s[i], early);
      var a: nat :| Traces(log, a, s[i], early);
      assert l[a] == log[a];
      if s[i].off == be.block {
        if s[i].status.Block? {
          assert early ==> c < a;
          assert Retires(l, |log|, be.block, a, early);
        } else if s[i].held {
          FreedMore(log, e, a, s[i].off, early);
        }
        assert Traces(l, a, r[i], early);
      }
    }
  }

  lemma AllTracedWithout(log: seq<Event>, s: seq<Elem>, t: nat, early: bool)
    requires AllTraced(log, s, early) && t < |s|
    ensures AllTraced(log, Without(s, t), early)
  {
  }

  /** If the step is a departure, what it releases was submitted after what departs. */
  ghost predicate LeavesLater(s: State, a: Action) {
    match a
    case Finish(w) => Enabled(s, a) ==> FreesLater(s.q.pendq, s.q.busyq[At(s, w)])
    case Cancel(req) =>
      var t := FirstOf(s.q.pendq, req);
      t < |s.q.pendq| ==> FreesLater(Without(s.q.pendq, t), s.q.pendq[t])
    case _ => true
  }

  lemma LogSubmit(s: State, a: Action, early: bool)
    requires LogInv(s, early) && a.Submit? && Enabled(s, a)
    ensures LogInv(Apply(s, a), early)
  {
    if s.q.freeq != [] {
      var z := Apply(s, a);
      var e := z.log[|s.log|];
      AllTracedMore(s.log, e, s.q.pendq, early);
      AllTracedMore(s.log, e, s.q.busyq, early);
      StartsFreedMore(s.log, e, s.next, early);
      var p := z.q.pendq[|s.q.pendq|];
      assert Traces(z.log, |s.log|, p, early);
      assert forall i :: 0 <= i < |s.q.pendq| ==> z.q.pendq[i] == s.q.pendq[i];
    }
  }

  lemma LogTake(s: State, w: nat, early: bool)
    requires LogInv(s, early) && Enabled(s, Take(w))
    ensures LogInv(Apply(s, Take(w)), early)
  {
    var t, z := FirstReady(s.q.pendq), Apply(s, Take(w));
    var p := s.q.pendq[t];
    StartsFreedTake(s.log, p, s.next, early);
    AllTracedMore(s.log, Started(p.id), s.q.pendq, early);
    AllTracedMore(s.log, Started(p.id), s.q.busyq, early);
    AllTracedWithout(z.log, s.q.pendq, t, early);
    var a: nat :| Traces(z.log, a, p, early);
    assert Traces(z.log, a, p.(status := Busy), early);
    assert forall i :: 0 <= i < |s.q.busyq| ==> z.q.busyq[i] == s.q.busyq[i];
  }

  lemma LogCall(s: State, w: nat, early: bool)
    requires LogInv(s, early) && Numbered(s.q, s.next) && Enabled(s, Call(w))
    ensures LogInv(Apply(s, Call(w)), early)
  {
    var t, z := At(s, w), Apply(s, Call(w));
    var e := CalledBack(s.workers[w].id);
    StartsFreedMore(s.log, e, s.next, early);
    AllTracedMore(s.log, e, s.q.pendq, early);
    AllTracedMore(s.log, e, s.q.busyq, early);
    var a: nat :| Traces(z.log, a, s.q.busyq[t], early);
    assert Traces(z.log, a, z.q.busyq[t], early);
  }

  lemma LogFinish(s: State, w: nat, early: bool)
    requires LogInv(s, early) && Numbered(s.q, s.next) && Enabled(s, Finish(w)) && (early ==> LeavesLater(s, Finish(w)))
    ensures LogInv(Apply(s, Finish(w)), early)
  {
    var t, z := At(s, w), Apply(s, Finish(w));
    var e := Finished(s.workers[w].id);
    StartsFreedMore(s.log, e, s.next, early);
    AllTracedMore(s.log, e, s.q.busyq, early);
    AllTracedWithout(z.log, s.q.busyq, t, early);
    ReleasedTraced(s.log, s.q.pendq, s.q.busyq[t], e, s.next, early);
  }

  lemma LogCancel(s: State, req: nat, early: bool)
    requires LogInv(s, early) && Numbered(s.q, s.next) && (early ==> LeavesLater(s, Cancel(req)))
    ensures LogInv(Apply(s, Cancel(req)), early)
  {
    var t := FirstOf(s.q.pendq, req);
    if t < |s.q.pendq| {
      var e := Dropped(s.q.pendq[t].id);
      StartsFreedMore(s.log, e, s.next, early);
      AllTracedMore(s.log, e, s.q.busyq, early);
      AllTracedWithout(s.log, s.q.pendq, t, early);
      ReleasedTraced(s.log, Without(s.q.pendq, t), s.q.pendq[t], e, s.next, early);
    }
  }

  lemma LogStep(s: State, a: Action, early: bool)
    requires Numbered(s.q, s.next) && LogInv(s, early) && Enabled(s, a) && (early ==> LeavesLater(s, a))
    ensures LogInv(Apply(s, a), early)
  {
    match a
    case Submit(_, _, _, _, _) => LogSubmit(s, a, early);
    case Take(w) => LogTake(s, w, early);
    case Call(w) => LogCall(s, w, early);
    case Finish(w) => LogFinish(s, w, early);
    case Cancel(req) => LogCancel(s, req, early);
    case _ =>
  }

  /** In every departure of the run, what is released was submitted after what departs. */
  ghost predicate Orderly(acts: seq<Action>) {
    forall i :: 0 <= i < |acts| ==> LeavesLater(Reached(acts[..i]), acts[i])
  }

  lemma {:induction false} ReachedLog(acts: seq<Action>, early: bool)
    requires early ==> Orderly(acts)
    ensures LogInv(Reached(acts), early)
  {
    if acts != [] {
      var n := |acts| - 1;
      var s, a := Reached(acts[..n]), acts[n];
      assert forall i :: 0 <= i < n ==> acts[..n][..i] == acts[..i];
      ReachedLog(acts[..n], early);
      ReachedInv(acts[..n]);
      if Enabled(s, a) {
        LogStep(s, a, early);
      }
    }
  }

  /** Over any run: a request held back at submission starts only after some request that ends
      at its offset completed or was cancelled, after that submission. */
  lemma StartsAfterRelease(acts: seq<Action>)
    ensures StartsFreed(Reached(acts).log, false)
  {
    ReachedLog(acts, false);
  }

  /** If departures release only later requests, the request whose departure lets one start was submitted earlier. */
  lemma StartsAfterEarlier(acts: seq<Action>)
    requires Orderly(acts)
    ensures StartsFreed(Reached(acts).log, true)
  {
    ReachedLog(acts, true);
  }

  // ---- no request joins a held-back one's wait ----

  /** What ends where `p` starts was submitted before `p`. */
  ghost predicate Behind(s: seq<Elem>, p: Elem) {
    forall j :: 0 <= j < |s| && s[j].block == p.off ==> s[j].id <= p.id
  }

  /** No later request has joined those that a held-back request waits for. */
  ghost predicate Unjoined(q: Queues) {
    forall i :: 0 <= i < |q.pendq| && q.pendq[i].status.Block? ==> Behind(q.pendq, q.pendq[i]) && Behind(q.busyq, q.pendq[i])
  }

  /** The submission, if accepted, does not end where a held-back request starts. */
  ghost predicate JoinsNone(s: State, a: Action) {
    Enabled(s, a) && a.Submit? && s.q.freeq != [] ==>
      forall i :: 0 <= i < |s.q.pendq| && s.q.pendq[i].status.Block? ==> s.q.pendq[i].off != EndOf(a.op, a.off, a.lens)
  }

  lemma SubmitUnjoined(s: State, a: Action)
    requires Unjoined(s.q) && Numbered(s.q, s.next) && a.Submit? && Enabled(s, a) && JoinsNone(s, a)
    ensures Unjoined(Apply(s, a).q)
  {
  }

  lemma DequeuedUnjoined(q: Queues)
    requires Unjoined(q) && FirstReady(q.pendq) < |q.pendq|
    ensures Unjoined(Dequeued(q))
  {
  }

  lemma CompletedUnjoined(q: Queues, t: nat, next: nat)
    requires Unjoined(q) && Numbered(q, next) && t < |q.busyq|
    ensures Unjoined(Completed(q, t)) && FreesLater(q.pendq, q.busyq[t])
  {
  }

  lemma CancelledUnjoined(q: Queues, t: nat, next: nat)
    requires Unjoined(q) && Numbered(q, next) && t < |q.pendq|
    ensures Unjoined(Cancelled(q, t)) && FreesLater(Without(q.pendq, t), q.pendq[t])
  {
  }

  /** In no step of the run does a submission join the wait of a held-back request. */
  ghost predicate Courteous(acts: seq<Action>) {
    forall i :: 0 <= i < |acts| ==> JoinsNone(Reached(acts[..i]), acts[i])
  }

  lemma {:induction false} ReachedUnjoined(acts: seq<Action>)
    requires Courteous(acts)
    ensures Unjoined(Reached(acts).q)
  {
    if acts != [] {
      var n := |acts| - 1;
      var s, a := Reached(acts[..n]), acts[n];
      assert forall i :: 0 <= i < n ==> acts[..n][..i] == acts[..i];
      ReachedUnjoined(acts[..n]);
      ReachedInv(acts[..n]);
      if Enabled(s, a) {
        StepUnjoined(s, a);
      }
    }
  }

  lemma StepUnjoined(s: State, a: Action)
    requires Unjoined(s.q) && Numbered(s.q, s.next) && Enabled(s, a) && JoinsNone(s, a)
    ensures Unjoined(Apply(s, a).q) && LeavesLater(s, a)
  {
    match a
    case Submit(_, _, _, _, _) => SubmitUnjoined(s, a);
    case Take(_) => DequeuedUnjoined(s.q);
    case Finish(w) => CompletedUnjoined(s.q, At(s, w), s.next);
    case Cancel(req) =>
      if FirstOf(s.q.pendq, req) < |s.q.pendq| {
        CancelledUnjoined(s.q, FirstOf(s.q.pendq, req), s.next);
      }
    case _ =>
  }

  /** If no submission ends where a held-back request starts, departures release only later requests. */
  lemma CourteousOrderly(acts: seq<Action>)
    requires Courteous(acts)
    ensures Orderly(acts)
  {
    forall i | 0 <= i < |acts|
      ensures LeavesLater(Reached(acts[..i]), acts[i])
    {
      CourteousStep(acts, i);
    }
  }

  lemma CourteousStep(acts: seq<Action>, i: nat)
    requires Courteous(acts) && i < |acts|
    ensures LeavesLater(Reached(acts[..i]), acts[i])
  {
    assert forall k :: 0 <= k < i ==> acts[..i][..k] == acts[..k];
    ReachedUnjoined(acts[..i]);
    ReachedInv(acts[..i]);
    if Enabled(Reached(acts[..i]), acts[i]) {
      StepUnjoined(Reached(acts[..i]), acts[i]);
    }
  }

  // ---- with distinct end blocks, nothing runs beside an earlier request ending at its offset ----

  ghost predicate StartsIn(s: seq<Elem>, id: nat, off: int) {
    exists i :: 0 <= i < |s| && s[i].id == id && s[i].off == off
  }

  ghost predicate ReadyIn(s: seq<Elem>, id: nat, off: int) {
    exists i :: 0 <= i < |s| && s[i].id == id && s[i].off == off && s[i].status.Pend?
  }

  ghost predicate EndsIn(s: seq<Elem>, id: nat, block: int) {
    exists i :: 0 <= i < |s| && s[i].id == id && s[i].block == block
  }

  /** Request `id` is outstanding and ends at `block`. */
  ghost predicate Ends(q: Queues, id: nat, block: int) {
    EndsIn(q.pendq, id, block) || EndsIn(q.busyq, id, block)
  }

  /** Request `id` starts at `off` and is dispatchable or busy. */
  ghost predicate Runs(q: Queues, id: nat, off: int) {
    ReadyIn(q.pendq, id, off) || StartsIn(q.busyq, id, off)
  }

  ghost predicate DistinctEnds(q: Queues) {
    forall e: nat, f: nat, b :: Ends(q, e, b) && Ends(q, f, b) ==> e == f
  }

  /** Nothing runs while an earlier request that ends at its offset is outstanding. */
  ghost predicate InOrder(q: Queues) {
    forall p: nat, e: nat, off :: Runs(q, p, off) && Ends(q, e, off) ==> p <= e
  }

  lemma InAppend(s: seq<Elem>, x: Elem, id: nat, v: int)
    ensures StartsIn(s + [x], id, v) <==> StartsIn(s, id, v) || (x.id == id && x.off == v)
    ensures ReadyIn(s + [x], id, v) <==> ReadyIn(s, id, v) || (x.id == id && x.off == v && x.status.Pend?)
    ensures EndsIn(s + [x], id, v) <==> EndsIn(s, id, v) || (x.id == id && x.block == v)
  {
    var r := s + [x];
    assert r[|s|] == x && forall i :: 0 <= i < |s| ==> r[i] == s[i];
  }

  lemma EndsWithout(s: seq<Elem>, t: nat, id: nat, v: int)
    requires Unique(s) && t < |s|
    ensures EndsIn(Without(s, t), id, v) <==> EndsIn(s, id, v) && id != s[t].id
  {
    var r := Without(s, t);
    if EndsIn(r, id, v) {
      var i :| 0 <= i < |r| && r[i].id == id && r[i].block == v;
      assert r[i] == s[if i < t then i else i + 1];
    }
    if EndsIn(s, id, v) && id != s[t].id {
      var i :| 0 <= i < |s| && s[i].id == id && s[i].block == v;
      assert r[Past(i, t)] == s[i];
    }
  }

  lemma StartsWithout(s: seq<Elem>, t: nat, id: nat, v: int)
    requires Unique(s) && t < |s|
    ensures StartsIn(Without(s, t), id, v) <==> StartsIn(s, id, v) && id != s[t].id
  {
    var r := Without(s, t);
    if StartsIn(r, id, v) {
      var i :| 0 <= i < |r| && r[i].id == id && r[i].off == v;
      assert r[i] == s[if i < t then i else i + 1];
    }
    if StartsIn(s, id, v) && id != s[t].id {
      var i :| 0 <= i < |s| && s[i].id == id && s[i].off == v;
      assert r[Past(i, t)] == s[i];
    }
  }

  lemma ReadyWithout(s: seq<Elem>, t: nat, id: nat, v: int)
    requires Unique(s) && t < |s|
    ensures ReadyIn(Without(s, t), id, v) <==> ReadyIn(s, id, v) && id != s[t].id
  {
    var r := Without(s, t);
    if ReadyIn(r, id, v) {
      var i :| 0 <= i < |r| && r[i].id == id && r[i].off == v && r[i].status.Pend?;
      assert r[i] == s[if i < t then i else i + 1];
    }
    if ReadyIn(s, id, v) && id != s[t].id {
      var i :| 0 <= i < |s| && s[i].id == id && s[i].off == v && s[i].status.Pend?;
      assert r[Past(i, t)] == s[i];
    }
  }

  lemma InReleased(s: seq<Elem>, block: int, id: nat, v: int)
    ensures EndsIn(Released(s, block), id, v) <==> EndsIn(s, id, v)
    ensures ReadyIn(Released(s, block), id, v) <==> ReadyIn(s, id, v) || (v == block && StartsIn(s, id, v))
  {
  }

  lemma EnqueuedOrder(q: Queues, next: nat, req: nat, off: int, block: int)
    requires InOrder(q) && Numbered(q, next) && q.freeq != []
    ensures InOrder(Enqueued(q, next, req, off, block))
  {
    var r := Enqueued(q, next, req, off, block);
    var x := r.pendq[|q.pendq|];
    assert r.pendq == q.pendq + [x];
    forall p: nat, e: nat, o | Runs(r, p, o) && Ends(r, e, o) ensures p <= e {
      InAppend(q.pendq, x, p, o);
      InAppend(q.pendq, x, e, o);
      assert Runs(q, p, o) && Ends(q, e, o) ==> p <= e;
      assert Runs(q, p, o) ==> p < next;
      assert EndsIn(q.pendq, e, o) ==> EndsAt(q.pendq, o);
      assert EndsIn(q.busyq, e, o) ==> EndsAt(q.busyq, o);
    }
  }

  lemma DequeuedOrder(q: Queues, next: nat)
    requires InOrder(q) && Numbered(q, next) && FirstReady(q.pendq) < |q.pendq|
    ensures InOrder(Dequeued(q))
  {
    var r, t := Dequeued(q), FirstReady(q.pendq);
    var x := q.pendq[t].(status := Busy);
    assert Unique(q.pendq);
    forall p: nat, e: nat, o | Runs(r, p, o) && Ends(r, e, o) ensures p <= e {
      ReadyWithout(q.pendq, t, p, o);
      EndsWithout(q.pendq, t, e, o);
      InAppend(q.busyq, x, p, o);
      InAppend(q.busyq, x, e, o);
      assert Runs(q, p, o) && Ends(q, e, o);
    }
  }

  lemma CalledOrder(q: Queues, t: nat)
    requires InOrder(q) && t < |q.busyq|
    ensures InOrder(q.(busyq := q.busyq[t := q.busyq[t].(status := Done)]))
  {
    var r := q.(busyq := q.busyq[t := q.busyq[t].(status := Done)]);
    forall p: nat, e: nat, o | Runs(r, p, o) && Ends(r, e, o) ensures p <= e {
      assert Runs(q, p, o) && Ends(q, e, o);
    }
  }

  /** Another outstanding request ends where `be` does, and was submitted before one that
      is waiting to start there. */
  ghost predicate Shadowed(q: Queues, be: Elem) {
    exists p: nat, e: nat :: StartsIn(q.pendq, p, be.block) && Ends(q, e, be.block) && e != be.id && p != be.id && e < p
  }

  /** What leaving does to the outstanding ends and to what may run. */
  ghost predicate Leaves(q: Queues, r: Queues, be: Elem) {
    && (forall e: nat, b :: Ends(r, e, b) <==> Ends(q, e, b) && e != be.id)
    && (forall p: nat, o :: Runs(r, p, o) <==> p != be.id && (Runs(q, p, o) || (o == be.block && StartsIn(q.pendq, p, o))))
  }

  lemma CompletedLeaves(q: Queues, next: nat, t: nat)
    requires Numbered(q, next) && t < |q.busyq|
    ensures Leaves(q, Completed(q, t), q.busyq[t])
  {
    var r, be := Completed(q, t), q.busyq[t];
    assert Unique(q.busyq);
    forall id: nat, v
      ensures Ends(r, id, v) <==> Ends(q, id, v) && id != be.id
      ensures Runs(r, id, v) <==> id != be.id && (Runs(q, id, v) || (v == be.block && StartsIn(q.pendq, id, v)))
    {
      EndsWithout(q.busyq, t, id, v);
      StartsWithout(q.busyq, t, id, v);
      InReleased(q.pendq, be.block, id, v);
    }
  }

  lemma CancelledLeaves(q: Queues, next: nat, t: nat)
    requires Numbered(q, next) && t < |q.pendq|
    ensures Leaves(q, Cancelled(q, t), q.pendq[t])
  {
    var r, be := Cancelled(q, t), q.pendq[t];
    assert Unique(q.pendq);
    forall id: nat, v
      ensures Ends(r, id, v) <==> Ends(q, id, v) && id != be.id
      ensures Runs(r, id, v) <==> id != be.id && (Runs(q, id, v) || (v == be.block && StartsIn(q.pendq, id, v)))
    {
      EndsWithout(q.pendq, t, id, v);
      StartsWithout(q.pendq, t, id, v);
      ReadyWithout(q.pendq, t, id, v);
      InReleased(Without(q.pendq, t), be.block, id, v);
    }
  }

  lemma LeavingOrder(q: Queues, r: Queues, be: Elem)
    requires InOrder(q) && Leaves(q, r, be)
    ensures InOrder(r) <==> !Shadowed(q, be)
  {
  }

  /** The order survives a completion exactly when the completed request is not shadowed. */
  lemma CompletedOrder(q: Queues, next: nat, t: nat)
    requires InOrder(q) && Numbered(q, next) && t < |q.busyq|
    ensures InOrder(Completed(q, t)) <==> !Shadowed(q, q.busyq[t])
  {
    CompletedLeaves(q, next, t);
    LeavingOrder(q, Completed(q, t), q.busyq[t]);
  }

  lemma CancelledOrder(q: Queues, next: nat, t: nat)
    requires InOrder(q) && Numbered(q, next) && t < |q.pendq|
    ensures InOrder(Cancelled(q, t)) <==> !Shadowed(q, q.pendq[t])
  {
    CancelledLeaves(q, next, t);
    LeavingOrder(q, Cancelled(q, t), q.pendq[t]);
  }

  lemma DistinctUnshadowed(q: Queues, be: Elem)
    requires DistinctEnds(q) && Ends(q, be.id, be.block)
    ensures !Shadowed(q, be)
  {
  }

  lemma {:induction false} ReachedOrder(acts: seq<Action>)
    requires forall i :: 0 <= i <= |acts| ==> DistinctEnds(Reached(acts[..i]).q)
    ensures InOrder(Reached(acts).q)
  {
    if acts != [] {
      var n := |acts| - 1;
      assert forall i :: 0 <= i <= n ==> acts[..n][..i] == acts[..i];
      ReachedOrder(acts[..n]);
      ReachedInv(acts[..n]);
      var s, a := Reached(acts[..n]), acts[n];
      assert DistinctEnds(s.q) && Numbered(s.q, s.next);
      if Enabled(s, a) {
        StepOrder(s, a);
      }
    }
  }

  lemma StepOrder(s: State, a: Action)
    requires InOrder(s.q) && DistinctEnds(s.q) && Numbered(s.q, s.next) && Enabled(s, a)
    ensures InOrder(Apply(s, a).q)
  {
    match a
    case Submit(req, op, off, lens, _) =>
      if s.q.freeq != [] {
        EnqueuedOrder(s.q, s.next, req, off, EndOf(op, off, lens));
      }
    case Take(_) =>
      DequeuedOrder(s.q, s.next);
    case Call(w) =>
      CalledOrder(s.q, At(s, w));
    case Finish(w) =>
      var be := s.q.busyq[At(s, w)];
      assert EndsIn(s.q.busyq, be.id, be.block);
      DistinctUnshadowed(s.q, be);
      CompletedOrder(s.q, s.next, At(s, w));
    case Cancel(req) =>
      var t := FirstOf(s.q.pendq, req);
      if t < |s.q.pendq| {
        var be := s.q.pendq[t];
        assert EndsIn(s.q.pendq, be.id, be.block);
        DistinctUnshadowed(s.q, be);
        CancelledOrder(s.q, s.next, t);
      }
    case _ =>
  }

  // ---- without distinct end blocks it fails ----

  lemma {:induction false} FreeLength(n: nat)
    ensures |Free(n)| == n
  {
    if n > 0 {
      FreeLength(n - 1);
    }
  }

  ghost function Sample(i: nat, off: int, block: int, status: Status): Elem
    requires i < |Free(MAXREQ)|
  {
    Elem(Free(MAXREQ)[i], i, i, off, block, status, i == 1)
  }

  ghost function Submissions(): seq<Event> {
    [Submitted(0, 0, 8, false), Submitted(1, 8, 12, true), Submitted(2, 4, 8, false)]
  }

  lemma OneSubmitted() returns (acts: seq<Action>)
    ensures |Free(MAXREQ)| == MAXREQ
    ensures var s := Reached(acts);
      && s.q == Queues(Free(MAXREQ)[1..], [Sample(0, 0, 8, Pend)], [])
      && s.workers == Init().workers && s.log == Submissions()[..1] && s.next == 1 && !s.closing
  {
    FreeLength(MAXREQ);
    var a := Submit(0, Read, 0, [8], 0);
    assert [8][..0] == [];
    Extend([], a);
    acts := [] + [a];
  }

  lemma TwoSubmitted() returns (acts: seq<Action>)
    ensures |Free(MAXREQ)| == MAXREQ
    ensures var s := Reached(acts);
      && s.q == Queues(Free(MAXREQ)[2..], [Sample(0, 0, 8, Pend), Sample(1, 8, 12, Block)], [])
      && s.workers == Init().workers && s.log == Submissions()[..2] && s.next == 2 && !s.closing
  {
    acts := OneSubmitted();
    var a := Submit(1, Read, 8, [4], 0);
    assert [4][..0] == [];
    assert Reached(acts).q.pendq[0].block == 8;
    Extend(acts, a);
    acts := acts + [a];
  }

  /** Blocks [0, 8), [8, 12) and [4, 8) are submitted in that order. */
  lemma ThreeSubmitted() returns (acts: seq<Action>)
    ensures |Free(MAXREQ)| == MAXREQ
    ensures var s := Reached(acts);
      && s.q == Queues(Free(MAXREQ)[3..], [Sample(0, 0, 8, Pend), Sample(1, 8, 12, Block), Sample(2, 4, 8, Pend)], [])
      && s.workers == Init().workers && s.log == Submissions()
  {
    acts := TwoSubmitted();
    var a := Submit(2, Read, 4, [4], 0);
    assert [4][..0] == [];
    Extend(acts, a);
    acts := acts + [a];
  }

  lemma TakenBusy(acts: seq<Action>) returns (more: seq<Action>)
    requires |Free(MAXREQ)| == MAXREQ
    requires var s := Reached(acts);
      && s.q.pendq == [Sample(0, 0, 8, Pend), Sample(1, 8, 12, Block), Sample(2, 4, 8, Pend)] && s.q.busyq == []
      && s.workers == Init().workers
    ensures var s := Reached(more);
      && s.q.pendq == [Sample(1, 8, 12, Block)] && s.q.busyq == [Sample(0, 0, 8, Busy), Sample(2, 4, 8, Busy)]
      && Is(s, 1, Processing(2)) && s.log == Reached(acts).log + [Started(0), Started(2)]
  {
    Extend(acts, Take(0));
    var s := Reached(acts + [Take(0)]);
    assert s.q.pendq == [Sample(1, 8, 12, Block), Sample(2, 4, 8, Pend)];
    assert s.q.pendq[1..] == [Sample(2, 4, 8, Pend)];
    assert FirstReady(s.q.pendq) == 1;
    assert Without(s.q.pendq, 1) == [Sample(1, 8, 12, Block)];
    assert s.q.busyq == [Sample(0, 0, 8, Busy)] && Is(s, 1, Awake);
    Extend(acts + [Take(0)], Take(1));
    more := acts + [Take(0)] + [Take(1)];
  }

  lemma SecondId(s: seq<Elem>, id: nat)
    requires |s| == 2 && s[0].id != id && s[1].id == id
    ensures FirstId(s, id) == 1
  {
    assert FirstId(s, id) != 0;
  }

  /** The third request ends where the second starts: its completion releases the second beside the first. */
  lemma Overtaken() returns (acts: seq<Action>)
    ensures |Free(MAXREQ)| == MAXREQ
    ensures var s := Reached(acts);
      && s.q.pendq == [Sample(1, 8, 12, Pend)] && s.q.busyq == [Sample(0, 0, 8, Busy)] && Is(s, 1, Awake)
      && s.log == Submissions() + [Started(0), Started(2), CalledBack(2), Finished(2)]
  {
    acts := ThreeSubmitted();
    acts := TakenBusy(acts);
    var q := Reached(acts).q;
    SecondId(q.busyq, 2);
    Extend(acts, Call(1));
    acts := acts + [Call(1)];
    q := Reached(acts).q;
    assert q.busyq == [Sample(0, 0, 8, Busy), Sample(2, 4, 8, Done)];
    SecondId(q.busyq, 2);
    Extend(acts, Finish(1));
    acts := acts + [Finish(1)];
  }

  lemma OrderFails() returns (acts: seq<Action>)
    ensures !InOrder(Reached(acts).q)
  {
    acts := Overtaken();
    var q := Reached(acts).q;
    assert q.pendq[0].id == 1 && q.pendq[0].off == 8 && q.pendq[0].status.Pend?;
    assert q.busyq[0].id == 0 && q.busyq[0].block == 8;
    assert Runs(q, 1, 8) && Ends(q, 0, 8);
  }

  /** The second request, held back by the first, starts before anything submitted earlier has left. */
  lemma EarlierFails() returns (acts: seq<Action>)
    ensures !StartsFreed(Reached(acts).log, true)
  {
    acts := Overtaken();
    Extend(acts, Take(1));
    acts := acts + [Take(1)];
    var log := Reached(acts).log;
    assert log == Submissions() + [Started(0), Started(2), CalledBack(2), Finished(2), Started(1)];
    assert log[1].Submitted? && log[1].held && log[7] == Started(log[1].id);
    assert !FreedAfter(log[..7], 1, 8, true);
  }

  // ---- distinct end blocks rule that out ----

  /** While a request is held back an earlier one that ends at its offset is outstanding: no third can share that end. */
  lemma DistinctJoinsNone(s: State, a: Action)
    requires Inv(s) && Enabled(s, a) && DistinctEnds(Apply(s, a).q)
    ensures JoinsNone(s, a)
  {
    if a.Submit? && s.q.freeq != [] {
      var block, z := EndOf(a.op, a.off, a.lens), Apply(s, a).q;
      forall i | 0 <= i < |s.q.pendq| && s.q.pendq[i].status.Block?
        ensures s.q.pendq[i].off != block
      {
        var id := Blocker(s.q, s.next, i);
        var k := |s.q.pendq|;
        assert z.pendq[k].id == s.next && z.pendq[k].block == block;
        assert Ends(z, s.next, block);
        EndsKept(s, a, id, s.q.pendq[i].off);
      }
    }
  }

  lemma Blocker(q: Queues, next: nat, i: nat) returns (id: nat)
    requires Justified(q) && Numbered(q, next) && i < |q.pendq| && q.pendq[i].status.Block?
    ensures id < next && Ends(q, id, q.pendq[i].off)
  {
    var off := q.pendq[i].off;
    if EarlierEnd(q.pendq, off, q.pendq[i].id) {
      var j :| 0 <= j < |q.pendq| && q.pendq[j].block == off && q.pendq[j].id < q.pendq[i].id;
      id := q.pendq[j].id;
    } else {
      var j :| 0 <= j < |q.busyq| && q.busyq[j].block == off && q.busyq[j].id < q.pendq[i].id;
      id := q.busyq[j].id;
    }
  }

  lemma EndsKept(s: State, a: Action, id: nat, off: int)
    requires Enabled(s, a) && a.Submit? && s.q.freeq != [] && Ends(s.q, id, off)
    ensures Ends(Apply(s, a).q, id, off)
  {
    var z := Apply(s, a).q;
    if EndsIn(s.q.pendq, id, off) {
      var j :| 0 <= j < |s.q.pendq| && s.q.pendq[j].id == id && s.q.pendq[j].block == off;
      assert z.pendq[j] == s.q.pendq[j];
    }
  }

  lemma DistinctStep(acts: seq<Action>, a: Action)
    requires DistinctEnds(Reached(acts + [a]).q)
    ensures JoinsNone(Reached(acts), a)
  {
    ReachedInv(acts);
    Extend(acts, a);
    if Enabled(Reached(acts), a) {
      DistinctJoinsNone(Reached(acts), a);
    }
  }

  lemma DistinctCourteous(acts: seq<Action>)
    requires forall i :: 0 <= i <= |acts| ==> DistinctEnds(Reached(acts[..i]).q)
    ensures Courteous(acts)
  {
    forall i | 0 <= i < |acts|
      ensures JoinsNone(Reached(acts[..i]), acts[i])
    {
      assert DistinctEnds(Reached(acts[..i + 1]).q);
      assert acts[..i + 1] == acts[..i] + [acts[i]];
      DistinctStep(acts[..i], acts[i]);
    }
  }

  /** If outstanding requests always have distinct end blocks, what a held-back request waited for was submitted earlier. */
  lemma DistinctStartsAfterEarlier(acts: seq<Action>)
    requires forall i :: 0 <= i <= |acts| ==> DistinctEnds(Reached(acts[..i]).q)
    ensures StartsFreed(Reached(acts).log, true)
  {
    DistinctCourteous(acts);
    CourteousOrderly(acts);
    StartsAfterEarlier(acts);
  }
}
