/**
 When held-back block requests are released only by requests submitted before them, exactly.
 */
module BlockExact {
  import opened BlockQueues
  import opened BlockSched
  import opened BlockOrder

  /** While `p` is held back nothing that ends at its offset has left since its submission. */
  ghost predicate Waits(log: seq<Event>, p: Elem) {
    p.status.Block? ==>
      forall a: nat :: a < |log| && log[a] == Submitted(p.id, p.off, p.block, p.held) ==> !FreedAfter(log, a, p.off, false)
  }

  ghost predicate AllWait(log: seq<Event>, s: seq<Elem>) {
    forall i :: 0 <= i < |s| ==> Waits(log, s[i])
  }

  /** Logging an event that retires nothing ending at `off` frees nothing there. */
  lemma FreedBack(log: seq<Event>, e: Event, a: nat, off: int, early: bool)
    requires FreedAfter(log + [e], a, off, early) && !Retires(log + [e], |log|, off, a, early)
    ensures FreedAfter(log, a, off, early)
  {
    var l := log + [e];
    var r :| a < r < |l| && Retires(l, r, off, a, early);
    var c :| 0 <= c < r && (early ==> c < a) && l[c].Submitted? && l[c].block == off
             && (l[r] == Finished(l[c].id) || l[r] == Dropped(l[c].id));
    assert r < |log| && l[r] == log[r] && l[c] == log[c];
    assert Retires(log, r, off, a, early);
  }

  /** An event that is no departure, or the departure of a request that ends elsewhere, lets `p` wait on. */
  lemma WaitsMore(log: seq<Event>, e: Event, p: Elem)
    requires Waits(log, p)
    requires forall a: nat :: !Retires(log + [e], |log|, p.off, a, false)
    ensures Waits(log + [e], p)
  {
    var l := log + [e];
    if p.status.Block? {
      forall a: nat | a < |l| && l[a] == Submitted(p.id, p.off, p.block, p.held)
        ensures !FreedAfter(l, a, p.off, false)
      {
        if FreedAfter(l, a, p.off, false) {
          assert a < |log| && l[a] == log[a];
          FreedBack(log, e, a, p.off, false);
        }
      }
    }
  }

  lemma NoDeparture(log: seq<Event>, e: Event, off: int)
    requires !e.Finished? && !e.Dropped?
    ensures forall a: nat :: !Retires(log + [e], |log|, off, a, false)
  {
  }

  /** What the departure of `be` retires: exactly requests that end at its end. */
  lemma DepartureEnds(log: seq<Event>, be: Elem, e: Event, off: int, next: nat)
    requires Traced(log, be, false) && LogNumbered(log, next) && (e == Finished(be.id) || e == Dropped(be.id)) && off != be.block
    ensures forall a: nat :: !Retires(log + [e], |log|, off, a, false)
  {
    var c: nat :| Traces(log, c, be, false);
  }

  lemma AllWaitMore(log: seq<Event>, e: Event, s: seq<Elem>)
    requires AllWait(log, s) && !e.Finished? && !e.Dropped?
    ensures AllWait(log + [e], s)
  {
    forall i | 0 <= i < |s|
      ensures Waits(log + [e], s[i])
    {
      NoDeparture(log, e, s[i].off);
      WaitsMore(log, e, s[i]);
    }
  }

  lemma ReleasedWait(log: seq<Event>, s: seq<Elem>, be: Elem, e: Event, next: nat)
    requires AllWait(log, s) && Traced(log, be, false) && LogNumbered(log, next)
    requires e == Finished(be.id) || e == Dropped(be.id)
    ensures AllWait(log + [e], Released(s, be.block))
  {
    var r := Released(s, be.block);
    forall i | 0 <= i < |r|
      ensures Waits(log + [e], r[i])
    {
      if s[i].off != be.block {
        DepartureEnds(log, be, e, s[i].off, next);
        WaitsMore(log, e, s[i]);
      }
    }
  }

  lemma WithoutWait(log: seq<Event>, s: seq<Elem>, t: nat)
    requires AllWait(log, s) && t < |s|
    ensures AllWait(log, Without(s, t))
  {
    forall i | 0 <= i < |s| - 1
      ensures Waits(log, Without(s, t)[i])
    {
      assert Without(s, t)[i] == s[if i < t then i else i + 1];
    }
  }

  lemma SubmitWait(s: State, a: Action)
    requires AllWait(s.log, s.q.pendq) && LogNumbered(s.log, s.next) && a.Submit? && Enabled(s, a)
    ensures AllWait(Apply(s, a).log, Apply(s, a).q.pendq)
  {
    if s.q.freeq != [] {
      var z := Apply(s, a);
      AllWaitMore(s.log, z.log[|s.log|], s.q.pendq);
      var p := z.q.pendq[|s.q.pendq|];
      assert forall i :: 0 <= i < |s.q.pendq| ==> z.q.pendq[i] == s.q.pendq[i];
      assert Waits(z.log, p);
    }
  }

  lemma StepWait(s: State, a: Action)
    requires AllWait(s.log, s.q.pendq) && LogInv(s, false) && Enabled(s, a)
    ensures AllWait(Apply(s, a).log, Apply(s, a).q.pendq)
  {
    match a
    case Submit(_, _, _, _, _) => SubmitWait(s, a);
    case Take(_) =>
      var t := FirstReady(s.q.pendq);
      AllWaitMore(s.log, Started(s.q.pendq[t].id), s.q.pendq);
      WithoutWait(Apply(s, a).log, s.q.pendq, t);
    case Call(w) => AllWaitMore(s.log, CalledBack(s.workers[w].id), s.q.pendq);
    case Finish(w) => ReleasedWait(s.log, s.q.pendq, s.q.busyq[At(s, w)], Finished(s.workers[w].id), s.next);
    case Cancel(req) =>
      var t := FirstOf(s.q.pendq, req);
      if t < |s.q.pendq| {
        WithoutWait(s.log, s.q.pendq, t);
        ReleasedWait(s.log, Without(s.q.pendq, t), s.q.pendq[t], Dropped(s.q.pendq[t].id), s.next);
      }
    case _ =>
  }

  lemma {:induction false} ReachedWait(acts: seq<Action>)
    ensures AllWait(Reached(acts).log, Reached(acts).q.pendq)
  {
    if acts != [] {
      var n := |acts| - 1;
      var s, a := Reached(acts[..n]), acts[n];
      ReachedWait(acts[..n]);
      ReachedLog(acts[..n], false);
      if Enabled(s, a) {
        StepWait(s, a);
      }
    }
  }

  // ---- a departure that frees an earlier request ----

  /** Released by a later request alone, `p` is not released by an earlier one. */
  lemma LateRelease(log: seq<Event>, p: Elem, be: Elem, e: Event, next: nat)
    requires Waits(log, p) && p.status.Block? && p.held && p.id < be.id
    requires Traced(log, be, true) && LogNumbered(log, next) && (e == Finished(be.id) || e == Dropped(be.id))
    ensures !Traced(log + [e], p.(status := Pend), true)
  {
    var l := log + [e];
    forall a: nat
      ensures !Traces(l, a, p.(status := Pend), true)
    {
      if Traces(l, a, p.(status := Pend), true) {
        assert a < |log| && l[a] == log[a];
        NotEarly(log, a, p, be, e, next);
        FreedBack(log, e, a, p.off, true);
        EarlyIsAny(log, a, p.off);
      }
    }
  }

  lemma EarlyIsAny(log: seq<Event>, a: nat, off: int)
    requires FreedAfter(log, a, off, true)
    ensures FreedAfter(log, a, off, false)
  {
    var r :| a < r < |log| && Retires(log, r, off, a, true);
    assert Retires(log, r, off, a, false);
  }

  lemma NotEarly(log: seq<Event>, a: nat, p: Elem, be: Elem, e: Event, next: nat)
    requires a < |log| && log[a] == Submitted(p.id, p.off, p.block, p.held) && p.id < be.id
    requires Traced(log, be, true) && LogNumbered(log, next) && (e == Finished(be.id) || e == Dropped(be.id))
    ensures !Retires(log + [e], |log|, p.off, a, true)
  {
    var c: nat :| Traces(log, c, be, true);
  }

  /** A departure keeps releases early exactly when everything it releases was submitted after it. */
  lemma ReleaseExact(log: seq<Event>, s: seq<Elem>, be: Elem, e: Event, next: nat)
    requires AllTraced(log, s, true) && Traced(log, be, true) && LogNumbered(log, next) && AllWait(log, s)
    requires e == Finished(be.id) || e == Dropped(be.id)
    requires forall i :: 0 <= i < |s| ==> s[i].id != be.id && (s[i].status.Block? ==> s[i].held)
    ensures AllTraced(log + [e], Released(s, be.block), true) <==> FreesLater(s, be)
  {
    if FreesLater(s, be) {
      ReleasedTraced(log, s, be, e, next, true);
    } else {
      var i :| 0 <= i < |s| && s[i].status.Block? && s[i].off == be.block && s[i].id < be.id;
      LateRelease(log, s[i], be, e, next);
      assert Released(s, be.block)[i] == s[i].(status := Pend);
    }
  }

  /** What the exact step needs of the state, beside the log. */
  ghost predicate Settled(s: State) {
    Numbered(s.q, s.next) && Tagged(s.q) && AllWait(s.log, s.q.pendq)
  }

  lemma FinishExact(s: State, w: nat)
    requires Settled(s) && LogInv(s, true) && Enabled(s, Finish(w))
    ensures LogInv(Apply(s, Finish(w)), true) <==> LeavesLater(s, Finish(w))
  {
    if LeavesLater(s, Finish(w)) {
      LogFinish(s, w, true);
    } else {
      ReleaseExact(s.log, s.q.pendq, s.q.busyq[At(s, w)], Finished(s.workers[w].id), s.next);
    }
  }

  lemma WithoutIds(s: seq<Elem>, t: nat)
    requires t < |s| && (forall i, j :: 0 <= i < j < |s| ==> s[i].id < s[j].id)
    requires forall i :: 0 <= i < |s| ==> s[i].status.Block? ==> s[i].held
    ensures forall i :: 0 <= i < |s| - 1 ==>
      Without(s, t)[i].id != s[t].id && (Without(s, t)[i].status.Block? ==> Without(s, t)[i].held)
  {
    assert forall i :: 0 <= i < |s| - 1 ==> Without(s, t)[i] == s[if i < t then i else i + 1];
  }

  lemma CancelExact(s: State, req: nat)
    requires Settled(s) && LogInv(s, true)
    ensures LogInv(Apply(s, Cancel(req)), true) <==> LeavesLater(s, Cancel(req))
  {
    var t := FirstOf(s.q.pendq, req);
    if LeavesLater(s, Cancel(req)) {
      LogCancel(s, req, true);
    } else {
      WithoutIds(s.q.pendq, t);
      AllTracedWithout(s.log, s.q.pendq, t, true);
      WithoutWait(s.log, s.q.pendq, t);
      ReleaseExact(s.log, Without(s.q.pendq, t), s.q.pendq[t], Dropped(s.q.pendq[t].id), s.next);
    }
  }

  /** A step keeps every release so far by an earlier request exactly when it releases only later requests. */
  lemma StepExact(s: State, a: Action)
    requires Settled(s) && LogInv(s, true) && Enabled(s, a)
    ensures LogInv(Apply(s, a), true) <==> LeavesLater(s, a)
  {
    match a
    case Submit(_, _, _, _, _) => LogSubmit(s, a, true);
    case Take(w) => LogTake(s, w, true);
    case Call(w) => LogCall(s, w, true);
    case Finish(w) => FinishExact(s, w);
    case Cancel(req) => CancelExact(s, req);
    case _ =>
  }

  // ---- whole runs ----

  /** All along the run, what was held back and released was released by a request submitted before it. */
  ghost predicate AlwaysEarly(acts: seq<Action>) {
    forall i :: 0 <= i <= |acts| ==> LogInv(Reached(acts[..i]), true)
  }

  lemma EarlyStep(acts: seq<Action>, a: Action)
    requires LogInv(Reached(acts), true) && LogInv(Reached(acts + [a]), true)
    ensures LeavesLater(Reached(acts), a)
  {
    ReachedInv(acts);
    ReachedWait(acts);
    Extend(acts, a);
    if Enabled(Reached(acts), a) {
      StepExact(Reached(acts), a);
    }
  }

  lemma OrderlyPrefix(acts: seq<Action>, i: nat)
    requires Orderly(acts) && i <= |acts|
    ensures Orderly(acts[..i])
  {
    assert forall k :: 0 <= k < i ==> acts[..i][..k] == acts[..k];
  }

  lemma OrderlyEarly(acts: seq<Action>)
    requires Orderly(acts)
    ensures AlwaysEarly(acts)
  {
    forall i | 0 <= i <= |acts|
      ensures LogInv(Reached(acts[..i]), true)
    {
      OrderlyPrefix(acts, i);
      ReachedLog(acts[..i], true);
    }
  }

  lemma EarlyOrderly(acts: seq<Action>)
    requires AlwaysEarly(acts)
    ensures Orderly(acts)
  {
    forall i | 0 <= i < |acts|
      ensures LeavesLater(Reached(acts[..i]), acts[i])
    {
      assert LogInv(Reached(acts[..i]), true) && LogInv(Reached(acts[..i + 1]), true);
      assert acts[..i + 1] == acts[..i] + [acts[i]];
      EarlyStep(acts[..i], acts[i]);
    }
  }

  /** That holds of a run if and only if every departure in it releases only requests submitted after it. */
  lemma EarlyExact(acts: seq<Action>)
    ensures AlwaysEarly(acts) <==> Orderly(acts)
  {
    if Orderly(acts) {
      OrderlyEarly(acts);
    } else if AlwaysEarly(acts) {
      EarlyOrderly(acts);
    }
  }
}
