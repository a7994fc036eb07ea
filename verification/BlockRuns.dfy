/**
 Whole-run results about the block scheduler: no lost wakeup, no deadlock, a drain that
 ends with every request answered once, and the order held-back requests start in.
 */
module BlockRuns {
  import opened BlockQueues
  import opened BlockSched

  /** No lost wakeup: while anything is outstanding some worker is awake or processing, and
      with nothing busy the head of the pending queue is dispatchable. */
  lemma NoLostWakeup(acts: seq<Action>)
    ensures var s := Reached(acts);
      && (Outstanding(s) ==> Active(s))
      && (s.q.pendq != [] && s.q.busyq == [] ==> s.q.pendq[0].status.Pend?)
  {
    ReachedInv(acts);
    var s := Reached(acts);
    if s.q.pendq != [] && s.q.busyq == [] {
      HeadReady(s.q, s.next);
    }
  }

  lemma BusyMoves(s: State) returns (w: nat)
    requires Manned(s) && Tagged(s.q) && s.q.busyq != []
    ensures Enabled(s, Call(w)) || Enabled(s, Finish(w))
  {
    assert Processing(s.q.busyq[0].id) in s.workers;
    w :| 0 <= w < |s.workers| && s.workers[w] == Processing(s.q.busyq[0].id);
    assert At(s, w) == 0;
  }

  lemma PendingMoves(s: State) returns (w: nat)
    requires Manned(s) && Active(s) && s.q.busyq == [] && FirstReady(s.q.pendq) < |s.q.pendq|
    ensures Enabled(s, Take(w))
  {
    w :| 0 <= w < |s.workers| && (s.workers[w].Awake? || s.workers[w].Processing?);
  }

  /** No deadlock: outstanding work can always be advanced by a worker, with no help from clients. */
  lemma Progress(acts: seq<Action>) returns (w: nat)
    requires Outstanding(Reached(acts))
    ensures var s := Reached(acts); Enabled(s, Take(w)) || Enabled(s, Call(w)) || Enabled(s, Finish(w))
  {
    ReachedInv(acts);
    var s := Reached(acts);
    if s.q.busyq != [] {
      w := BusyMoves(s);
    } else {
      HeadReady(s.q, s.next);
      w := PendingMoves(s);
    }
  }

  // ---- every accepted request is answered exactly once ----

  ghost function Calls(log: seq<Event>, id: nat): nat {
    multiset(log)[CalledBack(id)]
  }

  ghost function Drops(log: seq<Event>, id: nat): nat {
    multiset(log)[Dropped(id)]
  }

  ghost predicate HasDone(s: seq<Elem>, id: nat) {
    exists i :: 0 <= i < |s| && s[i].id == id && s[i].status.Done?
  }

  /** Pending or in progress: no callback yet; done: one; gone: one callback or one cancel. */
  ghost predicate Fate(s: State, id: nat) {
    var c, d := Calls(s.log, id), Drops(s.log, id);
    && (id >= s.next || HasId(s.q.pendq, id) ==> c == 0 && d == 0)
    && (HasId(s.q.busyq, id) ==> d == 0 && c == if HasDone(s.q.busyq, id) then 1 else 0)
    && (id < s.next && !HasId(s.q.pendq, id) && !HasId(s.q.busyq, id) ==> c + d == 1)
  }

  lemma IdWithout(s: seq<Elem>, t: nat, id: nat)
    requires Unique(s) && t < |s|
    ensures HasId(Without(s, t), id) <==> HasId(s, id) && id != s[t].id
  {
    var r := Without(s, t);
    if HasId(r, id) {
      var i :| 0 <= i < |r| && r[i].id == id;
      assert r[i] == s[if i < t then i else i + 1];
    }
    if HasId(s, id) && id != s[t].id {
      var i :| 0 <= i < |s| && s[i].id == id;
      assert r[Past(i, t)] == s[i];
    }
  }

  lemma DoneWithout(s: seq<Elem>, t: nat, id: nat)
    requires Unique(s) && t < |s|
    ensures HasDone(Without(s, t), id) <==> HasDone(s, id) && id != s[t].id
  {
    var r := Without(s, t);
    if HasDone(r, id) {
      var i :| 0 <= i < |r| && r[i].id == id && r[i].status.Done?;
      assert r[i] == s[if i < t then i else i + 1];
    }
    if HasDone(s, id) && id != s[t].id {
      var i :| 0 <= i < |s| && s[i].id == id && s[i].status.Done?;
      assert r[Past(i, t)] == s[i];
    }
  }

  lemma IdAppend(s: seq<Elem>, e: Elem, id: nat)
    ensures HasId(s + [e], id) <==> HasId(s, id) || id == e.id
    ensures HasDone(s + [e], id) <==> HasDone(s, id) || (id == e.id && e.status.Done?)
  {
    var r := s + [e];
    assert r[|s|] == e && forall i :: 0 <= i < |s| ==> r[i] == s[i];
  }

  lemma IdReleased(s: seq<Elem>, block: int, id: nat)
    ensures HasId(Released(s, block), id) <==> HasId(s, id)
  {
  }

  lemma IdDone(s: seq<Elem>, t: nat, id: nat)
    requires Unique(s) && t < |s|
    ensures var r := s[t := s[t].(status := Done)];
      && (HasId(r, id) <==> HasId(s, id))
      && (HasDone(r, id) <==> HasDone(s, id) || id == s[t].id)
  {
    var r := s[t := s[t].(status := Done)];
    assert r[t].status.Done? && r[t].id == s[t].id;
    assert forall i :: 0 <= i < |s| ==> r[i].id == s[i].id && (i != t ==> r[i] == s[i]);
  }

  /** The facts about numbering that the accounting needs. */
  lemma Apart(q: Queues, next: nat, t: nat)
    requires Numbered(q, next)
    ensures Unique(q.pendq) && Unique(q.busyq)
    ensures t < |q.pendq| ==> q.pendq[t].id < next && HasId(q.pendq, q.pendq[t].id) && !HasId(q.busyq, q.pendq[t].id)
    ensures t < |q.busyq| ==> q.busyq[t].id < next && HasId(q.busyq, q.busyq[t].id) && !HasId(q.pendq, q.busyq[t].id)
    ensures !HasId(q.pendq, next) && !HasId(q.busyq, next)
    ensures t < |q.busyq| && !q.busyq[t].status.Done? ==> !HasDone(q.busyq, q.busyq[t].id)
    ensures t < |q.busyq| && q.busyq[t].status.Done? ==> HasDone(q.busyq, q.busyq[t].id)
  {
  }

  lemma FateSubmit(s: State, a: Action, id: nat)
    requires Numbered(s.q, s.next) && Fate(s, id) && a.Submit? && Enabled(s, a)
    ensures Fate(Apply(s, a), id)
  {
    var z := Apply(s, a);
    if s.q.freeq != [] {
      Apart(s.q, s.next, 0);
      IdAppend(s.q.pendq, z.q.pendq[|s.q.pendq|], id);
    }
  }

  lemma FateTake(s: State, w: nat, id: nat)
    requires Numbered(s.q, s.next) && Fate(s, id) && Enabled(s, Take(w))
    ensures Fate(Apply(s, Take(w)), id)
  {
    var t := FirstReady(s.q.pendq);
    Apart(s.q, s.next, t);
    IdWithout(s.q.pendq, t, id);
    IdAppend(s.q.busyq, s.q.pendq[t].(status := Busy), id);
    if id == s.q.pendq[t].id {
      assert !HasId(s.q.busyq, id);
      assert !HasDone(s.q.busyq, id);
    }
  }

  lemma FateCall(s: State, w: nat, id: nat)
    requires Numbered(s.q, s.next) && Fate(s, id) && Enabled(s, Call(w))
    ensures Fate(Apply(s, Call(w)), id)
  {
    Apart(s.q, s.next, At(s, w));
    IdDone(s.q.busyq, At(s, w), id);
  }

  lemma FateFinish(s: State, w: nat, id: nat)
    requires Numbered(s.q, s.next) && Fate(s, id) && Enabled(s, Finish(w))
    ensures Fate(Apply(s, Finish(w)), id)
  {
    var t := At(s, w);
    Apart(s.q, s.next, t);
    IdWithout(s.q.busyq, t, id);
    DoneWithout(s.q.busyq, t, id);
    IdReleased(s.q.pendq, s.q.busyq[t].block, id);
  }

  lemma FateCancel(s: State, req: nat, id: nat)
    requires Numbered(s.q, s.next) && Fate(s, id)
    ensures Fate(Apply(s, Cancel(req)), id)
  {
    var t := FirstOf(s.q.pendq, req);
    if t < |s.q.pendq| {
      Apart(s.q, s.next, t);
      IdWithout(s.q.pendq, t, id);
      IdReleased(Without(s.q.pendq, t), s.q.pendq[t].block, id);
    }
  }

  lemma {:induction false} ReachedFate(acts: seq<Action>, id: nat)
    ensures Fate(Reached(acts), id)
  {
    if acts != [] {
      var s, a := Reached(acts[..|acts| - 1]), acts[|acts| - 1];
      ReachedFate(acts[..|acts| - 1], id);
      ReachedInv(acts[..|acts| - 1]);
      assert Numbered(s.q, s.next);
      if Enabled(s, a) {
        match a
        case Submit(_, _, _, _, _) => FateSubmit(s, a, id);
        case Take(w) => FateTake(s, w, id);
        case Call(w) => FateCall(s, w, id);
        case Finish(w) => FateFinish(s, w, id);
        case Cancel(req) => FateCancel(s, req, id);
        case _ =>
      }
    }
  }

  // ---- closing ----

  ghost predicate AllExited(s: State) {
    forall w :: 0 <= w < |s.workers| ==> s.workers[w].Exited?
  }

  /** Once the last worker has exited nothing is queued, all 72 elements are free, and every
      accepted request got its callback exactly once or was cancelled while pending with none. */
  lemma Drained(acts: seq<Action>)
    requires AllExited(Reached(acts))
    ensures var s := Reached(acts);
      && s.q.pendq == [] && s.q.busyq == [] && multiset(s.q.freeq) == AllSlots()
      && forall id :: 0 <= id < s.next ==> Calls(s.log, id) + Drops(s.log, id) == 1
  {
    ReachedInv(acts);
    var s := Reached(acts);
    assert s.q.pendq == [] && s.q.busyq == [];
    forall id | 0 <= id < s.next ensures Calls(s.log, id) + Drops(s.log, id) == 1 {
      ReachedFate(acts, id);
    }
  }

  function Effort(s: seq<Elem>): nat {
    if s == [] then 0 else Effort(s[..|s| - 1]) + if s[|s| - 1].status.Done? then 2 else 3
  }

  function Live(ws: seq<Worker>): nat {
    if ws == [] then 0 else Live(ws[..|ws| - 1]) + if ws[|ws| - 1].Exited? then 0 else 1
  }

  /** Steps the outstanding requests still need. */
  function Load(s: State): nat {
    4 * |s.q.pendq| + Effort(s.q.busyq)
  }

  /** Steps left before a closing context is idle. */
  function Work(s: State): nat {
    Load(s) + Live(s.workers)
  }

  lemma {:induction false} EffortAppend(s: seq<Elem>, e: Elem)
    ensures Effort(s + [e]) == Effort(s) + if e.status.Done? then 2 else 3
  {
  }

  lemma {:induction false} EffortWithout(s: seq<Elem>, t: nat)
    requires t < |s|
    ensures Effort(Without(s, t)) < Effort(s)
  {
    var n := |s| - 1;
    if t == n {
      assert Without(s, t) == s[..n];
    } else {
      EffortWithout(s[..n], t);
      var r := Without(s, t);
      assert r[..n - 1] == Without(s[..n], t) && r[n - 1] == s[n];
    }
  }

  lemma {:induction false} EffortDone(s: seq<Elem>, t: nat)
    requires t < |s| && !s[t].status.Done?
    ensures Effort(s[t := s[t].(status := Done)]) < Effort(s)
  {
    var n, r := |s| - 1, s[t := s[t].(status := Done)];
    if t == n {
      assert r[..n] == s[..n];
    } else {
      EffortDone(s[..n], t);
      assert r[..n] == s[..n][t := s[t].(status := Done)];
    }
  }

  lemma {:induction false} LiveChange(ws: seq<Worker>, w: nat, k: Worker)
    requires w < |ws| && !ws[w].Exited?
    ensures Live(ws[w := k]) == Live(ws) - if k.Exited? then 1 else 0
  {
    var n := |ws| - 1;
    if w == n {
      assert ws[w := k][..n] == ws[..n];
    } else {
      LiveChange(ws[..n], w, k);
      assert ws[w := k][..n] == ws[..n][w := k];
    }
  }

  /** Every step but a submission that changes the queues uses up load. */
  lemma LoadFalls(s: State, a: Action)
    requires Enabled(s, a) && !a.Submit?
    ensures Apply(s, a).q == s.q || Load(Apply(s, a)) < Load(s)
  {
    if a.Take? || a.Call? || a.Finish? {
      WorkerStep(s, a);
    }
  }

  /** The steps after the first `n` that change the queues. */
  ghost function Changes(full: seq<Action>, n: nat): nat {
    if |full| <= n then 0
    else
      var pre := full[..|full| - 1];
      Changes(pre, n) + if Reached(full).q == Reached(pre).q then 0 else 1
  }

  /** Once submissions stop, the queues change at most as often as the outstanding requests need. */
  lemma {:induction false} OutstandingEnds(acts: seq<Action>, full: seq<Action>)
    requires acts <= full && forall k :: |acts| <= k < |full| ==> !full[k].Submit?
    ensures Changes(full, |acts|) + Load(Reached(full)) <= Load(Reached(acts))
  {
    if full == acts {
    } else {
      var n := |full| - 1;
      OutstandingEnds(acts, full[..n]);
      if Enabled(Reached(full[..n]), full[n]) {
        LoadFalls(Reached(full[..n]), full[n]);
      }
    }
  }

  /** From every reachable state the workers alone can answer all that is outstanding. */
  lemma CanFinish(acts: seq<Action>) returns (full: seq<Action>)
    ensures acts <= full && (forall k :: |acts| <= k < |full| ==> full[k].Take? || full[k].Call? || full[k].Finish?)
    ensures !Outstanding(Reached(full))
    decreases Load(Reached(acts))
  {
    full := acts;
    if Outstanding(Reached(acts)) {
      var w := Progress(acts);
      var s := Reached(acts);
      var a := if Enabled(s, Take(w)) then Take(w) else if Enabled(s, Call(w)) then Call(w) else Finish(w);
      assert (acts + [a])[..|acts|] == acts;
      WorkerStep(s, a);
      full := CanFinish(acts + [a]);
    }
  }

  lemma WorkerStep(s: State, a: Action)
    requires Enabled(s, a) && (a.Take? || a.Call? || a.Finish?)
    ensures Load(Apply(s, a)) < Load(s)
  {
    match a
    case Take(w) => EffortAppend(s.q.busyq, s.q.pendq[FirstReady(s.q.pendq)].(status := Busy));
    case Call(w) => EffortDone(s.q.busyq, At(s, w));
    case Finish(w) => EffortWithout(s.q.busyq, At(s, w));
  }

  /** After close every step that changes anything uses up work: the drain ends. */
  lemma DrainDescends(s: State, a: Action)
    requires Inv(s) && s.closing && Enabled(s, a)
    ensures Apply(s, a) == s || Work(Apply(s, a)) < Work(s)
  {
    match a
    case Take(w) =>
      WorkerStep(s, a);
      LiveChange(s.workers, w, Apply(s, a).workers[w]);
    case Call(_) => WorkerStep(s, a);
    case Finish(w) =>
      WorkerStep(s, a);
      LiveChange(s.workers, w, Awake);
    case Exit(w) => LiveChange(s.workers, w, Exited);
    case _ =>
  }

  lemma IdleExits(s: State) returns (w: nat)
    requires s.closing && s.q.pendq == [] && s.q.busyq == [] && Manned(s) && Waiting !in s.workers && !AllExited(s)
    ensures Enabled(s, Exit(w))
  {
    w :| 0 <= w < |s.workers| && !s.workers[w].Exited?;
    assert s.workers[w] in s.workers;
  }

  /** And it does not stop short: until all have exited some worker can move. */
  lemma DrainMoves(acts: seq<Action>) returns (w: nat)
    requires Reached(acts).closing && !AllExited(Reached(acts))
    ensures var s := Reached(acts);
      Enabled(s, Take(w)) || Enabled(s, Call(w)) || Enabled(s, Finish(w)) || Enabled(s, Exit(w))
  {
    var s := Reached(acts);
    ReachedInv(acts);
    if Outstanding(s) {
      w := Progress(acts);
    } else {
      w := IdleExits(s);
    }
  }

  // ---- what a submission leaves in the queues ----

  /** The submission is accepted: it gets the next number. */
  predicate Accepts(s: State, a: Action) {
    a.Submit? && Enabled(s, a) && s.q.freeq != []
  }

  /** Past the last segment of the request; 128 for a flush. */
  function Beyond(a: Action): int
    requires a.Submit?
  {
    match a.op
    case Read => a.off + Sum(a.lens)
    case Write => a.off + Sum(a.lens)
    case Discard => a.off + Sum(a.lens)
    case Flush => 128
  }

  /** Request `id`, if in the queue, is `req`, starts at `off` and ends at `block`. */
  ghost predicate MarkedIn(s: seq<Elem>, id: nat, req: nat, off: int, block: int) {
    forall i :: 0 <= i < |s| && s[i].id == id ==> s[i].req == req && s[i].off == off && s[i].block == block
  }

  ghost predicate Marked(s: State, id: nat, req: nat, off: int, block: int) {
    id < s.next && MarkedIn(s.q.pendq, id, req, off, block) && MarkedIn(s.q.busyq, id, req, off, block)
  }

  lemma MarkedWithout(s: seq<Elem>, t: nat, id: nat, req: nat, off: int, block: int)
    requires MarkedIn(s, id, req, off, block) && t < |s|
    ensures MarkedIn(Without(s, t), id, req, off, block)
  {
    assert forall i :: 0 <= i < |s| - 1 ==> Without(s, t)[i] == s[if i < t then i else i + 1];
  }

  lemma StepMarked(s: State, a: Action, id: nat, req: nat, off: int, block: int)
    requires Marked(s, id, req, off, block) && Enabled(s, a)
    ensures Marked(Apply(s, a), id, req, off, block)
  {
    match a
    case Take(w) => MarkedWithout(s.q.pendq, FirstReady(s.q.pendq), id, req, off, block);
    case Finish(w) => MarkedWithout(s.q.busyq, At(s, w), id, req, off, block);
    case Cancel(r) =>
      if FirstOf(s.q.pendq, r) < |s.q.pendq| {
        MarkedWithout(s.q.pendq, FirstOf(s.q.pendq, r), id, req, off, block);
      }
    case _ =>
  }

  lemma AcceptedMarked(s: State, a: Action)
    requires Numbered(s.q, s.next) && Accepts(s, a)
    ensures Marked(Apply(s, a), s.next, a.req, a.off, Beyond(a))
  {
  }

  lemma LastMarked(acts: seq<Action>, a: Action, id: nat, req: nat, off: int, block: int)
    requires Marked(Reached(acts), id, req, off, block)
    ensures Marked(Reached(acts + [a]), id, req, off, block)
  {
    Extend(acts, a);
    if Enabled(Reached(acts), a) {
      StepMarked(Reached(acts), a, id, req, off, block);
    }
  }

  lemma FirstMarked(acts: seq<Action>, a: Action)
    requires Accepts(Reached(acts), a)
    ensures Marked(Reached(acts + [a]), Reached(acts).next, a.req, a.off, Beyond(a))
  {
    ReachedInv(acts);
    Extend(acts, a);
    AcceptedMarked(Reached(acts), a);
  }

  lemma {:induction false} ReachedMarked(acts: seq<Action>, k: nat)
    requires k < |acts| && Accepts(Reached(acts[..k]), acts[k])
    ensures Marked(Reached(acts), Reached(acts[..k]).next, acts[k].req, acts[k].off, Beyond(acts[k]))
  {
    var pre, a := acts[..|acts| - 1], acts[|acts| - 1];
    assert acts == pre + [a];
    if k == |pre| {
      FirstMarked(pre, a);
    } else {
      assert pre[..k] == acts[..k];
      ReachedMarked(pre, k);
      LastMarked(pre, a, Reached(acts[..k]).next, acts[k].req, acts[k].off, Beyond(acts[k]));
    }
  }

  /**
   In every run: while the request accepted in step `k` is outstanding, a submission that starts where it ends, past the
   last of its segments or, for a flush, at 128, is held back.
   */
  lemma AdjacentHeld(acts: seq<Action>, k: nat, a: Action)
    requires k < |acts| && Accepts(Reached(acts[..k]), acts[k]) && Accepts(Reached(acts), a)
    requires var id := Reached(acts[..k]).next; HasId(Reached(acts).q.pendq, id) || HasId(Reached(acts).q.busyq, id)
    requires a.off == Beyond(acts[k])
    ensures var z := Reached(acts + [a]).q.pendq;
      z != [] && var p := z[|z| - 1]; p.id == Reached(acts).next && p.off == a.off && p.status.Block? && p.held
  {
    ReachedMarked(acts, k);
    assert (acts + [a])[..|acts|] == acts;
    var q, id := Reached(acts).q, Reached(acts[..k]).next;
    if HasId(q.pendq, id) {
      var i :| 0 <= i < |q.pendq| && q.pendq[i].id == id;
      assert EndsAt(q.pendq, a.off);
    } else {
      var i :| 0 <= i < |q.busyq| && q.busyq[i].id == id;
      assert EndsAt(q.busyq, a.off);
    }
  }

  lemma DropOwn(s: State, r: nat, id: nat, req: nat, off: int, block: int)
    requires Marked(s, id, req, off, block) && Apply(s, Cancel(r)).log == s.log + [Dropped(id)]
    ensures r == req
  {
    var z := Apply(s, Cancel(r)).log;
    assert |z| == |s.log| + 1 && z[|s.log|] == Dropped(id);
  }

  lemma DropFirst(s: State, id: nat, req: nat, off: int, block: int)
    requires Marked(s, id, req, off, block) && Numbered(s.q, s.next) && HasId(s.q.pendq, id)
    ensures var z := Apply(s, Cancel(req)).log;
      |z| == |s.log| + 1 && z[..|s.log|] == s.log && z[|s.log|].Dropped? && z[|s.log|].id <= id
  {
    var i :| 0 <= i < |s.q.pendq| && s.q.pendq[i].id == id;
    assert s.q.pendq[i].req == req && FirstOf(s.q.pendq, req) <= i;
  }

  /** In every run: a cancel drops a pending request only if it was submitted as the one named. */
  lemma CancelOwn(acts: seq<Action>, req: nat, k: nat)
    requires k < |acts| && Accepts(Reached(acts[..k]), acts[k])
    requires Reached(acts + [Cancel(req)]).log == Reached(acts).log + [Dropped(Reached(acts[..k]).next)]
    ensures acts[k].req == req
  {
    ReachedMarked(acts, k);
    Extend(acts, Cancel(req));
    DropOwn(Reached(acts), req, Reached(acts[..k]).next, acts[k].req, acts[k].off, Beyond(acts[k]));
  }

  /** In every run: a cancel of a pending request drops it, or an earlier one that was submitted as the same. */
  lemma CancelDrops(acts: seq<Action>, k: nat)
    requires k < |acts| && Accepts(Reached(acts[..k]), acts[k]) && HasId(Reached(acts).q.pendq, Reached(acts[..k]).next)
    ensures var log, z := Reached(acts).log, Reached(acts + [Cancel(acts[k].req)]).log;
      |z| == |log| + 1 && z[..|log|] == log && z[|log|].Dropped? && z[|log|].id <= Reached(acts[..k]).next
  {
    ReachedMarked(acts, k);
    ReachedInv(acts);
    Extend(acts, Cancel(acts[k].req));
    DropFirst(Reached(acts), Reached(acts[..k]).next, acts[k].req, acts[k].off, Beyond(acts[k]));
  }
}
