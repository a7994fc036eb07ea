/**
 When deletions from the event dispatcher are safe, exactly: for enabling, for freeing at once and
 for deleting from a handler, the condition that a caller must meet.
 */
module MeventExact {
  import opened Mevent

  predicate Plain(a: Action) {
    !a.Enable? && !a.FreeNow? && !a.DeleteOwn?
  }

  /** `full` goes on from `acts` with steps that neither enable nor free. */
  ghost predicate Extends(full: seq<Action>, acts: seq<Action>) {
    acts <= full && forall k :: |acts| <= k < |full| ==> Plain(full[k])
  }

  /** The dispatch thread still polls. */
  predicate Alive(t: Dispatch) {
    t.Waiting? || t.Looking? || t.Running?
  }

  // ---- an enable that a delete overtakes ----

  /** The handlers of the batch return. */
  lemma RunBatch(acts: seq<Action>) returns (full: seq<Action>)
    requires Reached(acts).thread.Looking? || Reached(acts).thread.Running?
    ensures Extends(full, acts)
    ensures var s := Reached(acts); Reached(full) == s.(thread := Looking(s.thread.batch, |s.thread.batch|))
    decreases var t := Reached(acts).thread; 2 * (|t.batch| - t.i) - if t.Running? then 1 else 0
  {
    ReachedInv(acts);
    var t := Reached(acts).thread;
    if t.Running? {
      Extend(acts, Return);
      full := RunBatch(acts + [Return]);
    } else if t.i < |t.batch| {
      Extend(acts, Visit);
      full := RunBatch(acts + [Visit]);
    } else {
      full := acts;
    }
  }

  lemma PollStep(acts: seq<Action>, b: seq<nat>)
    requires Enabled(Reached(acts), Poll(b))
    ensures var s, z := Reached(acts), Reached(acts + [Poll(b)]); z == s.(thread := Looking(b, 0))
  {
    Extend(acts, Poll(b));
  }

  /** The dispatch thread comes to the end of a batch. */
  lemma EndBatch(acts: seq<Action>) returns (full: seq<Action>)
    requires Alive(Reached(acts).thread)
    ensures Extends(full, acts) && Enabled(Reached(full), Drain) && Reached(full).events == Reached(acts).events
  {
    if Reached(acts).thread.Waiting? {
      PollStep(acts, []);
      full := acts + [Poll([])];
    } else {
      full := RunBatch(acts);
    }
  }

  /** The dispatch thread finishes a batch and drains the deletion list. */
  lemma Round(acts: seq<Action>) returns (full: seq<Action>)
    requires Alive(Reached(acts).thread)
    ensures Extends(full, acts) && Reached(full).thread.Waiting?
    ensures var s, z := Reached(acts), Reached(full);
      && |z.events| == |s.events|
      && forall e :: 0 <= e < |s.events| ==> z.events[e] == if s.events[e].where.Doomed? then Reclaimed(s.events[e]) else s.events[e]
  {
    full := EndBatch(acts);
    DrainStep(full);
    full := full + [Drain];
  }

  lemma DrainStep(acts: seq<Action>)
    requires Enabled(Reached(acts), Drain)
    ensures var s, z := Reached(acts), Reached(acts + [Drain]);
      && z.thread.Waiting? && |z.events| == |s.events|
      && forall e :: 0 <= e < |s.events| ==> z.events[e] == if s.events[e].where.Doomed? then Reclaimed(s.events[e]) else s.events[e]
  {
    ReachedInv(acts);
    Extend(acts, Drain);
    DrainInv(Reached(acts));
  }

  /** An event on epoll after its deletion comes back from the kernel once it is freed. */
  lemma StaleUnsafe(acts: seq<Action>, e: nat) returns (full: seq<Action>)
    requires var s := Reached(acts);
      Alive(s.thread) && e < |s.events| && Past(s.events[e]) && s.events[e].epoll && s.events[e].teardown
    ensures Extends(full, acts) && !Safe(Reached(full))
  {
    full := acts;
    if Reached(acts).events[e].where.Unpolled? {
      Extend(acts, Doom(e));
      full := acts + [Doom(e)];
    }
    full := Round(full);
    PollStep(full, [e]);
    full := full + [Poll([e])];
    assert Ahead(Reached(full).thread)[0] == e;
  }

  /** However the run goes on gently, no freed event is in the rest of a batch. */
  ghost predicate EverSafe(acts: seq<Action>) {
    forall full :: acts <= full && GentleFrom(full, |acts|) ==> Safe(Reached(full))
  }

  lemma GentleJoin(full: seq<Action>, acts: seq<Action>, a: Action)
    requires acts + [a] <= full && GentleFrom(acts, 0) && GentleFrom(full, |acts| + 1) && Gentle(Reached(acts), a)
    ensures GentleFrom(full, 0)
  {
    assert full[..|acts|] == acts && full[|acts|] == a;
    forall k | 0 <= k < |full| && Enabled(Reached(full[..k]), full[k])
      ensures Gentle(Reached(full[..k]), full[k])
    {
      if k < |acts| {
        assert full[..k] == acts[..k] && full[k] == acts[k];
      }
    }
  }

  /**
   The epoll ADD of mevent_enable is harmless in every later interleaving if and only if no delete
   of the event has got past its epoll DEL meanwhile.
   */
  lemma EnableExact(acts: seq<Action>, e: nat)
    requires GentleFrom(acts, 0) && Enabled(Reached(acts), Enable(e)) && Alive(Reached(acts).thread)
    requires Reached(acts).events[e].teardown
    ensures EverSafe(acts + [Enable(e)]) <==> !Past(Reached(acts).events[e])
  {
    var next := acts + [Enable(e)];
    Extend(acts, Enable(e));
    if Past(Reached(acts).events[e]) {
      var full := StaleUnsafe(next, e);
      assert GentleFrom(full, |next|);
    } else {
      forall full | next <= full && GentleFrom(full, |next|)
        ensures Safe(Reached(full))
      {
        GentleJoin(full, acts, Enable(e));
        DeferredSafe(full);
      }
    }
  }

  // ---- freeing at once, while a batch is handled ----

  /** `full` starts with `pre` and a poll that reports `b`, and that batch is still being handled. */
  ghost predicate During(pre: seq<Action>, b: seq<nat>, full: seq<Action>) {
    Enabled(Reached(pre), Poll(b)) && InBatch(pre, b, full) && GentleFrom(full, |pre|)
  }

  predicate InBatch(pre: seq<Action>, b: seq<nat>, full: seq<Action>) {
    pre + [Poll(b)] <= full && forall k :: |pre| < k < |full| ==> !full[k].Drain?
  }

  ghost predicate Handles(t: Dispatch, b: seq<nat>) {
    (t.Looking? || t.Running?) && t.batch == b
  }

  lemma SameBatch(s: State, a: Action, b: seq<nat>)
    requires Indexed(s) && Handles(s.thread, b) && Enabled(s, a) && !a.Drain?
    ensures Handles(Apply(s, a).thread, b)
  {
  }

  lemma {:induction false} BatchKept(pre: seq<Action>, b: seq<nat>, full: seq<Action>)
    requires Enabled(Reached(pre), Poll(b)) && InBatch(pre, b, full)
    ensures Handles(Reached(full).thread, b)
  {
    var n := |full| - 1;
    if n == |pre| {
      assert full == pre + [Poll(b)];
      PollStep(pre, b);
    } else {
      BatchKept(pre, b, full[..n]);
      LastStep(full, b);
    }
  }

  lemma LastStep(full: seq<Action>, b: seq<nat>)
    requires full != [] && Handles(Reached(full[..|full| - 1]).thread, b) && !full[|full| - 1].Drain?
    ensures Handles(Reached(full).thread, b)
  {
    var s, a := Reached(full[..|full| - 1]), full[|full| - 1];
    if Indexed(s) && Enabled(s, a) {
      SameBatch(s, a, b);
    }
  }

  /** The kernel reports only what is on epoll. */
  lemma NotNamed(s: State, b: seq<nat>, e: nat)
    requires Enabled(s, Poll(b)) && e < |s.events| && !s.events[e].epoll
    ensures e !in b
  {
  }

  lemma DuringGentle(pre: seq<Action>, b: seq<nat>, full: seq<Action>)
    requires GentleFrom(pre, 0) && During(pre, b, full)
    ensures GentleFrom(full, 0)
  {
    assert GentleFrom(full, |pre| + 1);
    GentleJoin(full, pre, Poll(b));
  }

  /** Freeing an event that the batch does not name is safe. */
  lemma UnnamedSafe(pre: seq<Action>, b: seq<nat>, full: seq<Action>, a: Action, e: nat)
    requires GentleFrom(pre, 0) && During(pre, b, full) && e !in b && (a == FreeNow(e) || a == DeleteOwn(e))
    requires Enabled(Reached(full), a)
    ensures Safe(Reached(full + [a]))
  {
    DuringGentle(pre, b, full);
    DeferredSafe(full);
    BatchKept(pre, b, full);
    Extend(full, a);
    assert forall x :: x in Ahead(Reached(full).thread) ==> x in b;
  }

  /** Whatever batch the kernel returns after `pre`, freeing `e` while it is handled is safe. */
  ghost predicate MayFree(pre: seq<Action>, e: nat) {
    forall b, full :: During(pre, b, full) && Enabled(Reached(full), FreeNow(e)) ==> Safe(Reached(full + [FreeNow(e)]))
  }

  /** The next step of adding or deleting a live event. */
  function Next(w: Where, e: nat): Action {
    if w.Adding? then List(e) else if w.Listed? then Unlink(e) else if w.Unlinked? then Clear(e) else Unpoll(e)
  }

  function Left(w: Where): nat {
    if w.Adding? then 4 else if w.Listed? then 3 else if w.Unlinked? then 2 else if w.Cleared? then 1 else 0
  }

  lemma NextStep(s: State, e: nat)
    requires Indexed(s) && e < |s.events| && Left(s.events[e].where) > 0
    ensures var a := Next(s.events[e].where, e);
      && Enabled(s, a)
      && var z := Apply(s, a);
         && z.thread == s.thread && |z.events| == |s.events|
         && z.events[e].teardown == s.events[e].teardown && z.events[e].looks == s.events[e].looks
         && Left(z.events[e].where) == Left(s.events[e].where) - 1
         && !z.events[e].where.Doomed? && !z.events[e].where.Freed?
  {
  }

  /** Other threads get through the adding and deletion of a live event up to its epoll DEL. */
  lemma ToUnpolled(acts: seq<Action>, e: nat) returns (full: seq<Action>)
    requires var s := Reached(acts); e < |s.events| && !s.events[e].where.Doomed? && !s.events[e].where.Freed?
    ensures Extends(full, acts) && forall k :: |acts| <= k < |full| ==> !full[k].Drain?
    ensures var s, z := Reached(acts), Reached(full);
      && z.thread == s.thread && In(z, e, Unpolled)
      && z.events[e].teardown == s.events[e].teardown && z.events[e].looks == s.events[e].looks
    decreases Left(Reached(acts).events[e].where)
  {
    full := acts;
    var w := Reached(acts).events[e].where;
    if Left(w) > 0 {
      ReachedInv(acts);
      NextStep(Reached(acts), e);
      Extend(acts, Next(w, e));
      full := ToUnpolled(acts + [Next(w, e)], e);
    }
  }

  lemma PlainGentle(full: seq<Action>, acts: seq<Action>)
    requires Extends(full, acts)
    ensures GentleFrom(full, |acts|)
  {
  }

  lemma PolledGentle(pre: seq<Action>, b: seq<nat>, full: seq<Action>)
    requires Enabled(Reached(pre), Poll(b)) && InBatch(pre, b, full) && Extends(full, pre + [Poll(b)])
    ensures During(pre, b, full)
  {
    assert Extends(full, pre) by {
      assert full[|pre|] == Poll(b);
    }
    PlainGentle(full, pre);
  }

  lemma FreeStep(acts: seq<Action>, e: nat)
    requires In(Reached(acts), e, Unpolled) && !Reached(acts).events[e].teardown && Reached(acts).thread == Looking([e], 0)
    ensures Enabled(Reached(acts), FreeNow(e)) && !Safe(Reached(acts + [FreeNow(e)]))
  {
    Extend(acts, FreeNow(e));
    assert Ahead(Reached(acts + [FreeNow(e)]).thread)[0] == e;
  }

  lemma FreeUnsafe(pre: seq<Action>, e: nat) returns (full: seq<Action>)
    requires e < |Reached(pre).events| && Enabled(Reached(pre), Poll([e]))
    requires !Reached(pre).events[e].teardown && !Reached(pre).events[e].where.Freed?
    ensures During(pre, [e], full) && Enabled(Reached(full), FreeNow(e)) && !Safe(Reached(full + [FreeNow(e)]))
  {
    assert Kept(Reached(pre).events[e]) by {
      ReachedInv(pre);
    }
    PollStep(pre, [e]);
    full := ToUnpolled(pre + [Poll([e])], e);
    PolledGentle(pre, [e], full);
    FreeStep(full, e);
  }

  lemma FreeFine(pre: seq<Action>, e: nat)
    requires GentleFrom(pre, 0) && e < |Reached(pre).events| && !Reached(pre).events[e].epoll
    ensures MayFree(pre, e)
  {
    forall b, full | During(pre, b, full) && Enabled(Reached(full), FreeNow(e))
      ensures Safe(Reached(full + [FreeNow(e)]))
    {
      NotNamed(Reached(pre), b, e);
      UnnamedSafe(pre, b, full, FreeNow(e), e);
    }
  }

  /**
   Freeing an event without teardown is safe for every batch the kernel can return if and only if
   the event is off epoll when the dispatch thread polls.
   */
  lemma FreeExact(pre: seq<Action>, e: nat)
    requires GentleFrom(pre, 0) && Reached(pre).thread.Waiting?
    requires e < |Reached(pre).events| && !Reached(pre).events[e].teardown && !Reached(pre).events[e].where.Freed?
    ensures MayFree(pre, e) <==> !Reached(pre).events[e].epoll
  {
    if Reached(pre).events[e].epoll {
      var full := FreeUnsafe(pre, e);
    } else {
      FreeFine(pre, e);
    }
  }

  // ---- the failing interleavings ----

  /** Without a teardown the deferral does not apply: an event can be freed while a batch holds it. */
  lemma ImmediateUnsafe() returns (acts: seq<Action>)
    ensures !Safe(Reached(acts))
  {
    Extend([], Register(false));
    acts := [] + [Register(false)];
    acts := FreeUnsafe(acts, 0);
    acts := acts + [FreeNow(0)];
  }

  /** An event with a teardown is added, and a thread inside mevent_enable has found it on the list. */
  lemma Found() returns (acts: seq<Action>)
    ensures forall k :: 0 <= k < |acts| ==> Plain(acts[k])
    ensures Reached(acts) == State([Event(true, Listed, true, true, 0, 1)], [0], [], Waiting)
  {
    acts := [];
    Extend(acts, Register(true));
    acts := acts + [Register(true)];
    Extend(acts, List(0));
    acts := acts + [List(0)];
    Extend(acts, LookUp(0));
    acts := acts + [LookUp(0)];
  }

  lemma AddStep(acts: seq<Action>, e: nat)
    requires In(Reached(acts), e, Unpolled) && Reached(acts).events[e].looks > 0
    ensures var s, z := Reached(acts), Reached(acts + [Enable(e)]);
      && z.thread == s.thread && In(z, e, Unpolled) && z.events[e].epoll && z.events[e].teardown == s.events[e].teardown
  {
    Extend(acts, Enable(e));
  }

  /** A thread in mevent_enable is overtaken by a deletion of the event: deferral does not help. */
  lemma EnableUnsafe() returns (acts: seq<Action>)
    ensures (forall k :: 0 <= k < |acts| ==> !acts[k].FreeNow? && !acts[k].DeleteOwn?) && !Safe(Reached(acts))
  {
    acts := Found();
    acts := ToUnpolled(acts, 0);
    AddStep(acts, 0);
    acts := acts + [Enable(0)];
    acts := StaleUnsafe(acts, 0);
  }

  // ---- deleting from a handler ----

  /** Whatever batch the kernel returns after `pre`, the handler of `f` may delete `e` while it runs. */
  ghost predicate HandlerMay(pre: seq<Action>, f: nat, e: nat) {
    forall b, full :: During(pre, b, full) && Own(Reached(full).thread, f) && Enabled(Reached(full), DeleteOwn(e))
                      ==> Safe(Reached(full + [DeleteOwn(e)]))
  }

  lemma VisitStep(acts: seq<Action>, f: nat, e: nat)
    requires Reached(acts).thread == Looking([f, e], 0) && f < |Reached(acts).events| && Reached(acts).events[f].state
    ensures var s, z := Reached(acts), Reached(acts + [Visit]); z == s.(thread := Running([f, e], 0))
  {
    Extend(acts, Visit);
  }

  lemma DeleteEffect(s: State, e: nat)
    requires Indexed(s) && Enabled(s, DeleteOwn(e))
    ensures var z := Apply(s, DeleteOwn(e)); z.thread == s.thread && In(z, e, Freed)
  {
  }

  lemma DeleteStep(acts: seq<Action>, f: nat, e: nat)
    requires In(Reached(acts), e, Listed) && Reached(acts).thread == Running([f, e], 0)
    ensures Enabled(Reached(acts), DeleteOwn(e)) && !Safe(Reached(acts + [DeleteOwn(e)]))
  {
    Extend(acts, DeleteOwn(e));
    DeleteEffect(Reached(acts), e);
    assert Ahead(Running([f, e], 0))[0] == e;
  }

  lemma HandlerUnsafe(pre: seq<Action>, f: nat, e: nat) returns (full: seq<Action>)
    requires f < |Reached(pre).events| && Enabled(Reached(pre), Poll([f, e]))
    requires Reached(pre).events[f].state && In(Reached(pre), e, Listed)
    ensures During(pre, [f, e], full) && Own(Reached(full).thread, f) && Enabled(Reached(full), DeleteOwn(e))
    ensures !Safe(Reached(full + [DeleteOwn(e)]))
  {
    PollStep(pre, [f, e]);
    full := pre + [Poll([f, e])];
    VisitStep(full, f, e);
    full := full + [Visit];
    PolledGentle(pre, [f, e], full);
    DeleteStep(full, f, e);
  }

  lemma OwnSafe(pre: seq<Action>, b: seq<nat>, full: seq<Action>, e: nat)
    requires GentleFrom(pre, 0) && During(pre, b, full)
    requires Own(Reached(full).thread, e) && Enabled(Reached(full), DeleteOwn(e))
    ensures Safe(Reached(full + [DeleteOwn(e)]))
  {
    DuringGentle(pre, b, full);
    DeferredSafe(full);
    ReachedInv(full);
    Extend(full, DeleteOwn(e));
    GentleSafe(Reached(full), DeleteOwn(e));
  }

  lemma HandlerFine(pre: seq<Action>, f: nat, e: nat)
    requires GentleFrom(pre, 0) && e < |Reached(pre).events| && (f == e || !Reached(pre).events[e].epoll)
    ensures HandlerMay(pre, f, e)
  {
    forall b, full | During(pre, b, full) && Own(Reached(full).thread, f) && Enabled(Reached(full), DeleteOwn(e))
      ensures Safe(Reached(full + [DeleteOwn(e)]))
    {
      if f == e {
        OwnSafe(pre, b, full, e);
      } else {
        NotNamed(Reached(pre), b, e);
        UnnamedSafe(pre, b, full, DeleteOwn(e), e);
      }
    }
  }

  /** A handler deletes safely, for every batch, if and only if the event is its own or off epoll at the poll. */
  lemma HandlerExact(pre: seq<Action>, f: nat, e: nat)
    requires GentleFrom(pre, 0) && Reached(pre).thread.Waiting? && In(Reached(pre), e, Listed)
    requires f < |Reached(pre).events| && Reached(pre).events[f].epoll && Reached(pre).events[f].state
    ensures HandlerMay(pre, f, e) <==> f == e || !Reached(pre).events[e].epoll
  {
    if f != e && Reached(pre).events[e].epoll {
      var full := HandlerUnsafe(pre, f, e);
    } else {
      HandlerFine(pre, f, e);
    }
  }
}
