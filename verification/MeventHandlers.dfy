/**
 Which handlers the event dispatcher calls: those of the events that are on epoll and not yet deleted, and no others.
 */
module MeventHandlers {
  import opened Mevent
  import opened MeventExact

  /** The step deletes `e`, as far as its handler is concerned. */
  predicate Deletes(a: Action, e: nat) {
    a == Clear(e) || a == DeleteOwn(e)
  }

  /** Some step of the run has deleted `e`. */
  ghost predicate Deleted(acts: seq<Action>, e: nat) {
    acts != [] &&
    var pre, a := acts[..|acts| - 1], acts[|acts| - 1];
    Deleted(pre, e) || (Deletes(a, e) && Enabled(Reached(pre), a))
  }

  lemma StateStep(s: State, a: Action, e: nat)
    requires Inv(s) && Enabled(s, a)
    ensures |Apply(s, a).events| >= |s.events|
    ensures e < |s.events| ==> Apply(s, a).events[e].state == (s.events[e].state && !Deletes(a, e))
    ensures |s.events| <= e < |Apply(s, a).events| ==> Apply(s, a).events[e].state
  {
    match a
    case Drain => DrainInv(s);
    case Destroy => DestroyInv(s);
    case _ =>
  }

  /** In every run an event is marked for its handler exactly until a step deletes it. */
  lemma {:induction false} StateExact(acts: seq<Action>, e: nat)
    ensures e < |Reached(acts).events| ==> (Reached(acts).events[e].state <==> !Deleted(acts, e))
    ensures Deleted(acts, e) ==> e < |Reached(acts).events|
  {
    if acts != [] {
      var n := |acts| - 1;
      StateExact(acts[..n], e);
      ReachedInv(acts[..n]);
      if Enabled(Reached(acts[..n]), acts[n]) {
        StateStep(Reached(acts[..n]), acts[n], e);
        NeedsEvent(Reached(acts[..n]), acts[n], e);
      }
    }
  }

  lemma NeedsEvent(s: State, a: Action, e: nat)
    requires Enabled(s, a)
    ensures Deletes(a, e) ==> e < |s.events|
  {
  }

  /** In every run, at every slot of every batch: the handler runs if the event is not deleted, and is passed over if it is. */
  lemma VisitExact(acts: seq<Action>)
    requires Enabled(Reached(acts), Visit)
    ensures var s := Reached(acts); var Looking(batch, i) := s.thread;
      Reached(acts + [Visit]) == s.(thread := if Deleted(acts, batch[i]) then Looking(batch, i + 1) else Running(batch, i))
  {
    ReachedInv(acts);
    Extend(acts, Visit);
    var t := Reached(acts).thread;
    StateExact(acts, t.batch[t.i]);
  }

  lemma RunningStep(s: State, a: Action, e: nat)
    requires Inv(s) && Enabled(s, a) && !(a.Visit? && e < |s.events| && s.events[e].state) && Own(Apply(s, a).thread, e)
    ensures Own(s.thread, e)
  {
  }

  /** In every run, no step after the deletion of an event starts its handler: if it runs now, it ran before. */
  lemma NeverAgain(acts: seq<Action>, a: Action, e: nat)
    requires Deleted(acts, e) && Own(Reached(acts + [a]).thread, e)
    ensures Own(Reached(acts).thread, e)
  {
    ReachedInv(acts);
    StateExact(acts, e);
    assert (acts + [a])[..|acts|] == acts;
    if Enabled(Reached(acts), a) {
      Extend(acts, a);
      RunningStep(Reached(acts), a, e);
    }
  }

  /** A deletion stays one. */
  lemma {:induction false} DeletedStays(acts: seq<Action>, full: seq<Action>, e: nat)
    requires acts <= full && Deleted(acts, e)
    ensures Deleted(full, e)
  {
    if full != acts {
      DeletedStays(acts, full[..|full| - 1], e);
    }
  }

  // ---- what enabling and disabling do ----

  /** From step `from` on no thread puts `e` on epoll. */
  ghost predicate NotEnabled(full: seq<Action>, from: nat, e: nat) {
    forall k :: from <= k < |full| ==> full[k] != Enable(e)
  }

  lemma OffStep(s: State, a: Action, e: nat)
    requires Inv(s) && Enabled(s, a) && e < |s.events| && !s.events[e].epoll && a != Enable(e)
    ensures e < |Apply(s, a).events| && !Apply(s, a).events[e].epoll
  {
    match a
    case Drain => DrainInv(s);
    case Destroy => DestroyInv(s);
    case _ =>
  }

  lemma {:induction false} OffStays(acts: seq<Action>, full: seq<Action>, e: nat)
    requires acts <= full && NotEnabled(full, |acts|, e)
    requires e < |Reached(acts).events| && !Reached(acts).events[e].epoll
    ensures e < |Reached(full).events| && !Reached(full).events[e].epoll
  {
    if full != acts {
      var n := |full| - 1;
      OffStays(acts, full[..n], e);
      ReachedInv(full[..n]);
      if Enabled(Reached(full[..n]), full[n]) {
        OffStep(Reached(full[..n]), full[n], e);
      }
    }
  }

  /** In every run: after an event is disabled, or its deletion has passed epoll, no poll reports it until it is enabled. */
  lemma DisabledSilent(acts: seq<Action>, a: Action, full: seq<Action>, e: nat, batch: seq<nat>)
    requires (a == Disable(e) || a == Unpoll(e) || a == DeleteOwn(e)) && Enabled(Reached(acts), a)
    requires acts + [a] <= full && NotEnabled(full, |acts| + 1, e) && Enabled(Reached(full), Poll(batch))
    ensures e !in batch
  {
    Extend(acts, a);
    OffEffect(Reached(acts), a, e);
    OffStays(acts + [a], full, e);
    NotNamed(Reached(full), batch, e);
  }

  lemma OffEffect(s: State, a: Action, e: nat)
    requires (a == Disable(e) || a == Unpoll(e) || a == DeleteOwn(e)) && Enabled(s, a) && Indexed(s)
    ensures e < |Apply(s, a).events| && !Apply(s, a).events[e].epoll
  {
  }

  /** An enabled event can be reported by the next poll. */
  lemma EnabledReported(acts: seq<Action>, e: nat)
    requires Enabled(Reached(acts), Enable(e)) && Reached(acts).thread.Waiting?
    ensures Enabled(Reached(acts + [Enable(e)]), Poll([e]))
  {
    Extend(acts, Enable(e));
  }

  // ---- every reported event gets its turn ----

  /** What the last poll of the run reported. */
  ghost function Asked(acts: seq<Action>): seq<nat> {
    if acts == [] then []
    else
      var pre, a := acts[..|acts| - 1], acts[|acts| - 1];
      if a.Poll? && Enabled(Reached(pre), a) then a.batch else Asked(pre)
  }

  /** The events looked at since then, in order. */
  ghost function Looked(acts: seq<Action>): seq<nat> {
    if acts == [] then []
    else
      var pre, a := acts[..|acts| - 1], acts[|acts| - 1];
      var t := Reached(pre).thread;
      if !Enabled(Reached(pre), a) then Looked(pre)
      else if a.Poll? then []
      else if a.Visit? then Looked(pre) + [t.batch[t.i]]
      else Looked(pre)
  }

  /** How far the dispatch thread is: it has looked at the first events of `asked`, at no other and at none twice. */
  predicate InTurn(t: Dispatch, asked: seq<nat>, looked: seq<nat>) {
    match t
    case Looking(batch, i) => batch == asked && i <= |asked| && looked == asked[..i]
    case Running(batch, i) => batch == asked && i < |asked| && looked == asked[..i + 1]
    case _ => true
  }

  lemma {:induction false} LookedExact(acts: seq<Action>)
    ensures InTurn(Reached(acts).thread, Asked(acts), Looked(acts))
  {
    if acts != [] {
      var pre, a := acts[..|acts| - 1], acts[|acts| - 1];
      LookedExact(pre);
      ReachedInv(pre);
      if Enabled(Reached(pre), a) {
        TurnStep(Reached(pre), a, Asked(pre), Looked(pre));
      }
    }
  }

  lemma TurnStep(s: State, a: Action, asked: seq<nat>, looked: seq<nat>)
    requires Indexed(s) && Enabled(s, a) && InTurn(s.thread, asked, looked)
    ensures a.Poll? ==> InTurn(Apply(s, a).thread, a.batch, [])
    ensures a.Visit? ==> InTurn(Apply(s, a).thread, asked, looked + [s.thread.batch[s.thread.i]])
    ensures !a.Poll? && !a.Visit? ==> InTurn(Apply(s, a).thread, asked, looked)
  {
  }

  /** In every run, when the deletion list is reclaimed each event of the batch has had its turn, once and in order. */
  lemma BatchDone(acts: seq<Action>)
    requires Enabled(Reached(acts), Drain)
    ensures Looked(acts) == Asked(acts)
  {
    LookedExact(acts);
  }
}
