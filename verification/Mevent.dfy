/**
 The event dispatcher of `devicemodel/core/mevent.c` with its deferred reclamation, as the
 interleaved steps of the dispatch thread and of the threads that add and delete events.
 Each region under the list mutex, and each epoll call, is one step.
 */
module Mevent {

  /** Where an event is: not yet listed, on the global list, in a deleter's hands (after its three
      steps: unlinked, state cleared, off epoll), on the deletion list, or freed. */
  datatype Where = Adding | Listed | Unlinked | Cleared | Unpolled | Doomed | Freed

  /** `struct mevent`; `torn` counts the calls of its teardown, `looks` the threads inside
      mevent_enable that have found it on the list and not yet called epoll_ctl. */
  datatype Event = Event(teardown: bool, where: Where, epoll: bool, state: bool, torn: nat, looks: nat)

  /** The dispatch thread: blocked in epoll_wait, about to look at batch[i], running the handler of
      batch[i], out of its loop, or done destroying. */
  datatype Dispatch =
    | Waiting
    | Looking(batch: seq<nat>, i: nat)
    | Running(batch: seq<nat>, i: nat)
    | Stopped
    | Destroyed

  /** `global` and `del` are the two linked lists, head first. */
  datatype State = State(events: seq<Event>, global: seq<nat>, del: seq<nat>, thread: Dispatch)

  datatype Action =
    | Register(teardown: bool)   // mevent_add: epoll_ctl ADD
    | List(e: nat)               // mevent_add: onto the global list
    | Unlink(e: nat)             // mevent_delete from another thread, step by step
    | Clear(e: nat)
    | Unpoll(e: nat)
    | Doom(e: nat)               // mevent_add_to_del_list
    | FreeNow(e: nat)            // no teardown: freed at once
    | LookUp(e: nat)             // mevent_enable finds the event and unlocks
    | Enable(e: nat)             // its epoll_ctl ADD
    | Refuse(e: nat)             // the same, failing
    | Disable(e: nat)
    | Poll(batch: seq<nat>)      // epoll_wait returns; it reports a descriptor at most once
    | Visit                      // mevent_handle looks at the next event
    | Return                     // its handler returns
    | DeleteOwn(e: nat)          // mevent_delete from inside a handler
    | Drain                      // mevent_drain_del_list
    | Stop
    | Destroy                    // mevent_destroy

  predicate In(s: State, e: nat, w: Where) {
    e < |s.events| && s.events[e].where == w
  }

  predicate Enabled(s: State, a: Action) {
    match a
    case Register(_) => true
    case List(e) => In(s, e, Adding)
    case Unlink(e) => In(s, e, Listed)
    case Clear(e) => In(s, e, Unlinked)
    case Unpoll(e) => In(s, e, Cleared)
    case Doom(e) => In(s, e, Unpolled) && s.events[e].teardown
    case FreeNow(e) => In(s, e, Unpolled) && !s.events[e].teardown
    case LookUp(e) => In(s, e, Listed)
    case Enable(e) => e < |s.events| && s.events[e].looks > 0
    case Refuse(e) => e < |s.events| && s.events[e].looks > 0
    case Disable(e) => e < |s.events| && !s.events[e].where.Freed?
    case Poll(batch) =>
      && s.thread.Waiting? && Once(batch)
      && forall k :: 0 <= k < |batch| ==> batch[k] < |s.events| && s.events[batch[k]].epoll
    case Visit => s.thread.Looking? && s.thread.i < |s.thread.batch|
    case Return => s.thread.Running?
    case DeleteOwn(e) => s.thread.Running? && In(s, e, Listed)
    case Drain => s.thread.Looking? && s.thread.i == |s.thread.batch|
    case Stop => s.thread.Waiting?
    case Destroy => s.thread.Stopped?
  }

  function Put(s: State, e: nat, v: Event): State
    requires e < |s.events|
  {
    s.(events := s.events[e := v])
  }

  /** LIST_REMOVE. */
  function Without(l: seq<nat>, e: nat): (r: seq<nat>)
    ensures |r| <= |l| && forall x :: x in r ==> x in l
  {
    if l == [] then [] else if l[0] == e then l[1..] else [l[0]] + Without(l[1..], e)
  }

  /** EPOLL_CTL_DEL. */
  function Off(v: Event): Event {
    v.(epoll := false)
  }

  /** Teardown, then free; neither takes the event off epoll. */
  function Reclaimed(v: Event): Event {
    v.(where := Freed, torn := v.torn + if v.teardown then 1 else 0)
  }

  /** What a sweep does to one event: `off` if it takes the event off epoll first. */
  function Swept(v: Event, off: bool): Event {
    Reclaimed(if off then Off(v) else v)
  }

  /** The list_foreach_safe loops: reclaim every listed event in turn. */
  function ReclaimAll(events: seq<Event>, l: seq<nat>, off: bool): (r: seq<Event>)
    requires forall k :: 0 <= k < |l| ==> l[k] < |events|
    ensures |r| == |events|
    decreases l
  {
    if l == [] then events else ReclaimAll(events[l[0] := Swept(events[l[0]], off)], l[1..], off)
  }

  function Apply(s: State, a: Action): State
    requires Enabled(s, a) && Indexed(s)
  {
    match a
    case Register(teardown) => s.(events := s.events + [Event(teardown, Adding, true, true, 0, 0)])
    case List(e) => Put(s, e, s.events[e].(where := Listed)).(global := [e] + s.global)
    case Unlink(e) => Put(s, e, s.events[e].(where := Unlinked)).(global := Without(s.global, e))
    case Clear(e) => Put(s, e, s.events[e].(where := Cleared, state := false))
    case Unpoll(e) => Put(s, e, Off(s.events[e]).(where := Unpolled))
    case Doom(e) => Put(s, e, s.events[e].(where := Doomed)).(del := [e] + s.del)
    case FreeNow(e) => Put(s, e, Reclaimed(s.events[e]))
    case LookUp(e) => Put(s, e, s.events[e].(looks := s.events[e].looks + 1))
    case Enable(e) => Put(s, e, s.events[e].(looks := s.events[e].looks - 1, epoll := true))
    case Refuse(e) => Put(s, e, s.events[e].(looks := s.events[e].looks - 1))
    case Disable(e) => Put(s, e, Off(s.events[e]))
    case Poll(batch) => s.(thread := Looking(batch, 0))
    case Visit =>
      var Looking(batch, i) := s.thread;
      s.(thread := if s.events[batch[i]].state then Running(batch, i) else Looking(batch, i + 1))
    case Return => s.(thread := Looking(s.thread.batch, s.thread.i + 1))
    case DeleteOwn(e) =>
      Put(s, e, Swept(s.events[e].(state := false), true)).(global := Without(s.global, e))
    case Drain => State(ReclaimAll(s.events, s.del, false), s.global, [], Waiting)
    case Stop => s.(thread := Stopped)
    case Destroy => State(ReclaimAll(ReclaimAll(s.events, s.global, true), s.del, false), [], [], Destroyed)
  }

  /** The events the dispatch thread will still touch in this batch. */
  function Ahead(t: Dispatch): seq<nat>
  {
    match t
    case Looking(batch, i) => if i <= |batch| then batch[i..] else []
    case Running(batch, i) => if i < |batch| then batch[i + 1..] else []
    case _ => []
  }

  predicate Indexed(s: State) {
    && (s.thread.Looking? ==> s.thread.i <= |s.thread.batch|)
    && (s.thread.Running? ==> s.thread.i < |s.thread.batch|)
    && (s.thread.Looking? || s.thread.Running? ==>
          forall k :: 0 <= k < |s.thread.batch| ==> s.thread.batch[k] < |s.events|)
    && (forall k :: 0 <= k < |s.global| ==> s.global[k] < |s.events|)
    && (forall k :: 0 <= k < |s.del| ==> s.del[k] < |s.events|)
  }

  /** No freed event is in the part of the batch still to be handled. */
  predicate Safe(s: State) {
    forall e :: e in Ahead(s.thread) ==> e < |s.events| && !s.events[e].where.Freed?
  }

  /** An event is torn down when and only when freed, and only one with a teardown waits for it. */
  predicate Kept(v: Event) {
    v.torn == (if v.teardown && v.where.Freed? then 1 else 0) && (v.where.Doomed? ==> v.teardown)
  }

  /** Its deleter has taken the event off epoll. */
  predicate Past(v: Event) {
    v.where.Unpolled? || v.where.Doomed? || v.where.Freed?
  }

  /** An event whose deleter has taken it off epoll is off epoll. */
  predicate Fresh(s: State) {
    forall e :: 0 <= e < |s.events| && Past(s.events[e]) ==> !s.events[e].epoll
  }

  predicate Once(l: seq<nat>) {
    forall j, k :: 0 <= j < k < |l| ==> l[j] != l[k]
  }

  /** Each list holds each event it should, once. */
  predicate Lists(s: State) {
    && Once(s.global) && Once(s.del)
    && (forall e :: 0 <= e < |s.events| ==> (e in s.global <==> s.events[e].where.Listed?))
    && (forall e :: 0 <= e < |s.events| ==> (e in s.del <==> s.events[e].where.Doomed?))
  }

  predicate AllKept(events: seq<Event>) {
    forall e :: 0 <= e < |events| ==> Kept(events[e])
  }

  predicate Inv(s: State) {
    Indexed(s) && Lists(s) && AllKept(s.events)
  }

  lemma {:induction false} WithoutOnce(l: seq<nat>, e: nat)
    requires Once(l)
    ensures Once(Without(l, e)) && forall x :: x in Without(l, e) <==> x in l && x != e
  {
    if l != [] {
      assert l[0] !in l[1..] && forall x :: x in l <==> x == l[0] || x in l[1..];
      WithoutOnce(l[1..], e);
    }
  }

  /** A list without repetitions is swept once per event. */
  lemma {:induction false} SweptOnce(events: seq<Event>, l: seq<nat>, off: bool, e: nat)
    requires Once(l) && e < |events| && forall k :: 0 <= k < |l| ==> l[k] < |events|
    ensures ReclaimAll(events, l, off)[e] == if e in l then Swept(events[e], off) else events[e]
    decreases l
  {
    if l != [] {
      SweptOnce(events[l[0] := Swept(events[l[0]], off)], l[1..], off, e);
    }
  }

  /** Sweeping a list of living events tears each down once and touches no other. */
  lemma SweptKept(events: seq<Event>, l: seq<nat>, off: bool)
    requires AllKept(events) && Once(l)
    requires forall k :: 0 <= k < |l| ==> l[k] < |events| && !events[l[k]].where.Freed?
    ensures AllKept(ReclaimAll(events, l, off))
  {
    forall e | 0 <= e < |events| ensures Kept(ReclaimAll(events, l, off)[e]) {
      SweptOnce(events, l, off, e);
    }
  }

  lemma DrainInv(s: State)
    requires Inv(s) && Enabled(s, Drain)
    ensures Inv(Apply(s, Drain))
    ensures forall e :: 0 <= e < |s.events| ==>
      Apply(s, Drain).events[e] == if s.events[e].where.Doomed? then Reclaimed(s.events[e]) else s.events[e]
  {
    SweptKept(s.events, s.del, false);
    forall e | 0 <= e < |s.events|
      ensures ReclaimAll(s.events, s.del, false)[e] == if s.events[e].where.Doomed? then Reclaimed(s.events[e]) else s.events[e]
    {
      SweptOnce(s.events, s.del, false, e);
    }
  }

  lemma DestroyInv(s: State)
    requires Inv(s) && Enabled(s, Destroy)
    ensures Inv(Apply(s, Destroy))
    ensures forall e :: 0 <= e < |s.events| ==>
      Apply(s, Destroy).events[e] == var v := s.events[e];
                                     if v.where.Listed? then Swept(v, true) else if v.where.Doomed? then Reclaimed(v) else v
  {
    var mid := ReclaimAll(s.events, s.global, true);
    SweptKept(s.events, s.global, true);
    forall e | 0 <= e < |s.events|
      ensures mid[e] == if s.events[e].where.Listed? then Swept(s.events[e], true) else s.events[e]
      ensures ReclaimAll(mid, s.del, false)[e] == if e in s.del then Reclaimed(mid[e]) else mid[e]
    {
      SweptOnce(s.events, s.global, true, e);
      SweptOnce(mid, s.del, false, e);
    }
    SweptKept(mid, s.del, false);
  }

  lemma ListInv(s: State, a: Action)
    requires Inv(s) && Enabled(s, a) && (a.Unlink? || a.DeleteOwn?)
    ensures Inv(Apply(s, a))
  {
    WithoutOnce(s.global, a.e);
    var g := Without(s.global, a.e);
    assert forall k :: 0 <= k < |g| ==> g[k] in g;
  }

  /** A step that moves one event between places that are on neither list. */
  lemma PutInv(s: State, e: nat, v: Event)
    requires Inv(s) && e < |s.events| && Kept(v)
    requires v.where == s.events[e].where || (NoList(v.where) && NoList(s.events[e].where))
    ensures Inv(Put(s, e, v))
  {
  }

  predicate NoList(w: Where) {
    !w.Listed? && !w.Doomed?
  }

  lemma ThreadInv(s: State, a: Action)
    requires Inv(s) && Enabled(s, a) && (a.Poll? || a.Visit? || a.Return? || a.Stop?)
    ensures Inv(Apply(s, a))
  {
  }

  lemma HeadInv(s: State, a: Action)
    requires Inv(s) && Enabled(s, a) && (a.Register? || a.List? || a.Doom?)
    ensures Inv(Apply(s, a))
  {
  }

  lemma ApplyInv(s: State, a: Action)
    requires Inv(s) && Enabled(s, a)
    ensures Inv(Apply(s, a))
  {
    match a
    case Register(_) => HeadInv(s, a);
    case List(_) => HeadInv(s, a);
    case Unlink(_) => ListInv(s, a);
    case Clear(e) => PutInv(s, e, s.events[e].(where := Cleared, state := false));
    case Unpoll(e) => PutInv(s, e, Off(s.events[e]).(where := Unpolled));
    case Doom(_) => HeadInv(s, a);
    case FreeNow(e) => PutInv(s, e, Reclaimed(s.events[e]));
    case LookUp(e) => PutInv(s, e, s.events[e].(looks := s.events[e].looks + 1));
    case Enable(e) => PutInv(s, e, s.events[e].(looks := s.events[e].looks - 1, epoll := true));
    case Refuse(e) => PutInv(s, e, s.events[e].(looks := s.events[e].looks - 1));
    case Disable(e) => PutInv(s, e, Off(s.events[e]));
    case Poll(_) => ThreadInv(s, a);
    case Visit => ThreadInv(s, a);
    case Return => ThreadInv(s, a);
    case DeleteOwn(_) => ListInv(s, a);
    case Drain => DrainInv(s);
    case Stop => ThreadInv(s, a);
    case Destroy => DestroyInv(s);
  }

  // ---- steps that keep the dispatch thread from freed events ----

  /** The event whose handler runs. */
  predicate Own(t: Dispatch, e: nat) {
    t.Running? && t.i < |t.batch| && t.batch[t.i] == e
  }

  /** Not a free behind the dispatch thread's back, and not an epoll ADD after the deleter's DEL:
      deletions are deferred or by the event's own handler, and no enable is overtaken by a delete. */
  predicate Gentle(s: State, a: Action) {
    match a
    case FreeNow(_) => false
    case DeleteOwn(e) => Own(s.thread, e)
    case Enable(e) => e < |s.events| && !Past(s.events[e])
    case _ => true
  }

  /** No event is named twice in the batch. */
  predicate Single(t: Dispatch) {
    t.Looking? || t.Running? ==> Once(t.batch)
  }

  lemma FreshKept(s: State, a: Action)
    requires Inv(s) && Fresh(s) && Enabled(s, a) && (Gentle(s, a) || a.FreeNow? || a.DeleteOwn?)
    ensures Fresh(Apply(s, a))
  {
    match a
    case Drain => DrainInv(s);
    case Destroy => DestroyInv(s);
    case _ =>
  }

  lemma GentleSafe(s: State, a: Action)
    requires Inv(s) && Fresh(s) && Safe(s) && Single(s.thread) && Enabled(s, a) && Gentle(s, a)
    ensures Safe(Apply(s, a)) && Single(Apply(s, a).thread)
  {
    var t, z := s.thread, Apply(s, a);
    match a
    case Poll(batch) =>
      assert forall e :: e in batch ==> e < |s.events| && !s.events[e].where.Freed?;
    case Visit =>
      assert t.batch[t.i..][1..] == t.batch[t.i + 1..];
    case Return =>
    case Drain =>
    case Stop =>
    case Destroy =>
    case DeleteOwn(e) =>
      assert e !in t.batch[t.i + 1..];
    case _ =>
      SameThreadSafe(s, z);
  }

  lemma SameThreadSafe(s: State, z: State)
    requires Safe(s) && z.thread == s.thread && |s.events| <= |z.events|
    requires forall e :: 0 <= e < |s.events| && z.events[e].where.Freed? ==> s.events[e].where.Freed?
    ensures Safe(z)
  {
  }

  // ---- whole runs ----

  const Init := State([], [], [], Waiting)

  /** The state a sequence of actions leads to; an action that is not enabled is no action. */
  function Reached(acts: seq<Action>): State {
    if acts == [] then Init
    else
      var s, a := Reached(acts[..|acts| - 1]), acts[|acts| - 1];
      if Indexed(s) && Enabled(s, a) then Apply(s, a) else s
  }

  lemma {:induction false} ReachedInv(acts: seq<Action>)
    ensures Inv(Reached(acts))
  {
    if acts != [] {
      var s, a := Reached(acts[..|acts| - 1]), acts[|acts| - 1];
      ReachedInv(acts[..|acts| - 1]);
      if Enabled(s, a) {
        ApplyInv(s, a);
      }
    }
  }

  /** From step `from` on, every step of the run is gentle. */
  ghost predicate GentleFrom(acts: seq<Action>, from: nat) {
    forall k :: from <= k < |acts| && Enabled(Reached(acts[..k]), acts[k]) ==> Gentle(Reached(acts[..k]), acts[k])
  }

  lemma GentlePrefix(acts: seq<Action>, from: nat, n: nat)
    requires GentleFrom(acts, from) && n <= |acts|
    ensures GentleFrom(acts[..n], from)
  {
    assert forall k :: 0 <= k < n ==> acts[..n][..k] == acts[..k];
  }

  /**
   If every deletion is deferred or by the event's own handler, and no enable adds an event to
   epoll after its deleter took it off, then in no interleaving is a freed event in the rest of a batch.
   */
  lemma {:induction false} DeferredSafe(acts: seq<Action>)
    requires GentleFrom(acts, 0)
    ensures Safe(Reached(acts)) && Fresh(Reached(acts)) && Single(Reached(acts).thread)
  {
    if acts != [] {
      var n := |acts| - 1;
      var s, a := Reached(acts[..n]), acts[n];
      GentlePrefix(acts, 0, n);
      DeferredSafe(acts[..n]);
      ReachedInv(acts[..n]);
      if Enabled(s, a) {
        assert Gentle(Reached(acts[..n]), acts[n]);
        FreshKept(s, a);
        GentleSafe(s, a);
      }
    }
  }

  /** Over any run an event's teardown has run exactly once if the event is freed, never otherwise. */
  lemma TornOnce(acts: seq<Action>, e: nat)
    requires e < |Reached(acts).events| && Reached(acts).events[e].teardown
    ensures var v := Reached(acts).events[e]; v.torn == if v.where.Freed? then 1 else 0
  {
    ReachedInv(acts);
  }

  /** Destroying leaves no teardown undone exactly for the events no thread is adding or deleting. */
  lemma DestroyedOnce(acts: seq<Action>, e: nat)
    requires var s := Reached(acts); Enabled(s, Destroy) && e < |s.events| && s.events[e].teardown
    ensures var s, z := Reached(acts), Reached(acts + [Destroy]);
      && e < |z.events|
      && (z.events[e].torn == 1 <==> s.events[e].where in {Listed, Doomed, Freed})
      && z.events[e].torn <= 1
  {
    var s := Reached(acts);
    ReachedInv(acts);
    DestroyInv(s);
    assert (acts + [Destroy])[..|acts|] == acts;
    assert Kept(s.events[e]);
  }

  lemma Extend(acts: seq<Action>, a: Action)
    requires Enabled(Reached(acts), a)
    ensures Indexed(Reached(acts)) && Reached(acts + [a]) == Apply(Reached(acts), a)
  {
    ReachedInv(acts);
    assert (acts + [a])[..|acts|] == acts;
  }
  // ---- the list code itself ----

  class Dispatcher {
    var events: seq<Event>
    var globalHead: seq<nat>
    var delHead: seq<nat>

    predicate Valid()
      reads this
    {
      && (forall k :: 0 <= k < |globalHead| ==> globalHead[k] < |events|)
      && (forall k :: 0 <= k < |delHead| ==> delHead[k] < |events|)
    }

    /** mevent_drain_del_list. */
    method DrainDelList()
      requires Valid()
      modifies this
      ensures Valid() && delHead == [] && globalHead == old(globalHead)
      ensures events == ReclaimAll(old(events), old(delHead), false)
    {
      while delHead != []
        invariant Valid() && globalHead == old(globalHead) && |events| == |old(events)|
        invariant ReclaimAll(events, delHead, false) == ReclaimAll(old(events), old(delHead), false)
        decreases |delHead|
      {
        var e := delHead[0];
        delHead := delHead[1..];
        events := events[e := Reclaimed(events[e])];
      }
    }

    /** mevent_destroy. */
    method Destroy()
      requires Valid()
      modifies this
      ensures Valid() && delHead == [] && globalHead == []
      ensures events == ReclaimAll(ReclaimAll(old(events), old(globalHead), true), old(delHead), false)
    {
      while globalHead != []
        invariant Valid() && delHead == old(delHead) && |events| == |old(events)|
        invariant ReclaimAll(events, globalHead, true) == ReclaimAll(old(events), old(globalHead), true)
        decreases |globalHead|
      {
        var e := globalHead[0];
        globalHead := globalHead[1..];
        events := events[e := Reclaimed(Off(events[e]))];
      }
      DrainDelList();
    }
  }
}
