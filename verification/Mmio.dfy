/**
 The MMIO registry of `devicemodel/core/mem.c`: two red-black trees of ranges and a
 one-entry lookup cache.  `MmioSpec` is the registry without trees and without cache;
 `Mmio` is the code, proved to answer exactly as `MmioSpec` does over every run.
 */
module MmioSpec {
  import opened GuestLayout
  import opened Options
  import opened RbShape

  const MEMNAMESZ := 80
  const SPACE := TWO64  // guest-physical addresses are 64 bits wide

  datatype Registry = Registry(root: set<MemRange>, fallback: set<MemRange>)

  datatype Op =
    | Register(fb: bool, memp: MemRange, memory: bool)  // `memory`: malloc succeeded
    | Unregister(fb: bool, memp: MemRange)
    | Access(addr: nat)

  datatype Result = Done(err: int) | Picked(entry: Option<MemRange>)  // None is -ESRCH

  predicate WellFormed(r: MemRange) {
    r.size >= 1 && r.base + r.size <= SPACE
  }

  predicate Has(r: MemRange, addr: nat) {
    r.base <= addr < r.base + r.size
  }

  ghost predicate Clash(r: MemRange, s: MemRange) {
    exists x :: Has(r, x) && Has(s, x)
  }

  ghost predicate Disjoint(s: set<MemRange>) {
    forall r, q :: r in s && q in s && r != q ==> !Clash(r, q)
  }

  ghost predicate Sane(s: set<MemRange>) {
    Disjoint(s) && forall r :: r in s ==> WellFormed(r)
  }

  /** The range of `s` that contains `addr`. */
  ghost function Find(s: set<MemRange>, addr: nat): Option<MemRange> {
    if exists r :: r in s && Has(r, addr) then
      var r :| r in s && Has(r, addr);
      Some(r)
    else None
  }

  ghost predicate Free(s: set<MemRange>, memp: MemRange) {
    forall r :: r in s ==> !Clash(memp, r)
  }

  /** strncmp over MEMNAMESZ characters. */
  predicate SameName(a: string, b: string) {
    a[..if |a| < MEMNAMESZ then |a| else MEMNAMESZ] == b[..if |b| < MEMNAMESZ then |b| else MEMNAMESZ]
  }

  predicate Immutable(flags: nat) {
    (flags / 4) % 2 == 1
  }

  /** unregister_mem_int accepts `memp` as the description of the registered range `r`. */
  predicate Matches(r: MemRange, memp: MemRange) {
    SameName(r.name, memp.name) && r.base == memp.base && r.size == memp.size && !Immutable(r.flags)
  }

  ghost predicate Mismatch(s: set<MemRange>, memp: MemRange) {
    exists r :: r in s && Has(r, memp.base) && !Matches(r, memp)
  }

  function Ranges(reg: Registry, fb: bool): set<MemRange> {
    if fb then reg.fallback else reg.root
  }

  function WithRanges(reg: Registry, fb: bool, s: set<MemRange>): Registry {
    if fb then reg.(fallback := s) else reg.(root := s)
  }

  ghost function Step(reg: Registry, op: Op): (Registry, Result) {
    match op
    case Register(fb, memp, memory) =>
      var s := Ranges(reg, fb);
      if memory && Free(s, memp)
      then (WithRanges(reg, fb, s + {memp}), Done(0))
      else (reg, Done(-1))
    case Unregister(fb, memp) =>
      var s := Ranges(reg, fb);
      if Find(s, memp.base).Some? && Matches(Find(s, memp.base).value, memp)
      then (WithRanges(reg, fb, s - {Find(s, memp.base).value}), Done(0))
      else (reg, Done(-1))
    case Access(addr) =>
      (reg, Picked(if Find(reg.root, addr).Some? then Find(reg.root, addr) else Find(reg.fallback, addr)))
  }

  /** The calls a run may make: ranges do not wrap, and no unregister names an overlapping
      range with a different descriptor (that call frees a node that stays linked). */
  ghost predicate Allowed(reg: Registry, op: Op) {
    match op
    case Register(_, memp, _) => WellFormed(memp)
    case Unregister(fb, memp) => !Mismatch(Ranges(reg, fb), memp)
    case Access(_) => true
  }

  ghost function Reached(reg: Registry, ops: seq<Op>): Registry {
    if ops == [] then reg else Step(Reached(reg, ops[..|ops| - 1]), ops[|ops| - 1]).0
  }

  ghost predicate AllowedRun(reg: Registry, ops: seq<Op>) {
    forall i :: 0 <= i < |ops| ==> Allowed(Reached(reg, ops[..i]), ops[i])
  }

  /** The results of a run: each call's answer in the registry reached so far. */
  ghost predicate Answers(reg: Registry, ops: seq<Op>, rs: seq<Result>) {
    |rs| == |ops| && forall i :: 0 <= i < |ops| ==> rs[i] == Step(Reached(reg, ops[..i]), ops[i]).1
  }

  lemma AnswersMore(reg: Registry, ops: seq<Op>, k: nat, rs: seq<Result>, r: Result)
    requires k < |ops| && Answers(reg, ops[..k], rs) && r == Step(Reached(reg, ops[..k]), ops[k]).1
    ensures Answers(reg, ops[..k + 1], rs + [r])
  {
    forall i | 0 <= i <= k
      ensures (rs + [r])[i] == Step(Reached(reg, ops[..k + 1][..i]), ops[..k + 1][i]).1
    {
      assert ops[..k + 1][..i] == ops[..i];
      if i < k {
        assert ops[..k][..i] == ops[..i];
      }
    }
  }

  lemma FindUnique(s: set<MemRange>, r: MemRange, addr: nat)
    requires Disjoint(s) && r in s && Has(r, addr)
    ensures Find(s, addr) == Some(r)
  {
  }

  /** A registered range can be named by a description that does not match it. */
  lemma MismatchReached() returns (ops: seq<Op>, memp: MemRange)
    ensures AllowedRun(Registry({}, {}), ops) && Mismatch(Reached(Registry({}, {}), ops).root, memp)
  {
    var r := MemRange("a", 0, 0, 0, 16);
    memp := r.(name := "b");
    ops := [Register(false, r, true)];
    assert ops[..0] == [];
    assert Reached(Registry({}, {}), ops).root == {r};
    assert "a"[..1] == "a" && "b"[..1] == "b" && "a"[0] != "b"[0];
    assert r in {r} && Has(r, memp.base) && !Matches(r, memp);
  }

  // ---- what unregistering accepts ----

  predicate AgreeAt(a: string, b: string, k: nat) {
    (k < |a| <==> k < |b|) && (k < |a| && k < |b| ==> a[k] == b[k])
  }

  /** The two names agree as far as 80 characters, or to the end of both. */
  predicate Agree(a: string, b: string) {
    forall k :: 0 <= k < 80 ==> AgreeAt(a, b, k)
  }

  lemma SameAgree(a: string, b: string)
    ensures SameName(a, b) <==> Agree(a, b)
  {
    var x := a[..if |a| < MEMNAMESZ then |a| else MEMNAMESZ];
    var y := b[..if |b| < MEMNAMESZ then |b| else MEMNAMESZ];
    if Agree(a, b) {
      assert |x| < MEMNAMESZ ==> AgreeAt(a, b, |x|);
      assert |y| < MEMNAMESZ ==> AgreeAt(a, b, |y|);
      forall k | 0 <= k < |x|
        ensures x[k] == y[k]
      {
        assert AgreeAt(a, b, k);
      }
    }
    if x == y {
      forall k: nat | k < MEMNAMESZ
        ensures AgreeAt(a, b, k)
      {
        assert k < |x| ==> a[k] == x[k] && b[k] == y[k];
      }
    }
  }

  /**
   In a registry of disjoint ranges, an unregister succeeds exactly when a range has the base and size given, agrees in
   the first 80 characters of its name, and does not carry MEM_F_IMMUTABLE, the flag of value 4.  Then exactly that range goes.
   */
  lemma UnregisterExact(reg: Registry, fb: bool, memp: MemRange, r: MemRange)
    requires Disjoint(Ranges(reg, fb)) && r in Ranges(reg, fb) && Has(r, memp.base)
    ensures Step(reg, Unregister(fb, memp)) ==
      if r.base == memp.base && r.size == memp.size && Agree(r.name, memp.name) && r.flags % 8 < 4
      then (WithRanges(reg, fb, Ranges(reg, fb) - {r}), Done(0)) else (reg, Done(-1))
  {
    FindUnique(Ranges(reg, fb), r, memp.base);
    SameAgree(r.name, memp.name);
    assert r.flags % 8 < 4 <==> (r.flags / 4) % 2 == 0;
  }

  /** Nothing at the base: nothing to unregister. */
  lemma UnregisterNothing(reg: Registry, fb: bool, memp: MemRange)
    requires forall r :: r in Ranges(reg, fb) ==> !Has(r, memp.base)
    ensures Step(reg, Unregister(fb, memp)) == (reg, Done(-1))
  {
  }

  /**
   Unregistering undoes registering a range that may be removed, and only fails to undo it for one that may not.
   */
  lemma RegisterUnregister(reg: Registry, fb: bool, memp: MemRange)
    requires Disjoint(Ranges(reg, fb)) && WellFormed(memp) && Free(Ranges(reg, fb), memp)
    ensures Step(reg, Register(fb, memp, true)).1 == Done(0)
    ensures var mid := Step(reg, Register(fb, memp, true)).0;
      && mid == (if fb then Registry(reg.root, reg.fallback + {memp}) else Registry(reg.root + {memp}, reg.fallback))
      && Step(mid, Unregister(fb, memp)) == if memp.flags % 8 < 4 then (reg, Done(0)) else (mid, Done(-1))
  {
    var s, mid := Ranges(reg, fb), Step(reg, Register(fb, memp, true)).0;
    assert Has(memp, memp.base);
    assert memp !in s by {
      if memp in s {
        assert Clash(memp, memp);
      }
    }
    assert Disjoint(s + {memp}) by {
      forall q | q in s ensures !Clash(memp, q) && !Clash(q, memp) {
        assert Clash(q, memp) ==> Clash(memp, q);
      }
    }
    UnregisterExact(mid, fb, memp, memp);
    assert s + {memp} - {memp} == s;
  }

  /** A range that shares an address with one already registered, or for which there is no memory, is refused. */
  lemma RegisterRefused(reg: Registry, fb: bool, memp: MemRange, memory: bool, r: MemRange, x: nat)
    requires !memory || (r in Ranges(reg, fb) && Has(r, x) && Has(memp, x))
    ensures Step(reg, Register(fb, memp, memory)) == (reg, Done(-1))
  {
    if memory {
      assert Clash(memp, r);
    }
  }

  /** Registered ranges never overlap, in any registry a run can reach. */
  lemma {:induction false} RunSane(ops: seq<Op>)
    requires AllowedRun(Registry({}, {}), ops)
    ensures var reg := Reached(Registry({}, {}), ops); Sane(reg.root) && Sane(reg.fallback)
  {
    if ops != [] {
      var n := |ops| - 1;
      assert forall i :: 0 <= i < n ==> ops[..n][..i] == ops[..i];
      RunSane(ops[..n]);
      StepSane(Reached(Registry({}, {}), ops[..n]), ops[n]);
    }
  }

  lemma StepSane(reg: Registry, op: Op)
    requires Sane(reg.root) && Sane(reg.fallback) && Allowed(reg, op)
    ensures var to := Step(reg, op).0; Sane(to.root) && Sane(to.fallback)
  {
  }

  /** An access goes to the root range that contains it, else to the fallback range, else nowhere. */
  lemma AccessMeaning(reg: Registry, addr: nat, r: MemRange)
    requires Sane(reg.root) && Sane(reg.fallback)
    ensures Step(reg, Access(addr)).1 == Picked(Some(r)) <==>
      && Has(r, addr)
      && (r in reg.root || (r in reg.fallback && forall q :: q in reg.root ==> !Has(q, addr)))
  {
  }
}

module Mmio {
  import opened Options
  import opened RbShape
  import opened RbBalance
  import opened RbTree
  import opened MmioSpec

  ghost function Params(s: seq<Range>): set<MemRange> {
    set n | n in s :: n.param
  }

  /** A node's range is the one its descriptor asks for. */
  ghost predicate Faithful(s: seq<Range>) {
    forall n :: n in s ==> WellFormed(n.param) && n.base == n.param.base && n.end == n.param.base + n.param.size - 1
  }

  lemma FoundSome(s: seq<Range>, n: Range, addr: nat)
    requires Ordered(s) && Faithful(s) && n in s && Covers(n, addr)
    ensures Find(Params(s), addr) == Some(n.param)
  {
    ParamsSane(s);
    assert n.param in Params(s);
    FindUnique(Params(s), n.param, addr);
  }

  lemma FoundNone(s: seq<Range>, addr: nat)
    requires Faithful(s) && Uncovered(s, addr)
    ensures Find(Params(s), addr) == None
  {
  }

  lemma ParamsSane(s: seq<Range>)
    requires Ordered(s) && Faithful(s)
    ensures Sane(Params(s))
  {
  }

  lemma ClearClash(s: seq<Range>, n: Range)
    requires Faithful(s) && Faithful([n])
    ensures Clear(s, n) <==> Free(Params(s), n.param)
  {
    assert n in [n];
    if !Clear(s, n) {
      var m :| m in s && Overlap(n, m);
      var x :| Covers(n, x) && Covers(m, x);
      assert Has(n.param, x) && Has(m.param, x) && m.param in Params(s);
    }
    if !Free(Params(s), n.param) {
      var m :| m in s && Clash(n.param, m.param);
      var x :| Has(n.param, x) && Has(m.param, x);
      assert Covers(n, x) && Covers(m, x);
    }
  }

  lemma ParamsWith(a: seq<Range>, n: Range, b: seq<Range>)
    requires Faithful(a + b) && Faithful([n])
    ensures Faithful(a + [n] + b) && Params(a + [n] + b) == Params(a + b) + {n.param}
  {
  }

  /** register_mem_int on one tree, after a successful malloc. */
  method RegisterIn(rbt: RbTree, memp: MemRange) returns (err: int, mrp: Range)
    requires rbt.Valid() && Faithful(rbt.Entries()) && WellFormed(memp)
    modifies rbt, rbt.store.Keys
    ensures rbt.Valid() && Faithful(rbt.Entries()) && fresh(mrp)
    ensures err == if Free(old(Params(rbt.Entries())), memp) then 0 else -1
    ensures err == 0 ==> Params(rbt.Entries()) == old(Params(rbt.Entries())) + {memp}
    ensures err == 0 ==> rbt.store.Keys == old(rbt.store.Keys) + {mrp}
    ensures err != 0 ==> rbt.Entries() == old(rbt.Entries()) && rbt.store.Keys == old(rbt.store.Keys)
  {
    err := -1;
    mrp := new Range(memp, memp.base, memp.base + memp.size - 1);
    ghost var s := rbt.Entries();
    ClearClash(s, mrp);
    var entry := rbt.Lookup(memp.base);
    if entry == null {
      var overlap := rbt.Insert(mrp);
      if overlap == null {
        err := 0;
        ghost var a, b :| s == a + b && rbt.Entries() == a + [mrp] + b;
        ParamsWith(a, mrp, b);
      }
    } else {
      assert Covers(mrp, memp.base);
      assert Overlap(mrp, entry);
    }
  }

  lemma ParamsWithout(a: seq<Range>, n: Range, b: seq<Range>)
    requires Ordered(a + [n] + b) && Faithful(a + [n] + b)
    ensures Faithful(a + b) && Params(a + b) == Params(a + [n] + b) - {n.param}
  {
    var s := a + [n] + b;
    assert n in s && forall m :: m in s <==> m in a + b || m == n;
    OrderedAround(a, n, b);
    forall m | m in a + b ensures m.param != n.param {
      assert m in s && (m in a || m in b);
    }
  }

  /** unregister_mem_int on one tree; `entry` is the node it frees, if any. */
  method UnregisterIn(rbt: RbTree, memp: MemRange) returns (err: int, entry: Range?)
    requires rbt.Valid() && Faithful(rbt.Entries())
    modifies rbt, rbt.store.Keys
    ensures rbt.Valid() && Faithful(rbt.Entries())
    ensures Find(old(Params(rbt.Entries())), memp.base) == if entry == null then None else Some(entry.param)
    ensures entry != null ==> entry in old(rbt.store)
    ensures err == if entry != null && Matches(entry.param, memp) then 0 else -1
    ensures err == 0 ==> Params(rbt.Entries()) == old(Params(rbt.Entries())) - {entry.param}
    ensures err == 0 ==> rbt.store.Keys == old(rbt.store.Keys) - {entry}
    ensures err != 0 ==> rbt.Entries() == old(rbt.Entries()) && rbt.store.Keys == old(rbt.store.Keys)
  {
    ghost var s := rbt.Entries();
    entry := rbt.Lookup(memp.base);
    err := -1;
    if entry != null {
      FoundSome(s, entry, memp.base);
      if Matches(entry.param, memp) {
        err := 0;
        var _ := rbt.Remove(entry);
        ghost var a, b :| s == a + [entry] + b && rbt.Entries() == a + b;
        ParamsWithout(a, entry, b);
      }
    } else {
      FoundNone(s, memp.base);
    }
  }

  /** A mismatch is a range found at the base that the descriptor does not describe. */
  lemma MatchOrNot(s: seq<Range>, memp: MemRange)
    requires Ordered(s) && Faithful(s)
    ensures var f := Find(Params(s), memp.base);
      Mismatch(Params(s), memp) <==> f.Some? && !Matches(f.value, memp)
  {
  }

  class Mmio {
    const root: RbTree
    const fallback: RbTree
    var hint: Range?

    /** Both trees are intact and share no node. */
    ghost predicate Trees()
      reads root, fallback, root.store.Keys, fallback.store.Keys
    {
      && root != fallback && root.Valid() && fallback.Valid()
      && root.store.Keys !! fallback.store.Keys
      && Faithful(root.Entries()) && Faithful(fallback.Entries())
    }

    /** The hint is null or a node of the root tree. */
    ghost predicate Sound()
      reads `hint, root, fallback, root.store.Keys, fallback.store.Keys
    {
      Trees() && (hint != null ==> hint in root.store)
    }

    ghost function View(): Registry
      reads root`shape, fallback`shape
    {
      Registry(Params(root.Entries()), Params(fallback.Entries()))
    }

    constructor ()
      ensures Sound() && View() == Registry({}, {}) && fresh(root) && fresh(fallback)
    {
      root := new RbTree();
      fallback := new RbTree();
      hint := null;
    }

    /** The entry emulate_mem hands the access to. */
    method Select(paddr: nat) returns (entry: Range?)
      requires Sound()
      modifies `hint
      ensures Sound() && View() == old(View())
      ensures Picked(if entry == null then None else Some(entry.param)) == Step(old(View()), Access(paddr)).1
    {
      if hint != null && paddr >= hint.base && paddr <= hint.end {
        entry := hint;
        root.Owned(entry);
        FoundSome(root.Entries(), entry, paddr);
      } else {
        entry := root.Lookup(paddr);
        if entry != null {
          FoundSome(root.Entries(), entry, paddr);
          hint := entry;
        } else {
          FoundNone(root.Entries(), paddr);
          entry := fallback.Lookup(paddr);
          if entry != null {
            FoundSome(fallback.Entries(), entry, paddr);
          } else {
            FoundNone(fallback.Entries(), paddr);
          }
        }
      }
    }

    /** Drop the cached entry if it is the one just unlinked. */
    method Flush(entry: Range?)
      modifies `hint
      ensures hint == if old(hint) == entry then null else old(hint)
    {
      if hint == entry {
        hint := null;
      }
    }

    method RegisterMem(memp: MemRange, memory: bool) returns (err: int)
      requires Sound() && WellFormed(memp)
      modifies root, root.store.Keys
      ensures Sound() && fresh(root.store.Keys - old(root.store.Keys))
      ensures (View(), Done(err)) == Step(old(View()), Register(false, memp, memory))
    {
      if !memory {
        return -1;
      }
      var mrp;
      err, mrp := RegisterIn(root, memp);
      assert fallback.Valid() && fallback.Entries() == old(fallback.Entries());
    }

    method RegisterMemFallback(memp: MemRange, memory: bool) returns (err: int)
      requires Sound() && WellFormed(memp)
      modifies fallback, fallback.store.Keys
      ensures Sound() && fresh(fallback.store.Keys - old(fallback.store.Keys))
      ensures (View(), Done(err)) == Step(old(View()), Register(true, memp, memory))
    {
      if !memory {
        return -1;
      }
      var mrp;
      err, mrp := RegisterIn(fallback, memp);
      assert root.Valid() && root.Entries() == old(root.Entries());
    }

    // The node an unregister call finds is freed whether or not it was unlinked: a freed node
    // stays linked exactly when the descriptor mismatched.

    method UnregisterMem(memp: MemRange) returns (err: int, ghost freed: Range?)
      requires Sound()
      modifies `hint, root, root.store.Keys
      ensures Sound() && root.store.Keys <= old(root.store.Keys)
      ensures (View(), Done(err)) == Step(old(View()), Unregister(false, memp))
      ensures freed != null && freed in root.store <==> Mismatch(old(View()).root, memp)
    {
      var entry;
      MatchOrNot(root.Entries(), memp);
      err, entry := UnregisterIn(root, memp);
      assert fallback.Valid() && fallback.Entries() == old(fallback.Entries());
      if err == 0 {
        Flush(entry);
      }
      freed := entry;
    }

    method UnregisterMemFallback(memp: MemRange) returns (err: int, ghost freed: Range?)
      requires Sound()
      modifies `hint, fallback, fallback.store.Keys
      ensures Sound() && fallback.store.Keys <= old(fallback.store.Keys)
      ensures (View(), Done(err)) == Step(old(View()), Unregister(true, memp))
      ensures freed != null && freed in fallback.store <==> Mismatch(old(View()).fallback, memp)
    {
      var entry;
      MatchOrNot(fallback.Entries(), memp);
      err, entry := UnregisterIn(fallback, memp);
      assert root.Valid() && root.Entries() == old(root.Entries());
      if err == 0 {
        Flush(entry);
      }
      freed := entry;
    }
  }

  method Perform(m: Mmio, op: Op) returns (r: Result)
    requires m.Sound() && Allowed(m.View(), op)
    modifies m, m.root, m.fallback, m.root.store.Keys, m.fallback.store.Keys
    ensures m.Sound() && (m.View(), r) == Step(old(m.View()), op)
    ensures fresh(m.root.store.Keys - old(m.root.store.Keys))
    ensures fresh(m.fallback.store.Keys - old(m.fallback.store.Keys))
  {
    var err;
    ghost var freed;
    match op
    case Register(fb, memp, memory) =>
      if fb {
        err := m.RegisterMemFallback(memp, memory);
      } else {
        err := m.RegisterMem(memp, memory);
      }
      r := Done(err);
    case Unregister(fb, memp) =>
      if fb {
        err, freed := m.UnregisterMemFallback(memp);
      } else {
        err, freed := m.UnregisterMem(memp);
      }
      r := Done(err);
    case Access(addr) =>
      var entry := m.Select(addr);
      r := Picked(if entry == null then None else Some(entry.param));
  }

  /** Any sequence of allowed calls: the registry with trees and cache answers every call as
      the registry without them. */
  method Run(m: Mmio, ops: seq<Op>) returns (rs: seq<Result>)
    requires m.Sound() && AllowedRun(m.View(), ops)
    modifies m, m.root, m.fallback, m.root.store.Keys, m.fallback.store.Keys
    ensures m.Sound() && m.View() == Reached(old(m.View()), ops) && Answers(old(m.View()), ops, rs)
  {
    rs := [];
    ghost var reg := m.View();
    for k := 0 to |ops|
      invariant m.Sound() && m.View() == Reached(reg, ops[..k]) && |rs| == k
      invariant fresh(m.root.store.Keys - old(m.root.store.Keys))
      invariant fresh(m.fallback.store.Keys - old(m.fallback.store.Keys))
      invariant Answers(reg, ops[..k], rs)
    {
      assert ops[..k + 1][..k] == ops[..k];
      var r := Perform(m, ops[k]);
      AnswersMore(reg, ops, k, rs, r);
      rs := rs + [r];
    }
    assert ops[..|ops|] == ops;
  }

  /** In a registry with one range, a description by another name frees a node that is still linked. */
  method FreedLinked(m: Mmio, r: MemRange, memp: MemRange) returns (err: int, ghost freed: Range?)
    requires m.Sound() && m.View() == Registry({}, {}) && WellFormed(r)
    requires Has(r, memp.base) && !Matches(r, memp)
    modifies m, m.root, m.root.store.Keys
    ensures m.Sound() && freed != null && freed in m.root.store
  {
    err := m.RegisterMem(r, true);
    assert m.View().root == {r};
    err, freed := m.UnregisterMem(memp);
  }
}
