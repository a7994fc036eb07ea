/**
 The guest's physical memory map: the split into low and high memory and the lookup of a guest
 address (`devicemodel/core/vmmapi.c`), and the E820 table that tells the guest about it
 (`devicemodel/core/sw_load_common.c`).
 */
module GuestMemory {
  import opened GuestLayout
  import opened Options

  /** A machine word. */
  type Word = x: int | 0 <= x < TWO64

  function Add(x: Word, y: Word): Word {
    (x + y) % TWO64
  }

  function Sub(x: Word, y: Word): Word {
    (x - y) % TWO64
  }

  /** The range lies in low memory or in high memory; an empty range needs only its address there. */
  predicate InMemory(low: int, high: int, addr: int, len: int) {
    || (addr < low && addr + len <= low)
    || (HIGHMEM_BASE <= addr < HIGHMEM_BASE + high && addr + len <= HIGHMEM_BASE + high)
  }

  class Vm {
    const base: Word
    var lowmem: Word
    var highmem: Word

    constructor (base: Word)
      ensures this.base == base && lowmem == highmem == 0
    {
      this.base := base;
      lowmem, highmem := 0, 0;
    }

    /** The split loses no memory, fills low memory first and never overfills it. */
    method SetupMemory(memsize: Word)
      modifies this
      ensures lowmem + highmem == memsize
      ensures lowmem <= LOWMEM_LIMIT
      ensures highmem > 0 ==> lowmem == LOWMEM_LIMIT
    {
      if memsize > LOWMEM_LIMIT {
        lowmem := LOWMEM_LIMIT;
        highmem := memsize - LOWMEM_LIMIT;
      } else {
        lowmem := memsize;
        highmem := 0;
      }
    }

    /** The lookup answers a range at its offset from the base. */
    function MapGpa(gaddr: Word, len: Word): (r: Option<Word>)
      reads this
      ensures lowmem <= LOWMEM_LIMIT && HIGHMEM_BASE + 2 * highmem <= TWO64 ==>
                (r.Some? <==> InMemory(lowmem, highmem, gaddr, len))
      ensures r.Some? ==> r.value == Add(base, gaddr)
    {
      assert lowmem <= LOWMEM_LIMIT && HIGHMEM_BASE + 2 * highmem <= TWO64 ==>
          (Accepts(lowmem, highmem, gaddr, len) <==> InMemory(lowmem, highmem, gaddr, len)) by {
        if lowmem <= LOWMEM_LIMIT && HIGHMEM_BASE + 2 * highmem <= TWO64 {
          AcceptsMemory(lowmem, highmem, gaddr, len);
        }
      }
      if Accepts(lowmem, highmem, gaddr, len) then Some(Add(base, gaddr)) else None
    }
  }

  /** The comparisons of the lookup, on machine words. */
  predicate Accepts(low: Word, high: Word, gaddr: Word, len: Word) {
    || (low > 0 && gaddr < low && len <= low && Add(gaddr, len) <= low)
    || (&& high > 0 && gaddr >= HIGHMEM_BASE && gaddr < Add(HIGHMEM_BASE, high) && len <= high
        && Add(gaddr, len) <= Add(HIGHMEM_BASE, high))
  }

  lemma NoWrap(x: Word, y: Word)
    ensures Add(x, y) == if x + y < TWO64 then x + y else x + y - TWO64
  {
  }

  lemma AcceptsMemory(low: Word, high: Word, gaddr: Word, len: Word)
    requires low <= LOWMEM_LIMIT && HIGHMEM_BASE + 2 * high <= TWO64
    ensures Accepts(low, high, gaddr, len) <==> InMemory(low, high, gaddr, len)
  {
  }

  /** The comparisons accept exactly the ranges in memory. */
  ghost predicate Exact(low: Word, high: Word) {
    forall gaddr: Word, len: Word :: Accepts(low, high, gaddr, len) <==> InMemory(low, high, gaddr, len)
  }

  /**
   With low memory within its limit and high memory ending below 2^64, the comparisons on wrapping
   words are exact if and only if high memory is small enough that no end of a range wraps.
   */
  lemma AcceptsExact(low: Word, high: Word)
    requires low <= LOWMEM_LIMIT && HIGHMEM_BASE + high < TWO64
    ensures Exact(low, high) <==> HIGHMEM_BASE + 2 * high <= TWO64
  {
    if HIGHMEM_BASE + 2 * high <= TWO64 {
      forall gaddr: Word, len: Word
        ensures Accepts(low, high, gaddr, len) <==> InMemory(low, high, gaddr, len)
      {
        AcceptsMemory(low, high, gaddr, len);
      }
    } else {
      var gaddr: Word := HIGHMEM_BASE + high - 1;
      NoWrap(gaddr, high);
      NoWrap(HIGHMEM_BASE, high);
      assert Accepts(low, high, gaddr, high) && !InMemory(low, high, gaddr, high);
    }
  }
}

module E820Map {
  import opened GuestLayout
  import opened GuestMemory

  const E820_TYPE_RAM := 1
  const E820_TYPE_RESERVED := 2

  datatype Entry = Entry(base: Word, length: Word, kind: nat) {
    function End(): int {
      base + length
    }

    predicate Has(a: int) {
      base <= a < End()
    }
  }

  datatype Kind = Hole | Is(kind: nat)

  /** The type the table gives to address `a`. */
  function KindAt(t: seq<Entry>, a: int): Kind {
    if t == [] then Hole else if t[0].Has(a) then Is(t[0].kind) else KindAt(t[1..], a)
  }

  /** In address order, with no overlap. */
  predicate Sorted(t: seq<Entry>) {
    forall i, j :: 0 <= i < j < |t| ==> t[i].End() <= t[j].base
  }

  lemma {:induction false} KindAtConcat(s: seq<Entry>, t: seq<Entry>, a: int)
    ensures KindAt(s + t, a) == if KindAt(s, a) == Hole then KindAt(t, a) else KindAt(s, a)
  {
    if s == [] {
      assert s + t == t;
    } else {
      assert (s + t)[1..] == s[1..] + t;
      KindAtConcat(s[1..], t, a);
    }
  }

  lemma {:induction false} AllMiss(t: seq<Entry>, a: int)
    requires forall i :: 0 <= i < |t| ==> !t[i].Has(a)
    ensures KindAt(t, a) == Hole
  {
    if t != [] {
      AllMiss(t[1..], a);
    }
  }

  // ---- retyping a range inside one entry ----

  predicate Contains(e: Entry, start: int, size: int) {
    e.base <= start && start + size <= e.End()
  }

  /** The first entry that contains the range, or the length of the table. */
  function Finds(t: seq<Entry>, start: int, size: int): (i: nat)
    ensures i <= |t|
    ensures forall k :: 0 <= k < i ==> !Contains(t[k], start, size)
    ensures i < |t| ==> Contains(t[i], start, size)
  {
    if t == [] then 0 else if Contains(t[0], start, size) then 0 else 1 + Finds(t[1..], start, size)
  }

  /** What an entry becomes when the range inside it is given type `kind`: one, two or three entries. */
  function Cut(e: Entry, start: Word, size: Word, kind: nat): seq<Entry>
    requires Contains(e, start, size) && e.End() < TWO64
  {
    (if e.base == start then [] else [Entry(e.base, start - e.base, e.kind)])
    + [Entry(start, size, kind)]
    + if e.End() == start + size then [] else [Entry(start + size, e.End() - (start + size), e.kind)]
  }

  predicate Ends(t: seq<Entry>) {
    forall i :: 0 <= i < |t| ==> t[i].End() < TWO64
  }

  function Added(t: seq<Entry>, start: Word, size: Word, kind: nat): seq<Entry>
    requires Ends(t)
  {
    var i := Finds(t, start, size);
    if i == |t| then t else t[..i] + Cut(t[i], start, size, kind) + t[i + 1..]
  }

  lemma CutKinds(e: Entry, start: Word, size: Word, kind: nat, a: int)
    requires Contains(e, start, size) && e.End() < TWO64
    ensures KindAt(Cut(e, start, size, kind), a)
            == if start <= a < start + size then Is(kind) else if e.Has(a) then Is(e.kind) else Hole
  {
    var left := if e.base == start then [] else [Entry(e.base, start - e.base, e.kind)];
    var mid := [Entry(start, size, kind)];
    var right := if e.End() == start + size then [] else [Entry(start + size, e.End() - (start + size), e.kind)];
    KindAtConcat(left + mid, right, a);
    KindAtConcat(left, mid, a);
  }

  lemma CutSorted(e: Entry, start: Word, size: Word, kind: nat)
    requires Contains(e, start, size) && e.End() < TWO64
    ensures Sorted(Cut(e, start, size, kind)) && Cut(e, start, size, kind) != []
    ensures forall i :: 0 <= i < |Cut(e, start, size, kind)| ==>
                          e.base <= Cut(e, start, size, kind)[i].base && Cut(e, start, size, kind)[i].End() <= e.End()
  {
  }

  /** Replacing an entry of a sorted table by sorted entries inside it keeps the table sorted. */
  lemma SpliceSorted(t: seq<Entry>, i: nat, mid: seq<Entry>)
    requires Sorted(t) && i < |t| && Sorted(mid)
    requires forall k :: 0 <= k < |mid| ==> t[i].base <= mid[k].base && mid[k].End() <= t[i].End()
    ensures Sorted(t[..i] + mid + t[i + 1..])
  {
  }

  /** Away from entry `i`, no entry of a sorted table has an address of entry `i`. */
  lemma SpliceKinds(t: seq<Entry>, i: nat, mid: seq<Entry>, a: int)
    requires Sorted(t) && i < |t|
    requires forall k :: 0 <= k < |mid| ==> t[i].base <= mid[k].base && mid[k].End() <= t[i].End()
    ensures KindAt(t[..i] + mid + t[i + 1..], a) == if t[i].Has(a) then KindAt(mid, a) else KindAt(t, a)
  {
    var l, r := t[..i], t[i + 1..];
    assert t == l + [t[i]] + r;
    KindAtConcat(l + mid, r, a);
    KindAtConcat(l, mid, a);
    KindAtConcat(l + [t[i]], r, a);
    KindAtConcat(l, [t[i]], a);
    if t[i].Has(a) {
      AllMiss(l, a);
      AllMiss(r, a);
    } else {
      AllMiss(mid, a);
    }
  }

  lemma Owner(t: seq<Entry>, i: nat, a: int)
    requires Sorted(t) && i < |t|
    ensures t[i].Has(a) ==> KindAt(t, a) == Is(t[i].kind)
  {
    SpliceKinds(t, i, [t[i]], a);
    assert t[..i] + [t[i]] + t[i + 1..] == t;
  }

  lemma AddedKind(t: seq<Entry>, start: Word, size: Word, kind: nat, a: int)
    requires Sorted(t) && Ends(t) && Finds(t, start, size) < |t|
    ensures KindAt(Added(t, start, size, kind), a) == if start <= a < start + size then Is(kind) else KindAt(t, a)
  {
    var i := Finds(t, start, size);
    CutSorted(t[i], start, size, kind);
    SpliceKinds(t, i, Cut(t[i], start, size, kind), a);
    CutKinds(t[i], start, size, kind, a);
    Owner(t, i, a);
  }

  lemma AddedSorted(t: seq<Entry>, start: Word, size: Word, kind: nat)
    requires Sorted(t) && Ends(t)
    ensures Sorted(Added(t, start, size, kind)) && Ends(Added(t, start, size, kind))
  {
    var i := Finds(t, start, size);
    if i < |t| {
      CutSorted(t[i], start, size, kind);
      SpliceSorted(t, i, Cut(t[i], start, size, kind));
    }
  }

  /**
   Adding to a sorted table keeps it sorted.  If the range lies inside an entry, the type map
   changes on exactly that range; if not, nothing changes.
   */
  lemma AddedMeaning(t: seq<Entry>, start: Word, size: Word, kind: nat)
    requires Sorted(t) && Ends(t)
    ensures Sorted(Added(t, start, size, kind)) && Ends(Added(t, start, size, kind))
    ensures forall a :: KindAt(Added(t, start, size, kind), a)
                        == if start <= a < start + size && Finds(t, start, size) < |t| then Is(kind) else KindAt(t, a)
  {
    AddedSorted(t, start, size, kind);
    if Finds(t, start, size) < |t| {
      forall a
        ensures KindAt(Added(t, start, size, kind), a) == if start <= a < start + size then Is(kind) else KindAt(t, a)
      {
        AddedKind(t, start, size, kind, a);
      }
    }
  }

  // ---- the table a guest starts with ----

  const NUM_E820_ENTRIES := 10
  const LOWRAM_E820_ENTRY := 2
  const HIGHRAM_E820_ENTRY := 9

  const DEFAULT_ENTRIES := [
    Entry(0, 0xA0000, E820_TYPE_RAM),
    Entry(0xA0000, 0x60000, E820_TYPE_RESERVED),
    Entry(0x100000, 0x48f00000, E820_TYPE_RAM),
    Entry(0x49000000, 0x37000000, E820_TYPE_RESERVED),
    Entry(0x80000000, 0x8000000, E820_TYPE_RESERVED),
    Entry(0xDB000000, 0x4000000, E820_TYPE_RESERVED),
    Entry(0xDF000000, 0x1000000, E820_TYPE_RESERVED),
    Entry(PCI_EMUL_ECFG_BASE, 4 * GB - PCI_EMUL_ECFG_BASE, E820_TYPE_RESERVED),
    Entry(PCI_EMUL_MEMBASE64, PCI_EMUL_MEMLIMIT64 - PCI_EMUL_MEMBASE64, E820_TYPE_RESERVED),
    Entry(PCI_EMUL_MEMLIMIT64, 0x100000, E820_TYPE_RESERVED)]

  function LowEntries(low: Word): seq<Entry> {
    [DEFAULT_ENTRIES[0], DEFAULT_ENTRIES[1], Entry(MB, Sub(low, MB), E820_TYPE_RAM)]
    + if low < LOWMEM_LIMIT then [Entry(low, LOWMEM_LIMIT - low, E820_TYPE_RESERVED)] else []
  }

  function HighEntries(high: Word): seq<Entry> {
    if high > 0 then [Entry(HIGHMEM_BASE, high, E820_TYPE_RAM)] else []
  }

  /** The table for a guest with `low` and `high` bytes of memory. */
  function Table(low: Word, high: Word): seq<Entry> {
    LowEntries(low) + DEFAULT_ENTRIES[4..9] + HighEntries(high)
  }

  lemma LowKinds(low: Word, a: int)
    requires MB <= low <= LOWMEM_LIMIT
    ensures KindAt(LowEntries(low), a)
            == if 0 <= a < 0xA0000 || MB <= a < low then Is(E820_TYPE_RAM)
               else if 0 <= a < LOWMEM_LIMIT then Is(E820_TYPE_RESERVED) else Hole
  {
    var head := [DEFAULT_ENTRIES[0], DEFAULT_ENTRIES[1], Entry(MB, Sub(low, MB), E820_TYPE_RAM)];
    var tail := if low < LOWMEM_LIMIT then [Entry(low, LOWMEM_LIMIT - low, E820_TYPE_RESERVED)] else [];
    KindAtConcat(head, tail, a);
    KindAtConcat([head[0]], [head[1], head[2]], a);
    KindAtConcat([head[1]], [head[2]], a);
    assert head == [head[0]] + [head[1], head[2]];
    assert [head[1], head[2]] == [head[1]] + [head[2]];
  }

  /** Each entry lies in the range. */
  predicate Within(t: seq<Entry>, lo: int, hi: int) {
    forall i :: 0 <= i < |t| ==> lo <= t[i].base && t[i].End() <= hi
  }

  lemma JoinSorted(s: seq<Entry>, t: seq<Entry>, lo: int, at: int, hi: int)
    requires Sorted(s) && Sorted(t) && Within(s, lo, at) && Within(t, at, hi) && lo <= at <= hi
    ensures Sorted(s + t) && Within(s + t, lo, hi)
  {
  }

  lemma MidSorted()
    ensures Sorted(DEFAULT_ENTRIES[4..9]) && Within(DEFAULT_ENTRIES[4..9], LOWMEM_LIMIT, HIGHMEM_BASE)
  {
  }

  /** The table is sorted if and only if low memory reaches the fixed start of its second part. */
  lemma TableSorted(low: Word, high: Word)
    requires low <= LOWMEM_LIMIT
    ensures Sorted(Table(low, high)) <==> MB <= low
    ensures MB <= low && HIGHMEM_BASE + high < TWO64 ==> Ends(Table(low, high))
  {
    var t := Table(low, high);
    if MB <= low {
      MidSorted();
      assert LowEntries(low)[2].length == low - MB;
      JoinSorted(LowEntries(low), DEFAULT_ENTRIES[4..9], 0, LOWMEM_LIMIT, HIGHMEM_BASE);
      JoinSorted(LowEntries(low) + DEFAULT_ENTRIES[4..9], HighEntries(high), 0, HIGHMEM_BASE, HIGHMEM_BASE + high);
    } else {
      assert Sub(low, MB) == low - MB + TWO64;
      assert t[2] == LowEntries(low)[2] && t[3] == LowEntries(low)[3];
      assert t[2].End() > t[3].base;
    }
  }

  /** The fixed part reserves 128 MB above low memory, and everything from the graphics memory up to high memory. */
  lemma MidKinds(a: int)
    ensures KindAt(DEFAULT_ENTRIES[4..9], a)
            == if LOWMEM_LIMIT <= a < LOWMEM_LIMIT + 128 * MB || 0xDB00_0000 <= a < HIGHMEM_BASE then Is(E820_TYPE_RESERVED) else Hole
  {
    var t := DEFAULT_ENTRIES[4..9];
    calc {
      KindAt(t, a);
      if t[0].Has(a) then Is(t[0].kind) else KindAt(t[1..], a);
      if t[0].Has(a) then Is(t[0].kind) else if t[1].Has(a) then Is(t[1].kind) else KindAt(t[2..], a);
    }
    assert t[2..] == [t[2]] + [t[3]] + [t[4]];
    KindAtConcat([t[2]] + [t[3]], [t[4]], a);
    KindAtConcat([t[2]], [t[3]], a);
  }

  /**
   The type of every address.  RAM is the memory a lookup accepts, less the hole for video memory
   and firmware tables below 1 MB; that hole, the unused part of low memory, 128 MB above it, the
   graphics memory, all of PCI configuration space up to 4 GB and the 64-bit PCI window are reserved.
   */
  lemma TableKinds(low: Word, high: Word, a: int)
    requires MB <= low <= LOWMEM_LIMIT
    ensures KindAt(Table(low, high), a)
            == if 0 <= a && InMemory(low, high, a, 1) && !(0xA0000 <= a < MB) then Is(E820_TYPE_RAM)
               else if 0xA0000 <= a < LOWMEM_LIMIT + 128 * MB || 0xDB00_0000 <= a < HIGHMEM_BASE then Is(E820_TYPE_RESERVED)
               else Hole
  {
    LowKinds(low, a);
    MidKinds(a);
    KindAtConcat(LowEntries(low) + DEFAULT_ENTRIES[4..9], HighEntries(high), a);
    KindAtConcat(LowEntries(low), DEFAULT_ENTRIES[4..9], a);
  }

  /** The table types exactly the guest's memory, less the hole, as RAM. */
  ghost predicate TypesRam(low: Word, high: Word) {
    forall a :: KindAt(Table(low, high), a) == Is(E820_TYPE_RAM) <==> 0 <= a && InMemory(low, high, a, 1) && !(0xA0000 <= a < MB)
  }

  /** With less than 1 MB of low memory the length of the second part of it wraps, and 1 MB is typed as RAM. */
  lemma TableRamExact(low: Word, high: Word)
    requires low <= LOWMEM_LIMIT
    ensures TypesRam(low, high) <==> MB <= low
  {
    if MB <= low {
      forall a
        ensures KindAt(Table(low, high), a) == Is(E820_TYPE_RAM) <==> 0 <= a && InMemory(low, high, a, 1) && !(0xA0000 <= a < MB)
      {
        TableKinds(low, high, a);
      }
    } else {
      WrappedRam(low, high);
    }
  }

  lemma WrappedRam(low: Word, high: Word)
    requires low < MB
    ensures KindAt(Table(low, high), MB) == Is(E820_TYPE_RAM) && !InMemory(low, high, MB, 1)
  {
    var t := Table(low, high);
    assert Sub(low, MB) == low - MB + TWO64;
    assert t[0] == DEFAULT_ENTRIES[0] && t[1] == DEFAULT_ENTRIES[1] && t[2] == LowEntries(low)[2];
    assert !t[0].Has(MB) && !t[1].Has(MB) && t[2].Has(MB);
    calc {
      KindAt(t, MB);
      KindAt(t[1..], MB);
      KindAt(t[1..][1..], MB);
      Is(t[2].kind);
    }
  }
}

module E820 {
  import opened GuestLayout
  import opened GuestMemory
  import opened E820Map

  /** Moves `n` entries from index `from` to index `to`, as memmove does. */
  method MoveEntries(e820: array<Entry>, to: nat, from: nat, n: nat)
    requires to + n <= e820.Length && from + n <= e820.Length
    modifies e820
    ensures e820[..] == old(e820[..to]) + old(e820[from..from + n]) + old(e820[to + n..])
  {
    forall k | 0 <= k < n {
      e820[to + k] := e820[from + k];
    }
  }

  method CreateTable(e820: array<Entry>, vm: Vm) returns (count: nat)
    requires e820.Length >= NUM_E820_ENTRIES
    modifies e820
    ensures count <= NUM_E820_ENTRIES && e820[..count] == Table(vm.lowmem, vm.highmem)
  {
    forall i | 0 <= i < NUM_E820_ENTRIES {
      e820[i] := DEFAULT_ENTRIES[i];
    }
    var removed := 0;
    e820[LOWRAM_E820_ENTRY] :=
      e820[LOWRAM_E820_ENTRY].(length := Sub(vm.lowmem, e820[LOWRAM_E820_ENTRY].base));
    if LOWMEM_LIMIT > vm.lowmem {
      e820[LOWRAM_E820_ENTRY + 1] :=
        e820[LOWRAM_E820_ENTRY + 1].(base := vm.lowmem, length := LOWMEM_LIMIT - vm.lowmem);
    } else {
      MoveEntries(e820, LOWRAM_E820_ENTRY + 1, LOWRAM_E820_ENTRY + 2, NUM_E820_ENTRIES - (LOWRAM_E820_ENTRY + 2));
      removed := removed + 1;
    }
    if vm.highmem > 0 {
      var k := HIGHRAM_E820_ENTRY - removed;
      e820[k] := e820[k].(kind := E820_TYPE_RAM, length := vm.highmem);
    } else {
      removed := removed + 1;
    }
    count := NUM_E820_ENTRIES - removed;
  }

  /** Pieces `from` to `to` of an entry cut at the points `pt`. */
  function Pieces(pt: seq<Word>, kinds: seq<nat>, from: nat, to: nat): seq<Entry>
    requires |pt| == 4 && |kinds| == 3 && from <= to <= 3
    requires forall k :: 0 <= k < 3 ==> pt[k] <= pt[k + 1]
    ensures |Pieces(pt, kinds, from, to)| == to - from
  {
    if from == to then [] else Pieces(pt, kinds, from, to - 1) + [Entry(pt[to - 1], pt[to] - pt[to - 1], kinds[to - 1])]
  }

  method WritePieces(e820: array<Entry>, at: nat, pt: seq<Word>, kinds: seq<nat>, from: nat, to: nat)
    requires |pt| == 4 && |kinds| == 3 && from <= to <= 3 && at + to - from <= e820.Length
    requires forall k :: 0 <= k < 3 ==> pt[k] <= pt[k + 1]
    modifies e820
    ensures e820[..] == old(e820[..at]) + Pieces(pt, kinds, from, to) + old(e820[at + to - from..])
  {
    var i, s := at, from;
    while s < to
      invariant from <= s <= to && i == at + s - from
      invariant e820[..] == old(e820[..at]) + Pieces(pt, kinds, from, s) + old(e820[i..])
    {
      e820[i] := Entry(pt[s], pt[s + 1] - pt[s], kinds[s]);
      s, i := s + 1, i + 1;
    }
  }

  lemma CutPieces(e: Entry, start: Word, size: Word, kind: nat, pt: seq<Word>, kinds: seq<nat>)
    requires Contains(e, start, size) && e.End() < TWO64
    requires pt == [e.base, start, start + size, e.End()] && kinds == [e.kind, kind, e.kind]
    ensures Pieces(pt, kinds, if e.base == start then 1 else 0, if e.End() == start + size then 2 else 3)
            == Cut(e, start, size, kind)
  {
    var first := if e.base == start then 1 else 0;
    assert Pieces(pt, kinds, first, 1) == if first == 1 then [] else [Entry(e.base, start - e.base, e.kind)] by {
      assert Pieces(pt, kinds, first, 1) == if first == 1 then [] else Pieces(pt, kinds, 0, 0) + [Entry(pt[0], pt[1] - pt[0], kinds[0])];
    }
    assert Pieces(pt, kinds, first, 2) == Pieces(pt, kinds, first, 1) + [Entry(start, size, kind)];
    assert Pieces(pt, kinds, first, 3) == Pieces(pt, kinds, first, 2) + [Entry(pt[2], pt[3] - pt[2], kinds[2])];
  }

  /** Opens a gap of `n` entries in place of entry `i`. */
  method MakeRoom(e820: array<Entry>, len: nat, i: nat, n: nat)
    requires i < len && 1 <= n && len + n - 1 <= e820.Length
    modifies e820
    ensures e820[..i] == old(e820[..i]) && e820[i + n..len + n - 1] == old(e820[i + 1..len])
  {
    if i != len - 1 && n > 1 {
      MoveEntries(e820, i + n, i + 1, len - i - 1);
    }
  }

  method SplitEntry(e820: array<Entry>, len: nat, i: nat, start: Word, size: Word, kind: nat) returns (length: nat)
    requires i < len && len + 2 <= e820.Length
    requires Contains(e820[i], start, size) && e820[i].End() < TWO64
    modifies e820
    ensures length <= e820.Length
    ensures e820[..length] == old(e820[..i]) + Cut(old(e820[i]), start, size, kind) + old(e820[i + 1..len])
  {
    var first, last := 0, 3;
    var e := e820[i];
    var pt: seq<Word> := [e.base, start, start + size, e.base + e.length];
    var kinds := [e.kind, kind, e.kind];
    if e.base == start {
      first := 1;
    }
    if e.base + e.length == start + size {
      last := 2;
    }
    CutPieces(e, start, size, kind, pt, kinds);
    length := len + (last - first - 1);
    MakeRoom(e820, len, i, last - first);
    WritePieces(e820, i, pt, kinds, first, last);
  }

  /** A range inside an entry splits the first such entry; any other range changes nothing. */
  method AddEntry(e820: array<Entry>, len: nat, start: Word, size: Word, kind: nat) returns (length: nat)
    requires len + 2 <= e820.Length && start + size < TWO64 && Ends(e820[..len])
    modifies e820
    ensures length <= e820.Length && e820[..length] == Added(old(e820[..len]), start, size, kind)
  {
    for i := 0 to len
      invariant forall k :: 0 <= k < i ==> !Contains(e820[k], start, size)
      invariant e820[..] == old(e820[..])
    {
      if e820[i].base <= start && start + size <= e820[i].base + e820[i].length {
        FirstFound(e820[..len], start, size, i);
        length := SplitEntry(e820, len, i, start, size, kind);
        return;
      }
    }
    FirstFound(e820[..len], start, size, len);
    length := len;
  }

  lemma FirstFound(t: seq<Entry>, start: int, size: int, i: nat)
    requires i <= |t| && (forall k :: 0 <= k < i ==> !Contains(t[k], start, size))
    requires i < |t| ==> Contains(t[i], start, size)
    ensures Finds(t, start, size) == i
  {
  }

  /** The table of a guest types an address as RAM exactly when the lookup accepts it, below 0xA0000 or from 1 MB on. */
  lemma RamIsMapped(vm: Vm, a: Word)
    requires MB <= vm.lowmem <= LOWMEM_LIMIT && HIGHMEM_BASE + 2 * vm.highmem <= TWO64
    ensures KindAt(Table(vm.lowmem, vm.highmem), a) == Is(E820_TYPE_RAM)
            <==> vm.MapGpa(a, 1).Some? && !(0xA0000 <= a < MB)
  {
    TableKinds(vm.lowmem, vm.highmem, a);
  }

  // ---- the table after any additions ----

  datatype Addition = Addition(start: Word, size: Word, kind: nat)

  function AddedAll(t: seq<Entry>, adds: seq<Addition>): seq<Entry>
    requires Sorted(t) && Ends(t)
    ensures Sorted(AddedAll(t, adds)) && Ends(AddedAll(t, adds))
  {
    if adds == [] then t
    else
      var was := AddedAll(t, adds[..|adds| - 1]);
      var x := adds[|adds| - 1];
      AddedMeaning(was, x.start, x.size, x.kind);
      Added(was, x.start, x.size, x.kind)
  }

  /** Each range lies inside one entry of the table it is added to. */
  predicate AllInside(t: seq<Entry>, adds: seq<Addition>)
    requires Sorted(t) && Ends(t)
  {
    forall k :: 0 <= k < |adds| ==>
                  Finds(AddedAll(t, adds[..k]), adds[k].start, adds[k].size) < |AddedAll(t, adds[..k])|
  }

  /** The type of the last addition that covers `a`, or the type it had. */
  function Latest(adds: seq<Addition>, a: int, was: Kind): Kind {
    if adds == [] then was
    else
      var x := adds[|adds| - 1];
      if x.start <= a < x.start + x.size then Is(x.kind) else Latest(adds[..|adds| - 1], a, was)
  }

  lemma {:induction false} AddedAllMeaning(t: seq<Entry>, adds: seq<Addition>, a: int)
    requires Sorted(t) && Ends(t) && AllInside(t, adds)
    ensures KindAt(AddedAll(t, adds), a) == Latest(adds, a, KindAt(t, a))
  {
    if adds != [] {
      var n := |adds| - 1;
      var pre := adds[..n];
      assert AllInside(t, pre) by {
        forall k | 0 <= k < n
          ensures Finds(AddedAll(t, pre[..k]), pre[k].start, pre[k].size) < |AddedAll(t, pre[..k])|
        {
          assert pre[..k] == adds[..k] && pre[k] == adds[k];
        }
      }
      AddedAllMeaning(t, pre, a);
      AddedMeaning(AddedAll(t, pre), adds[n].start, adds[n].size, adds[n].kind);
    }
  }
}
