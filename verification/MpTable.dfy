/**
 The MultiProcessor table of `devicemodel/core/mptbl.c`.  `MpSpec` is the format: how an entry is
 laid out and how a guest walks a table, as sections 4.1 to 4.3 of the MultiProcessor
 Specification 1.4 have it.  `MpTable` is the builder, which writes bytes at a cursor.
 */
module MpSpec {
  import opened Options

  type Byte = x: int | 0 <= x < 0x100
  type Half = x: int | 0 <= x < 0x1_0000
  type Full = x: int | 0 <= x < 0x1_0000_0000

  function Bytes2(x: Half): seq<Byte> {
    [x % 0x100, x / 0x100]
  }

  function Bytes4(x: Full): seq<Byte> {
    Bytes2(x % 0x1_0000) + Bytes2(x / 0x1_0000)
  }

  function Get2(b: seq<Byte>, at: nat): Half
    requires at + 2 <= |b|
  {
    var high: int := b[at + 1];
    b[at] + 0x100 * high
  }

  function Get4(b: seq<Byte>, at: nat): Full
    requires at + 4 <= |b|
  {
    var high: int := Get2(b, at + 2);
    Get2(b, at) + 0x1_0000 * high
  }

  /** Numbers lie in the table with their low bytes first, and are read back as written. */
  lemma LittleEndian(x: Full)
    ensures |Bytes4(x)| == 4 && Get4(Bytes4(x), 0) == x
    ensures var b: seq<int> := Bytes4(x); b[0] + 0x100 * b[1] + 0x1_0000 * b[2] + 0x100_0000 * b[3] == x
  {
    assert x == x % 0x1_0000 + 0x1_0000 * (x / 0x1_0000);
  }

  // ---- entries ----

  const MPCT_ENTRY_PROCESSOR := 0
  const MPCT_ENTRY_BUS := 1
  const MPCT_ENTRY_IOAPIC := 2
  const MPCT_ENTRY_INT := 3
  const MPCT_ENTRY_LOCAL_INT := 4

  datatype Line = Line(kind: Byte, flags: Half, srcBus: Byte, srcIrq: Byte, dstId: Byte, dstInt: Byte)

  datatype MpEntry =
    | Processor(apicId: Byte, version: Byte, cpuFlags: Byte, signature: Full, features: Full)
    | Bus(busId: Byte, name: seq<Byte>)
    | IoApic(apicId: Byte, version: Byte, apicFlags: Byte, address: Full)
    | IoInt(line: Line)
    | LocalInt(line: Line)

  /** The one field of variable size in the datatype has a fixed size in the table. */
  predicate Proper(e: MpEntry) {
    e.Bus? ==> |e.name| == 6
  }

  function EncodeLine(l: Line): (b: seq<Byte>)
    ensures |b| == 7
  {
    [l.kind] + Bytes2(l.flags) + [l.srcBus, l.srcIrq, l.dstId, l.dstInt]
  }

  function Encode(e: MpEntry): (b: seq<Byte>)
    requires Proper(e)
    ensures |b| == if e.Processor? then 20 else 8
  {
    match e
    case Processor(id, version, flags, signature, features) =>
      [MPCT_ENTRY_PROCESSOR, id, version, flags] + Bytes4(signature) + Bytes4(features) + [0, 0, 0, 0, 0, 0, 0, 0]
    case Bus(id, name) => [MPCT_ENTRY_BUS, id] + name
    case IoApic(id, version, flags, address) => [MPCT_ENTRY_IOAPIC, id, version, flags] + Bytes4(address)
    case IoInt(line) => [MPCT_ENTRY_INT] + EncodeLine(line)
    case LocalInt(line) => [MPCT_ENTRY_LOCAL_INT] + EncodeLine(line)
  }

  predicate AllProper(es: seq<MpEntry>) {
    forall i :: 0 <= i < |es| ==> Proper(es[i])
  }

  function EncodeAll(es: seq<MpEntry>): seq<Byte>
    requires AllProper(es)
  {
    if es == [] then [] else Encode(es[0]) + EncodeAll(es[1..])
  }

  // ---- walking a table ----

  function DecodeLine(b: seq<Byte>): Line
    requires |b| >= 8
  {
    Line(b[1], Get2(b, 2), b[4], b[5], b[6], b[7])
  }

  /** The entry at the front of the bytes, by its type byte. */
  function Decode(b: seq<Byte>): Option<MpEntry> {
    if |b| < 8 then None
    else if b[0] == MPCT_ENTRY_PROCESSOR then
      if |b| < 20 then None else Some(Processor(b[1], b[2], b[3], Get4(b, 4), Get4(b, 8)))
    else if b[0] == MPCT_ENTRY_BUS then Some(Bus(b[1], b[2..8]))
    else if b[0] == MPCT_ENTRY_IOAPIC then Some(IoApic(b[1], b[2], b[3], Get4(b, 4)))
    else if b[0] == MPCT_ENTRY_INT then Some(IoInt(DecodeLine(b)))
    else if b[0] == MPCT_ENTRY_LOCAL_INT then Some(LocalInt(DecodeLine(b)))
    else None
  }

  /** The entries of a table of `count` entries, and the bytes they take. */
  datatype Walked = Bad | Good(entries: seq<MpEntry>, used: nat)

  function Walk(b: seq<Byte>, count: nat): Walked
    decreases count
  {
    if count == 0 then Good([], 0)
    else
      var first := Decode(b);
      if first.None? then Bad
      else
        var size := if first.value.Processor? then 20 else 8;
        if |b| < size then Bad
        else
          var rest := Walk(b[size..], count - 1);
          if rest.Bad? then Bad else Good([first.value] + rest.entries, size + rest.used)
  }

  lemma DecodeEncode(e: MpEntry, rest: seq<Byte>)
    requires Proper(e)
    ensures Decode(Encode(e) + rest) == Some(e)
  {
  }

  lemma WalkStep(e: MpEntry, more: seq<Byte>, count: nat)
    requires Proper(e) && Walk(more, count).Good?
    ensures var rest := Walk(more, count);
            Walk(Encode(e) + more, count + 1) == Good([e] + rest.entries, |Encode(e)| + rest.used)
  {
    var b := Encode(e) + more;
    DecodeEncode(e, more);
    assert b[|Encode(e)|..] == more;
  }

  /** Walking an encoded table gives back its entries and uses exactly its bytes, whatever follows. */
  lemma {:induction false} WalkEncoded(es: seq<MpEntry>, rest: seq<Byte>)
    requires AllProper(es)
    ensures Walk(EncodeAll(es) + rest, |es|) == Good(es, |EncodeAll(es)|)
  {
    if es != [] {
      var more := EncodeAll(es[1..]) + rest;
      WalkEncoded(es[1..], rest);
      WalkStep(es[0], more, |es| - 1);
      assert EncodeAll(es) + rest == Encode(es[0]) + more;
      assert [es[0]] + es[1..] == es;
    }
  }

  lemma {:induction false} EncodeConcat(es: seq<MpEntry>, fs: seq<MpEntry>)
    requires AllProper(es) && AllProper(fs)
    ensures EncodeAll(es + fs) == EncodeAll(es) + EncodeAll(fs)
  {
    if es == [] {
      assert es + fs == fs;
    } else {
      assert (es + fs)[1..] == es[1..] + fs;
      EncodeConcat(es[1..], fs);
    }
  }

  lemma EncodeOne(e: MpEntry)
    requires Proper(e)
    ensures EncodeAll([e]) == Encode(e)
  {
  }

  // ---- checksums ----

  function Sum(b: seq<Byte>): nat {
    if b == [] then 0 else Sum(b[..|b| - 1]) + b[|b| - 1]
  }

  lemma {:induction false} SumUpdate(b: seq<Byte>, i: nat, v: Byte)
    requires i < |b|
    ensures Sum(b[i := v]) == Sum(b) - b[i] + v
  {
    var n := |b| - 1;
    if i == n {
      assert b[i := v][..n] == b[..n];
    } else {
      assert b[i := v][..n] == b[..n][i := v];
      SumUpdate(b[..n], i, v);
    }
  }

  // ---- the table of a guest ----

  const LAPIC_PADDR := 0xFEE0_0000
  const LAPIC_VERSION := 16
  const IOAPIC_PADDR := 0xFEC0_0000
  const IOAPIC_VERSION := 0x11
  const MP_SPECREV := 4
  const PROCENTRY_FLAG_EN := 1
  const PROCENTRY_FLAG_BP := 2
  const IOAPICENTRY_FLAG_EN := 1
  const MPEP_SIG := 0x7A5  // family 6, model 26, stepping 5
  const MPEP_FEATURES := 0xBFEB_FBFF
  const INTENTRY_TYPE_INT := 0
  const INTENTRY_TYPE_NMI := 1
  const INTENTRY_TYPE_EXTINT := 3
  const INTENTRY_FLAGS_LEVEL_LOW := 0xF  // level triggered, active low
  const SCI_INT := 9
  const PCI_BUSES := 256

  // The signatures and names, as bytes.
  const MPFP_SIG: seq<Byte> := [0x5F, 0x4D, 0x50, 0x5F]
  const MPCH_SIG: seq<Byte> := [0x50, 0x43, 0x4D, 0x50]
  const MPCH_IDS: seq<Byte> := [0x42, 0x48, 0x79, 0x56, 0x65, 0x20, 0x20, 0x20, 0x48, 0x79,
                                0x70, 0x65, 0x72, 0x76, 0x69, 0x73, 0x6F, 0x72, 0x20, 0x20]
  const MPE_BUSNAME_PCI: seq<Byte> := [0x50, 0x43, 0x49, 0x20, 0x20, 0x20]
  const MPE_BUSNAME_ISA: seq<Byte> := [0x49, 0x53, 0x41, 0x20, 0x20, 0x20]

  /** A legacy interrupt pin of a PCI slot, as the walk of a bus reports it. */
  datatype Lintr = Lintr(slot: nat, pin: nat, ioapicIrq: Byte)

  predicate Sane(l: Lintr) {
    l.slot < 32 && 1 <= l.pin <= 4
  }

  /** The interrupts of each bus. */
  predicate SaneBuses(buses: seq<seq<Lintr>>) {
    |buses| == PCI_BUSES && forall i, j :: 0 <= i < |buses| && 0 <= j < |buses[i]| ==> Sane(buses[i][j])
  }

  function Cpu(i: nat): MpEntry {
    Processor(i % 0x100, LAPIC_VERSION, if i == 0 then PROCENTRY_FLAG_EN + PROCENTRY_FLAG_BP else PROCENTRY_FLAG_EN,
              MPEP_SIG, MPEP_FEATURES)
  }

  function Cpus(n: nat): (es: seq<MpEntry>)
    ensures |es| == n && AllProper(es)
  {
    if n == 0 then [] else Cpus(n - 1) + [Cpu(n - 1)]
  }

  const BUSES := [Bus(0, MPE_BUSNAME_PCI), Bus(1, MPE_BUSNAME_ISA)]

  /** The entry of an I/O APIC pin: pin 0 takes the legacy controller, pin 2 the timer, the rest their own interrupt. */
  function Pin(pin: nat, id: Byte): MpEntry
    requires pin < 16
  {
    IoInt(Line(if pin == 0 then INTENTRY_TYPE_EXTINT else INTENTRY_TYPE_INT,
               if pin == SCI_INT then INTENTRY_FLAGS_LEVEL_LOW else 0, 1,
               if pin == 2 then 0 else pin, id, pin))
  }

  function Pins(n: nat, id: Byte): (es: seq<MpEntry>)
    requires n <= 16
    ensures |es| == n && AllProper(es)
  {
    if n == 0 then [] else Pins(n - 1, id) + [Pin(n - 1, id)]
  }

  function PciInt(bus: Byte, l: Lintr, id: Byte): MpEntry
    requires Sane(l)
  {
    IoInt(Line(INTENTRY_TYPE_INT, 0, bus, 4 * l.slot + (l.pin - 1), id, l.ioapicIrq))
  }

  function BusInts(bus: Byte, ls: seq<Lintr>, id: Byte): (es: seq<MpEntry>)
    requires forall j :: 0 <= j < |ls| ==> Sane(ls[j])
    ensures |es| == |ls| && AllProper(es)
  {
    if ls == [] then [] else BusInts(bus, ls[..|ls| - 1], id) + [PciInt(bus, ls[|ls| - 1], id)]
  }

  function PciInts(buses: seq<seq<Lintr>>, n: nat, id: Byte): (es: seq<MpEntry>)
    requires SaneBuses(buses) && n <= PCI_BUSES
    ensures |es| == Count(buses, n) && AllProper(es)
  {
    if n == 0 then [] else PciInts(buses, n - 1, id) + BusInts(n - 1, buses[n - 1], id)
  }

  const LOCALS := [LocalInt(Line(INTENTRY_TYPE_EXTINT, 0, 0, 0, 0xFF, 0)),
                   LocalInt(Line(INTENTRY_TYPE_NMI, 0, 0, 0, 0xFF, 1))]

  function IoEntries(buses: seq<seq<Lintr>>, id: Byte): (es: seq<MpEntry>)
    requires SaneBuses(buses)
    ensures |es| == 1 + (16 + Count(buses, PCI_BUSES)) && AllProper(es)
  {
    [IoApic(id, IOAPIC_VERSION, IOAPICENTRY_FLAG_EN, IOAPIC_PADDR)] + Pins(16, id) + PciInts(buses, PCI_BUSES, id)
  }

  /** The entries for `ncpu` processors; a guest that owns its local APICs gets no I/O APIC. */
  function Entries(ncpu: nat, lapicPt: bool, buses: seq<seq<Lintr>>): (es: seq<MpEntry>)
    requires SaneBuses(buses)
    ensures AllProper(es)
    ensures |es| == ncpu + 2 + (if lapicPt then 0 else 1 + (16 + Count(buses, PCI_BUSES))) + 2
  {
    Cpus(ncpu) + BUSES + (if lapicPt then [] else IoEntries(buses, 0)) + LOCALS
  }

  /** The number of interrupts on the first `n` buses. */
  function Count(buses: seq<seq<Lintr>>, n: nat): nat
    requires n <= |buses|
  {
    if n == 0 then 0 else Count(buses, n - 1) + |buses[n - 1]|
  }
}

module MpTable {
  import opened MpSpec
  import opened Options

  const MPTABLE_BASE := 0xF_0000
  const MPTABLE_MAX_LENGTH := 65536 + 16

  // Offsets from the floating pointer: the header, its fields, and the entries.
  const HEADER := 16
  const LENGTH := HEADER + 4
  const CHECKSUM := HEADER + 7
  const OEM_POINTER := HEADER + 28
  const OEM_SIZE := HEADER + 32
  const COUNT := HEADER + 34
  const ENTRIES := HEADER + 44

  /** `m` holds the bytes `b` from index `at` on. */
  ghost predicate Laid(m: seq<Byte>, at: nat, b: seq<Byte>) {
    at + |b| <= |m| && forall i :: 0 <= i < |b| ==> m[at + i] == b[i]
  }

  /** The memory holds the entries `es`, and the cursor is just past them. */
  ghost predicate Built(m: seq<Byte>, es: seq<MpEntry>, at: nat) {
    AllProper(es) && at == ENTRIES + |EncodeAll(es)| && Laid(m, ENTRIES, EncodeAll(es))
  }

  lemma LaidConcat(m: seq<Byte>, at: nat, a: seq<Byte>, b: seq<Byte>)
    requires Laid(m, at, a) && Laid(m, at + |a|, b)
    ensures Laid(m, at, a + b)
  {
  }

  lemma Join(es: seq<MpEntry>, fs: seq<MpEntry>, gs: seq<MpEntry>)
    ensures es + fs + gs == es + (fs + gs)
  {
  }

  /** Writes a structure at a place in memory. */
  method Store(mem: array<Byte>, at: nat, b: seq<Byte>)
    requires at + |b| <= mem.Length
    modifies mem
    ensures Laid(mem[..], at, b)
    ensures forall k :: 0 <= k < at || at + |b| <= k < mem.Length ==> mem[k] == old(mem[k])
  {
    for i := 0 to |b|
      invariant forall k :: 0 <= k < i ==> mem[at + k] == b[k]
      invariant forall k :: 0 <= k < at || at + |b| <= k < mem.Length ==> mem[k] == old(mem[k])
    {
      mem[at + i] := b[i];
    }
  }

  method PutEntry(mem: array<Byte>, at: nat, e: MpEntry, ghost es: seq<MpEntry>) returns (next: nat)
    requires Proper(e) && Built(mem[..], es, at) && at + |Encode(e)| <= mem.Length
    modifies mem
    ensures Built(mem[..], es + [e], next) && next == at + |Encode(e)|
    ensures forall k :: 0 <= k < ENTRIES ==> mem[k] == old(mem[k])
  {
    Store(mem, at, Encode(e));
    next := at + |Encode(e)|;
    EncodeConcat(es, [e]);
    EncodeOne(e);
    LaidConcat(mem[..], ENTRIES, EncodeAll(es), Encode(e));
  }

  method BuildProcessor(mem: array<Byte>, at: nat, i: nat, ghost es: seq<MpEntry>) returns (next: nat)
    requires Built(mem[..], es, at) && at + 20 <= mem.Length
    modifies mem
    ensures Built(mem[..], es + [Cpu(i)], next) && next == at + 20
    ensures forall k :: 0 <= k < ENTRIES ==> mem[k] == old(mem[k])
  {
    var flags := PROCENTRY_FLAG_EN;
    if i == 0 {
      flags := flags + PROCENTRY_FLAG_BP;
    }
    next := PutEntry(mem, at, Processor(i % 0x100, LAPIC_VERSION, flags, MPEP_SIG, MPEP_FEATURES), es);
  }

  method BuildProcessors(mem: array<Byte>, at: nat, ncpu: nat, ghost es: seq<MpEntry>) returns (next: nat)
    requires Built(mem[..], es, at) && at + 20 * ncpu <= mem.Length
    modifies mem
    ensures Built(mem[..], es + Cpus(ncpu), next) && next == at + 20 * ncpu
    ensures forall k :: 0 <= k < ENTRIES ==> mem[k] == old(mem[k])
  {
    next := at;
    ghost var now := es;
    for i := 0 to ncpu
      invariant now == es + Cpus(i)
      invariant Built(mem[..], now, next) && next == at + 20 * i
      invariant forall k :: 0 <= k < ENTRIES ==> mem[k] == old(mem[k])
    {
      next := BuildProcessor(mem, next, i, now);
      Join(es, Cpus(i), [Cpu(i)]);
      now := now + [Cpu(i)];
    }
  }

  method BuildBuses(mem: array<Byte>, at: nat, ghost es: seq<MpEntry>) returns (next: nat)
    requires Built(mem[..], es, at) && at + 16 <= mem.Length
    modifies mem
    ensures Built(mem[..], es + BUSES, next) && next == at + 16
    ensures forall k :: 0 <= k < ENTRIES ==> mem[k] == old(mem[k])
  {
    next := PutEntry(mem, at, Bus(0, MPE_BUSNAME_PCI), es);
    next := PutEntry(mem, next, Bus(1, MPE_BUSNAME_ISA), es + [Bus(0, MPE_BUSNAME_PCI)]);
    assert es + [Bus(0, MPE_BUSNAME_PCI)] + [Bus(1, MPE_BUSNAME_ISA)] == es + BUSES;
  }

  method BuildIoApic(mem: array<Byte>, at: nat, id: Byte, ghost es: seq<MpEntry>) returns (next: nat)
    requires Built(mem[..], es, at) && at + 8 <= mem.Length
    modifies mem
    ensures Built(mem[..], es + [IoApic(id, IOAPIC_VERSION, IOAPICENTRY_FLAG_EN, IOAPIC_PADDR)], next) && next == at + 8
    ensures forall k :: 0 <= k < ENTRIES ==> mem[k] == old(mem[k])
  {
    next := PutEntry(mem, at, IoApic(id, IOAPIC_VERSION, IOAPICENTRY_FLAG_EN, IOAPIC_PADDR), es);
  }

  method CountIoInts(buses: seq<seq<Lintr>>) returns (count: nat)
    requires |buses| == PCI_BUSES
    ensures count == 16 + Count(buses, PCI_BUSES)
  {
    count := 0;
    for bus := 0 to PCI_BUSES
      invariant count == Count(buses, bus)
    {
      count := count + |buses[bus]|;
    }
    count := 16 + count;
  }

  method BuildPin(mem: array<Byte>, at: nat, pin: nat, id: Byte, ghost es: seq<MpEntry>) returns (next: nat)
    requires pin < 16 && Built(mem[..], es, at) && at + 8 <= mem.Length
    modifies mem
    ensures Built(mem[..], es + [Pin(pin, id)], next) && next == at + 8
    ensures forall k :: 0 <= k < ENTRIES ==> mem[k] == old(mem[k])
  {
    var line := Line(0, 0, 1, 0, id, pin);
    if pin == 0 {
      line := line.(kind := INTENTRY_TYPE_EXTINT);
    } else if pin == 2 {
      line := line.(kind := INTENTRY_TYPE_INT, srcIrq := 0);
    } else if pin == SCI_INT {
      line := line.(flags := INTENTRY_FLAGS_LEVEL_LOW, kind := INTENTRY_TYPE_INT, srcIrq := SCI_INT);
    } else {
      line := line.(kind := INTENTRY_TYPE_INT, srcIrq := pin);
    }
    next := PutEntry(mem, at, IoInt(line), es);
  }

  lemma LastDstId(m: seq<Byte>, es: seq<MpEntry>, at: nat)
    requires Built(m, es, at) && es != [] && es[|es| - 1].IoInt?
    ensures m[at - 2] == es[|es| - 1].line.dstId
  {
    var n := |es| - 1;
    assert es == es[..n] + [es[n]];
    EncodeConcat(es[..n], [es[n]]);
    EncodeOne(es[n]);
    var b := EncodeAll(es);
    assert m[ENTRIES + (|b| - 2)] == b[|b| - 2];
  }

  /** The callback of the walk: takes the I/O APIC id from the entry before the cursor. */
  method GeneratePciInt(mem: array<Byte>, at: nat, bus: Byte, l: Lintr, ghost es: seq<MpEntry>) returns (next: nat)
    requires Sane(l) && Built(mem[..], es, at) && at + 8 <= mem.Length && es != [] && es[|es| - 1].IoInt?
    modifies mem
    ensures Built(mem[..], es + [PciInt(bus, l, es[|es| - 1].line.dstId)], next) && next == at + 8
    ensures forall k :: 0 <= k < ENTRIES ==> mem[k] == old(mem[k])
  {
    LastDstId(mem[..], es, at);
    var id := mem[at - 2];
    next := PutEntry(mem, at, IoInt(Line(INTENTRY_TYPE_INT, 0, bus, 4 * l.slot + (l.pin - 1), id, l.ioapicIrq)), es);
  }

  /** The last entry is an I/O interrupt for the APIC `id`. */
  ghost predicate LastFor(es: seq<MpEntry>, id: Byte) {
    es != [] && es[|es| - 1].IoInt? && es[|es| - 1].line.dstId == id
  }

  method WalkBus(mem: array<Byte>, at: nat, bus: Byte, ls: seq<Lintr>, ghost id: Byte, ghost es: seq<MpEntry>)
    returns (next: nat)
    requires forall j :: 0 <= j < |ls| ==> Sane(ls[j])
    requires Built(mem[..], es, at) && at + 8 * |ls| <= mem.Length && LastFor(es, id)
    modifies mem
    ensures Built(mem[..], es + BusInts(bus, ls, id), next) && next == at + 8 * |ls|
    ensures LastFor(es + BusInts(bus, ls, id), id)
    ensures forall k :: 0 <= k < ENTRIES ==> mem[k] == old(mem[k])
  {
    next := at;
    ghost var now := es;
    for i := 0 to |ls|
      invariant now == es + BusInts(bus, ls[..i], id) && LastFor(now, id)
      invariant Built(mem[..], now, next) && next == at + 8 * i
      invariant forall k :: 0 <= k < ENTRIES ==> mem[k] == old(mem[k])
    {
      assert ls[..i + 1][..i] == ls[..i];
      next := GeneratePciInt(mem, next, bus, ls[i], now);
      Join(es, BusInts(bus, ls[..i], id), [PciInt(bus, ls[i], id)]);
      now := now + [PciInt(bus, ls[i], id)];
    }
    assert ls[..|ls|] == ls;
  }

  method WalkBuses(mem: array<Byte>, at: nat, buses: seq<seq<Lintr>>, ghost id: Byte, ghost es: seq<MpEntry>)
    returns (next: nat)
    requires SaneBuses(buses) && Built(mem[..], es, at) && LastFor(es, id)
    requires at + 8 * Count(buses, PCI_BUSES) <= mem.Length
    modifies mem
    ensures Built(mem[..], es + PciInts(buses, PCI_BUSES, id), next) && next == at + 8 * Count(buses, PCI_BUSES)
    ensures forall k :: 0 <= k < ENTRIES ==> mem[k] == old(mem[k])
  {
    next := at;
    ghost var now := es;
    for bus := 0 to PCI_BUSES
      invariant now == es + PciInts(buses, bus, id) && LastFor(now, id)
      invariant Built(mem[..], now, next) && next == at + 8 * Count(buses, bus)
      invariant forall k :: 0 <= k < ENTRIES ==> mem[k] == old(mem[k])
    {
      CountGrows(buses, bus + 1, PCI_BUSES);
      next := WalkBus(mem, next, bus, buses[bus], id, now);
      Join(es, PciInts(buses, bus, id), BusInts(bus, buses[bus], id));
      now := now + BusInts(bus, buses[bus], id);
    }
  }

  lemma {:induction false} CountGrows(buses: seq<seq<Lintr>>, m: nat, n: nat)
    requires m <= n <= |buses|
    ensures Count(buses, m) <= Count(buses, n)
  {
    if m < n {
      CountGrows(buses, m, n - 1);
    }
  }

  method BuildPins(mem: array<Byte>, at: nat, id: Byte, ghost es: seq<MpEntry>) returns (next: nat)
    requires Built(mem[..], es, at) && at + 128 <= mem.Length
    modifies mem
    ensures Built(mem[..], es + Pins(16, id), next) && next == at + 128
    ensures LastFor(es + Pins(16, id), id)
    ensures forall k :: 0 <= k < ENTRIES ==> mem[k] == old(mem[k])
  {
    next := at;
    ghost var now := es;
    for pin := 0 to 16
      invariant now == es + Pins(pin, id)
      invariant Built(mem[..], now, next) && next == at + 8 * pin
      invariant forall k :: 0 <= k < ENTRIES ==> mem[k] == old(mem[k])
    {
      next := BuildPin(mem, next, pin, id, now);
      Join(es, Pins(pin, id), [Pin(pin, id)]);
      now := now + [Pin(pin, id)];
    }
    assert es + Pins(16, id) == es + Pins(15, id) + [Pin(15, id)];
  }

  method BuildIoInts(mem: array<Byte>, at: nat, id: Byte, buses: seq<seq<Lintr>>, ghost es: seq<MpEntry>)
    returns (next: nat)
    requires SaneBuses(buses) && Built(mem[..], es, at)
    requires at + 8 * (16 + Count(buses, PCI_BUSES)) <= mem.Length
    modifies mem
    ensures Built(mem[..], es + (Pins(16, id) + PciInts(buses, PCI_BUSES, id)), next)
    ensures next == at + 8 * (16 + Count(buses, PCI_BUSES))
    ensures forall k :: 0 <= k < ENTRIES ==> mem[k] == old(mem[k])
  {
    next := BuildPins(mem, at, id, es);
    next := WalkBuses(mem, next, buses, id, es + Pins(16, id));
    Join(es, Pins(16, id), PciInts(buses, PCI_BUSES, id));
  }

  method BuildLocals(mem: array<Byte>, at: nat, ghost es: seq<MpEntry>) returns (next: nat)
    requires Built(mem[..], es, at) && at + 16 <= mem.Length
    modifies mem
    ensures Built(mem[..], es + LOCALS, next) && next == at + 16
    ensures forall k :: 0 <= k < ENTRIES ==> mem[k] == old(mem[k])
  {
    next := PutEntry(mem, at, LocalInt(Line(INTENTRY_TYPE_EXTINT, 0, 0, 0, 0xFF, 0)), es);
    next := PutEntry(mem, next, LocalInt(Line(INTENTRY_TYPE_NMI, 0, 0, 0, 0xFF, 1)), es + [LOCALS[0]]);
    assert es + [LOCALS[0]] + [LOCALS[1]] == es + LOCALS;
  }

  // ---- checksums and the two headers ----

  lemma SumMod(total: nat, sum: Byte, b: Byte)
    requires (total - sum) % 0x100 == 0
    ensures (total + b - (sum + b) % 0x100) % 0x100 == 0
  {
  }

  lemma SumNegated(total: nat, sum: Byte)
    requires (total - sum) % 0x100 == 0
    ensures (total + (0x100 - sum) % 0x100) % 0x100 == 0
  {
  }

  /** The byte that makes the range sum to zero modulo 256. */
  method ComputeChecksum(mem: array<Byte>, base: nat, len: nat) returns (r: Byte)
    requires base + len <= mem.Length
    ensures (Sum(mem[base..base + len]) + r) % 0x100 == 0
  {
    var sum: Byte := 0;
    for i := base to base + len
      invariant (Sum(mem[base..i]) - sum) % 0x100 == 0
    {
      assert mem[base..i + 1][..i - base] == mem[base..i];
      SumMod(Sum(mem[base..i]), sum, mem[i]);
      sum := (sum + mem[i]) % 0x100;
    }
    SumNegated(Sum(mem[base..base + len]), sum);
    r := (0x100 - sum) % 0x100;
  }

  /** Setting a zero byte of a range to the checksum of the range makes the range sum to zero. */
  method SetChecksum(mem: array<Byte>, base: nat, len: nat, at: nat)
    requires base <= at < mem.Length && base + len <= mem.Length && mem[at] == 0
    modifies mem
    ensures at < base + len ==> Sum(mem[base..base + len]) % 0x100 == 0
    ensures forall k :: 0 <= k < mem.Length && k != at ==> mem[k] == old(mem[k])
  {
    var sum := ComputeChecksum(mem, base, len);
    ghost var b := mem[base..base + len];
    mem[at] := sum;
    if at < base + len {
      SumUpdate(b, at - base, sum);
      assert mem[base..base + len] == b[at - base := sum];
    }
  }

  method Set2(mem: array<Byte>, at: nat, x: Half)
    requires at + 2 <= mem.Length
    modifies mem
    ensures Get2(mem[..], at) == x
    ensures forall k :: 0 <= k < mem.Length && k != at && k != at + 1 ==> mem[k] == old(mem[k])
  {
    mem[at], mem[at + 1] := x % 0x100, x / 0x100;
  }

  method Set4(mem: array<Byte>, at: nat, x: Full)
    requires at + 4 <= mem.Length
    modifies mem
    ensures Get4(mem[..], at) == x
    ensures forall k :: 0 <= k < at || at + 4 <= k < mem.Length ==> mem[k] == old(mem[k])
  {
    Set2(mem, at, x % 0x1_0000);
    Set2(mem, at + 2, x / 0x1_0000);
  }

  method Clear(mem: array<Byte>, at: nat, n: nat)
    requires at + n <= mem.Length
    modifies mem
    ensures forall k :: at <= k < at + n ==> mem[k] == 0
    ensures forall k :: 0 <= k < at || at + n <= k < mem.Length ==> mem[k] == old(mem[k])
  {
    forall k | at <= k < at + n {
      mem[k] := 0;
    }
  }

  /** Adds to the 16-bit entry count in the header. */
  method AddCount(mem: array<Byte>, n: nat, ghost es: seq<MpEntry>, ghost at: nat)
    requires Built(mem[..], es, at) && Get2(mem[..], COUNT) + n < 0x1_0000
    modifies mem
    ensures Built(mem[..], es, at) && Get2(mem[..], COUNT) == old(Get2(mem[..], COUNT)) + n
    ensures forall k :: 0 <= k < ENTRIES && k != COUNT && k != COUNT + 1 ==> mem[k] == old(mem[k])
  {
    ghost var was := mem[..];
    var high: int := mem[COUNT + 1];
    Set2(mem, COUNT, (mem[COUNT] + 0x100 * high + n) % 0x1_0000);
    LaidKept(was, mem[..], ENTRIES, EncodeAll(es));
  }

  lemma LaidKept(m: seq<Byte>, now: seq<Byte>, at: nat, b: seq<Byte>)
    requires Laid(m, at, b) && |now| == |m| && forall k :: at <= k < at + |b| ==> now[k] == m[k]
    ensures Laid(now, at, b)
  {
  }

  /** The bytes of the entries. */
  function Size(ncpu: nat, lapicPt: bool, buses: seq<seq<Lintr>>): nat
    requires SaneBuses(buses)
  {
    20 * ncpu + 16 + (if lapicPt then 0 else 8 + 8 * (16 + Count(buses, PCI_BUSES))) + 16
  }

  method BuildIoEntries(mem: array<Byte>, at: nat, buses: seq<seq<Lintr>>, ghost es: seq<MpEntry>) returns (next: nat)
    requires SaneBuses(buses) && Built(mem[..], es, at)
    requires at + 8 + 8 * (16 + Count(buses, PCI_BUSES)) <= mem.Length
    requires Get2(mem[..], COUNT) + 1 + (16 + Count(buses, PCI_BUSES)) < 0x1_0000
    modifies mem
    ensures Built(mem[..], es + IoEntries(buses, 0), next) && next == at + 8 + 8 * (16 + Count(buses, PCI_BUSES))
    ensures Get2(mem[..], COUNT) == old(Get2(mem[..], COUNT)) + |IoEntries(buses, 0)|
    ensures forall k :: 0 <= k < ENTRIES && k != COUNT && k != COUNT + 1 ==> mem[k] == old(mem[k])
  {
    ghost var apic := [IoApic(0, IOAPIC_VERSION, IOAPICENTRY_FLAG_EN, IOAPIC_PADDR)];
    ghost var ints := Pins(16, 0) + PciInts(buses, PCI_BUSES, 0);
    next := BuildIoApic(mem, at, 0, es);
    AddCount(mem, 1, es + apic, next);
    var ioints := CountIoInts(buses);
    // The callbacks advance a cursor of their own; the table's cursor advances by the count.
    ghost var reached := BuildIoInts(mem, next, 0, buses, es + apic);
    next := next + 8 * ioints;
    AddCount(mem, ioints, es + apic + ints, next);
    Join(es, apic, ints);
    assert apic + ints == IoEntries(buses, 0) by {
      Join(apic, Pins(16, 0), PciInts(buses, PCI_BUSES, 0));
    }
  }

  method BuildMiddle(mem: array<Byte>, at: nat, lapicPt: bool, buses: seq<seq<Lintr>>, ghost es: seq<MpEntry>)
    returns (next: nat)
    requires SaneBuses(buses) && Built(mem[..], es, at) && at + Size(0, lapicPt, buses) <= mem.Length
    requires Get2(mem[..], COUNT) + Size(0, lapicPt, buses) < 0x1_0000
    modifies mem
    ensures Built(mem[..], es + BUSES + (if lapicPt then [] else IoEntries(buses, 0)), next)
    ensures next + 16 == at + Size(0, lapicPt, buses)
    ensures Get2(mem[..], COUNT) == old(Get2(mem[..], COUNT)) + 2 + if lapicPt then 0 else |IoEntries(buses, 0)|
    ensures forall k :: 0 <= k < ENTRIES && k != COUNT && k != COUNT + 1 ==> mem[k] == old(mem[k])
  {
    next := BuildBuses(mem, at, es);
    AddCount(mem, 2, es + BUSES, next);
    if !lapicPt {
      next := BuildIoEntries(mem, next, buses, es + BUSES);
    } else {
      assert es + BUSES + [] == es + BUSES;
    }
  }

  method BuildEntries(mem: array<Byte>, ncpu: nat, lapicPt: bool, buses: seq<seq<Lintr>>) returns (at: nat)
    requires SaneBuses(buses) && ENTRIES + Size(ncpu, lapicPt, buses) <= mem.Length
    requires Size(ncpu, lapicPt, buses) < 0x1_0000 && Get2(mem[..], COUNT) == 0
    modifies mem
    ensures Built(mem[..], Entries(ncpu, lapicPt, buses), at) && at == ENTRIES + Size(ncpu, lapicPt, buses)
    ensures Get2(mem[..], COUNT) == |Entries(ncpu, lapicPt, buses)|
    ensures forall k :: 0 <= k < ENTRIES && k != COUNT && k != COUNT + 1 ==> mem[k] == old(mem[k])
  {
    at := BuildProcessors(mem, ENTRIES, ncpu, []);
    assert [] + Cpus(ncpu) == Cpus(ncpu);
    AddCount(mem, ncpu, Cpus(ncpu), at);
    at := BuildMiddle(mem, at, lapicPt, buses, Cpus(ncpu));
    ghost var es := Cpus(ncpu) + BUSES + if lapicPt then [] else IoEntries(buses, 0);
    at := BuildLocals(mem, at, es);
    AddCount(mem, 2, es + LOCALS, at);
  }

  /** Section 4.1 of the MultiProcessor Specification 1.4: the floating pointer, to the table right after it. */
  ghost predicate Floating(m: seq<Byte>)
    requires |m| >= HEADER
  {
    && Laid(m, 0, MPFP_SIG)
    && Get4(m, 4) == MPTABLE_BASE + HEADER
    && m[8] == 1 && m[9] == MP_SPECREV
    && m[11] == m[12] == m[13] == m[14] == m[15] == 0
    && Sum(m[0..HEADER]) % 0x100 == 0
  }

  method BuildFloating(mem: array<Byte>, gpa: Full)
    requires mem.Length >= HEADER && gpa + HEADER < 0x1_0000_0000
    modifies mem
    ensures gpa == MPTABLE_BASE ==> Floating(mem[..])
    ensures forall k :: HEADER <= k < mem.Length ==> mem[k] == old(mem[k])
  {
    Clear(mem, 0, HEADER);
    Store(mem, 0, MPFP_SIG);
    ghost var signed := mem[..];
    Set4(mem, 4, gpa + HEADER);
    mem[8] := 1;
    mem[9] := MP_SPECREV;
    SetChecksum(mem, 0, HEADER, 10);
    LaidKept(signed, mem[..], 0, MPFP_SIG);
    assert mem[..][0..HEADER] == mem[0..0 + HEADER];
  }

  /** Section 4.2 of the MultiProcessor Specification 1.4: the header, but for its checksum. */
  ghost predicate Header(m: seq<Byte>, length: Half, oemPointer: Full, oemSize: Half, count: Half)
    requires |m| >= ENTRIES
  {
    && Laid(m, HEADER, MPCH_SIG)
    && Get2(m, LENGTH) == length
    && m[HEADER + 6] == MP_SPECREV
    && Laid(m, HEADER + 8, MPCH_IDS)
    && Get4(m, OEM_POINTER) == oemPointer
    && Get2(m, OEM_SIZE) == oemSize
    && Get2(m, COUNT) == count
    && Get4(m, HEADER + 36) == LAPIC_PADDR
    && m[HEADER + 40] == m[HEADER + 41] == m[HEADER + 42] == m[HEADER + 43] == 0
  }

  method BuildHeader(mem: array<Byte>)
    requires mem.Length >= ENTRIES
    modifies mem
    ensures Header(mem[..], 0, 0, 0, 0) && mem[CHECKSUM] == 0
    ensures forall k :: 0 <= k < HEADER ==> mem[k] == old(mem[k])
  {
    Clear(mem, HEADER, ENTRIES - HEADER);
    Store(mem, HEADER, MPCH_SIG);
    ghost var signed := mem[..];
    mem[HEADER + 6] := MP_SPECREV;
    Store(mem, HEADER + 8, MPCH_IDS);
    ghost var named := mem[..];
    Set4(mem, HEADER + 36, LAPIC_PADDR);
    LaidKept(signed, mem[..], HEADER, MPCH_SIG);
    LaidKept(named, mem[..], HEADER + 8, MPCH_IDS);
  }

  /** The table `m` says it holds `es`: a guest that walks it by its own length and count finds exactly them. */
  ghost predicate Describes(m: seq<Byte>, es: seq<MpEntry>)
    requires |m| >= ENTRIES
  {
    var length, count := Get2(m, LENGTH), Get2(m, COUNT);
    && ENTRIES <= HEADER + length <= |m|
    && Sum(m[HEADER..HEADER + length]) % 0x100 == 0
    && Walk(m[ENTRIES..HEADER + length], count) == Good(es, HEADER + length - ENTRIES)
  }

  lemma WalkBuilt(m: seq<Byte>, es: seq<MpEntry>, at: nat)
    requires Built(m, es, at) && at <= |m|
    ensures Walk(m[ENTRIES..at], |es|) == Good(es, at - ENTRIES)
  {
    WalkEncoded(es, []);
    assert EncodeAll(es) + [] == EncodeAll(es);
    assert m[ENTRIES..at] == EncodeAll(es) by {
      forall i | 0 <= i < |EncodeAll(es)|
        ensures m[ENTRIES..at][i] == EncodeAll(es)[i]
      {
        assert m[ENTRIES + i] == EncodeAll(es)[i];
      }
    }
  }

  /** Points the header at a vendor's table and copies that table after the entries. */
  method AddOemTable(mem: array<Byte>, at: nat, oem: seq<Byte>, ghost es: seq<MpEntry>)
    requires Built(mem[..], es, at) && at + |oem| <= mem.Length && MPTABLE_BASE + at < 0x1_0000_0000
    requires |es| < 0x1_0000 && Header(mem[..], 0, 0, 0, |es|) && mem[CHECKSUM] == 0
    modifies mem
    ensures Header(mem[..], 0, MPTABLE_BASE + at, |oem| % 0x1_0000, |es|) && mem[CHECKSUM] == 0
    ensures Built(mem[..], es, at) && Laid(mem[..], at, oem)
    ensures forall k :: 0 <= k < HEADER ==> mem[k] == old(mem[k])
  {
    ghost var was := mem[..];
    Set4(mem, OEM_POINTER, at + MPTABLE_BASE);
    Set2(mem, OEM_SIZE, |oem| % 0x1_0000);
    Store(mem, at, oem);
    LaidKept(was, mem[..], ENTRIES, EncodeAll(es));
    LaidKept(was, mem[..], HEADER, MPCH_SIG);
    LaidKept(was, mem[..], HEADER + 8, MPCH_IDS);
  }

  method Seal(mem: array<Byte>, length: Half)
    requires mem.Length >= ENTRIES && HEADER + length <= mem.Length && mem[CHECKSUM] == 0
    modifies mem
    ensures Get2(mem[..], LENGTH) == length
    ensures CHECKSUM < HEADER + length ==> Sum(mem[..][HEADER..HEADER + length]) % 0x100 == 0
    ensures forall k :: 0 <= k < mem.Length && k != LENGTH && k != LENGTH + 1 && k != CHECKSUM ==> mem[k] == old(mem[k])
  {
    Set2(mem, LENGTH, length);
    SetChecksum(mem, HEADER, length, CHECKSUM);
    assert mem[..][HEADER..HEADER + length] == mem[HEADER..HEADER + length];
  }

  /** Records the length, modulo 2^16, and makes the table sum to zero if the length is right. */
  method Finish(mem: array<Byte>, at: nat, ghost pointer: Full, ghost size: Half, ghost es: seq<MpEntry>)
    requires Built(mem[..], es, at) && at - HEADER <= 0x1_0000 && |es| < 0x1_0000
    requires Header(mem[..], 0, pointer, size, |es|) && mem[CHECKSUM] == 0
    modifies mem
    ensures at - HEADER < 0x1_0000 ==> Header(mem[..], at - HEADER, pointer, size, |es|) && Describes(mem[..], es)
    ensures at - HEADER == 0x1_0000 ==> Get2(mem[..], LENGTH) == 0
    ensures forall k :: 0 <= k < HEADER || at <= k < mem.Length ==> mem[k] == old(mem[k])
  {
    ghost var was := mem[..];
    var length := (at - HEADER) % 0x1_0000;
    LowHalf(at - HEADER);
    Seal(mem, length);
    if length == at - HEADER {
      HeaderSized(was, mem[..], length, pointer, size, |es|);
      LaidKept(was, mem[..], ENTRIES, EncodeAll(es));
      DescribesBuilt(mem[..], es, at);
    }
  }

  lemma LowHalf(x: nat)
    requires x <= 0x1_0000
    ensures x % 0x1_0000 == if x < 0x1_0000 then x else 0
  {
  }

  lemma DescribesBuilt(m: seq<Byte>, es: seq<MpEntry>, at: nat)
    requires Built(m, es, at) && Get2(m, LENGTH) == at - HEADER && Get2(m, COUNT) == |es|
    requires Sum(m[HEADER..at]) % 0x100 == 0
    ensures Describes(m, es)
  {
    WalkBuilt(m, es, at);
  }

  lemma NoLength(m: seq<Byte>, es: seq<MpEntry>)
    requires |m| >= ENTRIES && Get2(m, LENGTH) == 0
    ensures !Describes(m, es)
  {
  }

  lemma HeaderSized(m: seq<Byte>, now: seq<Byte>, length: Half, pointer: Full, size: Half, count: Half)
    requires |m| == |now| >= ENTRIES && Header(m, 0, pointer, size, count) && Get2(now, LENGTH) == length
    requires forall k :: 0 <= k < ENTRIES && k != LENGTH && k != LENGTH + 1 && k != CHECKSUM ==> now[k] == m[k]
    ensures Header(now, length, pointer, size, count)
  {
  }

  /** The header, the entries `es` and the vendor's table `oem`, if any. */
  ghost predicate Tabled(m: seq<Byte>, es: seq<MpEntry>, oem: Option<seq<Byte>>)
    requires |m| >= ENTRIES && |es| < 0x1_0000
  {
    var at := HEADER + Get2(m, LENGTH);
    && Describes(m, es)
    && (oem.None? ==> Header(m, at - HEADER, 0, 0, |es|))
    && (oem.Some? ==> Header(m, at - HEADER, MPTABLE_BASE + at, |oem.value| % 0x1_0000, |es|) && Laid(m, at, oem.value))
  }

  /** The entries, and a vendor's table after them, fit the memory set aside for the table. */
  predicate Fits(ncpu: nat, lapicPt: bool, buses: seq<seq<Lintr>>, oem: Option<seq<Byte>>)
    requires SaneBuses(buses)
  {
    && ENTRIES + Size(ncpu, lapicPt, buses) <= MPTABLE_MAX_LENGTH
    && (oem.Some? ==> ENTRIES + Size(ncpu, lapicPt, buses) + |oem.value| <= MPTABLE_MAX_LENGTH)
  }

  /** With the cursor at `at`: the table is complete if its length fits, and does not describe its entries if not. */
  ghost predicate Closed(m: seq<Byte>, es: seq<MpEntry>, oem: Option<seq<Byte>>, at: nat)
    requires |m| >= ENTRIES && |es| < 0x1_0000
  {
    if at - HEADER < 0x1_0000 then Tabled(m, es, oem) else !Describes(m, es)
  }

  /** The length of the table fits its 16-bit field. */
  predicate Short(ncpu: nat, lapicPt: bool, buses: seq<seq<Lintr>>)
    requires SaneBuses(buses)
  {
    ENTRIES - HEADER + Size(ncpu, lapicPt, buses) < 0x1_0000
  }

  method Fill(mem: array<Byte>, ncpu: nat, lapicPt: bool, buses: seq<seq<Lintr>>, oem: Option<seq<Byte>>)
    requires mem.Length == MPTABLE_MAX_LENGTH && SaneBuses(buses) && Fits(ncpu, lapicPt, buses, oem)
    modifies mem
    ensures Floating(mem[..])
    ensures Closed(mem[..], Entries(ncpu, lapicPt, buses), oem, ENTRIES + Size(ncpu, lapicPt, buses))
  {
    var at := Begin(mem, ncpu, lapicPt, buses);
    ghost var floating := mem[..];
    CloseTable(mem, at, oem, Entries(ncpu, lapicPt, buses));
    FloatingKept(floating, mem[..]);
  }

  /** The floating pointer, the header but for its sizes, and the entries. */
  method Begin(mem: array<Byte>, ncpu: nat, lapicPt: bool, buses: seq<seq<Lintr>>) returns (at: nat)
    requires mem.Length == MPTABLE_MAX_LENGTH && SaneBuses(buses) && Fits(ncpu, lapicPt, buses, None)
    modifies mem
    ensures Floating(mem[..]) && at == ENTRIES + Size(ncpu, lapicPt, buses)
    ensures var es := Entries(ncpu, lapicPt, buses);
      |es| < 0x1_0000 && Header(mem[..], 0, 0, 0, |es|) && mem[CHECKSUM] == 0 && Built(mem[..], es, at)
  {
    BuildFloating(mem, MPTABLE_BASE);
    ghost var floating := mem[..];
    BuildHeader(mem);
    ghost var headed := mem[..];
    at := BuildEntries(mem, ncpu, lapicPt, buses);
    HeaderCounted(headed, mem[..], |Entries(ncpu, lapicPt, buses)|);
    FloatingKept(floating, mem[..]);
  }

  method CloseTable(mem: array<Byte>, at: nat, oem: Option<seq<Byte>>, ghost es: seq<MpEntry>)
    requires Built(mem[..], es, at) && at - HEADER <= 0x1_0000 && |es| < 0x1_0000
    requires Header(mem[..], 0, 0, 0, |es|) && mem[CHECKSUM] == 0
    requires oem.Some? ==> at + |oem.value| <= mem.Length
    modifies mem
    ensures Closed(mem[..], es, oem, at)
    ensures forall k :: 0 <= k < HEADER ==> mem[k] == old(mem[k])
  {
    if oem.Some? {
      AddOemTable(mem, at, oem.value, es);
      ghost var copied := mem[..];
      Finish(mem, at, MPTABLE_BASE + at, |oem.value| % 0x1_0000, es);
      LaidKept(copied, mem[..], at, oem.value);
    } else {
      Finish(mem, at, 0, 0, es);
    }
    if at - HEADER == 0x1_0000 {
      NoLength(mem[..], es);
    }
  }

  lemma FloatingKept(m: seq<Byte>, now: seq<Byte>)
    requires |m| == |now| >= HEADER && Floating(m) && forall k :: 0 <= k < HEADER ==> now[k] == m[k]
    ensures Floating(now)
  {
    LaidKept(m, now, 0, MPFP_SIG);
    assert now[0..HEADER] == m[0..HEADER];
  }

  lemma HeaderCounted(m: seq<Byte>, now: seq<Byte>, count: Half)
    requires |m| == |now| >= ENTRIES && Header(m, 0, 0, 0, 0) && Get2(now, COUNT) == count
    requires forall k :: 0 <= k < ENTRIES && k != COUNT && k != COUNT + 1 ==> now[k] == m[k]
    ensures Header(now, 0, 0, 0, count)
  {
  }

  /**
   Builds the table at the start of `mem`, the guest's memory from MPTABLE_BASE on.  It fails,
   touching nothing, exactly when that memory is not mapped or a bus other than 0 is configured.
   Otherwise the table describes its entries exactly when its length fits the 16-bit field.
   */
  method Build(mem: array?<Byte>, configured: set<nat>, ncpu: nat, lapicPt: bool, buses: seq<seq<Lintr>>,
               oem: Option<seq<Byte>>) returns (ret: int)
    requires mem != null ==> mem.Length == MPTABLE_MAX_LENGTH
    requires SaneBuses(buses) && Fits(ncpu, lapicPt, buses, oem)
    modifies mem
    ensures ret == 0 || ret == -1
    ensures ret == -1 <==> mem == null || exists bus :: bus in configured && 1 <= bus < PCI_BUSES
    ensures ret == -1 && mem != null ==> mem[..] == old(mem[..])
    ensures ret == 0 ==> Floating(mem[..]) && (Describes(mem[..], Entries(ncpu, lapicPt, buses)) <==> Short(ncpu, lapicPt, buses))
    ensures ret == 0 && Short(ncpu, lapicPt, buses) ==> Tabled(mem[..], Entries(ncpu, lapicPt, buses), oem)
  {
    if mem == null {
      return -1;
    }
    for bus := 1 to PCI_BUSES
      invariant forall b :: b in configured && 1 <= b < bus ==> false
      invariant mem[..] == old(mem[..])
    {
      if bus in configured {
        return -1;
      }
    }
    Fill(mem, ncpu, lapicPt, buses, oem);
    return 0;
  }

  // ---- where interrupts go ----

  /** Every I/O interrupt is for the APIC `id`. */
  predicate AllFor(es: seq<MpEntry>, id: Byte) {
    forall i :: 0 <= i < |es| ==> (es[i].IoInt? ==> es[i].line.dstId == id) && (es[i].IoApic? ==> es[i].apicId == id)
  }

  lemma JoinFor(es: seq<MpEntry>, fs: seq<MpEntry>, id: Byte)
    requires AllFor(es, id) && AllFor(fs, id)
    ensures AllFor(es + fs, id)
  {
  }

  lemma {:induction false} CpusFor(n: nat)
    ensures AllFor(Cpus(n), 0)
  {
    if n > 0 {
      CpusFor(n - 1);
    }
  }

  lemma {:induction false} PinsFor(n: nat, id: Byte)
    requires n <= 16
    ensures AllFor(Pins(n, id), id)
  {
    if n > 0 {
      PinsFor(n - 1, id);
    }
  }

  lemma {:induction false} BusIntsFor(bus: Byte, ls: seq<Lintr>, id: Byte)
    requires forall j :: 0 <= j < |ls| ==> Sane(ls[j])
    ensures AllFor(BusInts(bus, ls, id), id)
  {
    if ls != [] {
      BusIntsFor(bus, ls[..|ls| - 1], id);
    }
  }

  lemma {:induction false} PciIntsFor(buses: seq<seq<Lintr>>, n: nat, id: Byte)
    requires SaneBuses(buses) && n <= PCI_BUSES
    ensures AllFor(PciInts(buses, n, id), id)
  {
    if n > 0 {
      PciIntsFor(buses, n - 1, id);
      BusIntsFor(n - 1, buses[n - 1], id);
    }
  }

  /** In the table of any guest, every I/O interrupt entry names the table's one I/O APIC. */
  lemma OneIoApic(ncpu: nat, lapicPt: bool, buses: seq<seq<Lintr>>)
    requires SaneBuses(buses)
    ensures AllFor(Entries(ncpu, lapicPt, buses), 0)
  {
    CpusFor(ncpu);
    PinsFor(16, 0);
    PciIntsFor(buses, PCI_BUSES, 0);
    var apic := [IoApic(0, IOAPIC_VERSION, IOAPICENTRY_FLAG_EN, IOAPIC_PADDR)];
    var middle := if lapicPt then [] else IoEntries(buses, 0);
    JoinFor(apic, Pins(16, 0), 0);
    JoinFor(apic + Pins(16, 0), PciInts(buses, PCI_BUSES, 0), 0);
    JoinFor(Cpus(ncpu), BUSES, 0);
    JoinFor(Cpus(ncpu) + BUSES, middle, 0);
    JoinFor(Cpus(ncpu) + BUSES + middle, LOCALS, 0);
  }

  /** A guest whose table fills the memory set aside for it, and so does not fit its length field. */
  lemma LongTable(buses: seq<seq<Lintr>>)
    requires SaneBuses(buses)
    ensures Fits(3273, true, buses, None) && !Short(3273, true, buses)
  {
  }
}
