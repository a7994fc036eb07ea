/** What the table of `devicemodel/core/mptbl.c` tells a guest: its processors, its buses and where interrupts go. */
module MpRouting {
  import opened MpSpec

  lemma {:induction false} CpuAt(n: nat, i: nat)
    requires i < n
    ensures Cpus(n)[i] == Cpu(i)
  {
    if i < n - 1 {
      CpuAt(n - 1, i);
    }
  }

  // ---- processors ----

  /** Entry `i` is an enabled processor, numbered in 8 bits, and boots if it is the first. */
  predicate Starts(e: MpEntry, i: nat) {
    e.Processor? && e.apicId == i % 0x100 && e.cpuFlags % 2 == 1 && (e.cpuFlags / 2 % 2 == 1 <==> i == 0)
  }

  /** The processors come first and are `n`; the first and no other boots. */
  ghost predicate Boots(es: seq<MpEntry>, n: nat) {
    && n <= |es|
    && (forall i :: 0 <= i < n ==> Starts(es[i], i))
    && (forall i :: n <= i < |es| ==> !es[i].Processor?)
  }

  lemma CpuStarts(i: nat)
    ensures Starts(Cpu(i), i)
  {
  }

  lemma CpusStart(n: nat)
    ensures Boots(Cpus(n), n)
  {
    forall i | 0 <= i < n
      ensures Starts(Cpus(n)[i], i)
    {
      CpuAt(n, i);
      CpuStarts(i);
    }
  }

  lemma BootsMore(es: seq<MpEntry>, fs: seq<MpEntry>, n: nat)
    requires Boots(es, n) && forall i :: 0 <= i < |fs| ==> !fs[i].Processor?
    ensures Boots(es + fs, n)
  {
  }

  lemma ProcessorsExact(ncpu: nat, lapicPt: bool, buses: seq<seq<Lintr>>)
    requires SaneBuses(buses)
    ensures Boots(Entries(ncpu, lapicPt, buses), ncpu)
  {
    MiddleIo(lapicPt, buses);
    CpusStart(ncpu);
    var middle := Middle(lapicPt, buses);
    BootsMore(Cpus(ncpu), BUSES, ncpu);
    BootsMore(Cpus(ncpu) + BUSES, middle, ncpu);
    BootsMore(Cpus(ncpu) + BUSES + middle, LOCALS, ncpu);
  }

  predicate AllIo(es: seq<MpEntry>) {
    forall i :: 0 <= i < |es| ==> es[i].IoInt?
  }

  lemma {:induction false} PinsIo(n: nat, id: Byte)
    requires n <= 16
    ensures AllIo(Pins(n, id))
  {
    if n > 0 {
      PinsIo(n - 1, id);
    }
  }

  lemma {:induction false} BusIntsIo(bus: Byte, ls: seq<Lintr>, id: Byte)
    requires forall j :: 0 <= j < |ls| ==> Sane(ls[j])
    ensures AllIo(BusInts(bus, ls, id))
  {
    if ls != [] {
      BusIntsIo(bus, ls[..|ls| - 1], id);
    }
  }

  lemma {:induction false} PciIntsIo(buses: seq<seq<Lintr>>, n: nat, id: Byte)
    requires SaneBuses(buses) && n <= PCI_BUSES
    ensures AllIo(PciInts(buses, n, id))
  {
    if n > 0 {
      PciIntsIo(buses, n - 1, id);
      BusIntsIo(n - 1, buses[n - 1], id);
    }
  }

  /** The entries between the buses and the local interrupts. */
  function Middle(lapicPt: bool, buses: seq<seq<Lintr>>): seq<MpEntry>
    requires SaneBuses(buses)
  {
    if lapicPt then [] else IoEntries(buses, 0)
  }

  lemma MiddleIo(lapicPt: bool, buses: seq<seq<Lintr>>)
    requires SaneBuses(buses)
    ensures forall i :: 0 <= i < |Middle(lapicPt, buses)| ==> Middle(lapicPt, buses)[i].IoApic? || Middle(lapicPt, buses)[i].IoInt?
  {
    PinsIo(16, 0);
    PciIntsIo(buses, PCI_BUSES, 0);
  }

  /** No two processors have the same APIC number. */
  ghost predicate Numbered(es: seq<MpEntry>) {
    forall i, j :: 0 <= i < j < |es| && es[i].Processor? && es[j].Processor? ==> es[i].apicId != es[j].apicId
  }

  lemma BootsNumbered(es: seq<MpEntry>, n: nat)
    requires Boots(es, n)
    ensures Numbered(es) <==> n <= 256
  {
    if n <= 256 {
      forall i, j | 0 <= i < j < |es| && es[i].Processor? && es[j].Processor?
        ensures es[i].apicId != es[j].apicId
      {
        assert Starts(es[i], i) && Starts(es[j], j);
      }
    } else {
      assert Starts(es[0], 0) && Starts(es[256], 256);
    }
  }

  /** The numbers tell the processors apart if and only if there are at most 256. */
  lemma NumberedExact(ncpu: nat, lapicPt: bool, buses: seq<seq<Lintr>>)
    requires SaneBuses(buses)
    ensures Numbered(Entries(ncpu, lapicPt, buses)) <==> ncpu <= 256
  {
    ProcessorsExact(ncpu, lapicPt, buses);
    BootsNumbered(Entries(ncpu, lapicPt, buses), ncpu);
  }

  // ---- interrupts ----

  /** A line of the ISA bus: the legacy controller on pin 0, the timer on pin 2, every other interrupt on its own pin. */
  predicate IsaLine(l: Line) {
    && l.srcBus == 1
    && (|| (l.kind == INTENTRY_TYPE_EXTINT && l.srcIrq == 0 && l.dstInt == 0)
        || (l.kind == INTENTRY_TYPE_INT && l.srcIrq == 0 && l.dstInt == 2)
        || (l.kind == INTENTRY_TYPE_INT && l.srcIrq == l.dstInt && l.srcIrq in {1, 3, 4, 5, 6, 7, 8, 9, 10, 11, 12, 13, 14, 15}))
    && l.flags == if l.srcIrq == SCI_INT then INTENTRY_FLAGS_LEVEL_LOW else 0
  }

  /** A line of a PCI bus, its source number read as a slot in the high bits and a pin in the low two. */
  predicate PciLine(l: Line, buses: seq<seq<Lintr>>)
    requires |buses| == PCI_BUSES
  {
    && l.kind == INTENTRY_TYPE_INT && l.flags == 0 && l.srcIrq < 128
    && Lintr(l.srcIrq / 4, l.srcIrq % 4 + 1, l.dstInt) in buses[l.srcBus]
  }

  lemma {:induction false} PinsExact(n: nat, id: Byte, l: Line)
    requires n <= 16
    ensures IoInt(l) in Pins(n, id) <==> l.dstId == id && l.dstInt < n && IsaLine(l)
  {
    if n > 0 {
      PinsExact(n - 1, id, l);
      PinExact(n - 1, id, l);
    }
  }

  lemma PinExact(pin: nat, id: Byte, l: Line)
    requires pin < 16
    ensures IoInt(l) == Pin(pin, id) <==> l.dstId == id && l.dstInt == pin && IsaLine(l)
  {
  }

  lemma PciIntExact(bus: Byte, x: Lintr, id: Byte, l: Line)
    requires Sane(x)
    ensures IoInt(l) == PciInt(bus, x, id)
            <==> && l.dstId == id && l.srcBus == bus && l.kind == INTENTRY_TYPE_INT && l.flags == 0 && l.srcIrq < 128
                 && Lintr(l.srcIrq / 4, l.srcIrq % 4 + 1, l.dstInt) == x
  {
  }

  lemma {:induction false} BusIntsExact(bus: Byte, ls: seq<Lintr>, id: Byte, l: Line)
    requires forall j :: 0 <= j < |ls| ==> Sane(ls[j])
    ensures IoInt(l) in BusInts(bus, ls, id)
            <==> && l.dstId == id && l.srcBus == bus && l.kind == INTENTRY_TYPE_INT && l.flags == 0 && l.srcIrq < 128
                 && Lintr(l.srcIrq / 4, l.srcIrq % 4 + 1, l.dstInt) in ls
  {
    if ls != [] {
      var n := |ls| - 1;
      BusIntsExact(bus, ls[..n], id, l);
      PciIntExact(bus, ls[n], id, l);
      assert ls == ls[..n] + [ls[n]];
    }
  }

  lemma {:induction false} PciIntsExact(buses: seq<seq<Lintr>>, n: nat, id: Byte, l: Line)
    requires SaneBuses(buses) && n <= PCI_BUSES
    ensures IoInt(l) in PciInts(buses, n, id) <==> l.dstId == id && l.srcBus < n && PciLine(l, buses)
  {
    if n > 0 {
      PciIntsExact(buses, n - 1, id, l);
      BusIntsExact(n - 1, buses[n - 1], id, l);
    }
  }

  /**
   In the table of any guest that does not own its local APICs, the I/O interrupts are exactly the
   ISA lines and the legacy pins of the PCI slots, all for I/O APIC 0.  A guest that does has none.
   */
  lemma RoutingExact(ncpu: nat, lapicPt: bool, buses: seq<seq<Lintr>>, l: Line)
    requires SaneBuses(buses)
    ensures IoInt(l) in Entries(ncpu, lapicPt, buses) <==> !lapicPt && l.dstId == 0 && (IsaLine(l) || PciLine(l, buses))
  {
    CpusStart(ncpu);
    PinsExact(16, 0, l);
    PciIntsExact(buses, PCI_BUSES, 0, l);
    var e, middle := IoInt(l), Middle(lapicPt, buses);
    assert e !in Cpus(ncpu) && e !in BUSES && e !in LOCALS;
    assert e in Entries(ncpu, lapicPt, buses) <==> e in middle;
    assert e in IoEntries(buses, 0) <==> e in Pins(16, 0) || e in PciInts(buses, PCI_BUSES, 0);
  }

  /** On every processor, local pin 0 takes the legacy controller and local pin 1 is the non-maskable interrupt. */
  lemma LocalsExact(ncpu: nat, lapicPt: bool, buses: seq<seq<Lintr>>, l: Line)
    requires SaneBuses(buses)
    ensures LocalInt(l) in Entries(ncpu, lapicPt, buses)
            <==> && l.dstId == 0xFF && l.flags == 0 && l.srcBus == 0 && l.srcIrq == 0
                 && ((l.kind == INTENTRY_TYPE_EXTINT && l.dstInt == 0) || (l.kind == INTENTRY_TYPE_NMI && l.dstInt == 1))
  {
    CpusStart(ncpu);
    MiddleIo(lapicPt, buses);
    var e, middle := LocalInt(l), Middle(lapicPt, buses);
    assert e !in Cpus(ncpu) && e !in BUSES && e !in middle;
  }

  /** The buses of the lines have entries: bus 0 is PCI and bus 1, which the ISA lines name, is ISA. */
  lemma BusesExact(ncpu: nat, lapicPt: bool, buses: seq<seq<Lintr>>, id: Byte, name: seq<Byte>)
    requires SaneBuses(buses)
    ensures Bus(id, name) in Entries(ncpu, lapicPt, buses)
            <==> (id == 0 && name == MPE_BUSNAME_PCI) || (id == 1 && name == MPE_BUSNAME_ISA)
  {
    CpusStart(ncpu);
    MiddleIo(lapicPt, buses);
    var e, middle := Bus(id, name), Middle(lapicPt, buses);
    assert e !in Cpus(ncpu) && e !in LOCALS && e !in middle;
  }

  /** There is one I/O APIC, enabled and at its default address, unless the guest owns its local APICs. */
  lemma IoApicsExact(ncpu: nat, lapicPt: bool, buses: seq<seq<Lintr>>, e: MpEntry)
    requires SaneBuses(buses) && e.IoApic?
    ensures e in Entries(ncpu, lapicPt, buses)
            <==> !lapicPt && e.apicId == 0 && e.apicFlags == 1 && e.version == 0x11 && e.address == 0xFEC0_0000
  {
    CpusStart(ncpu);
    PinsIo(16, 0);
    PciIntsIo(buses, PCI_BUSES, 0);
    var middle := Middle(lapicPt, buses);
    assert e !in Cpus(ncpu) && e !in BUSES && e !in LOCALS;
    assert e in Entries(ncpu, lapicPt, buses) <==> e in middle;
  }
}
