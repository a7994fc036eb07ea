/**
 What the guest reads from the 16550 UART, from what it wrote and what happened since: every register over every run.
 */
module UartRead {
  import opened UartSpec
  import opened UartPin

  /** Which writes to an offset count: all, those with the divisor latch selected, or those without. */
  datatype Latch = Any | On | Off

  /** The value last written to the offset, or `init`. */
  function Last(ops: seq<Op>, offset: int, latch: Latch, init: bv8): bv8
    decreases |ops|, 0
  {
    if ops == [] then init
    else
      var pre, op := ops[..|ops| - 1], ops[|ops| - 1];
      if op.Write? && op.offset == offset && (latch.Any? || latch.On? == Dlab(pre)) then op.value
      else Last(pre, offset, latch, init)
  }

  /** The guest has selected the divisor latch: bit 7 of the line control. */
  predicate Dlab(ops: seq<Op>)
    decreases |ops|, 1
  {
    Last(ops, 3, Any, 0) & 0x80 != 0
  }

  // ---- what one operation does to the plain registers ----

  function Set(op: Op, offset: int, here: bool, was: bv8): bv8 {
    if op.Write? && op.offset == offset && here then op.value else was
  }

  predicate RegStep(d: Dev, e: Dev, op: Op) {
    var latched := Bit(d.lcr, LCR_DLAB);
    && e.lcr == Set(op, 3, true, d.lcr)
    && e.scr == Set(op, 7, true, d.scr)
    && e.dll == Set(op, 0, latched, d.dll)
    && e.dlh == Set(op, 1, latched, d.dlh)
    && (if op.Write? && op.offset == 4 then e.mcr == op.value & 0x1F else e.mcr == d.mcr)
    && (if op.Write? && op.offset == 1 && !latched then e.ier == op.value & 0x0F else e.ier == d.ier)
    && (if op.Write? && op.offset == 2 then e.fcr & 1 == op.value & 1 else e.fcr == d.fcr)
  }

  /** The line status gathers an overrun, or is brought up to date and loses it. */
  predicate LsrStep(d: Dev, e: Dev) {
    e.lsr == d.lsr || e.lsr == d.lsr | LSR_OE || e.lsr == LineStatus(d) & !LSR_OE
  }

  predicate Both(d: Dev, e: Dev, op: Op) {
    RegStep(d, e, op) && LsrStep(d, e)
  }

  /** The registers a guest can write, but for the modem and line status, are as before. */
  predicate SameRegs(d: Dev, e: Dev) {
    && e.lcr == d.lcr && e.scr == d.scr && e.dll == d.dll && e.dlh == d.dlh
    && e.mcr == d.mcr && e.ier == d.ier && e.fcr == d.fcr
  }

  lemma PlainRegs(d: Dev, e: Dev, op: Op)
    requires SameRegs(d, e) && e.lsr == d.lsr
    requires op.Write? ==> op.offset < 0 || op.offset > 4 || (op.offset == 0 && !Bit(d.lcr, LCR_DLAB))
    requires op.Write? ==> op.offset != 7
    ensures Both(d, e, op)
  {
  }

  lemma LostRegs(d: Dev, value: bv8)
    requires !Bit(d.lcr, LCR_DLAB)
    ensures Both(d, d.(thre := true, lsr := d.lsr | LSR_OE), Write(REG_DATA, value))
  {
  }

  lemma StatusRegs(d: Dev)
    ensures Both(d, d.(lsr := LineStatus(d) & !LSR_OE), Read(REG_LSR))
  {
  }

  lemma DllRegs(d: Dev, value: bv8)
    requires Bit(d.lcr, LCR_DLAB)
    ensures Both(d, d.(dll := value), Write(REG_DLL, value))
  {
  }

  lemma DlhRegs(d: Dev, value: bv8)
    requires Bit(d.lcr, LCR_DLAB)
    ensures Both(d, d.(dlh := value), Write(REG_DLH, value))
  {
  }

  lemma DataRegs(d: Dev, full: nat, value: bv8)
    requires !Bit(d.lcr, LCR_DLAB)
    ensures Both(d, WroteData(d, full, value), Write(REG_DATA, value))
  {
    var op := Write(REG_DATA, value);
    if !Bit(d.mcr, MCR_LOOPBACK) {
      PlainRegs(d, d.(thre := true), op);
    } else if Roomy(d, full) {
      PlainRegs(d, d.(thre := true, queue := d.queue + [value]), op);
    } else {
      LostRegs(d, value);
    }
  }

  lemma IerRegs(d: Dev, value: bv8)
    requires !Bit(d.lcr, LCR_DLAB)
    ensures Both(d, WroteIer(d, value), Write(REG_IER, value))
  {
  }

  lemma FcrBit(value: bv8)
    ensures (value & (FCR_ENABLE | FCR_DMA | FCR_RX_MASK)) & 1 == value & 1
    ensures value & FCR_ENABLE == 0 ==> value & 1 == 0
  {
  }

  lemma FcrRegs(d: Dev, value: bv8)
    ensures Both(d, WroteFcr(d, value), Write(REG_FCR, value))
  {
    FcrBit(value);
  }

  lemma McrRegs(d: Dev, value: bv8)
    ensures Both(d, WroteMcr(d, value), Write(REG_MCR, value))
  {
  }

  lemma LcrRegs(d: Dev, value: bv8)
    ensures Both(d, d.(lcr := value), Write(REG_LCR, value))
    ensures Both(d, d.(scr := value), Write(REG_SCR, value))
  {
  }

  lemma LowWriteRegs(d: Dev, full: nat, offset: int, value: bv8)
    requires 0 <= offset <= REG_FCR
    ensures Both(d, Wrote(d, full, offset, value), Write(offset, value))
  {
    if offset == REG_FCR {
      FcrRegs(d, value);
    } else if Bit(d.lcr, LCR_DLAB) {
      DllRegs(d, value);
      DlhRegs(d, value);
    } else if offset == REG_DATA {
      DataRegs(d, full, value);
    } else {
      IerRegs(d, value);
    }
  }

  lemma WriteRegs(d: Dev, full: nat, offset: int, value: bv8)
    ensures Both(d, Wrote(d, full, offset, value), Write(offset, value))
  {
    if 0 <= offset <= REG_FCR {
      LowWriteRegs(d, full, offset, value);
    } else if offset == REG_MCR {
      McrRegs(d, value);
    } else if offset == REG_LCR || offset == REG_SCR {
      LcrRegs(d, value);
    } else {
      PlainRegs(d, d, Write(offset, value));
    }
  }

  lemma ReadRegs(d: Dev, offset: int)
    ensures Both(d, ReadOf(d, offset), Read(offset))
  {
    var op := Read(offset);
    if offset == REG_DATA && !Latched(d, offset) && d.queue != [] {
      PlainRegs(d, d.(queue := d.queue[1..]), op);
    } else if offset == REG_IIR {
      PlainRegs(d, d.(thre := d.thre && Reason(d) != IIR_TXRDY), op);
    } else if offset == REG_LSR {
      StatusRegs(d);
    } else if offset == REG_MSR {
      PlainRegs(d, d.(msr := d.msr & !MSR_DELTA_MASK), op);
    } else {
      PlainRegs(d, d, op);
    }
  }

  lemma DropSame(d: Dev, full: nat)
    requires Bit(d.mcr, MCR_LOOPBACK)
    ensures SameRegs(d, DrainedOf(d, full)) && DrainedOf(d, full).lsr == d.lsr
  {
  }

  lemma FillSame(d: Dev, full: nat)
    requires !Bit(d.mcr, MCR_LOOPBACK)
    ensures SameRegs(d, DrainedOf(d, full)) && DrainedOf(d, full).lsr == d.lsr
  {
  }

  lemma DrainRegs(d: Dev, full: nat)
    ensures Both(d, DrainedOf(d, full), Drain)
  {
    if Bit(d.mcr, MCR_LOOPBACK) {
      DropSame(d, full);
    } else {
      FillSame(d, full);
    }
    PlainRegs(d, DrainedOf(d, full), Drain);
  }

  lemma DidRegs(d: Dev, full: nat, op: Op)
    ensures Both(d, Did(d, full, op), op)
  {
    match op
    case Write(offset, value) => WriteRegs(d, full, offset, value);
    case Read(offset) => ReadRegs(d, offset);
    case Drain => DrainRegs(d, full);
    case Arrive(bytes) => PlainRegs(d, d.(input := d.input + bytes), op);
  }

  // ---- every run ----

  /** Only the bits for received data, overrun, and an empty transmitter are ever set. */
  predicate LsrClean(lsr: bv8) {
    lsr & 0x9C == 0
  }

  lemma LsrKept(d: Dev, e: Dev)
    requires LsrClean(d.lsr) && LsrStep(d, e)
    ensures LsrClean(e.lsr)
  {
  }

  /** The registers are what the guest last wrote, under their masks and with the divisor latch honoured. */
  ghost predicate Written(d: Dev, ops: seq<Op>) {
    WrittenWhole(d, ops) && WrittenMasked(d, ops) && WrittenLatch(d, ops)
  }

  predicate WrittenWhole(d: Dev, ops: seq<Op>) {
    d.lcr == Last(ops, 3, Any, 0) && d.scr == Last(ops, 7, Any, 0)
  }

  predicate WrittenMasked(d: Dev, ops: seq<Op>) {
    && d.mcr == Last(ops, 4, Any, 0) & 0x1F
    && d.ier == Last(ops, 1, Off, 0) & 0x0F
    && d.fcr & 1 == Last(ops, 2, Any, 0) & 1
  }

  predicate WrittenLatch(d: Dev, ops: seq<Op>) {
    d.dll == Last(ops, 0, On, 12) && d.dlh == Last(ops, 1, On, 0)
  }

  lemma WholeStep(d: Dev, e: Dev, ops: seq<Op>)
    requires ops != [] && WrittenWhole(d, ops[..|ops| - 1]) && RegStep(d, e, ops[|ops| - 1])
    ensures WrittenWhole(e, ops)
  {
  }

  lemma McrStep(d: Dev, e: Dev, ops: seq<Op>)
    requires ops != [] && d.mcr == Last(ops[..|ops| - 1], 4, Any, 0) & 0x1F && RegStep(d, e, ops[|ops| - 1])
    ensures e.mcr == Last(ops, 4, Any, 0) & 0x1F
  {
  }

  lemma FcrStep(d: Dev, e: Dev, ops: seq<Op>)
    requires ops != [] && d.fcr & 1 == Last(ops[..|ops| - 1], 2, Any, 0) & 1 && RegStep(d, e, ops[|ops| - 1])
    ensures e.fcr & 1 == Last(ops, 2, Any, 0) & 1
  {
  }

  lemma IerStep(d: Dev, e: Dev, ops: seq<Op>)
    requires ops != [] && d.ier == Last(ops[..|ops| - 1], 1, Off, 0) & 0x0F && RegStep(d, e, ops[|ops| - 1])
    requires Bit(d.lcr, LCR_DLAB) == Dlab(ops[..|ops| - 1])
    ensures e.ier == Last(ops, 1, Off, 0) & 0x0F
  {
  }

  lemma MaskedStep(d: Dev, e: Dev, ops: seq<Op>)
    requires ops != [] && WrittenMasked(d, ops[..|ops| - 1]) && RegStep(d, e, ops[|ops| - 1])
    requires Bit(d.lcr, LCR_DLAB) == Dlab(ops[..|ops| - 1])
    ensures WrittenMasked(e, ops)
  {
    McrStep(d, e, ops);
    FcrStep(d, e, ops);
    IerStep(d, e, ops);
  }

  lemma LatchStep(d: Dev, e: Dev, ops: seq<Op>)
    requires ops != [] && WrittenLatch(d, ops[..|ops| - 1]) && RegStep(d, e, ops[|ops| - 1])
    requires Bit(d.lcr, LCR_DLAB) == Dlab(ops[..|ops| - 1])
    ensures WrittenLatch(e, ops)
  {
  }

  lemma DlabIs(d: Dev, ops: seq<Op>)
    requires WrittenWhole(d, ops)
    ensures Bit(d.lcr, LCR_DLAB) == Dlab(ops)
  {
  }

  lemma {:induction false} WrittenExact(ops: seq<Op>, full: nat)
    ensures Written(After(ops, full), ops) && LsrClean(After(ops, full).lsr)
  {
    if ops != [] {
      var n := |ops| - 1;
      WrittenExact(ops[..n], full);
      DidRegs(After(ops[..n], full), full, ops[n]);
      DlabIs(After(ops[..n], full), ops[..n]);
      WholeStep(After(ops[..n], full), After(ops, full), ops);
      MaskedStep(After(ops[..n], full), After(ops, full), ops);
      LatchStep(After(ops[..n], full), After(ops, full), ops);
      LsrKept(After(ops[..n], full), After(ops, full));
    }
  }

  // ---- what a read gives ----

  function When(c: bool, bit: bv8): bv8 {
    if c then bit else 0
  }

  lemma LsrByte(d: Dev)
    requires LsrClean(d.lsr)
    ensures Value(d, 5) == 0x60 | When(d.queue != [], 0x01) | When(Bit(d.lsr, LSR_OE), 0x02)
  {
    LineByte(d);
  }

  lemma LineByte(d: Dev)
    requires LsrClean(d.lsr)
    ensures LineStatus(d) == 0x60 | When(d.queue != [], 0x01) | When(Bit(d.lsr, LSR_OE), 0x02)
  {
  }

  /**
   In every run the line status reads as an empty transmitter, with received data exactly when the guest has not read all
   that was accepted, and an overrun exactly when a write was lost since the last such read.
   */
  lemma LineStatusExact(ops: seq<Op>, full: nat)
    requires full > 0
    ensures Value(After(ops, full), 5)
            == 0x60 | When(Taken(ops, full) != Accepted(ops, full), 0x01) | When(Overran(ops, full), 0x02)
  {
    var d := After(ops, full);
    WrittenExact(ops, full);
    RingHistory(ops, full);
    Leftover(Taken(ops, full), d.queue);
    OverrunExact(ops, full);
    LsrByte(d);
  }

  lemma PlainValues(d: Dev)
    ensures Value(d, 3) == d.lcr && Value(d, 4) == d.mcr && Value(d, 7) == d.scr
    ensures if Bit(d.lcr, LCR_DLAB) then Value(d, 0) == d.dll && Value(d, 1) == d.dlh else Value(d, 1) == d.ier
  {
  }

  /** In every run the plain registers read as last written, under their masks and with the divisor latch honoured. */
  lemma ReadsBack(ops: seq<Op>, full: nat)
    ensures var d := After(ops, full);
      && Value(d, 3) == Last(ops, 3, Any, 0)
      && Value(d, 4) == Last(ops, 4, Any, 0) & 0x1F
      && Value(d, 7) == Last(ops, 7, Any, 0)
      && (Dlab(ops) ==> Value(d, 0) == Last(ops, 0, On, 12) && Value(d, 1) == Last(ops, 1, On, 0))
      && (!Dlab(ops) ==> Value(d, 1) == Last(ops, 1, Off, 0) & 0x0F)
  {
    WrittenExact(ops, full);
    DlabIs(After(ops, full), ops);
    PlainValues(After(ops, full));
  }

  /** The highest-priority enabled cause of an interrupt that is outstanding, as the guest sees it. */
  function Cause(ier: bv8, overran: bool, data: bool, armed: bool, moved: bool): bv8 {
    if ier & 0x04 != 0 && overran then 0x06
    else if ier & 0x01 != 0 && data then 0x0C
    else if ier & 0x02 != 0 && armed then 0x02
    else if ier & 0x08 != 0 && moved then 0x00
    else 0x01
  }

  lemma ReasonIs(d: Dev)
    ensures Reason(d) == Cause(d.ier, Bit(d.lsr, LSR_OE), d.queue != [], d.thre, Bit(d.msr, MSR_DELTA_MASK))
  {
  }

  lemma CauseMasked(ier: bv8, overran: bool, data: bool, armed: bool, moved: bool)
    ensures Cause(ier & 0x0F, overran, data, armed, moved) == Cause(ier, overran, data, armed, moved)
  {
  }

  lemma IirByte(d: Dev)
    ensures Value(d, 2) == When(d.fcr & 1 != 0, 0xC0) | Reason(d)
  {
  }

  /** In every run the interrupt identification reads as the FIFO the guest selected and the highest-priority outstanding cause. */
  lemma InterruptExact(ops: seq<Op>, full: nat)
    requires full > 0
    ensures Value(After(ops, full), 2)
            == When(Last(ops, 2, Any, 0) & 1 != 0, 0xC0)
               | Cause(Last(ops, 1, Off, 0), Overran(ops, full), Taken(ops, full) != Accepted(ops, full), Armed(ops, full),
                       AnyMoved(ops, full))
  {
    var d := After(ops, full);
    WrittenExact(ops, full);
    OverrunExact(ops, full);
    RingHistory(ops, full);
    Leftover(Taken(ops, full), d.queue);
    ArmedExact(ops, full);
    ModemExact(ops, full);
    DeltaMask(d.msr);
    ReasonIs(d);
    CauseMasked(Last(ops, 1, Off, 0), Overran(ops, full), d.queue != [], Armed(ops, full), AnyMoved(ops, full));
    IirByte(d);
  }

  /** The modem lines: looped back from the control register, or carrier and data set ready always. */
  function Signals(mcr: bv8): bv8 {
    if mcr & 0x10 != 0 then
      When(mcr & 0x02 != 0, 0x10) | When(mcr & 0x01 != 0, 0x20) | When(mcr & 0x04 != 0, 0x40) | When(mcr & 0x08 != 0, 0x80)
    else 0xA0
  }

  lemma SignalsAre(mcr: bv8)
    ensures ModemStatus(mcr & 0x1F) == Signals(mcr)
  {
  }

  lemma MsrByte(msr: bv8, lines: bv8, cts: bool, dsr: bool, ri: bool, dcd: bool)
    requires msr & !MSR_DELTA_MASK == lines
    requires Bit(msr, MSR_DCTS) == cts && Bit(msr, MSR_DDSR) == dsr && Bit(msr, MSR_TERI) == ri && Bit(msr, MSR_DDCD) == dcd
    ensures msr == lines | When(cts, 0x01) | When(dsr, 0x02) | When(ri, 0x04) | When(dcd, 0x08)
  {
  }

  /** In every run the modem status reads as the present lines and what moved since it was last read. */
  lemma ModemStatusExact(ops: seq<Op>, full: nat)
    ensures Value(After(ops, full), 6)
            == Signals(Last(ops, 4, Any, 0))
               | When(Moved(ops, full, MSR_CTS, Toggle), 0x01) | When(Moved(ops, full, MSR_DSR, Toggle), 0x02)
               | When(Moved(ops, full, MSR_RI, Fall), 0x04) | When(Moved(ops, full, MSR_DCD, Toggle), 0x08)
  {
    var d := After(ops, full);
    WrittenExact(ops, full);
    ModemExact(ops, full);
    SignalsAre(Last(ops, 4, Any, 0));
    MsrByte(d.msr, Signals(Last(ops, 4, Any, 0)), Moved(ops, full, MSR_CTS, Toggle), Moved(ops, full, MSR_DSR, Toggle),
            Moved(ops, full, MSR_RI, Fall), Moved(ops, full, MSR_DCD, Toggle));
    assert Value(d, 6) == d.msr;
  }

  lemma DataByte(d: Dev)
    requires !Bit(d.lcr, LCR_DLAB)
    ensures Value(d, 0) == if d.queue == [] then 0xFF else d.queue[0]
  {
  }

  /** In every run a data read gives the first accepted byte the guest has not read, or 0xFF if there is none. */
  lemma DataExact(ops: seq<Op>, full: nat)
    requires full > 0 && !Dlab(ops)
    ensures var n := |Taken(ops, full)|;
      && n <= |Accepted(ops, full)|
      && Value(After(ops, full), 0) == if n < |Accepted(ops, full)| then Accepted(ops, full)[n] else 0xFF
  {
    WrittenExact(ops, full);
    DlabIs(After(ops, full), ops);
    RingHistory(ops, full);
    DataByte(After(ops, full));
  }

  /** Other offsets read as 0xFF. */
  lemma NoRegister(d: Dev, offset: int)
    requires offset < 0 || offset > 7
    ensures Value(d, offset) == 0xFF && ReadOf(d, offset) == d
  {
  }

  // ---- emptying and filling the ring ----

  lemma FcrStepExact(d: Dev, value: bv8)
    ensures var e := WroteFcr(d, value); var on, now := d.fcr & 1 != 0, value & 1 != 0;
      if on != now || (now && value & 2 != 0) then e.queue == [] && e.input == [] else e.queue == d.queue && e.input == d.input
  {
  }

  /** In every run a write to the FIFO control empties the ring and the backend exactly on a mode change or a receive reset. */
  lemma FlushExact(ops: seq<Op>, value: bv8, full: nat)
    ensures var d, e := After(ops, full), After(ops + [Write(2, value)], full);
      var on, now := Last(ops, 2, Any, 0) & 1 != 0, value & 1 != 0;
      if on != now || (now && value & 2 != 0) then e.queue == [] && e.input == [] else e.queue == d.queue && e.input == d.input
  {
    WrittenExact(ops, full);
    FcrStepExact(After(ops, full), value);
    assert (ops + [Write(2, value)])[..|ops|] == ops;
  }

  lemma DropExact(d: Dev, full: nat)
    requires d.mcr & 0x10 != 0
    ensures var e := DrainedOf(d, full); e.queue == d.queue && e.input == if d.input == [] then [] else d.input[1..]
  {
  }

  lemma FillExact(d: Dev, full: nat)
    requires d.mcr & 0x10 == 0
    ensures var e := DrainedOf(d, full);
      && d.queue <= e.queue && d.queue + d.input == e.queue + e.input
      && (e.input == [] || |e.queue| >= if d.fcr & 1 != 0 then full else 1)
  {
  }

  lemma LoopBit(mcr: bv8)
    ensures (mcr & 0x1F) & 0x10 == mcr & 0x10
  {
  }

  /**
   In every run a drain drops one waiting byte in loopback; otherwise it moves waiting bytes, in order and losing none,
   until none waits or the ring, of one byte or of its full size as the guest selected, is full.
   */
  lemma DrainExact(ops: seq<Op>, full: nat)
    ensures var d, e := After(ops, full), After(ops + [Drain], full);
      if Loops(ops) then e.queue == d.queue && e.input == if d.input == [] then [] else d.input[1..]
      else
        && d.queue <= e.queue && d.queue + d.input == e.queue + e.input
        && (e.input == [] || |e.queue| >= if Last(ops, 2, Any, 0) & 1 != 0 then full else 1)
  {
    WrittenExact(ops, full);
    LoopBit(Last(ops, 4, Any, 0));
    assert (ops + [Drain])[..|ops|] == ops;
    if Loops(ops) {
      DropExact(After(ops, full), full);
    } else {
      FillExact(After(ops, full), full);
    }
  }

  lemma CapacityIs(fcr: bv8, full: nat)
    ensures Capacity(fcr, full) == if fcr & 1 != 0 then full else 1
  {
  }

  // ---- the bytes the guest writes ----

  /** The guest has selected loopback: bit 4 of the modem control. */
  predicate Loops(ops: seq<Op>) {
    Last(ops, 4, Any, 0) & 0x10 != 0
  }

  /** The bytes for the host: those written to the data register, not the latch, outside loopback. */
  function Sent(ops: seq<Op>): seq<bv8> {
    if ops == [] then []
    else
      var pre, op := ops[..|ops| - 1], ops[|ops| - 1];
      Sent(pre) + if op.Write? && op.offset == 0 && !Dlab(pre) && !Loops(pre) then [op.value] else []
  }

  lemma SendsExact(ops: seq<Op>, op: Op, full: nat)
    ensures Sent(ops + [op]) == Sent(ops) + Sends(After(ops, full), op)
  {
    WrittenExact(ops, full);
    LoopBit(Last(ops, 4, Any, 0));
    assert (ops + [op])[..|ops|] == ops;
  }

  lemma NoEcho(d: Dev, full: nat, value: bv8)
    requires !Bit(d.mcr, MCR_LOOPBACK)
    ensures WroteData(d, full, value).queue == d.queue
  {
  }

  lemma EchoKept(d: Dev, full: nat, value: bv8)
    requires Bit(d.mcr, MCR_LOOPBACK) && Roomy(d, full)
    ensures WroteData(d, full, value).queue == d.queue + [value]
  {
  }

  lemma EchoLost(d: Dev, full: nat, value: bv8)
    requires Bit(d.mcr, MCR_LOOPBACK) && !Roomy(d, full)
    ensures WroteData(d, full, value).queue == d.queue
  {
  }

  /** In every run, a byte written to the data register in loopback is received if the ring has room. */
  lemma EchoExact(ops: seq<Op>, value: bv8, full: nat)
    requires !Dlab(ops)
    ensures var d, e := After(ops, full), After(ops + [Write(0, value)], full);
      var room := |d.queue| < if Last(ops, 2, Any, 0) & 1 != 0 then full else 1;
      e.queue == if Loops(ops) && room then d.queue + [value] else d.queue
  {
    WrittenExact(ops, full);
    LoopBit(Last(ops, 4, Any, 0));
    assert (ops + [Write(0, value)])[..|ops|] == ops;
    CapacityIs(After(ops, full).fcr, full);
    var d := After(ops, full);
    if !Loops(ops) {
      NoEcho(d, full, value);
    } else if Roomy(d, full) {
      EchoKept(d, full, value);
    } else {
      EchoLost(d, full, value);
    }
  }
}
