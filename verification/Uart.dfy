/**
 The 16550 UART of `devicemodel/hw/uart_core.c`.  `UartSpec` is the device as the guest sees
 it, with the receive ring as a bounded queue; `Uart` is the code, with the ring in an array
 and the interrupt pin driven in place.
 */
module UartSpec {

  // Register offsets.
  const REG_DATA := 0
  const REG_IER := 1
  const REG_IIR := 2
  const REG_FCR := 2
  const REG_LCR := 3
  const REG_MCR := 4
  const REG_LSR := 5
  const REG_MSR := 6
  const REG_SCR := 7
  const REG_DLL := 0
  const REG_DLH := 1

  const IER_ERXRDY: bv8 := 0x01
  const IER_ETXRDY: bv8 := 0x02
  const IER_ERLS: bv8 := 0x04
  const IER_EMSC: bv8 := 0x08
  const IIR_RXTOUT: bv8 := 0x0c
  const IIR_RLS: bv8 := 0x06
  const IIR_TXRDY: bv8 := 0x02
  const IIR_NOPEND: bv8 := 0x01
  const IIR_MLSC: bv8 := 0x00
  const IIR_FIFO_MASK: bv8 := 0xc0
  const LCR_DLAB: bv8 := 0x80
  const MCR_DTR: bv8 := 0x01
  const MCR_RTS: bv8 := 0x02
  const MCR_OUT1: bv8 := 0x04
  const MCR_OUT2: bv8 := 0x08
  const MCR_LOOPBACK: bv8 := 0x10
  const LSR_RXRDY: bv8 := 0x01
  const LSR_OE: bv8 := 0x02
  const LSR_THRE: bv8 := 0x20
  const LSR_TEMT: bv8 := 0x40
  const MSR_DCTS: bv8 := 0x01
  const MSR_DDSR: bv8 := 0x02
  const MSR_TERI: bv8 := 0x04
  const MSR_DDCD: bv8 := 0x08
  const MSR_CTS: bv8 := 0x10
  const MSR_DSR: bv8 := 0x20
  const MSR_RI: bv8 := 0x40
  const MSR_DCD: bv8 := 0x80
  const MSR_DELTA_MASK: bv8 := 0x0f
  const FCR_ENABLE: bv8 := 0x01
  const FCR_RCV_RST: bv8 := 0x02
  const FCR_DMA: bv8 := 0x08
  const FCR_RX_MASK: bv8 := 0xc0

  /** The device and the bytes that wait, unread, at its backend. */
  datatype Dev = Dev(ier: bv8, lcr: bv8, mcr: bv8, lsr: bv8, msr: bv8, fcr: bv8, scr: bv8, dll: bv8, dlh: bv8,
                     thre: bool, queue: seq<bv8>, input: seq<bv8>)

  predicate Bit(r: bv8, mask: bv8) {
    r & mask != 0
  }

  /** The receive ring holds one byte, or `full` bytes once the guest has enabled the FIFO. */
  function Capacity(fcr: bv8, full: nat): nat {
    if Bit(fcr, FCR_ENABLE) then full else 1
  }

  function ModemStatus(mcr: bv8): bv8 {
    if Bit(mcr, MCR_LOOPBACK) then
      (if Bit(mcr, MCR_RTS) then MSR_CTS else 0) | (if Bit(mcr, MCR_DTR) then MSR_DSR else 0)
      | (if Bit(mcr, MCR_OUT1) then MSR_RI else 0) | (if Bit(mcr, MCR_OUT2) then MSR_DCD else 0)
    else MSR_DCD | MSR_DSR
  }

  /** The prioritised interrupt reason. */
  function Reason(d: Dev): bv8 {
    if Bit(d.lsr, LSR_OE) && Bit(d.ier, IER_ERLS) then IIR_RLS
    else if |d.queue| > 0 && Bit(d.ier, IER_ERXRDY) then IIR_RXTOUT
    else if d.thre && Bit(d.ier, IER_ETXRDY) then IIR_TXRDY
    else if Bit(d.msr, MSR_DELTA_MASK) && Bit(d.ier, IER_EMSC) then IIR_MLSC
    else IIR_NOPEND
  }

  const DIVISOR: bv8 := 12

  /** A freshly allocated device after its reset. */
  const RESET := Dev(0, 0, 0, 0, MSR_DCD | MSR_DSR, 0, 0, DIVISOR, 0, true, [], [])

  function Noted(msr: bv8, now: bv8, line: bv8, delta: bv8): bv8 {
    if (now & line) ^ (msr & line) != 0 then msr | delta else msr
  }

  /** The modem-status register after a write of `mcr`: old deltas, new deltas, new lines. */
  function NextMsr(msr: bv8, mcr: bv8): bv8 {
    var now := ModemStatus(mcr);
    var a := Noted(msr, now, MSR_CTS, MSR_DCTS);
    var b := Noted(a, now, MSR_DSR, MSR_DDSR);
    var c := Noted(b, now, MSR_DCD, MSR_DDCD);
    var e := if Bit(c, MSR_RI) && !Bit(now, MSR_RI) then c | MSR_TERI else c;
    (e & MSR_DELTA_MASK) | now
  }

  /** A write to the FIFO control register empties the ring: a mode change, or a receive reset. */
  predicate Flushes(fcr: bv8, value: bv8) {
    (fcr & FCR_ENABLE) ^ (value & FCR_ENABLE) != 0 || (Bit(value, FCR_ENABLE) && Bit(value, FCR_RCV_RST))
  }

  predicate Roomy(d: Dev, full: nat) {
    |d.queue| < Capacity(d.fcr, full)
  }

  /** The access goes to the divisor latch instead of the register at `offset`. */
  predicate Latched(d: Dev, offset: int) {
    Bit(d.lcr, LCR_DLAB) && (offset == REG_DLL || offset == REG_DLH)
  }

  function WroteData(d: Dev, full: nat, value: bv8): Dev {
    if !Bit(d.mcr, MCR_LOOPBACK) then d.(thre := true)
    else if Roomy(d, full) then d.(thre := true, queue := d.queue + [value])
    else d.(thre := true, lsr := d.lsr | LSR_OE)
  }

  /** A byte that comes back in loopback, or is lost there. */
  function LoopedBack(d: Dev, full: nat, value: bv8): Dev {
    if Roomy(d, full) then d.(queue := d.queue + [value]) else d.(lsr := d.lsr | LSR_OE)
  }

  function WroteIer(d: Dev, value: bv8): Dev {
    d.(ier := value & 0x0F, thre := d.thre || (!Bit(d.ier, IER_ETXRDY) && Bit(value, IER_ETXRDY)))
  }

  function WroteFcr(d: Dev, value: bv8): Dev {
    var fcr := if Bit(value, FCR_ENABLE) then value & (FCR_ENABLE | FCR_DMA | FCR_RX_MASK) else 0;
    if Flushes(d.fcr, value) then d.(fcr := fcr, queue := [], input := []) else d.(fcr := fcr)
  }

  function WroteMcr(d: Dev, value: bv8): Dev {
    d.(mcr := value & 0x1F, msr := NextMsr(d.msr, value & 0x1F))
  }

  /** The device after a write of `value` to `offset`. */
  function Wrote(d: Dev, full: nat, offset: int, value: bv8): Dev {
    if Latched(d, offset) then if offset == REG_DLL then d.(dll := value) else d.(dlh := value)
    else if offset == REG_DATA then WroteData(d, full, value)
    else if offset == REG_IER then WroteIer(d, value)
    else if offset == REG_FCR then WroteFcr(d, value)
    else if offset == REG_LCR then d.(lcr := value)
    else if offset == REG_MCR then WroteMcr(d, value)
    else if offset == REG_SCR then d.(scr := value)
    else d
  }

  /** The device after a read of `offset`. */
  function ReadOf(d: Dev, offset: int): Dev {
    if Latched(d, offset) then d
    else if offset == REG_DATA && d.queue != [] then d.(queue := d.queue[1..])
    else if offset == REG_IIR then d.(thre := d.thre && Reason(d) != IIR_TXRDY)
    else if offset == REG_LSR then d.(lsr := LineStatus(d) & !LSR_OE)
    else if offset == REG_MSR then d.(msr := d.msr & !MSR_DELTA_MASK)
    else d
  }

  function LineStatus(d: Dev): bv8 {
    var a := d.lsr | LSR_TEMT | LSR_THRE;
    if |d.queue| > 0 then a | LSR_RXRDY else a & !LSR_RXRDY
  }

  /** The byte that a read of `offset` gives the guest. */
  function Value(d: Dev, offset: int): bv8 {
    if Latched(d, offset) then if offset == REG_DLL then d.dll else d.dlh
    else if offset == REG_DATA then if d.queue == [] then 0xFF else d.queue[0]
    else if offset == REG_IER then d.ier
    else if offset == REG_IIR then (if Bit(d.fcr, FCR_ENABLE) then IIR_FIFO_MASK else 0) | Reason(d)
    else if offset == REG_LCR then d.lcr
    else if offset == REG_MCR then d.mcr
    else if offset == REG_LSR then LineStatus(d)
    else if offset == REG_MSR then d.msr
    else if offset == REG_SCR then d.scr
    else 0xFF
  }

  /** Reads one byte and drops it in loopback; moves bytes into the ring until one side runs out otherwise. */
  function DrainedOf(d: Dev, full: nat): Dev {
    if Bit(d.mcr, MCR_LOOPBACK) then if d.input == [] then d else d.(input := d.input[1..])
    else if !Roomy(d, full) then d
    else
      var space := Capacity(d.fcr, full) - |d.queue|;
      var k := if space < |d.input| then space else |d.input|;
      d.(queue := d.queue + d.input[..k], input := d.input[k..])
  }

  // ---- whole runs ----

  datatype Op = Write(offset: int, value: bv8) | Read(offset: int) | Drain | Arrive(bytes: seq<bv8>)

  function Did(d: Dev, full: nat, op: Op): Dev {
    match op
    case Write(offset, value) => Wrote(d, full, offset, value)
    case Read(offset) => ReadOf(d, offset)
    case Drain => DrainedOf(d, full)
    case Arrive(bytes) => d.(input := d.input + bytes)
  }

  function After(ops: seq<Op>, full: nat): Dev {
    if ops == [] then RESET else Did(After(ops[..|ops| - 1], full), full, ops[|ops| - 1])
  }

  // ---- what the guest and the host did, from the operations alone ----

  predicate Flush(d: Dev, op: Op) {
    op.Write? && op.offset == REG_FCR && Flushes(d.fcr, op.value)
  }

  predicate LoopWrite(d: Dev, op: Op) {
    op.Write? && op.offset == REG_DATA && !Latched(d, REG_DATA) && Bit(d.mcr, MCR_LOOPBACK)
  }

  /** The byte an operation sends to the backend. */
  function Sends(d: Dev, op: Op): seq<bv8> {
    if op.Write? && op.offset == REG_DATA && !Latched(d, REG_DATA) && !Bit(d.mcr, MCR_LOOPBACK) then [op.value] else []
  }

  /** The guest reads a received byte. */
  predicate TakesByte(d: Dev, op: Op) {
    op == Read(REG_DATA) && !Latched(d, REG_DATA) && d.queue != []
  }

  /** The bytes one operation puts in the device: all those that leave the backend outside loopback, or a written one. */
  function Came(d: Dev, full: nat, op: Op): seq<bv8> {
    if op.Drain? && !Bit(d.mcr, MCR_LOOPBACK) then
      var left := |DrainedOf(d, full).input|;
      if left <= |d.input| then d.input[..|d.input| - left] else []
    else if LoopWrite(d, op) && Roomy(d, full) then [op.value]
    else []
  }

  /** The bytes accepted since the ring was last emptied. */
  function Accepted(ops: seq<Op>, full: nat): seq<bv8> {
    if ops == [] then []
    else
      var n := |ops| - 1;
      var d := After(ops[..n], full);
      if Flush(d, ops[n]) then [] else Accepted(ops[..n], full) + Came(d, full, ops[n])
  }

  /** The received bytes the guest has read since the ring was last emptied. */
  function Taken(ops: seq<Op>, full: nat): seq<bv8> {
    if ops == [] then []
    else
      var n := |ops| - 1;
      var d, op := After(ops[..n], full), ops[n];
      if Flush(d, op) then []
      else Taken(ops[..n], full) + if TakesByte(d, op) then [Value(d, REG_DATA)] else []
  }

  /** A loopback write found the ring full since the last read of the line status. */
  predicate Overran(ops: seq<Op>, full: nat) {
    if ops == [] then false
    else
      var n := |ops| - 1;
      var d, op := After(ops[..n], full), ops[n];
      op != Read(REG_LSR) && (Overran(ops[..n], full) || (LoopWrite(d, op) && !Roomy(d, full)))
  }

  /** Offers the guest a transmit interrupt: a byte written, or the interrupt newly enabled. */
  predicate Arms(d: Dev, op: Op) {
    && op.Write? && !Latched(d, op.offset)
    && (op.offset == REG_DATA
        || (op.offset == REG_IER && !Bit(d.ier, IER_ETXRDY) && Bit(op.value, IER_ETXRDY)))
  }

  /** A transmit interrupt was offered (as it is from reset) and no later read of the reason has reported it. */
  predicate Armed(ops: seq<Op>, full: nat) {
    if ops == [] then true
    else
      var n := |ops| - 1;
      var d, op := After(ops[..n], full), ops[n];
      Arms(d, op) || (Armed(ops[..n], full) && !(op == Read(REG_IIR) && Reason(d) == IIR_TXRDY))
  }

  datatype Edge = Toggle | Fall

  /** Under a write of the modem control register, the modem line `line` goes through `edge`. */
  predicate Moves(d: Dev, op: Op, line: bv8, edge: Edge) {
    && op.Write? && op.offset == REG_MCR
    && var before, now := Bit(ModemStatus(d.mcr), line), Bit(ModemStatus(op.value & 0x1F), line);
       if edge.Toggle? then before != now else before && !now
  }

  /** `line` went through `edge` in some write of the modem control register since the last read of the modem status. */
  predicate Moved(ops: seq<Op>, full: nat, line: bv8, edge: Edge) {
    if ops == [] then false
    else
      var n := |ops| - 1;
      var d, op := After(ops[..n], full), ops[n];
      op != Read(REG_MSR) && (Moved(ops[..n], full, line, edge) || Moves(d, op, line, edge))
  }

  // ---- what one operation does to each part of the device ----

  lemma ResetQuiet(full: nat)
    ensures Reason(RESET) == IIR_NOPEND && ModemStatus(0) == RESET.msr && Capacity(0, full) == 1
  {
  }

  /** The modem registers change only under a write of the control or a read of the status. */
  predicate ModemStep(d: Dev, e: Dev, op: Op) {
    if op.Write? && op.offset == REG_MCR then e.mcr == op.value & 0x1F && e.msr == NextMsr(d.msr, op.value & 0x1F)
    else if op == Read(REG_MSR) then e.mcr == d.mcr && e.msr == d.msr & !MSR_DELTA_MASK
    else e.mcr == d.mcr && e.msr == d.msr
  }

  predicate OverrunStep(d: Dev, e: Dev, full: nat, op: Op) {
    Bit(e.lsr, LSR_OE) == (op != Read(REG_LSR) && (Bit(d.lsr, LSR_OE) || (LoopWrite(d, op) && !Roomy(d, full))))
  }

  /** Outside a flush, an operation appends what came and removes at most the byte it gives the guest. */
  predicate RingStep(d: Dev, e: Dev, full: nat, op: Op) {
    if Flush(d, op) then e.queue == []
    else
      && Capacity(e.fcr, full) == Capacity(d.fcr, full)
      && (if TakesByte(d, op) then d.queue[..1] else []) + e.queue == d.queue + Came(d, full, op)
      && (|d.queue| <= Capacity(d.fcr, full) ==> |e.queue| <= Capacity(d.fcr, full))
  }

  predicate ThreStep(d: Dev, e: Dev, op: Op) {
    e.thre == (Arms(d, op) || (d.thre && !(op == Read(REG_IIR) && Reason(d) == IIR_TXRDY)))
  }

  predicate Steps(d: Dev, e: Dev, full: nat, op: Op) {
    ModemStep(d, e, op) && OverrunStep(d, e, full, op) && RingStep(d, e, full, op) && ThreStep(d, e, op)
  }

  /** The modem, the line status, the ring and the waiting input are as before. */
  predicate Same(d: Dev, e: Dev) {
    e.mcr == d.mcr && e.msr == d.msr && e.lsr == d.lsr && e.fcr == d.fcr && e.queue == d.queue && e.input == d.input
  }

  lemma PlainSteps(d: Dev, e: Dev, full: nat, op: Op)
    requires Same(d, e) && ThreStep(d, e, op)
    requires op.Write? ==> Latched(d, op.offset) || (op.offset != REG_FCR && op.offset != REG_MCR && !LoopWrite(d, op))
    requires op.Read? && op.offset == REG_DATA ==> Latched(d, REG_DATA) || d.queue == []
    requires op.Read? ==> op.offset != REG_LSR && op.offset != REG_MSR
    requires !op.Drain?
    ensures Steps(d, e, full, op)
  {
  }

  lemma LoopedSteps(d: Dev, full: nat, value: bv8)
    requires LoopWrite(d, Write(REG_DATA, value)) && Roomy(d, full)
    ensures Steps(d, d.(thre := true, queue := d.queue + [value]), full, Write(REG_DATA, value))
  {
  }

  lemma LostSteps(d: Dev, full: nat, value: bv8)
    requires LoopWrite(d, Write(REG_DATA, value)) && !Roomy(d, full)
    ensures Steps(d, d.(thre := true, lsr := d.lsr | LSR_OE), full, Write(REG_DATA, value))
  {
  }

  lemma DataSteps(d: Dev, full: nat, value: bv8)
    requires !Latched(d, REG_DATA)
    ensures Steps(d, WroteData(d, full, value), full, Write(REG_DATA, value))
  {
    if !LoopWrite(d, Write(REG_DATA, value)) {
      PlainSteps(d, WroteData(d, full, value), full, Write(REG_DATA, value));
    } else if Roomy(d, full) {
      LoopedSteps(d, full, value);
    } else {
      LostSteps(d, full, value);
    }
  }

  lemma FcrSteps(d: Dev, full: nat, value: bv8)
    ensures Steps(d, WroteFcr(d, value), full, Write(REG_FCR, value))
  {
  }

  lemma McrSteps(d: Dev, full: nat, value: bv8)
    ensures Steps(d, WroteMcr(d, value), full, Write(REG_MCR, value))
  {
  }

  lemma LatchSteps(d: Dev, full: nat, offset: int, value: bv8)
    requires Latched(d, offset)
    ensures Steps(d, Wrote(d, full, offset, value), full, Write(offset, value))
  {
    PlainSteps(d, if offset == REG_DLL then d.(dll := value) else d.(dlh := value), full, Write(offset, value));
  }

  lemma IerSteps(d: Dev, full: nat, value: bv8)
    requires !Latched(d, REG_IER)
    ensures Steps(d, WroteIer(d, value), full, Write(REG_IER, value))
  {
  }

  lemma OtherSteps(d: Dev, full: nat, offset: int, value: bv8)
    requires offset < 0 || (offset > REG_FCR && offset != REG_MCR)
    ensures Steps(d, Wrote(d, full, offset, value), full, Write(offset, value))
  {
    PlainSteps(d, if offset == REG_LCR then d.(lcr := value) else if offset == REG_SCR then d.(scr := value) else d,
               full, Write(offset, value));
  }

  lemma WriteSteps(d: Dev, full: nat, offset: int, value: bv8)
    ensures Steps(d, Wrote(d, full, offset, value), full, Write(offset, value))
  {
    if Latched(d, offset) {
      LatchSteps(d, full, offset, value);
    } else if offset == REG_DATA {
      DataSteps(d, full, value);
    } else if offset == REG_IER {
      IerSteps(d, full, value);
    } else if offset == REG_FCR {
      FcrSteps(d, full, value);
    } else if offset == REG_MCR {
      McrSteps(d, full, value);
    } else {
      OtherSteps(d, full, offset, value);
    }
  }

  lemma TookSteps(d: Dev, full: nat)
    requires TakesByte(d, Read(REG_DATA))
    ensures Steps(d, d.(queue := d.queue[1..]), full, Read(REG_DATA))
  {
  }

  lemma StatusSteps(d: Dev, full: nat)
    ensures Steps(d, d.(lsr := LineStatus(d) & !LSR_OE), full, Read(REG_LSR))
    ensures Steps(d, d.(msr := d.msr & !MSR_DELTA_MASK), full, Read(REG_MSR))
  {
  }

  lemma ReadSteps(d: Dev, full: nat, offset: int)
    ensures Steps(d, ReadOf(d, offset), full, Read(offset))
  {
    if TakesByte(d, Read(offset)) {
      TookSteps(d, full);
    } else if offset == REG_LSR || offset == REG_MSR {
      StatusSteps(d, full);
    } else if offset == REG_IIR {
      PlainSteps(d, d.(thre := d.thre && Reason(d) != IIR_TXRDY), full, Read(offset));
    } else {
      PlainSteps(d, d, full, Read(offset));
    }
  }

  lemma DroppedSteps(d: Dev, full: nat, k: nat)
    requires Bit(d.mcr, MCR_LOOPBACK) && k <= |d.input|
    ensures Steps(d, d.(input := d.input[k..]), full, Drain)
  {
  }

  lemma MovedSteps(d: Dev, e: Dev, full: nat, k: nat)
    requires !Bit(d.mcr, MCR_LOOPBACK) && k <= |d.input| && e == DrainedOf(d, full)
    requires |d.queue| <= Capacity(d.fcr, full) ==> |d.queue| + k <= Capacity(d.fcr, full)
    requires e == d.(queue := d.queue + d.input[..k], input := d.input[k..])
    ensures Steps(d, e, full, Drain)
  {
  }

  lemma DrainSteps(d: Dev, full: nat)
    ensures Steps(d, DrainedOf(d, full), full, Drain)
  {
    if Bit(d.mcr, MCR_LOOPBACK) {
      DroppedSteps(d, full, if d.input == [] then 0 else 1);
    } else {
      var space := Capacity(d.fcr, full) - |d.queue|;
      MovedSteps(d, DrainedOf(d, full), full, if space < 0 then 0 else if space < |d.input| then space else |d.input|);
    }
  }

  lemma DidSteps(d: Dev, full: nat, op: Op)
    ensures Steps(d, Did(d, full, op), full, op)
  {
    match op
    case Write(offset, value) => WriteSteps(d, full, offset, value);
    case Read(offset) => ReadSteps(d, full, offset);
    case Drain => DrainSteps(d, full);
    case Arrive(_) => ArriveSteps(d, full, op);
  }

  lemma ArriveSteps(d: Dev, full: nat, op: Op)
    requires op.Arrive?
    ensures Steps(d, d.(input := d.input + op.bytes), full, op)
  {
  }

  // ---- every run ----

  predicate Lines(d: Dev) {
    d.msr & !MSR_DELTA_MASK == ModemStatus(d.mcr)
  }

  predicate Deltas(d: Dev, cts: bool, dsr: bool, dcd: bool, ri: bool) {
    && Bit(d.msr, MSR_DCTS) == cts
    && Bit(d.msr, MSR_DDSR) == dsr
    && Bit(d.msr, MSR_DDCD) == dcd
    && Bit(d.msr, MSR_TERI) == ri
  }

  lemma CtsMoves(d: Dev, e: Dev, op: Op)
    requires Lines(d) && op.Write? && op.offset == REG_MCR && ModemStep(d, e, op)
    ensures Bit(e.msr, MSR_DCTS) == (Bit(d.msr, MSR_DCTS) || Moves(d, op, MSR_CTS, Toggle))
  {
  }

  lemma DsrMoves(d: Dev, e: Dev, op: Op)
    requires Lines(d) && op.Write? && op.offset == REG_MCR && ModemStep(d, e, op)
    ensures Bit(e.msr, MSR_DDSR) == (Bit(d.msr, MSR_DDSR) || Moves(d, op, MSR_DSR, Toggle))
  {
  }

  lemma DcdMoves(d: Dev, e: Dev, op: Op)
    requires Lines(d) && op.Write? && op.offset == REG_MCR && ModemStep(d, e, op)
    ensures Bit(e.msr, MSR_DDCD) == (Bit(d.msr, MSR_DDCD) || Moves(d, op, MSR_DCD, Toggle))
  {
  }

  lemma RiMoves(d: Dev, e: Dev, op: Op)
    requires Lines(d) && op.Write? && op.offset == REG_MCR && ModemStep(d, e, op)
    ensures Bit(e.msr, MSR_TERI) == (Bit(d.msr, MSR_TERI) || Moves(d, op, MSR_RI, Fall))
    ensures Lines(e)
  {
  }

  lemma MsrCleared(msr: bv8)
    ensures (msr & !MSR_DELTA_MASK) & !MSR_DELTA_MASK == msr & !MSR_DELTA_MASK
    ensures var now := msr & !MSR_DELTA_MASK;
            !Bit(now, MSR_DCTS) && !Bit(now, MSR_DDSR) && !Bit(now, MSR_DDCD) && !Bit(now, MSR_TERI)
  {
  }

  lemma ModemKept(d: Dev, e: Dev, op: Op, cts: bool, dsr: bool, dcd: bool, ri: bool)
    requires Lines(d) && Deltas(d, cts, dsr, dcd, ri) && ModemStep(d, e, op)
    ensures Lines(e)
    ensures op == Read(REG_MSR) ==> Deltas(e, false, false, false, false)
    ensures op != Read(REG_MSR) ==>
              Deltas(e, cts || Moves(d, op, MSR_CTS, Toggle), dsr || Moves(d, op, MSR_DSR, Toggle),
                     dcd || Moves(d, op, MSR_DCD, Toggle), ri || Moves(d, op, MSR_RI, Fall))
  {
    if op.Write? && op.offset == REG_MCR {
      CtsMoves(d, e, op);
      DsrMoves(d, e, op);
      DcdMoves(d, e, op);
      RiMoves(d, e, op);
    } else if op == Read(REG_MSR) {
      MsrCleared(d.msr);
    }
  }

  /**
   In every run the line bits of the modem status follow the modem control register, and each delta bit is set exactly
   when its line moved since the guest last read the register.
   */
  lemma {:induction false} ModemExact(ops: seq<Op>, full: nat)
    ensures Lines(After(ops, full))
    ensures Deltas(After(ops, full), Moved(ops, full, MSR_CTS, Toggle), Moved(ops, full, MSR_DSR, Toggle),
                   Moved(ops, full, MSR_DCD, Toggle), Moved(ops, full, MSR_RI, Fall))
  {
    if ops != [] {
      var n := |ops| - 1;
      var pre := ops[..n];
      ModemExact(pre, full);
      DidSteps(After(pre, full), full, ops[n]);
      ModemKept(After(pre, full), After(ops, full), ops[n], Moved(pre, full, MSR_CTS, Toggle),
                Moved(pre, full, MSR_DSR, Toggle), Moved(pre, full, MSR_DCD, Toggle), Moved(pre, full, MSR_RI, Fall));
    }
  }

  /** In every run the overrun bit is set exactly when a loopback write was lost since the guest last read the register. */
  lemma {:induction false} OverrunExact(ops: seq<Op>, full: nat)
    ensures Bit(After(ops, full).lsr, LSR_OE) == Overran(ops, full)
  {
    if ops != [] {
      var n := |ops| - 1;
      OverrunExact(ops[..n], full);
      DidSteps(After(ops[..n], full), full, ops[n]);
    }
  }

  lemma TakenByte(d: Dev)
    requires TakesByte(d, Read(REG_DATA))
    ensures [Value(d, REG_DATA)] == d.queue[..1]
  {
  }

  lemma Spliced(accepted: seq<bv8>, taken: seq<bv8>, queue: seq<bv8>, came: seq<bv8>, gone: seq<bv8>, left: seq<bv8>)
    requires accepted == taken + queue && gone + left == queue + came
    ensures accepted + came == (taken + gone) + left
  {
    calc {
      accepted + came;
      taken + (queue + came);
      taken + (gone + left);
      (taken + gone) + left;
    }
  }

  lemma {:induction false} ArmedExact(ops: seq<Op>, full: nat)
    ensures After(ops, full).thre == Armed(ops, full)
  {
    if ops != [] {
      var n := |ops| - 1;
      ArmedExact(ops[..n], full);
      DidSteps(After(ops[..n], full), full, ops[n]);
    }
  }

  /** In every run, what was accepted since the last flush is what the guest read followed by what the ring holds. */
  lemma {:induction false} RingHistory(ops: seq<Op>, full: nat)
    requires full > 0
    ensures Accepted(ops, full) == Taken(ops, full) + After(ops, full).queue
    ensures |After(ops, full).queue| <= Capacity(After(ops, full).fcr, full)
  {
    if ops != [] {
      var n := |ops| - 1;
      var d, e, op := After(ops[..n], full), After(ops, full), ops[n];
      RingHistory(ops[..n], full);
      DidSteps(d, full, op);
      if !Flush(d, op) {
        if TakesByte(d, op) {
          TakenByte(d);
        }
        Spliced(Accepted(ops[..n], full), Taken(ops[..n], full), d.queue, Came(d, full, op),
                if TakesByte(d, op) then d.queue[..1] else [], e.queue);
      }
    }
  }
}

/** The interrupt pin, from what the guest and the host did. */
module UartPin {
  import opened UartSpec

  /** A modem line moved since the guest last looked. */
  predicate AnyMoved(ops: seq<Op>, full: nat) {
    || Moved(ops, full, MSR_CTS, Toggle)
    || Moved(ops, full, MSR_DSR, Toggle)
    || Moved(ops, full, MSR_DCD, Toggle)
    || Moved(ops, full, MSR_RI, Fall)
  }

  /** Some enabled cause of an interrupt is outstanding. */
  predicate Interrupts(ops: seq<Op>, full: nat, ier: bv8) {
    || (Bit(ier, IER_ERLS) && Overran(ops, full))
    || (Bit(ier, IER_ERXRDY) && Taken(ops, full) != Accepted(ops, full))
    || (Bit(ier, IER_ETXRDY) && Armed(ops, full))
    || (Bit(ier, IER_EMSC) && AnyMoved(ops, full))
  }

  /** Only the four enable bits matter. */
  lemma SameInterrupts(ops: seq<Op>, full: nat, ier: bv8)
    ensures Interrupts(ops, full, ier & 0x0F) == Interrupts(ops, full, ier)
  {
    SameEnables(ier);
  }

  lemma SameEnables(ier: bv8)
    ensures Bit(ier & 0x0F, IER_ERLS) == Bit(ier, IER_ERLS) && Bit(ier & 0x0F, IER_ERXRDY) == Bit(ier, IER_ERXRDY)
    ensures Bit(ier & 0x0F, IER_ETXRDY) == Bit(ier, IER_ETXRDY) && Bit(ier & 0x0F, IER_EMSC) == Bit(ier, IER_EMSC)
  {
  }

  lemma DeltaMask(msr: bv8)
    ensures Bit(msr, MSR_DELTA_MASK)
            == (Bit(msr, MSR_DCTS) || Bit(msr, MSR_DDSR) || Bit(msr, MSR_DDCD) || Bit(msr, MSR_TERI))
  {
  }

  /** No reason hides the others: some reason is reported exactly when an enabled source is pending. */
  lemma ReasonPending(d: Dev)
    ensures (Reason(d) != IIR_NOPEND)
            == (|| (Bit(d.lsr, LSR_OE) && Bit(d.ier, IER_ERLS))
                || (d.queue != [] && Bit(d.ier, IER_ERXRDY))
                || (d.thre && Bit(d.ier, IER_ETXRDY))
                || (Bit(d.msr, MSR_DELTA_MASK) && Bit(d.ier, IER_EMSC)))
  {
  }

  /** After every run a reason is pending exactly when an enabled cause has arisen that the guest has not yet cleared. */
  lemma PinExact(ops: seq<Op>, full: nat)
    requires full > 0
    ensures (Reason(After(ops, full)) != IIR_NOPEND) == Interrupts(ops, full, After(ops, full).ier)
  {
    var d := After(ops, full);
    ReasonPending(d);
    DeltaMask(d.msr);
    ModemExact(ops, full);
    OverrunExact(ops, full);
    ArmedExact(ops, full);
    RingHistory(ops, full);
    Leftover(Taken(ops, full), d.queue);
  }

  lemma Leftover(taken: seq<bv8>, queue: seq<bv8>)
    ensures taken + queue == taken <==> queue == []
  {
  }
}

module Uart {
  import opened UartPin
  import opened UartRead
  import opened UartSpec

  function Slot(i: nat, size: nat): nat
    requires size > 0
  {
    i % size
  }

  /** The bytes a ring of `size` slots holds, oldest first. */
  function Held(buf: seq<bv8>, rindex: nat, num: nat, size: nat): seq<bv8>
    requires 0 < size <= |buf|
  {
    seq(num, k requires 0 <= k < num => buf[Slot(rindex + k, size)])
  }

  lemma Wraps(i: nat, size: nat)
    requires i < 2 * size
    ensures Slot(i, size) == if i < size then i else i - size
  {
  }

  lemma PutHeld(buf: seq<bv8>, rindex: nat, num: nat, size: nat, ch: bv8)
    requires 0 < size <= |buf| && rindex < size && num < size
    ensures Held(buf[Slot(rindex + num, size) := ch], rindex, num + 1, size) == Held(buf, rindex, num, size) + [ch]
  {
    var now := Held(buf[Slot(rindex + num, size) := ch], rindex, num + 1, size);
    Wraps(rindex + num, size);
    forall k: nat | k < num
      ensures now[k] == Held(buf, rindex, num, size)[k]
    {
      Wraps(rindex + k, size);
    }
  }

  lemma PutIndex(rindex: nat, num: nat, size: nat)
    requires rindex < size && num < size
    ensures Slot(Slot(rindex + num, size) + 1, size) == Slot(rindex + num + 1, size)
  {
    Wraps(rindex + num, size);
    Wraps(rindex + num + 1, size);
    Wraps(Slot(rindex + num, size) + 1, size);
  }

  lemma GetHeld(buf: seq<bv8>, rindex: nat, num: nat, size: nat)
    requires 0 < size <= |buf| && rindex < size && 0 < num <= size
    ensures [buf[rindex]] + Held(buf, Slot(rindex + 1, size), num - 1, size) == Held(buf, rindex, num, size)
  {
    var left := Held(buf, Slot(rindex + 1, size), num - 1, size);
    Wraps(rindex, size);
    Wraps(rindex + 1, size);
    forall k: nat | k < num - 1
      ensures left[k] == Held(buf, rindex, num, size)[k + 1]
    {
      Wraps(Slot(rindex + 1, size) + k, size);
      Wraps(rindex + 1 + k, size);
    }
  }

  lemma GetIndex(rindex: nat, num: nat, size: nat)
    requires rindex < size && 0 < num <= size
    ensures Slot(Slot(rindex + 1, size) + (num - 1), size) == Slot(rindex + num, size)
  {
    Wraps(rindex + 1, size);
    Wraps(rindex + num, size);
    Wraps(Slot(rindex + 1, size) + (num - 1), size);
  }

  class Uart {
    const full: nat
    var ier: bv8
    var lcr: bv8
    var mcr: bv8
    var lsr: bv8
    var msr: bv8
    var fcr: bv8
    var scr: bv8
    var dll: bv8
    var dlh: bv8
    var thre: bool

    // The receive ring.
    const buf: array<bv8>
    var rindex: nat
    var windex: nat
    var num: nat
    var size: nat

    // The interrupt pin, the bytes waiting at the backend and those sent to it, and whether its events are enabled.
    var pin: bool
    var input: seq<bv8>
    var sent: seq<bv8>
    var polling: bool

    /** The ring is well formed, and the backend is polled exactly when the ring has room. */
    ghost predicate RingOk()
      reads `rindex, `windex, `num, `size, `polling
    {
      && 0 < size <= full == buf.Length
      && rindex < size && num <= size
      && windex == Slot(rindex + num, size)
      && polling == (num < size)
    }

    ghost function Contents(): seq<bv8>
      requires RingOk()
      reads `rindex, `windex, `num, `size, `polling, buf
    {
      Held(buf[..], rindex, num, size)
    }

    ghost function Abs(): Dev
      requires RingOk()
      reads `ier, `lcr, `mcr, `lsr, `msr, `fcr, `scr, `dll, `dlh, `thre, `input, `rindex, `windex, `num, `size, `polling
      reads buf
    {
      Dev(ier, lcr, mcr, lsr, msr, fcr, scr, dll, dlh, thre, Contents(), input)
    }

    /** The ring has the size the guest selected. */
    ghost predicate Sound()
      reads `fcr, `rindex, `windex, `num, `size, `polling
    {
      RingOk() && size == Capacity(fcr, full)
    }

    /** The pin is asserted exactly when an interrupt reason is pending. */
    ghost predicate Valid()
      reads this, buf
    {
      Sound() && pin == (Reason(Abs()) != IIR_NOPEND)
    }

    method RxReset(want: nat)
      requires buf.Length == full > 0 && want > 0
      modifies `rindex, `windex, `num, `size, `polling, `input
      ensures RingOk() && size == (if want > full then full else want)
      ensures Contents() == [] && input == []
    {
      var sz := want;
      if sz > full {
        sz := full;
      }
      rindex, windex, num, size := 0, 0, 0, sz;
      // Unread input is flushed and the event enabled.
      input, polling := [], true;
    }

    method PutChar(ch: bv8) returns (ok: bool)
      requires RingOk()
      modifies buf, `windex, `num, `polling
      ensures RingOk() && ok == (old(num) < size)
      ensures Contents() == old(Contents()) + if ok then [ch] else []
      ensures num == old(num) + if ok then 1 else 0
    {
      if num >= size {
        return false;
      }
      PutHeld(buf[..], rindex, num, size, ch);
      PutIndex(rindex, num, size);
      ghost var was := buf[..];
      buf[windex] := ch;
      assert buf[..] == was[windex := ch];
      windex := Slot(windex + 1, size);
      num := num + 1;
      if num >= size {
        polling := false;
      }
      return true;
    }

    /** The oldest byte, or 0xFF (the low byte of -1) from an empty ring. */
    method GetChar() returns (c: bv8)
      requires RingOk()
      modifies `rindex, `num, `polling
      ensures RingOk()
      ensures if old(num) == 0 then c == 0xFF && num == 0 else [c] + Contents() == old(Contents())
    {
      if num == 0 {
        return 0xFF;
      }
      ghost var was := buf[..];
      GetHeld(was, rindex, num, size);
      GetIndex(rindex, num, size);
      var wasFull := num >= size;
      c := buf[rindex];
      rindex := Slot(rindex + 1, size);
      num := num - 1;
      if wasFull {
        polling := true;
      }
    }

    method IntrReason() returns (r: bv8)
      requires RingOk()
      ensures r == Reason(Abs())
    {
      if lsr & LSR_OE != 0 && ier & IER_ERLS != 0 {
        return IIR_RLS;
      } else if num > 0 && ier & IER_ERXRDY != 0 {
        return IIR_RXTOUT;
      } else if thre && ier & IER_ETXRDY != 0 {
        return IIR_TXRDY;
      } else if msr & MSR_DELTA_MASK != 0 && ier & IER_EMSC != 0 {
        return IIR_MLSC;
      } else {
        return IIR_NOPEND;
      }
    }

    method ToggleIntr()
      requires Sound()
      modifies `pin
      ensures Valid()
    {
      var reason := IntrReason();
      if reason == IIR_NOPEND {
        pin := false;
      } else {
        pin := true;
      }
    }

    /** uart_init and the reset it performs. */
    constructor (rxfifoSize: nat)
      requires rxfifoSize > 0
      ensures Valid() && fresh(buf) && full == rxfifoSize && Abs() == RESET && sent == []
    {
      sent := [];
      full := rxfifoSize;
      ier, lcr, mcr, lsr, fcr, scr := 0, 0, 0, 0, 0, 0;
      dll, dlh := DIVISOR, 0;
      msr := ModemStatus(0);
      thre := true;
      buf := new bv8[rxfifoSize];
      // No FIFO until the guest enables it.
      rindex, windex, num, size, input, polling := 0, 0, 0, 1, [], true;
      // With no interrupt enabled none is pending, so the reset leaves the pin deasserted.
      pin := false;
      ResetQuiet(rxfifoSize);
    }

    method LoopBack(value: bv8)
      requires Sound()
      modifies buf, `windex, `num, `polling, `lsr
      ensures Sound()
      ensures Abs() == LoopedBack(old(Abs()), full, value)
    {
      var ok := PutChar(value);
      if !ok {
        lsr := lsr | LSR_OE;
      }
    }

    method BackendWrite(value: bv8)
      modifies `sent
      ensures sent == old(sent) + [value]
    {
      sent := sent + [value];
    }

    /** The transmission, back or to the backend, is complete at once. */
    method Echo(value: bv8)
      requires Sound() && Bit(mcr, MCR_LOOPBACK)
      modifies buf, `windex, `num, `polling, `lsr, `thre
      ensures Sound() && Abs() == LoopedBack(old(Abs()), full, value).(thre := true)
    {
      LoopBack(value);
      thre := true;
    }

    method Send(value: bv8)
      modifies `thre, `sent
      ensures thre && sent == old(sent) + [value]
    {
      BackendWrite(value);
      thre := true;
    }

    method WriteData(value: bv8)
      requires Sound()
      modifies buf, `windex, `num, `polling, `lsr, `thre, `pin, `sent
      ensures Sound() && Abs() == WroteData(old(Abs()), full, value)
      ensures sent == old(sent) + if Bit(mcr, MCR_LOOPBACK) then [] else [value]
    {
      thre := false;
      ToggleIntr();
      if mcr & MCR_LOOPBACK != 0 {
        Echo(value);
      } else {
        Send(value);
      }
    }

    method WriteIer(value: bv8)
      requires Sound()
      modifies `ier, `thre
      ensures Sound() && Abs() == WroteIer(old(Abs()), value)
    {
      if ier & IER_ETXRDY == 0 && value & IER_ETXRDY != 0 {
        thre := true;
      }
      ier := value & 0x0F;
    }

    method WriteFcr(value: bv8)
      requires Sound()
      modifies `fcr, `rindex, `windex, `num, `size, `polling, `input
      ensures Sound() && Abs() == WroteFcr(old(Abs()), value)
    {
      if (fcr & FCR_ENABLE) ^ (value & FCR_ENABLE) != 0 {
        RxReset(if value & FCR_ENABLE != 0 then full else 1);
      }
      if value & FCR_ENABLE == 0 {
        fcr := 0;
      } else {
        if value & FCR_RCV_RST != 0 {
          RxReset(full);
        }
        fcr := value & (FCR_ENABLE | FCR_DMA | FCR_RX_MASK);
      }
    }

    method Note(now: bv8, line: bv8, delta: bv8)
      modifies `msr
      ensures msr == Noted(old(msr), now, line, delta)
    {
      if (now & line) ^ (msr & line) != 0 {
        msr := msr | delta;
      }
    }

    method UpdateMsr()
      modifies `msr
      ensures msr == NextMsr(old(msr), mcr)
    {
      var now := ModemStatus(mcr);
      Note(now, MSR_CTS, MSR_DCTS);
      Note(now, MSR_DSR, MSR_DDSR);
      Note(now, MSR_DCD, MSR_DDCD);
      if msr & MSR_RI != 0 && now & MSR_RI == 0 {
        msr := msr | MSR_TERI;
      }
      msr := msr & MSR_DELTA_MASK;
      msr := msr | now;
    }

    method WriteMcr(value: bv8)
      requires Sound()
      modifies `mcr, `msr
      ensures Sound() && Abs() == WroteMcr(old(Abs()), value)
    {
      mcr := value & 0x1F;
      UpdateMsr();
    }

    method WriteRegister(offset: int, value: bv8)
      requires Sound()
      modifies this, buf
      ensures Sound() && Abs() == Wrote(old(Abs()), full, offset, value)
      ensures sent == old(sent) + Sends(old(Abs()), UartSpec.Write(offset, value))
    {
      if lcr & LCR_DLAB != 0 {
        if offset == REG_DLL {
          dll := value;
          return;
        }
        if offset == REG_DLH {
          dlh := value;
          return;
        }
      }
      WriteSelected(offset, value);
    }

    method WriteSelected(offset: int, value: bv8)
      requires Sound() && !Latched(Abs(), offset)
      modifies this, buf
      ensures Sound() && Abs() == Wrote(old(Abs()), full, offset, value)
      ensures sent == old(sent) + Sends(old(Abs()), UartSpec.Write(offset, value))
    {
      if offset == REG_DATA {
        WriteData(value);
      } else if offset == REG_IER {
        WriteIer(value);
      } else if offset == REG_FCR {
        WriteFcr(value);
      } else {
        WriteUpper(offset, value);
      }
    }

    /** Writes to the registers above the FIFO control; the status registers and other offsets ignore them. */
    method WriteUpper(offset: int, value: bv8)
      requires Sound() && offset != REG_DATA && offset != REG_IER && offset != REG_FCR
      modifies `lcr, `mcr, `msr, `scr
      ensures Sound() && Abs() == Wrote(old(Abs()), full, offset, value)
    {
      if offset == REG_LCR {
        lcr := value;
      } else if offset == REG_MCR {
        WriteMcr(value);
      } else if offset == REG_SCR {
        scr := value;
      }
    }

    method Write(offset: int, value: bv8)
      requires Valid()
      modifies this, buf
      ensures Valid() && Abs() == Wrote(old(Abs()), full, offset, value)
      ensures sent == old(sent) + Sends(old(Abs()), UartSpec.Write(offset, value))
    {
      WriteRegister(offset, value);
      ToggleIntr();
    }

    method ReadData() returns (reg: bv8)
      requires Sound() && !Latched(Abs(), REG_DATA)
      modifies `rindex, `num, `polling
      ensures Sound() && Abs() == ReadOf(old(Abs()), REG_DATA) && reg == Value(old(Abs()), REG_DATA)
    {
      reg := GetChar();
    }

    method ReadIir() returns (reg: bv8)
      requires Sound()
      modifies `thre
      ensures Sound() && Abs() == ReadOf(old(Abs()), REG_IIR) && reg == Value(old(Abs()), REG_IIR)
    {
      var iir := if fcr & FCR_ENABLE != 0 then IIR_FIFO_MASK else 0;
      var reason := IntrReason();
      if reason == IIR_TXRDY {
        thre := false;
      }
      reg := iir | reason;
    }

    method UpdateLsr()
      requires RingOk()
      modifies `lsr
      ensures lsr == LineStatus(old(Abs()))
    {
      lsr := lsr | LSR_TEMT | LSR_THRE;
      if num > 0 {
        lsr := lsr | LSR_RXRDY;
      } else {
        lsr := lsr & !LSR_RXRDY;
      }
    }

    method ReadLsr() returns (reg: bv8)
      requires Sound()
      modifies `lsr
      ensures Sound() && Abs() == ReadOf(old(Abs()), REG_LSR) && reg == Value(old(Abs()), REG_LSR)
    {
      UpdateLsr();
      reg := lsr;
      lsr := lsr & !LSR_OE;
    }

    method ReadMsr() returns (reg: bv8)
      requires Sound()
      modifies `msr
      ensures Sound() && Abs() == ReadOf(old(Abs()), REG_MSR) && reg == Value(old(Abs()), REG_MSR)
    {
      reg := msr;
      msr := msr & !MSR_DELTA_MASK;
    }

    method ReadRegister(offset: int) returns (reg: bv8)
      requires Sound()
      modifies `rindex, `num, `polling, `thre, `lsr, `msr
      ensures Sound() && Abs() == ReadOf(old(Abs()), offset) && reg == Value(old(Abs()), offset)
    {
      if lcr & LCR_DLAB != 0 {
        if offset == REG_DLL {
          return dll;
        }
        if offset == REG_DLH {
          return dlh;
        }
      }
      if offset == REG_DATA {
        reg := ReadData();
      } else if offset == REG_IER {
        reg := ier;
      } else if offset == REG_IIR {
        reg := ReadIir();
      } else if offset == REG_LCR {
        reg := lcr;
      } else if offset == REG_MCR {
        reg := mcr;
      } else if offset == REG_LSR {
        reg := ReadLsr();
      } else if offset == REG_MSR {
        reg := ReadMsr();
      } else if offset == REG_SCR {
        reg := scr;
      } else {
        reg := 0xFF;
      }
    }

    method Read(offset: int) returns (reg: bv8)
      requires Valid()
      modifies `rindex, `num, `polling, `thre, `lsr, `msr, `pin
      ensures Valid() && Abs() == ReadOf(old(Abs()), offset) && reg == Value(old(Abs()), offset)
    {
      reg := ReadRegister(offset);
      ToggleIntr();
    }

    method BackendRead() returns (ok: bool, ch: bv8)
      modifies `input
      ensures ok == (old(input) != [])
      ensures if ok then old(input) == [ch] + input else input == []
    {
      if input == [] {
        return false, 0xFF;
      }
      ok, ch := true, input[0];
      input := input[1..];
    }

    /** Moves waiting bytes into the ring until it is full or none waits. */
    method Receive() returns (ghost k: nat)
      requires RingOk()
      modifies buf, `windex, `num, `polling, `input
      ensures RingOk() && k <= |old(input)| && k <= size - old(num)
      ensures Contents() == old(Contents()) + old(input)[..k] && input == old(input)[k..]
      ensures k == size - old(num) || k == |old(input)|
    {
      k := 0;
      while num < size
        invariant RingOk() && k <= |old(input)| && num == old(num) + k
        invariant Contents() == old(Contents()) + old(input)[..k] && input == old(input)[k..]
        decreases size - num
      {
        var ok, ch := BackendRead();
        if !ok {
          break;
        }
        var put := PutChar(ch);
        Extended(old(Contents()), old(input), k, ch);
        k := k + 1;
      }
    }

    method Discard()
      requires Valid() && Bit(mcr, MCR_LOOPBACK)
      modifies `input
      ensures Valid() && Abs() == DrainedOf(old(Abs()), full)
    {
      var _, _ := BackendRead();
    }

    method FillRing()
      requires Sound() && !Bit(mcr, MCR_LOOPBACK)
      modifies buf, `windex, `num, `polling, `input
      ensures Sound() && Abs() == DrainedOf(old(Abs()), full)
    {
      ghost var k := Receive();
    }

    method Drain()
      requires Valid()
      modifies buf, `windex, `num, `polling, `input, `pin
      ensures Valid() && Abs() == DrainedOf(old(Abs()), full)
    {
      if mcr & MCR_LOOPBACK != 0 {
        Discard();
      } else {
        FillRing();
        ToggleIntr();
      }
    }

    /** The host sends bytes to the backend. */
    method Arrive(bytes: seq<bv8>)
      requires Valid()
      modifies `input
      ensures Valid() && Abs() == old(Abs()).(input := old(input) + bytes)
    {
      input := input + bytes;
    }

    method Perform(op: Op)
      requires Valid()
      modifies this, buf
      ensures Valid() && Abs() == Did(old(Abs()), full, op) && sent == old(sent) + Sends(old(Abs()), op)
    {
      match op
      case Write(offset, value) => Write(offset, value);
      case Read(offset) => var _ := Read(offset);
      case Drain => Drain();
      case Arrive(bytes) => Arrive(bytes);
    }
  }

  lemma Extended(queue: seq<bv8>, input: seq<bv8>, k: nat, ch: bv8)
    requires k < |input| && input[k] == ch
    ensures queue + input[..k + 1] == (queue + input[..k]) + [ch]
  {
  }

  /**
   Every run of a UART: the pin is asserted exactly when a reason is pending, the ring has the selected size and the
   backend is polled exactly when the ring has room (Valid), and the device is the one the run specifies.
   */
  method Run(rxfifoSize: nat, ops: seq<Op>) returns (uart: Uart)
    requires rxfifoSize > 0
    ensures fresh(uart) && uart.Valid() && uart.full == rxfifoSize
    ensures uart.Abs() == After(ops, rxfifoSize)
    ensures Accepted(ops, rxfifoSize) == Taken(ops, rxfifoSize) + uart.Contents()
    ensures uart.pin == Interrupts(ops, rxfifoSize, Last(ops, 1, Off, 0))
    ensures uart.size == if Last(ops, 2, Any, 0) & 1 != 0 then rxfifoSize else 1
    ensures uart.sent == Sent(ops)
  {
    uart := new Uart(rxfifoSize);
    for i := 0 to |ops|
      invariant fresh(uart) && fresh(uart.buf) && uart.full == rxfifoSize && uart.Valid()
      invariant uart.Abs() == After(ops[..i], rxfifoSize) && uart.sent == Sent(ops[..i])
    {
      assert ops[..i + 1][..i] == ops[..i];
      SendsExact(ops[..i], ops[i], rxfifoSize);
      uart.Perform(ops[i]);
    }
    assert ops[..|ops|] == ops;
    RingHistory(ops, rxfifoSize);
    PinExact(ops, rxfifoSize);
    WrittenExact(ops, rxfifoSize);
    CapacityIs(uart.fcr, rxfifoSize);
    SameInterrupts(ops, rxfifoSize, Last(ops, 1, Off, 0));
  }
}
