/** A 64-bit packet counter split over two 32-bit registers with a delayed carry. The
  * carry is raised one pulse after the low register wraps and reaches the high register
  * one cycle after that. */
module PacketCounter {
  import opened Arith

  const HALF := 0x8000_0000
  const WORD := 0x1_0000_0000

  datatype Counter = Counter(low: nat, msb: bool, carry: bool, high: nat, overflow: bool)

  const ZERO := Counter(0, false, false, 0, false)

  /** One clock edge: both always-blocks read the old registers. */
  function Tick(c: Counter, pulse: bool): Counter {
    if c.overflow then c.(low := 0, carry := false)
    else
      Counter(if pulse then (c.low + 1) % WORD else c.low,
              if pulse then c.low >= HALF else c.msb,
              pulse && c.msb && c.low < HALF,
              if c.carry then (c.high + 1) % WORD else c.high,
              c.high >= HALF)
  }

  function After(pulses: seq<bool>): Counter {
    if pulses == [] then ZERO else Tick(After(pulses[..|pulses| - 1]), pulses[|pulses| - 1])
  }

  function Pulses(pulses: seq<bool>): nat {
    if pulses == [] then 0
    else Pulses(pulses[..|pulses| - 1]) + if pulses[|pulses| - 1] then 1 else 0
  }

  /** The low register has wrapped and no pulse has come since. */
  predicate Pending(c: Counter) {
    c.msb && c.low < HALF
  }

  function Bit(b: bool): nat {
    if b then 1 else 0
  }

  ghost predicate Exact(c: Counter, n: nat) {
    && !c.overflow && n == c.low + WORD * (c.high + Bit(c.carry) + Bit(Pending(c)))
    && c.low < WORD && c.high <= HALF
    && (Pending(c) ==> c.low == 0 && !c.carry)
    && (c.carry ==> c.low == 1)
    && (c.low > 0 ==> c.msb == (c.low - 1 >= HALF))
    && (c.high == HALF ==> !c.carry && 1 <= c.low <= 2)
  }

  ghost predicate Overflowed(c: Counter, n: nat) {
    c.overflow && c.high == HALF && n >= WORD * HALF
  }

  lemma {:induction false} TickExact(c: Counter, n: nat, pulse: bool)
    requires Exact(c, n)
    ensures var c', n' := Tick(c, pulse), n + Bit(pulse); Exact(c', n') || Overflowed(c', n')
  {
  }

  /** Exactness over every run: until overflow the registers, with the carry in flight,
    * are the number of pulses; at most one carry is in flight; overflow comes only after
    * 2^63 pulses and then the high register stays frozen with its top bit set. */
  lemma {:induction false} CountsEveryPulse(pulses: seq<bool>)
    ensures var c, n := After(pulses), Pulses(pulses);
            && (!c.overflow ==>
                  && n == c.low + WORD * (c.high + Bit(c.carry) + Bit(Pending(c)))
                  && Bit(c.carry) + Bit(Pending(c)) <= 1 && c.low < WORD)
            && (c.overflow ==> c.high == HALF && n >= WORD * HALF)
            && (Exact(c, n) || Overflowed(c, n))
  {
    if pulses != [] {
      var before := pulses[..|pulses| - 1];
      CountsEveryPulse(before);
      if !After(before).overflow {
        TickExact(After(before), Pulses(before), pulses[|pulses| - 1]);
      }
    }
  }

  /** When the two registers, read in one cycle, are the count: exactly when no carry is in
    * flight, which is every cycle but those just after a wrap. */
  lemma {:induction false} ReadableExactly(pulses: seq<bool>)
    requires !After(pulses).overflow
    ensures var c := After(pulses);
            && (Pulses(pulses) == c.low + WORD * c.high <==> !c.carry && !Pending(c))
            && (c.carry || Pending(c) ==> c.low <= 1 && Pulses(pulses) >= WORD)
  {
    CountsEveryPulse(pulses);
  }

  /** One while the low word has wrapped and the high word has not yet been raised. */
  function InFlight(c: Counter): nat {
    if c.carry || Pending(c) then 1 else 0
  }

  lemma {:induction false} WordsOfCount(pulses: seq<bool>)
    requires !After(pulses).overflow
    ensures After(pulses).low == Pulses(pulses) % WORD
    ensures After(pulses).high + InFlight(After(pulses)) == Pulses(pulses) / WORD
  {
    CountsEveryPulse(pulses);
    var c := After(pulses);
    DivModUnique(Pulses(pulses), WORD, c.high + InFlight(c), c.low);
  }

  /** Overflow is not premature: fewer than 2^63 pulses never set it. */
  lemma {:induction false} NoEarlyOverflow(pulses: seq<bool>)
    requires Pulses(pulses) < WORD * HALF
    ensures !After(pulses).overflow
  {
    CountsEveryPulse(pulses);
  }

  /** Overflow is for ever: the high register is frozen, and the low one cleared with its carry. */
  lemma {:induction false} OverflowSticks(pulses: seq<bool>, more: seq<bool>)
    requires After(pulses).overflow
    ensures After(pulses + more).overflow && After(pulses + more).high == HALF
    ensures more != [] ==> After(pulses + more).low == 0 && !After(pulses + more).carry
  {
    CountsEveryPulse(pulses);
    if more == [] {
      assert pulses + more == pulses;
    } else {
      assert (pulses + more)[..|pulses + more| - 1] == pulses + more[..|more| - 1];
      OverflowSticks(pulses, more[..|more| - 1]);
    }
  }
}

/** The AXI-Lite write and read machines of the register block. */
module AxiLite {
  import opened Basics

  const TEMPLATE_REG := 512

  datatype WriteState = WriteIdle | WriteReady | WriteResp
  datatype ReadState = ReadIdle | ReadResp

  /** The registers, then history: addresses, data and responses handshaken so far, write
    * data offered in the last cycle and not accepted, and for each read address the value
    * selected for it and the responses delivered. */
  datatype State = State(
    wr: WriteState, awready: bool, wready: bool, bvalid: bool, awaddr: nat, template: nat,
    rd: ReadState, arready: bool, rvalid: bool, rdata: nat,
    aws: seq<nat>, ws: seq<nat>, bs: nat, held: Option<nat>,
    ars: seq<(nat, nat)>, rs: seq<nat>)

  /** The master's pins in one cycle; other is what the read multiplexer selects for an
    * address that is not the template register's. */
  datatype In = In(awvalid: bool, awaddr: nat, wvalid: bool, wdata: nat, bready: bool,
                   arvalid: bool, araddr: nat, rready: bool, other: nat)

  const RESET := State(WriteIdle, true, false, false, 0, 0, ReadIdle, true, false, 0, [], [], 0, None, [], [])

  function Stored(addr: nat, data: nat, template: nat): nat {
    if addr == TEMPLATE_REG then data else template
  }

  function NextWrite(s: State, i: In): State {
    match s.wr
    case WriteIdle =>
      if i.awvalid && s.awready then
        s.(wready := true, awready := false, awaddr := i.awaddr,
           template := if i.wvalid then Stored(i.awaddr, i.wdata, s.template) else s.template,
           wr := if i.wvalid then WriteResp else WriteReady)
      else s
    case WriteReady =>
      if i.wvalid then
        s.(template := Stored(s.awaddr, i.wdata, s.template),
           wready := false, bvalid := s.wready || s.bvalid, wr := WriteResp)
      else s
    case WriteResp =>
      var s1 := if s.wready && i.wvalid then s.(wready := false, bvalid := true) else s;
      if i.bready && s.bvalid then s1.(bvalid := false, awready := true, awaddr := 0, wr := WriteIdle)
      else s1
  }

  function ReadValue(s: State, i: In): nat {
    if i.araddr == TEMPLATE_REG then s.template else i.other
  }

  function NextRead(s: State, t: State, i: In): State {
    match s.rd
    case ReadIdle =>
      if s.arready && i.arvalid then t.(arready := false, rvalid := true, rdata := ReadValue(s, i), rd := ReadResp)
      else t
    case ReadResp =>
      if i.rready && s.rvalid then t.(rvalid := false, arready := true, rd := ReadIdle) else t
  }

  /** What is handshaken in this cycle. */
  function Record(s: State, t: State, i: In): State {
    t.(aws := if i.awvalid && s.awready then s.aws + [i.awaddr] else s.aws,
       ws := if i.wvalid && s.wready then s.ws + [i.wdata] else s.ws,
       bs := if s.bvalid && i.bready then s.bs + 1 else s.bs,
       held := if i.wvalid && !s.wready then Some(i.wdata) else None,
       ars := if i.arvalid && s.arready then s.ars + [(i.araddr, ReadValue(s, i))] else s.ars,
       rs := if s.rvalid && i.rready then s.rs + [s.rdata] else s.rs)
  }

  function Next(s: State, i: In): State {
    Record(s, NextRead(s, NextWrite(s, i), i), i)
  }

  /** The master keeps write data valid and stable until it is accepted. */
  predicate Legal(s: State, i: In) {
    s.held.Some? ==> i.wvalid && i.wdata == s.held.value
  }

  predicate LegalRun(ins: seq<In>) {
    ins == [] || (LegalRun(ins[..|ins| - 1]) && Legal(After(ins[..|ins| - 1]), ins[|ins| - 1]))
  }

  function After(ins: seq<In>): State {
    if ins == [] then RESET else Next(After(ins[..|ins| - 1]), ins[|ins| - 1])
  }

  /** The template register as the handshaken writes define it: the data of the last one
    * whose address was the register's. */
  function LastTemplate(aws: seq<nat>, ws: seq<nat>): nat
    requires |ws| <= |aws|
  {
    if ws == [] then 0
    else Stored(aws[|ws| - 1], ws[|ws| - 1], LastTemplate(aws, ws[..|ws| - 1]))
  }

  ghost predicate WriteInv(s: State) {
    && s.bs <= |s.ws| <= |s.aws| <= s.bs + 1
    && match s.wr
       case WriteIdle =>
         && s.awready && !s.wready && !s.bvalid && |s.aws| == s.bs && s.awaddr == 0
         && s.template == LastTemplate(s.aws, s.ws)
       case WriteReady =>
         && !s.awready && s.wready && !s.bvalid && |s.aws| == s.bs + 1 && |s.ws| == s.bs
         && s.awaddr == s.aws[s.bs] && s.template == LastTemplate(s.aws, s.ws)
       case WriteResp =>
         && !s.awready && s.bvalid == !s.wready && |s.aws| == s.bs + 1 && s.awaddr == s.aws[s.bs]
         && |s.ws| == (if s.wready then s.bs else s.bs + 1)
         && if s.wready then
              s.held.Some? && s.template == LastTemplate(s.aws, s.ws + [s.held.value])
            else s.template == LastTemplate(s.aws, s.ws)
  }

  ghost predicate ReadInv(s: State) {
    && (s.rd == ReadIdle ==> s.arready && !s.rvalid && |s.ars| == |s.rs|)
    && (s.rd == ReadResp ==> !s.arready && s.rvalid && |s.ars| == |s.rs| + 1 && s.rdata == s.ars[|s.rs|].1)
    && |s.rs| <= |s.ars|
    && (forall k :: 0 <= k < |s.rs| ==> s.rs[k] == s.ars[k].1)
  }

  lemma {:induction false} LastTemplateExtends(aws: seq<nat>, a: nat, ws: seq<nat>)
    requires |ws| <= |aws|
    ensures LastTemplate(aws + [a], ws) == LastTemplate(aws, ws)
  {
    if ws != [] {
      LastTemplateExtends(aws, a, ws[..|ws| - 1]);
    }
  }

  /** Accepting an address leaves the stored value alone; accepting data stores it. */
  lemma {:induction false} TemplateSteps(aws: seq<nat>, ws: seq<nat>, a: nat, d: nat)
    requires |ws| <= |aws|
    ensures LastTemplate(aws + [a], ws) == LastTemplate(aws, ws)
    ensures |ws| == |aws| ==> LastTemplate(aws + [a], ws + [d]) == Stored(a, d, LastTemplate(aws, ws))
    ensures |ws| < |aws| ==> LastTemplate(aws, ws + [d]) == Stored(aws[|ws|], d, LastTemplate(aws, ws))
  {
    LastTemplateExtends(aws, a, ws);
    assert (ws + [d])[..|ws|] == ws;
  }

  lemma {:induction false} WriteIdleStep(s: State, i: In)
    requires WriteInv(s) && Legal(s, i) && s.wr == WriteIdle
    ensures WriteInv(Next(s, i))
  {
    TemplateSteps(s.aws, s.ws, i.awaddr, i.wdata);
    hide LastTemplate, Stored, NextRead;
  }

  lemma {:induction false} WriteReadyStep(s: State, i: In)
    requires WriteInv(s) && Legal(s, i) && s.wr == WriteReady
    ensures WriteInv(Next(s, i))
  {
    TemplateSteps(s.aws, s.ws, i.awaddr, i.wdata);
    hide LastTemplate, Stored, NextRead;
  }

  lemma {:induction false} WriteRespStep(s: State, i: In)
    requires WriteInv(s) && Legal(s, i) && s.wr == WriteResp
    ensures WriteInv(Next(s, i))
  {
    TemplateSteps(s.aws, s.ws, i.awaddr, i.wdata);
    hide LastTemplate, Stored, NextRead;
    if s.wready { assert s.held == Some(i.wdata); }
  }

  lemma {:induction false} WriteStep(s: State, i: In)
    requires WriteInv(s) && Legal(s, i)
    ensures WriteInv(Next(s, i))
  {
    hide WriteInv, Next;
    match s.wr
    case WriteIdle => WriteIdleStep(s, i);
    case WriteReady => WriteReadyStep(s, i);
    case WriteResp => WriteRespStep(s, i);
  }

  lemma {:induction false} ReadStep(s: State, i: In)
    requires ReadInv(s)
    ensures ReadInv(Next(s, i))
  {
    hide Stored, LastTemplate, ReadValue, NextWrite;
    WriteKeepsRead(s, i);
  }

  /** The write machine leaves the read machine's registers and history alone. */
  lemma {:induction false} WriteKeepsRead(s: State, i: In)
    ensures var t := NextWrite(s, i);
            && t.rd == s.rd && t.arready == s.arready && t.rvalid == s.rvalid && t.rdata == s.rdata
            && t.ars == s.ars && t.rs == s.rs
  {
  }

  lemma {:induction false} RunInv(ins: seq<In>)
    requires LegalRun(ins)
    ensures WriteInv(After(ins)) && ReadInv(After(ins))
  {
    if ins != [] {
      RunInv(ins[..|ins| - 1]);
      WriteStep(After(ins[..|ins| - 1]), ins[|ins| - 1]);
      ReadStep(After(ins[..|ins| - 1]), ins[|ins| - 1]);
    }
  }

  /** Writes, over every legal run and either arrival order: data and responses follow
    * addresses one for one, never early, with at most one write open. Each handshake signal
    * is high exactly while its turn has come: a new address when no write is open, data when
    * only the address is in, the response when data is in too. The address of the open
    * write is held until then. */
  lemma {:induction false} WritesPairUp(ins: seq<In>)
    requires LegalRun(ins)
    ensures var s := After(ins);
            && s.bs <= |s.ws| <= |s.aws| <= s.bs + 1
            && (s.awready <==> |s.aws| == s.bs)
            && (s.wready <==> |s.aws| == |s.ws| + 1)
            && (s.bvalid <==> |s.ws| == s.bs + 1)
            && s.awaddr == if |s.aws| == s.bs then 0 else s.aws[s.bs]
  {
    RunInv(ins);
  }

  /** The value the template register must hold: the data of the last write to its address,
    * zero before there is one. */
  ghost predicate HoldsLastTo(addr: nat, aws: seq<nat>, ws: seq<nat>, value: nat)
    requires |aws| == |ws|
  {
    && (forall k :: 0 <= k < |aws| && aws[k] == addr && (forall l :: k < l < |aws| ==> aws[l] != addr) ==>
          value == ws[k])
    && ((forall k :: 0 <= k < |aws| ==> aws[k] != addr) ==> value == 0)
  }

  lemma {:induction false} LastTemplateHolds(aws: seq<nat>, ws: seq<nat>)
    requires |aws| == |ws|
    ensures HoldsLastTo(512, aws, ws, LastTemplate(aws, ws))
  {
    hide HoldsLastTo;
    if ws == [] {
      NoWrites(512);
    } else {
      var front, rest := aws[..|aws| - 1], ws[..|ws| - 1];
      LastTemplateHolds(front, rest);
      assert aws == front + [aws[|aws| - 1]] && ws == rest + [ws[|ws| - 1]];
      LastTemplateExtends(front, aws[|aws| - 1], rest);
      OneMoreWrite(512, front, rest, aws[|aws| - 1], ws[|ws| - 1], LastTemplate(front, rest));
    }
  }

  lemma {:induction false} NoWrites(addr: nat)
    ensures HoldsLastTo(addr, [], [], 0)
  {
  }

  /** A write to the address replaces the value held, a write elsewhere does not. */
  lemma {:induction false} OneMoreWrite(addr: nat, aws: seq<nat>, ws: seq<nat>, a: nat, w: nat, value: nat)
    requires |aws| == |ws| && HoldsLastTo(addr, aws, ws, value)
    ensures HoldsLastTo(addr, aws + [a], ws + [w], if a == addr then w else value)
  {
    var aws', ws' := aws + [a], ws + [w];
    assert aws'[|aws|] == a && forall k :: 0 <= k < |aws| ==> aws'[k] == aws[k] && ws'[k] == ws[k];
    if a != addr && exists k :: 0 <= k < |aws| && aws[k] == addr {
      forall k | 0 <= k < |aws'| && aws'[k] == addr && forall l :: k < l < |aws'| ==> aws'[l] != addr
        ensures value == ws'[k]
      {
        assert forall l :: k < l < |aws| ==> aws[l] == aws'[l];
      }
    }
  }

  /** An accepted read shows the selected value in the next cycle. */
  lemma {:induction false} ReadAccepted(ins: seq<In>, i: In)
    requires LegalRun(ins) && i.arvalid && After(ins).arready
    ensures Next(After(ins), i).rvalid
    ensures Next(After(ins), i).rdata == if i.araddr == 512 then After(ins).template else i.other
  {
    RunInv(ins);
  }

  /** With no write open the template register is what the handshaken writes to address 512
    * left there, and reading that address returns it; any other address returns what the
    * read multiplexer selects. */
  lemma {:induction false} TemplateReadsBack(ins: seq<In>, i: In)
    requires LegalRun(ins) && |After(ins).aws| == |After(ins).ws|
    ensures HoldsLastTo(512, After(ins).aws, After(ins).ws, After(ins).template)
    ensures i.arvalid && After(ins).arready ==>
              && Next(After(ins), i).rvalid
              && (i.araddr == 512 ==> HoldsLastTo(512, After(ins).aws, After(ins).ws, Next(After(ins), i).rdata))
              && (i.araddr != 512 ==> Next(After(ins), i).rdata == i.other)
  {
    hide HoldsLastTo, LastTemplate, Next;
    RunInv(ins);
    LastTemplateHolds(After(ins).aws, After(ins).ws);
    if i.arvalid && After(ins).arready { ReadAccepted(ins, i); }
  }

  /** An open write is answered within two cycles of a master that offers its data and is
    * ready for the response. */
  lemma {:induction false} WriteCompletes(ins: seq<In>, i: In, j: In)
    requires LegalRun(ins + [i] + [j])
    requires i.wvalid && i.bready && j.bready && |After(ins).aws| > After(ins).bs
    ensures After(ins + [i] + [j]).bs > After(ins).bs
  {
    assert (ins + [i] + [j])[..|ins| + 1] == ins + [i] && (ins + [i])[..|ins|] == ins;
    assert LegalRun(ins + [i]) && LegalRun(ins);
    RunInv(ins);
    RunInv(ins + [i]);
    assert After(ins + [i]) == Next(After(ins), i);
  }

  /** Reads, over every legal run: each response is the value selected when its address was
    * accepted, in order, one for one; and the data holds still until it is accepted. */
  lemma {:induction false} ReadsAnswered(ins: seq<In>, i: In)
    requires LegalRun(ins)
    ensures var s := After(ins);
            && |s.rs| <= |s.ars| <= |s.rs| + 1
            && (forall k :: 0 <= k < |s.rs| ==> s.rs[k] == s.ars[k].1)
            && (s.rvalid <==> |s.ars| == |s.rs| + 1) && (s.arready <==> |s.ars| == |s.rs|)
            && (s.rvalid && !i.rready ==> Next(s, i).rvalid && Next(s, i).rdata == s.rdata)
  {
    RunInv(ins);
  }
}

/** The register block, clocked in place. */
module RegisterBlock {
  import opened AxiLite
  import PacketCounter

  /** What the read multiplexer selects besides the template register; the no-reset counters
    * have their own addresses. */
  function Mux(addr: nat, roce: PacketCounter.Counter, nonRoce: PacketCounter.Counter, other: nat): nat {
    match addr
    case 0x010 => roce.high
    case 0x014 => roce.low
    case 0x020 => nonRoce.high
    case 0x024 => nonRoce.low
    case _ => other
  }

  /** What software reads: the low word is the number of pulses modulo 2^32, and the high word
    * with the carry in flight is the number divided by 2^32, each at its own address. */
  lemma {:induction false} CountersReadBack(ins: seq<In>, i: In, roce: seq<bool>, nonRoce: seq<bool>)
    requires LegalRun(ins) && AxiLite.After(ins).arready && i.arvalid
    ensures var c, d := PacketCounter.After(roce), PacketCounter.After(nonRoce);
            var s := Next(AxiLite.After(ins), i.(other := Mux(i.araddr, c, d, i.other)));
            && s.rvalid
            && (!c.overflow && i.araddr == 0x014 ==> s.rdata == PacketCounter.Pulses(roce) % 0x1_0000_0000)
            && (!c.overflow && i.araddr == 0x010 ==>
                  s.rdata + PacketCounter.InFlight(c) == PacketCounter.Pulses(roce) / 0x1_0000_0000)
            && (!d.overflow && i.araddr == 0x024 ==> s.rdata == PacketCounter.Pulses(nonRoce) % 0x1_0000_0000)
            && (!d.overflow && i.araddr == 0x020 ==>
                  s.rdata + PacketCounter.InFlight(d) == PacketCounter.Pulses(nonRoce) / 0x1_0000_0000)
  {
    hide Next, PacketCounter.After, PacketCounter.Pulses, PacketCounter.InFlight;
    var c, d := PacketCounter.After(roce), PacketCounter.After(nonRoce);
    ReadAccepted(ins, i.(other := Mux(i.araddr, c, d, i.other)));
    if !c.overflow { PacketCounter.WordsOfCount(roce); }
    if !d.overflow { PacketCounter.WordsOfCount(nonRoce); }
  }

  class RegControl {
    var axi: State
    var roce: PacketCounter.Counter
    var nonRoce: PacketCounter.Counter

    constructor ()
      ensures axi == RESET && roce == PacketCounter.ZERO && nonRoce == PacketCounter.ZERO
    {
      axi, roce, nonRoce := RESET, PacketCounter.ZERO, PacketCounter.ZERO;
    }

    /** One counter's always-blocks. */
    static method TickCounter(c: PacketCounter.Counter, pulse: bool) returns (r: PacketCounter.Counter)
      ensures r == PacketCounter.Tick(c, pulse)
    {
      r := c;
      if !c.overflow {
        r := r.(carry := false);
        if pulse {
          if c.msb && c.low < PacketCounter.HALF { r := r.(carry := true); }
          r := r.(low := (c.low + 1) % PacketCounter.WORD, msb := c.low >= PacketCounter.HALF);
        }
        if c.carry { r := r.(high := (c.high + 1) % PacketCounter.WORD); }
        r := r.(overflow := c.high >= PacketCounter.HALF);
      } else {
        r := r.(low := 0, carry := false);
      }
    }

    static method ClockWrite(s: State, i: In) returns (t: State)
      ensures t == NextWrite(s, i)
    {
      t := s;
      match s.wr {
        case WriteIdle =>
          if i.awvalid && s.awready {
            t := t.(wready := true, awready := false, awaddr := i.awaddr);
            if i.wvalid {
              if i.awaddr == TEMPLATE_REG { t := t.(template := i.wdata); }
              t := t.(wr := WriteResp);
            } else {
              t := t.(wr := WriteReady);
            }
          }
        case WriteReady =>
          if i.wvalid {
            if s.awaddr == TEMPLATE_REG { t := t.(template := i.wdata); }
            if s.wready { t := t.(wready := false, bvalid := true); }
            t := t.(wr := WriteResp);
          }
        case WriteResp =>
          if s.wready && i.wvalid { t := t.(wready := false, bvalid := true); }
          if i.bready && s.bvalid { t := t.(bvalid := false, awready := true, awaddr := 0, wr := WriteIdle); }
      }
    }

    static method ClockRead(s: State, t0: State, i: In) returns (t: State)
      ensures t == NextRead(s, t0, i)
    {
      t := t0;
      match s.rd {
        case ReadIdle =>
          if s.arready && i.arvalid {
            t := t.(arready := false, rvalid := true, rd := ReadResp);
            t := t.(rdata := if i.araddr == TEMPLATE_REG then s.template else i.other);
          }
        case ReadResp =>
          if i.rready && s.rvalid { t := t.(rvalid := false, arready := true, rd := ReadIdle); }
      }
    }

    function Other(i: In): nat
      reads this
    {
      Mux(i.araddr, roce, nonRoce, i.other)
    }

    /** One rising edge of every always-block. */
    method Clock(i: In, rocePulse: bool, nonRocePulse: bool)
      modifies this
      ensures roce == PacketCounter.Tick(old(roce), rocePulse)
      ensures nonRoce == PacketCounter.Tick(old(nonRoce), nonRocePulse)
      ensures axi == Next(old(axi), i.(other := old(Other(i))))
    {
      var j := i.(other := Other(i));
      var t := ClockWrite(axi, j);
      t := ClockRead(axi, t, j);
      axi := Record(axi, t, j);
      roce := TickCounter(roce, rocePulse);
      nonRoce := TickCounter(nonRoce, nonRocePulse);
    }
  }
}
