/** The address windows of the PCIe bridge, and the masking of work-queue addresses that
  * goes with them. */
module Windows {
  import opened Basics
  import opened Arith
  import opened Words
  import opened Buffers

  const AXI_BAR_SIZE := 0xff_ffff_ffff
  const ADDR_MASK := 0xffff_ffff
  const RN_QDMA_CSR_BASE_ADDRESS := 0x0001_4000
  const AXIB_BDF_ADDR_TRANSLATE_ADDR_LSB := RN_QDMA_CSR_BASE_ADDRESS + 0x2420
  const AXIB_BDF_ADDR_TRANSLATE_ADDR_MSB := RN_QDMA_CSR_BASE_ADDRESS + 0x2424
  const AXIB_BDF_PASID_RESERVED_ADDR := RN_QDMA_CSR_BASE_ADDRESS + 0x2428
  const AXIB_BDF_FUNCTION_NUM_ADDR := RN_QDMA_CSR_BASE_ADDRESS + 0x242c
  const AXIB_BDF_MAP_CONTROL_ADDR := RN_QDMA_CSR_BASE_ADDRESS + 0x2430
  const AXIB_BDF_RESERVED_ADDR := RN_QDMA_CSR_BASE_ADDRESS + 0x2434
  const WINDOWS := 8
  const WINDOW_STRIDE := 0x20

  // -------- the two words of an address, and the window-size mask --------

  function High(x: nat): nat {
    And(x, 0xffff_ffff_0000_0000) / WORD32 % WORD32
  }

  function Low(x: nat): nat {
    And(x, 0xffff_ffff)
  }

  lemma {:induction false} TwoWords(x: nat)
    requires x < WORD64
    ensures High(x) == x / WORD32 && Low(x) == x % WORD32
  {
    hide And, Pow2, ShiftRight;
    Powers();
    AndShifted(x, 0xffff_ffff_0000_0000, Pow2(32) - 1, 32);
    AndOnes(x / Pow2(32), 32);
    AndOnes(x, 32);
    assert x / WORD32 < WORD32;
  }

  lemma {:induction false} WinSizeWords()
    ensures High(AXI_BAR_SIZE) == 0xff && Low(AXI_BAR_SIZE) == 0xffff_ffff
  {
    hide High, Low;
    TwoWords(AXI_BAR_SIZE);
  }

  /** The address put into a work-queue element. */
  function MaskAddress(laddr: nat): nat {
    var high := if IsDeviceAddress(laddr) then High(laddr) else And(High(laddr), High(AXI_BAR_SIZE));
    var low := if IsDeviceAddress(laddr) then Low(laddr) else And(Low(laddr), Low(AXI_BAR_SIZE));
    Or(low, high * WORD32)
  }

  lemma {:induction false} OrWords(low: nat, high: nat)
    requires low < WORD32
    ensures Or(low, high * WORD32) == high * WORD32 + low
  {
    hide Or, Pow2;
    Powers();
    OrDisjoint(low, high * WORD32, high, 32);
  }

  /** A device address is kept whole; of a host address the low 40 bits are kept. */
  lemma {:induction false} MaskIs(laddr: nat)
    requires laddr < WORD64
    ensures MaskAddress(laddr) == if IsDeviceAddress(laddr) then laddr else laddr % Pow2(40)
  {
    hide And, Or, High, Low, IsDeviceAddress, Pow2;
    Powers();
    TwoWords(laddr);
    WinSizeWords();
    var hi, lo := laddr / WORD32, laddr % WORD32;
    AndOnes(hi, 8);
    AndOnes(lo, 32);
    OrWords(lo, hi);
    OrWords(lo, hi % 0x100);
    DivModUnique(laddr, Pow2(40), hi / 0x100, hi % 0x100 * WORD32 + lo);
  }

  // -------- programming the windows --------

  type Registers = map<nat, nat>

  /** One entry of the window table, `at` bytes behind the first. */
  function Row(regs: Registers, at: nat, high: nat, low: nat, control: nat): Registers {
    regs
    [AXIB_BDF_ADDR_TRANSLATE_ADDR_LSB + at := low]
    [AXIB_BDF_ADDR_TRANSLATE_ADDR_MSB + at := high]
    [AXIB_BDF_PASID_RESERVED_ADDR + at := 0]
    [AXIB_BDF_FUNCTION_NUM_ADDR + at := 0]
    [AXIB_BDF_MAP_CONTROL_ADDR + at := control]
    [AXIB_BDF_RESERVED_ADDR + at := 0]
  }

  ghost predicate RowIs(regs: Registers, at: nat, high: nat, low: nat, control: nat) {
    && AXIB_BDF_ADDR_TRANSLATE_ADDR_LSB + at in regs && regs[AXIB_BDF_ADDR_TRANSLATE_ADDR_LSB + at] == low
    && AXIB_BDF_ADDR_TRANSLATE_ADDR_MSB + at in regs && regs[AXIB_BDF_ADDR_TRANSLATE_ADDR_MSB + at] == high
    && AXIB_BDF_MAP_CONTROL_ADDR + at in regs && regs[AXIB_BDF_MAP_CONTROL_ADDR + at] == control
    && AXIB_BDF_PASID_RESERVED_ADDR + at in regs && regs[AXIB_BDF_PASID_RESERVED_ADDR + at] == 0
    && AXIB_BDF_FUNCTION_NUM_ADDR + at in regs && regs[AXIB_BDF_FUNCTION_NUM_ADDR + at] == 0
    && AXIB_BDF_RESERVED_ADDR + at in regs && regs[AXIB_BDF_RESERVED_ADDR + at] == 0
  }

  lemma {:induction false} RowWritten(regs: Registers, at: nat, high: nat, low: nat, control: nat)
    ensures RowIs(Row(regs, at, high, low, control), at, high, low, control)
  {
  }

  lemma {:induction false} RowKept(regs: Registers, at: nat, high: nat, low: nat, control: nat, at': nat, high': nat)
    requires at' + WINDOW_STRIDE <= at && RowIs(regs, at', high', low, control)
    ensures RowIs(Row(regs, at, high, low, control), at', high', low, control)
  {
  }

  lemma {:induction false} RowElsewhere(regs: Registers, at: nat, high: nat, low: nat, control: nat, a: nat)
    requires a < AXIB_BDF_ADDR_TRANSLATE_ADDR_LSB + at || a >= AXIB_BDF_ADDR_TRANSLATE_ADDR_LSB + at + WINDOW_STRIDE
    ensures a in Row(regs, at, high, low, control) <==> a in regs
    ensures a in regs ==> Row(regs, at, high, low, control)[a] == regs[a]
  {
  }

  /** The window table after its first n entries have been written. */
  function Programmed(regs: Registers, high: nat, low: nat, control: nat, n: nat): Registers {
    if n == 0 then regs
    else
      var at := (n - 1) * WINDOW_STRIDE;
      Row(Programmed(regs, high, low, control, n - 1), at, (high + at) % WORD32, low, control)
  }

  /** What each entry holds. */
  lemma {:induction false} ProgrammedAt(regs: Registers, high: nat, low: nat, control: nat, n: nat, i: nat)
    requires i < n
    ensures RowIs(Programmed(regs, high, low, control, n), i * WINDOW_STRIDE,
                  (high + i * WINDOW_STRIDE) % WORD32, low, control)
  {
    hide Row, RowIs;
    var before, at := Programmed(regs, high, low, control, n - 1), (n - 1) * WINDOW_STRIDE;
    if i < n - 1 {
      ProgrammedAt(regs, high, low, control, n - 1, i);
      RowKept(before, at, (high + at) % WORD32, low, control, i * WINDOW_STRIDE, (high + i * WINDOW_STRIDE) % WORD32);
    } else {
      RowWritten(before, at, (high + at) % WORD32, low, control);
    }
  }

  /** Nothing outside the table changes. */
  lemma {:induction false} ProgrammedElsewhere(regs: Registers, high: nat, low: nat, control: nat, n: nat, a: nat)
    requires a < AXIB_BDF_ADDR_TRANSLATE_ADDR_LSB || a >= AXIB_BDF_ADDR_TRANSLATE_ADDR_LSB + n * WINDOW_STRIDE
    ensures a in Programmed(regs, high, low, control, n) <==> a in regs
    ensures a in regs ==> Programmed(regs, high, low, control, n)[a] == regs[a]
  {
    hide Row;
    if n > 0 {
      var before, at := Programmed(regs, high, low, control, n - 1), (n - 1) * WINDOW_STRIDE;
      ProgrammedElsewhere(regs, high, low, control, n - 1, a);
      RowElsewhere(before, at, (high + at) % WORD32, low, control, a);
    }
  }

  function BaseHigh(high: nat): nat {
    And(high, (ADDR_MASK - High(AXI_BAR_SIZE)) % WORD32)
  }

  function BaseLow(low: nat): nat {
    And(low, (ADDR_MASK - Low(AXI_BAR_SIZE)) % WORD32)
  }

  function MapControl(): nat {
    Or(And((AXI_BAR_SIZE / 8 + 1) / 4096, 0xffff_ffff), 0xc000_0000)
  }

  lemma {:induction false} AndNone(x: nat)
    ensures And(x, 0) == 0
  {
  }

  /** The window base clears exactly the bits the window-size mask keeps, and leaves room for
    * all eight strides. */
  lemma {:induction false} BaseWords(high: nat, low: nat)
    requires high < WORD32 && low < WORD32
    ensures BaseHigh(high) == high / 0x100 * 0x100 && BaseLow(low) == 0
    ensures BaseHigh(high) + 7 * WINDOW_STRIDE < WORD32
  {
    hide And, High, Low, Pow2, ShiftRight;
    Powers();
    WinSizeWords();
    Pow2Add(12, 12);
    AndShifted(high, ADDR_MASK - 0xff, Pow2(24) - 1, 8);
    AndOnes(high / Pow2(8), 24);
    assert high / Pow2(8) % Pow2(24) == high / 0x100;
    AndNone(low);
  }

  lemma {:induction false} MapControlIs()
    ensures MapControl() == 0xc200_0000
  {
    hide And, Or;
    assert Pow2(2) == 4;
    hide Pow2;
    Powers();
    AndOnes(0x200_0000, 32);
    Pow2Add(2, 30);
    OrDisjoint(0x200_0000, 0xc000_0000, 3, 30);
  }

  // -------- the bridge --------

  function WindowBytes(control: nat): nat {
    control % 0x400_0000 * 4096
  }

  /** The bridge: the window an address falls in gives its upper bits, if the access is inside
    * the window's programmed size. */
  function Translate(regs: Registers, addr: nat): Option<nat> {
    var i, rest := addr / 0x20_0000_0000, addr % 0x20_0000_0000;
    var at := i * WINDOW_STRIDE;
    var (lsb, msb, ctl) := (AXIB_BDF_ADDR_TRANSLATE_ADDR_LSB + at,
                            AXIB_BDF_ADDR_TRANSLATE_ADDR_MSB + at,
                            AXIB_BDF_MAP_CONTROL_ADDR + at);
    if i >= WINDOWS || lsb !in regs || msb !in regs || ctl !in regs || rest >= WindowBytes(regs[ctl]) then None
    else Some(regs[msb] * WORD32 + regs[lsb] + rest)
  }

  function Table(regs: Registers, high: nat, low: nat): Registers {
    Programmed(regs, BaseHigh(high), BaseLow(low), MapControl(), WINDOWS)
  }

  /** Every 40-bit address is translated to the base's bits above 40 followed by itself. */
  lemma {:induction false} TranslateIs(regs: Registers, high: nat, low: nat, addr: nat)
    requires high < WORD32 && low < WORD32 && addr < Pow2(40)
    ensures Translate(Table(regs, high, low), addr) == Some(high / 0x100 * Pow2(40) + addr)
  {
    hide And, Or, Programmed, BaseHigh, BaseLow, MapControl, Pow2;
    Powers();
    var i := addr / 0x20_0000_0000;
    assert i < WINDOWS;
    BaseWords(high, low);
    MapControlIs();
    ProgrammedAt(regs, BaseHigh(high), BaseLow(low), MapControl(), WINDOWS, i);
  }

  /** Masking then translating is the identity exactly for the host addresses that share the
    * base buffer's bits above 40. */
  lemma {:induction false} MaskThenTranslateExactly(regs: Registers, base: nat, addr: nat)
    requires base < WORD64 && addr < WORD64 && !IsDeviceAddress(addr)
    ensures Translate(Table(regs, High(base), Low(base)), MaskAddress(addr)) == Some(addr)
            <==> addr / Pow2(40) == base / Pow2(40)
  {
    hide And, Or, High, Low, IsDeviceAddress, Translate, Table, MaskAddress, Pow2;
    Powers();
    MaskIs(addr);
    TwoWords(base);
    TranslateIs(regs, High(base), Low(base), addr % Pow2(40));
    assert base / WORD32 / 0x100 == base / Pow2(40);
  }

  /** Windows are adjacent: two masked addresses are translated to the same distance apart. */
  lemma {:induction false} TranslationKeepsDistance(regs: Registers, base: nat, x: nat, y: nat)
    requires base < WORD64 && x < Pow2(40) && y < Pow2(40)
    ensures var table := Table(regs, High(base), Low(base));
            && Translate(table, x).Some? && Translate(table, y).Some?
            && Translate(table, x).value - Translate(table, y).value == x - y
  {
    hide And, Or, High, Low, Translate, Table;
    TwoWords(base);
    TranslateIs(regs, High(base), Low(base), x);
    TranslateIs(regs, High(base), Low(base), y);
  }

  /** The control register file, written word by word. */
  class ControlRegion {
    var regs: Registers

    constructor (regs: Registers)
      ensures this.regs == regs
    {
      this.regs := regs;
    }

    method Write32(offset: nat, value: nat)
      requires value < WORD32
      modifies this
      ensures regs == old(regs)[offset := value]
    {
      regs := regs[offset := value];
    }

    method ConfigBdf(highAddr: nat, lowAddr: nat)
      requires highAddr < WORD32 && lowAddr < WORD32
      modifies this
      ensures regs == Table(old(regs), highAddr, lowAddr)
    {
      hide And, Or, High, Low, Pow2;
      BaseWords(highAddr, lowAddr);
      MapControlIs();
      var winSizeMsb, winSizeLsb := High(AXI_BAR_SIZE), Low(AXI_BAR_SIZE);
      var bdfAddrHigh := And(highAddr, (ADDR_MASK - winSizeMsb) % WORD32);
      var bdfAddrLow := And(lowAddr, (ADDR_MASK - winSizeLsb) % WORD32);
      var config := Or(And((AXI_BAR_SIZE / 8 + 1) / 4096, 0xffff_ffff), 0xc000_0000);
      for i := 0 to WINDOWS
        invariant regs == Programmed(old(regs), bdfAddrHigh, bdfAddrLow, config, i)
      {
        var at := i * WINDOW_STRIDE;
        Write32(AXIB_BDF_ADDR_TRANSLATE_ADDR_LSB + at, bdfAddrLow);
        Write32(AXIB_BDF_ADDR_TRANSLATE_ADDR_MSB + at, (bdfAddrHigh + at) % WORD32);
        Write32(AXIB_BDF_PASID_RESERVED_ADDR + at, 0);
        Write32(AXIB_BDF_FUNCTION_NUM_ADDR + at, 0);
        Write32(AXIB_BDF_MAP_CONTROL_ADDR + at, config);
        Write32(AXIB_BDF_RESERVED_ADDR + at, 0);
      }
    }
  }
}
