/** The ENC28J60 as the driver sees it over SPI: four banks of 32 control registers of which the last five
    are common, pointers that move by themselves, and the receive logic that stores packets meanwhile. */
module Enc28j60Chip {
  import opened MachineInts
  import opened Enc28j60Ring

  // ---- bit fields -------------------------------------------------------------------------

  datatype Bits = Bits(b7: bool, b6: bool, b5: bool, b4: bool, b3: bool, b2: bool, b1: bool, b0: bool)

  function ToBits(x: u8): Bits
  {
    Bits(x / 0x80 % 2 == 1, x / 0x40 % 2 == 1, x / 0x20 % 2 == 1, x / 0x10 % 2 == 1,
         x / 8 % 2 == 1, x / 4 % 2 == 1, x / 2 % 2 == 1, x % 2 == 1)
  }

  function ToByte(b: Bits): u8
  {
    (if b.b7 then 0x80 else 0) + (if b.b6 then 0x40 else 0) + (if b.b5 then 0x20 else 0) + (if b.b4 then 0x10 else 0) +
    (if b.b3 then 8 else 0) + (if b.b2 then 4 else 0) + (if b.b1 then 2 else 0) + (if b.b0 then 1 else 0)
  }

  function Or(a: Bits, b: Bits): Bits
  {
    Bits(a.b7 || b.b7, a.b6 || b.b6, a.b5 || b.b5, a.b4 || b.b4, a.b3 || b.b3, a.b2 || b.b2, a.b1 || b.b1, a.b0 || b.b0)
  }

  function AndNot(a: Bits, b: Bits): Bits
  {
    Bits(a.b7 && !b.b7, a.b6 && !b.b6, a.b5 && !b.b5, a.b4 && !b.b4, a.b3 && !b.b3, a.b2 && !b.b2,
         a.b1 && !b.b1, a.b0 && !b.b0)
  }

  // ---- state ------------------------------------------------------------------------------

  type Registers = s: seq<u8> | |s| == 0x80 witness seq(0x80, i => 0)

  /** The 32 words of the PHY. */
  type PhyRegisters = s: seq<u16> | |s| == 32 witness seq(32, i => 0)

  type Offset = i: nat | i < 0x20 witness 0

  type BankNumber = i: nat | i < 4 witness 0

  /** The control registers are kept bank after bank, the common ones with bank 0. Transmission and PHY
      access take some time: tx and mii count down to their end. Until a PHY word has arrived its two
      registers show something stale. rd is the read pointer the receive
      logic uses, wr its write pointer, count its packet counter; frames are those sent so far. An aligned
      chip starts packets on even addresses only. */
  datatype Chip = Chip(
    regs: Registers, econ1: Bits, autoinc: bool, rd: u16,
    mem: Memory, wr: u16, count: u8, tx: nat, mii: nat, frames: seq<seq<u8>>,
    txTime: nat, miiTime: nat, aligned: bool, phy: PhyRegisters, stale: u8)

  datatype Op = ReadControl | ReadBuffer | WriteControl | WriteBuffer | BitFieldSet | BitFieldClear | SoftReset

  function Bsel(c: Chip): BankNumber { (if c.econ1.b1 then 2 else 0) + (if c.econ1.b0 then 1 else 0) }

  predicate ReceiveEnabled(c: Chip) { c.econ1.b2 }

  function BankOf(address: u8): BankNumber { address / 0x20 % 4 }

  /** The register a bank and an offset name. */
  function Index(bank: BankNumber, offset: Offset): (i: nat)
    ensures i < 0x80
  {
    if offset >= 0x1B then offset else 0x20 * bank + offset
  }

  const ERDPT := 0x00
  const EWRPT := 0x02
  const ETXST := 0x04
  const ETXND := 0x06
  const ERXST := 0x08
  const ERXND := 0x0A
  const ERXRDPT := 0x0C
  const ERXWRPT := 0x0E
  const ECON2: Offset := 0x1E
  const ECON1: Offset := 0x1F
  const EPKTCNT := 0x39
  const MICMD_INDEX := 0x52
  const MIREGADR_INDEX := 0x54
  const MIWRL_INDEX := 0x56
  const MIWRH_INDEX := 0x57
  const MIRDL_INDEX := 0x58
  const MIRDH_INDEX := 0x59
  const MISTAT_INDEX := 0x6A

  /** A 13-bit pointer, kept in two neighbouring registers of bank 0. */
  function Pointer(c: Chip, low: nat): (p: u16)
    requires low < 0x1A
    ensures p < MEMORY
  {
    var l: int, h: int := c.regs[low], c.regs[low + 1];
    l + 0x100 * (h % 0x20)
  }

  function WithPointer(c: Chip, low: nat, p: u16): Chip
    requires low < 0x1A
  {
    c.(regs := c.regs[low := p % 0x100][low + 1 := p / 0x100])
  }

  lemma PointerStored(c: Chip, low: nat, p: u16, other: nat)
    requires low < 0x1A && other < 0x1A && p < MEMORY
    requires other == low || other + 1 < low || low + 1 < other
    ensures Pointer(WithPointer(c, low, p), other) == if other == low then p else Pointer(c, other)
  {
    var d := WithPointer(c, low, p);
    assert d.regs[low] == p % 0x100 && d.regs[low + 1] == p / 0x100;
  }

  // ---- SPI operations ---------------------------------------------------------------------

  /** Storing into the register with the given number: writing the high byte of the read pointer hands
      both bytes to the receive logic, writing the ring start moves the write pointer there, and a PHY access
      starts with the high byte of a word to be written or with the read command. */
  function Store(c: Chip, i: nat, data: u8): Chip
    requires i < 0x80
  {
    var d := c.(regs := c.regs[i := data]);
    if i == ERXST || i == ERXST + 1 then d.(wr := Pointer(d, ERXST))
    else if i == ERXRDPT + 1 then d.(rd := Pointer(d, ERXRDPT))
    else if i == MIWRH_INDEX then
      d.(phy := d.phy[PhyNumber(d) := Word(d.regs, MIWRL_INDEX)], mii := d.miiTime)
    else if Fetches(i, data) then
      d.(regs := Fetched(d.regs, d.phy[PhyNumber(d)]), mii := d.miiTime)
    else d
  }

  /** The write that starts the reading of a PHY word. */
  predicate Fetches(i: nat, data: u8) { i == MICMD_INDEX && data % 2 == 1 }

  /** The PHY word that the address register selects, by its five low bits. */
  function PhyNumber(c: Chip): (n: nat)
    ensures n < 32
  {
    c.regs[MIREGADR_INDEX] % 32
  }

  /** The registers with a word in those for the result. */
  function Fetched(r: Registers, word: u16): Registers { r[MIRDL_INDEX := word % 0x100][MIRDH_INDEX := word / 0x100] }

  /** The frame the chip is told to send: what lies behind the control byte up to the end pointer. */
  function Outgoing(c: Chip): seq<u8>
  {
    if Pointer(c, ETXST) <= Pointer(c, ETXND) then c.mem[Pointer(c, ETXST) + 1..Pointer(c, ETXND) + 1] else []
  }

  /** The transmit request bit starts a transmission unless one is in progress. While the transmit logic is
      held in reset no transmission starts, and putting it into reset cuts one off. */
  function WithEcon1(c: Chip, e: Bits): Chip
  {
    var starts := e.b3 && c.tx == 0 && !e.b7;
    var ends := !e.b3 || (e.b7 && !c.econ1.b7);
    c.(econ1 := e.(b3 := c.econ1.b3), tx := if starts then c.txTime else if ends then 0 else c.tx,
       frames := if starts then c.frames + [Outgoing(c)] else c.frames)
  }

  /** The transmit logic is held in reset. */
  predicate TransmitterHeld(c: Chip) { c.econ1.b7 }

  function Econ1(c: Chip): Bits { c.econ1.(b3 := c.tx > 0) }

  function WithEcon2(c: Chip, e: Bits): Chip
  {
    c.(autoinc := e.b7, count := if e.b6 && c.count > 0 then c.count - 1 else c.count)
  }

  function Econ2(c: Chip): Bits { ToBits(0).(b7 := c.autoinc) }

  function Control(c: Chip, offset: Offset): u8
  {
    var i := Index(Bsel(c), offset);
    if offset == ECON1 then ToByte(Econ1(c))
    else if offset == ECON2 then ToByte(Econ2(c))
    else if i == EPKTCNT then c.count
    else if i == MISTAT_INDEX then (if c.mii > 0 then 1 else 0)
    else if (i == MIRDL_INDEX || i == MIRDH_INDEX) && c.mii > 0 then c.stale
    else if i == ERXWRPT then c.wr % 0x100
    else if i == ERXWRPT + 1 then c.wr / 0x100
    else c.regs[i]
  }

  function WithControl(c: Chip, offset: Offset, data: u8): Chip
  {
    if offset == ECON1 then WithEcon1(c, ToBits(data))
    else if offset == ECON2 then WithEcon2(c, ToBits(data))
    else Store(c, Index(Bsel(c), offset), data)
  }

  /** What the chip answers to a read operation. */
  function Answer(c: Chip, op: Op, offset: Offset): u8
  {
    if op == ReadBuffer then c.mem[Pointer(c, ERDPT)] else Control(c, offset)
  }

  /** The buffer read pointer wraps at the end of the receive ring, the write pointer at that of the memory. */
  function NextRead(c: Chip): u16
  {
    var p := Pointer(c, ERDPT);
    if p == Pointer(c, ERXND) then Pointer(c, ERXST) else (p + 1) % MEMORY
  }

  /** The effect of an operation. */
  function Executed(c: Chip, op: Op, offset: Offset, data: u8): Chip
  {
    match op
    case ReadControl => c
    case ReadBuffer => if c.autoinc then WithPointer(c, ERDPT, NextRead(c)) else c
    case WriteControl => WithControl(c, offset, data)
    case WriteBuffer =>
      var d := c.(mem := c.mem[Pointer(c, EWRPT) := data]);
      if c.autoinc then WithPointer(d, EWRPT, (Pointer(c, EWRPT) + 1) % MEMORY) else d
    case BitFieldSet =>
      if offset == ECON1 then WithEcon1(c, Or(Econ1(c), ToBits(data)))
      else if offset == ECON2 then WithEcon2(c, Or(Econ2(c), ToBits(data)))
      else WithControl(c, offset, ToByte(Or(ToBits(Control(c, offset)), ToBits(data))))
    case BitFieldClear =>
      if offset == ECON1 then WithEcon1(c, AndNot(Econ1(c), ToBits(data)))
      else if offset == ECON2 then WithEcon2(c, AndNot(Econ2(c), ToBits(data)))
      else WithControl(c, offset, ToByte(AndNot(ToBits(Control(c, offset)), ToBits(data))))
    case SoftReset => c.(econ1 := ToBits(0), autoinc := true, count := 0, tx := 0, mii := 0)
  }

  /** The bank bits set to a bank number. */
  function Selected(c: Chip, bank: BankNumber): (d: Chip)
    ensures Bsel(d) == bank
  {
    c.(econ1 := c.econ1.(b1 := bank / 2 == 1, b0 := bank % 2 == 1))
  }

  /** Clearing both bank bits and setting those of a bank number selects it, whatever bank was selected. */
  lemma BankBits(c: Chip, d: Chip, bank: BankNumber)
    ensures Executed(c, BitFieldClear, ECON1, 0x03) == Selected(c, 0)
    ensures Bsel(d) == 0 ==> Executed(d, BitFieldSet, ECON1, bank) == Selected(d, bank)
  {
  }

  /** A register whose writing moves a pointer of the receive logic. */
  predicate Steering(i: nat) { i == ERXST || i == ERXST + 1 || i == ERXRDPT + 1 }

  /** A banked register that only keeps what is written to it. */
  predicate Plain(i: nat) { !(0x1B <= i < 0x20) && !Steering(i) && i != MIWRH_INDEX && i != MICMD_INDEX }

  /** Setting the transmit reset bit cuts off what is being sent. */
  lemma TransmitterHeldUp(c: Chip)
    requires !TransmitterHeld(c)
    ensures Executed(c, BitFieldSet, ECON1, 0x80) == c.(econ1 := c.econ1.(b7 := true), tx := 0)
  {
    assert ToBits(0x80) == ToBits(0).(b7 := true);
  }

  /** Clearing it changes nothing else. */
  lemma TransmitterReleased(c: Chip)
    ensures Executed(c, BitFieldClear, ECON1, 0x80) == c.(econ1 := c.econ1.(b7 := false))
  {
    assert ToBits(0x80) == ToBits(0).(b7 := true);
  }

  /** Setting the decrement bit takes one from the packet counter and changes nothing else. */
  lemma CountLess(c: Chip)
    requires c.autoinc && c.count > 0
    ensures Executed(c, BitFieldSet, ECON2, 0x40) == c.(count := c.count - 1)
  {
  }

  /** Setting the transmit request bit starts a transmission and changes nothing else, unless the transmit
      logic is held in reset. */
  lemma TransmitStart(c: Chip)
    requires c.tx == 0 && !TransmitterHeld(c)
    ensures Executed(c, BitFieldSet, ECON1, 0x08) == c.(tx := c.txTime, frames := c.frames + [Outgoing(c)])
  {
  }

  /** Writing an ordinary register of a bank. */
  lemma PlainWrite(c: Chip, bank: BankNumber, offset: Offset, data: u8)
    requires Plain(Index(bank, offset))
    ensures Executed(Selected(c, bank), WriteControl, offset, data) ==
            Selected(c, bank).(regs := c.regs[Index(bank, offset) := data])
  {
  }

  /** Writing the high byte of the read pointer behind its low byte hands it to the receive logic. */
  lemma ReadPointerWrite(c: Chip, p: u16)
    requires c.regs[ERXRDPT] == p % 0x100 && p < MEMORY
    ensures Executed(Selected(c, 0), WriteControl, ERXRDPT + 1, p / 0x100) ==
            Selected(c, 0).(regs := c.regs[ERXRDPT + 1 := p / 0x100], rd := p)
  {
  }

  /** Writing a register behind those of bank 0 and the common ones, unless it starts a PHY access. */
  lemma BankedWrite(c: Chip, bank: BankNumber, offset: Offset, data: u8)
    requires bank > 0 && offset < 0x1B && Index(bank, offset) != MIWRH_INDEX && !Fetches(Index(bank, offset), data)
    ensures Executed(Selected(c, bank), WriteControl, offset, data) ==
            Selected(c, bank).(regs := c.regs[Index(bank, offset) := data])
  {
  }

  /** Writing the high byte of a PHY word behind its low byte sends the word to the PHY. */
  lemma PhyStored(c: Chip, address: u8, word: u16)
    requires c.regs[MIREGADR_INDEX] == address && c.regs[MIWRL_INDEX] == word % 0x100
    ensures Executed(Selected(c, 2), WriteControl, 0x17, word / 0x100) ==
            Selected(c, 2).(regs := c.regs[MIWRH_INDEX := word / 0x100], phy := c.phy[address % 32 := word],
            mii := c.miiTime)
  {
    var d := c.regs[MIWRH_INDEX := word / 0x100];
    assert d[MIWRL_INDEX] == word % 0x100 && d[MIREGADR_INDEX] == address;
    assert Word(d, MIWRL_INDEX) == word;
  }

  /** The read command fetches the PHY word that the address register selects. */
  lemma PhyFetched(c: Chip, address: u8)
    requires c.regs[MIREGADR_INDEX] == address
    ensures Executed(Selected(c, 2), WriteControl, 0x12, 0x01) ==
            Selected(c, 2).(regs := Fetched(c.regs[MICMD_INDEX := 0x01], c.phy[address % 32]), mii := c.miiTime)
  {
    assert c.regs[MICMD_INDEX := 0x01][MIREGADR_INDEX] == address;
  }

  /** Writing the low and the high byte of the ring start moves the write pointer there. */
  lemma RingStartWrite(c: Chip, i: Offset, data: u8)
    requires i == ERXST || i == ERXST + 1
    ensures var d := Executed(Selected(c, 0), WriteControl, i, data);
            d == Selected(c, 0).(regs := c.regs[i := data], wr := Pointer(d, ERXST))
  {
  }

  lemma ByteOfBits(b: Bits)
    ensures ToBits(ToByte(b)) == b
  {
    var high := (if b.b7 then 8 else 0) + (if b.b6 then 4 else 0) + (if b.b5 then 2 else 0) + (if b.b4 then 1 else 0);
    var low := (if b.b3 then 8 else 0) + (if b.b2 then 4 else 0) + (if b.b1 then 2 else 0) + (if b.b0 then 1 else 0);
    var v: int := ToByte(b);
    assert v == 0x10 * high + low;
    Nibble(b.b7, b.b6, b.b5, b.b4);
    Nibble(b.b3, b.b2, b.b1, b.b0);
    Nibbles(v, high, low);
  }

  lemma Nibble(b3: bool, b2: bool, b1: bool, b0: bool)
    ensures var n := (if b3 then 8 else 0) + (if b2 then 4 else 0) + (if b1 then 2 else 0) + (if b0 then 1 else 0);
            (n / 8 % 2 == 1 <==> b3) && (n / 4 % 2 == 1 <==> b2) && (n / 2 % 2 == 1 <==> b1) && (n % 2 == 1 <==> b0)
  {
  }

  lemma Nibbles(v: int, high: nat, low: nat)
    requires v == 0x10 * high + low && high < 0x10 && low < 0x10
    ensures v / 0x80 % 2 == high / 8 % 2 && v / 0x40 % 2 == high / 4 % 2 && v / 0x20 % 2 == high / 2 % 2 &&
            v / 0x10 % 2 == high % 2
    ensures v / 8 % 2 == low / 8 % 2 && v / 4 % 2 == low / 4 % 2 && v / 2 % 2 == low / 2 % 2 && v % 2 == low % 2
  {
    HighNibble(v, high, low);
    LowNibble(v, high, low);
  }

  lemma HighNibble(v: int, high: nat, low: nat)
    requires v == 0x10 * high + low && low < 0x10
    ensures v / 0x10 == high && v / 0x20 == high / 2 && v / 0x40 == high / 4 && v / 0x80 == high / 8
  {
  }

  lemma LowNibble(v: int, high: nat, low: nat)
    requires v == 0x10 * high + low && low < 0x10
    ensures v / 8 % 2 == low / 8 % 2 && v / 4 % 2 == low / 4 % 2 && v / 2 % 2 == low / 2 % 2 && v % 2 == low % 2
  {
    Quotient(v, 2 * high + low / 8, 8, low % 8);
    Quotient(v, 4 * high + low / 4, 4, low % 4);
    Quotient(v, 8 * high + low / 2, 2, low % 2);
    ModPlusMultiple(low / 8, high, 2);
    ModPlusMultiple(low / 4, 2 * high, 2);
    ModPlusMultiple(low / 2, 4 * high, 2);
    ModPlusMultiple(low, 8 * high, 2);
  }

  lemma BankedSet(c: Chip, offset: Offset, data: u8)
    requires Bsel(c) > 0 && offset < 0x1B && Plain(Index(Bsel(c), offset))
    ensures Executed(c, BitFieldSet, offset, data) == c.(regs := Executed(c, BitFieldSet, offset, data).regs)
    ensures Executed(c, BitFieldSet, offset, data).regs ==
            c.regs[Index(Bsel(c), offset) := ToByte(Or(ToBits(Control(c, offset)), ToBits(data)))]
  {
  }

  lemma Reset(c: Chip)
    ensures Executed(c, SoftReset, 0, 0xFF) == c.(econ1 := ToBits(0), autoinc := true, count := 0, tx := 0, mii := 0)
    ensures Bsel(Executed(c, SoftReset, 0, 0xFF)) == 0 && !ReceiveEnabled(Executed(c, SoftReset, 0, 0xFF))
  {
  }

  /** The last steps of the start-up. */
  lemma InterruptsOn(c: Chip)
    ensures var d := Executed(c, BitFieldSet, 0x1B, 0); d == c.(regs := c.regs[0x1B := d.regs[0x1B]])
  {
  }

  lemma ReceptionOn(c: Chip)
    ensures Executed(c, BitFieldSet, ECON1, 0x04) == c.(econ1 := c.econ1.(b2 := true))
  {
    assert ToBits(0x04) == ToBits(0).(b2 := true);
  }

  /** Writing a banked register does not depend on what reception and the passing of time change, and
      does not change it, except for a pointer of the receive logic and the start of a PHY access. */
  lemma WriteApart(c: Chip, d: Chip, i: nat, data: u8)
    requires d == c.(mem := d.mem, wr := d.wr, count := d.count, tx := d.tx, mii := d.mii)
    requires i < 0x80 && d.mii <= c.mii
    ensures Store(d, i, data) ==
            Store(c, i, data).(mem := d.mem, wr := Store(d, i, data).wr, count := d.count, tx := d.tx,
            mii := Store(d, i, data).mii)
    ensures Store(d, i, data).mii <= Store(c, i, data).mii
    ensures if Steering(i) then d.wr == c.wr ==> Store(d, i, data).wr == Store(c, i, data).wr
            else Store(d, i, data).wr == d.wr && Store(c, i, data).wr == c.wr && Store(c, i, data).rd == c.rd
  {
    StoreKeeps(c, i, data);
    StoreKeeps(d, i, data);
  }

  /** Writing a register keeps the selected bank, unless it is the register with the bank bits. */
  lemma WriteSelects(c: Chip, offset: Offset, data: u8)
    ensures Bsel(Executed(c, WriteControl, offset, data)) == if offset == ECON1 then data % 4 else Bsel(c)
  {
    if offset == ECON1 {
      LowestBits(data);
    } else if offset != ECON2 {
      StoreKeeps(c, Index(Bsel(c), offset), data);
    }
  }

  lemma LowestBits(x: u8)
    ensures (if ToBits(x).b1 then 2 else 0) + (if ToBits(x).b0 then 1 else 0) == x % 4
  {
  }

  lemma StoreKeeps(c: Chip, i: nat, data: u8)
    requires i < 0x80
    ensures var d := Store(c, i, data);
            d == c.(regs := d.regs, wr := d.wr, rd := d.rd, mii := d.mii, phy := d.phy)
  {
  }

  // ---- reception --------------------------------------------------------------------------

  /** The receive ring is the one the driver sets up. */
  predicate RingSet(c: Chip) { Pointer(c, ERXST) == RXSTART_INIT && Pointer(c, ERXND) == RXSTOP_INIT }

  /** A packet is stored if reception is on, its counter is not at its end and there is room. */
  predicate Accepts(c: Chip, p: Packet)
  {
    && ReceiveEnabled(c) && RingSet(c) && c.rd < RING && c.wr < RING
    && c.count < 0xFF && Wellformed(p) && Size(p) <= Free(c.rd, c.wr)
    && (c.aligned ==> Place(c.wr, Size(p)) % 2 == 0)
  }

  function Accept(c: Chip, p: Packet): Chip
    requires Accepts(c, p)
  {
    c.(mem := Received(c.mem, c.wr, p), wr := Place(c.wr, Size(p)), count := c.count + 1)
  }

  function Passed(c: Chip): Chip
  {
    c.(tx := if c.tx > 0 then c.tx - 1 else 0, mii := if c.mii > 0 then c.mii - 1 else 0)
  }

  /** Reading a byte of the ring moves the buffer read pointer to the next ring byte, and nothing else. */
  lemma ReadAdvances(c: Chip, start: Address, i: nat)
    requires RingSet(c) && c.autoinc && i + 1 < RING && Pointer(c, ERDPT) == Place(start, i)
    ensures var d := Executed(c, ReadBuffer, 0, 0);
            d == c.(regs := d.regs) && RingSet(d) && Pointer(d, ERDPT) == Place(start, i + 1) &&
            Pointer(d, ETXST) == Pointer(c, ETXST)
  {
    var p := NextRead(c);
    PointerStored(c, ERDPT, p, ERDPT);
    PointerStored(c, ERDPT, p, ERXST);
    PointerStored(c, ERDPT, p, ERXND);
    PointerStored(c, ERDPT, p, ETXST);
  }

  /** The packets not yet read are safe in the ring, from head on. */
  ghost predicate Safe(c: Chip, head: nat, arrived: seq<Packet>, consumed: nat)
  {
    SafeIn(c.mem, c.wr, c.rd, c.aligned, head, arrived, consumed)
  }

  /** Stated for all q that are the unread packets, so that nothing but RxInv of them looks inside. */
  ghost predicate SafeIn(mem: Memory, wr: u16, rd: u16, aligned: bool, head: nat, arrived: seq<Packet>, consumed: nat)
  {
    && consumed <= |arrived| && head < RING && rd < RING && wr < RING
    && forall q {:trigger RxInv(mem, head, wr, rd, q)} ::
         q == arrived[consumed..] ==> RxInv(mem, head, wr, rd, q) && (aligned ==> EvenStarts(head, q))
  }

  lemma SafeTotal(c: Chip, head: nat, arrived: seq<Packet>, consumed: nat)
    requires Safe(c, head, arrived, consumed)
    ensures consumed <= |arrived| && head < RING && c.rd < RING && c.wr < RING
    ensures RxInv(c.mem, head, c.wr, c.rd, arrived[consumed..]) && Total(arrived[consumed..]) < RING
    ensures c.wr == Place(head, Total(arrived[consumed..]))
    ensures c.aligned ==> EvenStarts(head, arrived[consumed..])
  {
    var _ := RxInv(c.mem, head, c.wr, c.rd, arrived[consumed..]);
  }

  /** After the oldest packet the others are still safe. */
  lemma {:induction false} PopSafe(c: Chip, head: nat, arrived: seq<Packet>, consumed: nat)
    requires Safe(c, head, arrived, consumed) && consumed < |arrived|
    ensures Size(arrived[consumed]) < RING && head < RING
    ensures Safe(c, Place(head, Size(arrived[consumed])), arrived, consumed + 1)
  {
    PopKeeps(c.mem, head, c.wr, c.rd, arrived[consumed..]);
    assert arrived[consumed..][1..] == arrived[consumed + 1..];
  }

  lemma {:induction false} AcceptKeeps(c: Chip, head: nat, arrived: seq<Packet>, consumed: nat, p: Packet)
    requires Safe(c, head, arrived, consumed) && Accepts(c, p)
    ensures Safe(Accept(c, p), head, arrived + [p], consumed)
  {
    ArrivalKeeps(c.mem, head, c.wr, c.rd, arrived[consumed..], p);
    if c.aligned {
      assert Place(c.wr, Size(p)) == Place(head, Total(arrived[consumed..]) + Size(p));
      EvenAppend(head, arrived[consumed..], p);
    }
    assert (arrived + [p])[consumed..] == arrived[consumed..] + [p];
  }

  /** Writing a byte of the buffer changes that byte and moves the buffer write pointer on. */
  lemma WriteAdvances(c: Chip, data: u8)
    requires RingSet(c) && c.autoinc
    ensures var d := Executed(c, WriteBuffer, 0, data);
            && d == c.(regs := d.regs, mem := c.mem[Pointer(c, EWRPT) := data])
            && RingSet(d) && Pointer(d, EWRPT) == (if Pointer(c, EWRPT) == MEMORY - 1 then 0 else Pointer(c, EWRPT) + 1)
            && Pointer(d, ETXST) == Pointer(c, ETXST) && Pointer(d, ETXND) == Pointer(c, ETXND)
  {
    var d := c.(mem := c.mem[Pointer(c, EWRPT) := data]);
    var p: u16 := (Pointer(c, EWRPT) + 1) % MEMORY;
    PointerStored(d, EWRPT, p, EWRPT);
    PointerStored(d, EWRPT, p, ETXST);
    PointerStored(d, EWRPT, p, ETXND);
    PointerStored(d, EWRPT, p, ERXST);
    PointerStored(d, EWRPT, p, ERXND);
  }

  /** Memory outside the ring does not matter to the packets in it. */
  lemma {:induction false} SafeElsewhere(c: Chip, d: Chip, head: nat, arrived: seq<Packet>, consumed: nat)
    requires Safe(c, head, arrived, consumed) && d.rd == c.rd && d.wr == c.wr && d.aligned == c.aligned
    requires forall a :: 0 <= a < RING ==> d.mem[a] == c.mem[a]
    ensures Safe(d, head, arrived, consumed)
  {
    SafeTotal(c, head, arrived, consumed);
    StoredElsewhere(c.mem, d.mem, head, arrived[consumed..]);
  }

  /** How a chip may differ from its state before the hardware had its turn: packets have arrived, and time
      has passed. */
  ghost predicate Evolved(before: Chip, seen: seq<Packet>, c: Chip, arrived: seq<Packet>, head: nat, consumed: nat)
  {
    && c == before.(mem := c.mem, wr := c.wr, count := c.count, tx := c.tx, mii := c.mii)
    && seen <= arrived
    && c.count - |arrived| == before.count - |seen|
    && (forall a :: RING <= a < MEMORY ==> c.mem[a] == before.mem[a])
    && (Safe(before, head, seen, consumed) ==> Safe(c, head, arrived, consumed))
    && (|arrived| == |seen| ==> c.mem == before.mem && c.wr == before.wr)
    && (!ReceiveEnabled(before) ==> arrived == seen)
    && (c.tx < before.tx || c.tx == 0) && (c.mii < before.mii || c.mii == 0)
  }

  /** It does not matter whether a packet arrives before or after a register of a bank is written, except
      for the registers that steer reception. */
  lemma WriteAfter(c: Chip, a0: seq<Packet>, d: Chip, a1: seq<Packet>, e: Chip, a2: seq<Packet>,
                   head: nat, consumed: nat,
                   offset: Offset, data: u8)
    requires Evolved(c, a0, d, a1, head, consumed) && offset < 0x1B
    requires Evolved(Executed(d, WriteControl, offset, data), a1, e, a2, head, consumed)
    requires !ReceiveEnabled(c) || !Steering(Index(Bsel(c), offset))
    ensures Evolved(Executed(c, WriteControl, offset, data), a0, e, a2, head, consumed)
  {
    WriteApart(c, d, Index(Bsel(c), offset), data);
    StoreKeeps(c, Index(Bsel(c), offset), data);
  }

  lemma SelectAfter(c: Chip, a0: seq<Packet>, d: Chip, a1: seq<Packet>, e: Chip, a2: seq<Packet>,
                    head: nat, consumed: nat,
                    bank: BankNumber)
    requires Evolved(Selected(c, 0), a0, d, a1, head, consumed)
    requires Evolved(Selected(d, bank), a1, e, a2, head, consumed)
    ensures Evolved(Selected(c, bank), a0, e, a2, head, consumed)
  {
  }
}
