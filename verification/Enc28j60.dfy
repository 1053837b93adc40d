/** The driver of the ENC28J60 (src/enc28j60.c): its cache of the selected register bank, the start-up
    sequence, sending, and receiving from the ring that the chip fills at the same time. */
module Enc28j60 {
  import opened MachineInts
  import opened Enc28j60Ring
  import opened Enc28j60Chip

  /** The packets on the wire in each turn of the hardware. */
  type Traffic = nat -> seq<Packet>

  ghost predicate Silent(wire: Traffic) { forall n :: wire(n) == [] }

  /** One and the same packet comes again and again. */
  ghost predicate Only(wire: Traffic, p: Packet) { forall n :: wire(n) == [p] }

  /** Every packet on the wire is too long for the free region. */
  ghost predicate Unfit(wire: Traffic, rd: u16, wr: u16)
  {
    rd < RING && wr < RING && forall n, p :: p in wire(n) ==> Size(p) > Free(rd, wr)
  }

  const ERDPTL: u8 := 0x00
  const EWRPTL: u8 := 0x02
  const ETXSTL: u8 := 0x04
  const ETXNDL: u8 := 0x06
  const ERXSTL: u8 := 0x08
  const ERXSTH: u8 := 0x09
  const ERXNDL: u8 := 0x0A
  const ERXRDPTL: u8 := 0x0C
  const ERXRDPTH: u8 := 0x0D
  const EPMM0: u8 := 0x28
  const EPMM1: u8 := 0x29
  const EPMCSL: u8 := 0x30
  const EPMCSH: u8 := 0x31
  const ERXFCON: u8 := 0x38
  const MACON1: u8 := 0xC0
  const MACON2: u8 := 0xC1
  const MACON3: u8 := 0xC2
  const MABBIPG: u8 := 0xC4
  const MAIPGL: u8 := 0xC6
  const MAIPGH: u8 := 0xC7
  const MAMXFLL: u8 := 0xCA
  const MAMXFLH: u8 := 0xCB
  const MICMD: u8 := 0xD2
  const MIREGADR: u8 := 0xD4
  const MIWRL: u8 := 0xD6
  const MIWRH: u8 := 0xD7
  const MIRDL: u8 := 0xD8
  const MIRDH: u8 := 0xD9
  const MAADR1: u8 := 0xE0
  const MAADR0: u8 := 0xE1
  const MAADR3: u8 := 0xE2
  const MAADR2: u8 := 0xE3
  const MAADR5: u8 := 0xE4
  const MAADR4: u8 := 0xE5
  const MISTAT: u8 := 0xEA
  const EREVID: u8 := 0x72

  lemma OldestFits(arrived: seq<Packet>, consumed: nat)
    requires consumed < |arrived| && Fitting(arrived[consumed..])
    ensures Size(arrived[consumed]) < RING && Wellformed(arrived[consumed])
  {
    assert arrived[consumed..][0] == arrived[consumed];
  }

  /** A packet that fills the ring to its last byte behind the unread ones. */
  predicate Fills(p: Packet, unread: seq<Packet>) { Wellformed(p) && Size(p) == RING - 1 - Total(unread) }

  /** A packet that keeps coming is too long for the free region, but fills the ring behind the unread ones. */
  ghost predicate Lurking(wire: Traffic, p: Packet, c: Chip, unread: seq<Packet>)
  {
    Only(wire, p) && Unfit(wire, c.rd, c.wr) && c.count < 0xFF && Fills(p, unread)
  }

  /** It is accepted when the read pointer stands at the oldest one, at address 0, and then nothing fits. */
  lemma {:induction false} FillsUp(c: Chip, arrived: seq<Packet>, consumed: nat, p: Packet)
    requires Safe(c, 0, arrived, consumed) && ReceiveEnabled(c) && RingSet(c) && c.count < 0xFF
    requires Fills(p, arrived[consumed..])
    ensures Accepts(c.(rd := 0), p) && Total((arrived + [p])[consumed..]) == RING - 1
  {
    SafeTotal(c, 0, arrived, consumed);
    assert (arrived + [p])[consumed..] == arrived[consumed..] + [p];
    TotalAppend(arrived[consumed..], p);
  }

  /** Once a full ring has been opened to the chip the packets are not safe again. */
  lemma {:induction false} Opened(c: Chip, head: nat, arrived: seq<Packet>, consumed: nat, window: seq<Packet>)
    requires head < RING && c.rd == Pred(head) && consumed <= |window| && window <= arrived
    requires Total(window[consumed..]) == RING - 1
    ensures !Safe(c, head, arrived, consumed)
  {
    if Safe(c, head, arrived, consumed) {
      SafeTotal(c, head, arrived, consumed);
    }
    assert arrived[consumed..] == window[consumed..] + arrived[|window|..];
    TotalConcat(window[consumed..], arrived[|window|..]);
  }

  /** After the second write of the read pointer the packets are safe exactly if a byte had been spared. */
  lemma {:induction false} Spared(at: Chip, c: Chip, head: nat, arrived: seq<Packet>, consumed: nat,
                                  window: seq<Packet>)
    requires Safe(at, head, window, consumed) && c.rd == Pred(head) && window <= arrived
    requires Safe(at.(rd := Pred(head)), head, window, consumed) ==> Safe(c, head, arrived, consumed)
    ensures Total(window[consumed..]) <= RING - 1
    ensures Total(window[consumed..]) <= RING - 2 <==> Safe(c, head, arrived, consumed)
    ensures at.aligned && head != 0 ==> Total(window[consumed..]) <= RING - 2
  {
    var q := window[consumed..];
    ReadPointerBeforeHead(at.mem, head, at.wr, at.rd, q);
    if Total(q) == RING - 1 {
      if at.aligned {
        EvenRingFillsAtZero(at.mem, head, at.wr, at.rd, q);
      }
      Opened(c, head, arrived, consumed, window);
    }
  }

  lemma UnfitWhenFull(wire: Traffic, p: Packet, c: Chip, arrived: seq<Packet>, consumed: nat)
    requires Only(wire, p) && Wellformed(p) && c.rd == 0 && Safe(c, 0, arrived, consumed)
    requires Total(arrived[consumed..]) == RING - 1
    ensures Unfit(wire, c.rd, c.wr)
  {
    SafeTotal(c, 0, arrived, consumed);
  }

  /** The byte count less the checksum, in 16 bits. */
  function WithoutChecksum(count: u16): (len: u16)
    ensures count >= 4 ==> len == count - 4
  {
    var n: int := count;
    U16(n - 4)
  }

  /** A call of the driver. */
  datatype Request = Receive | Probe | Send(len: u16) | ReadPhy(address: u8) | WritePhy(address: u8, data: u16)

  function Receives(calls: seq<Request>): nat
  {
    if calls == [] then 0 else Receives(calls[..|calls| - 1]) + if calls[|calls| - 1].Receive? then 1 else 0
  }

  /** The frames that the calls send. */
  function SentBy(calls: seq<Request>, data: seq<u8>): seq<seq<u8>>
  {
    if calls == [] then []
    else
      var last := calls[|calls| - 1];
      SentBy(calls[..|calls| - 1], data) + if last.Send? && last.len <= |data| then [data[..last.len]] else []
  }

  /** A frame to be sent fits the caller's buffer and the transmit area. */
  predicate Sound(call: Request, room: nat) {
    call.Send? ==> call.len <= room && call.len <= TXSTOP_INIT - TXSTART_INIT
  }

  /** The station address of a vendor number as the registers MAADR1, 0, 3, 2, 5, 4 hold it. */
  function Station(oui: u32): seq<u8>
  {
    [0x12, 0x66, oui % 0x100, 0x14, oui / 0x1_0000 % 0x100, oui / 0x100 % 0x100]
  }

  /** The filter accepts frames with a right checksum, and has its pattern for address resolution. */
  predicate FilterSet(r: Registers) {
    r[0x38] == 0x20 && r[0x28] == 0x3F && r[0x29] == 0x30 && r[0x30] == 0xF9 &&
    r[0x31] == 0xF7
  }

  /** The MAC receives and pauses, is out of reset, and pads frames, adds checksums and checks lengths. */
  predicate MacSet(r: Registers) {
    r[0x40] == 0x0D && r[0x41] == 0 && ToBits(r[0x42]).b5 && ToBits(r[0x42]).b4 &&
    ToBits(r[0x42]).b1
  }

  /** The gaps between frames, and frames of at most 1500 bytes. */
  predicate FramesSet(r: Registers) { r[0x46] == 0x12 && r[0x47] == 0x0C && r[0x44] == 0x12 && Word(r, 0x4A) == 1500 }

  predicate Configured(r: Registers) { FilterSet(r) && MacSet(r) && FramesSet(r) }

  /** The bytes of the station address for the two vendor words of the PHY. */
  lemma StationBytes(w2: u16, w3: u16, oui: u32)
    requires oui == w3 / 0x400 * 0x1_0000 + w2
    ensures Station(oui) == [0x12, 0x66, w2 % 0x100, 0x14, w3 / 0x400, w2 / 0x100]
  {
    Quotient(oui, w3 / 0x400, 0x1_0000, w2);
    ModPlusMultiple(w2, w3 / 0x400 * 0x100, 0x100);
    ModPlusMultiple(w2 / 0x100, w3 / 0x400 * 0x100, 0x100);
  }

  /** What the caller gets for a packet: its data cut to maxlen - 1 bytes and closed with a zero, or
      nothing if the packet is not marked as received well. */
  predicate Delivered(p: Packet, maxlen: u16, before: seq<u8>, len: u16, after: seq<u8>)
    requires 1 <= maxlen <= |before|
  {
    if !Ok(p) then len == 0 && after == before
    else
      && len == (if |p.data| < maxlen then |p.data| else maxlen - 1)
      && after == p.data[..len] + [0] + before[len + 1..]
  }

  lemma StillAbove(w: nat, k: nat, len: nat)
    requires RING <= w && w + len <= MEMORY && k < len
    ensures RING <= Turned(w, k)
  {
  }

  lemma Closed(after: seq<u8>, before: seq<u8>, data: seq<u8>)
    requires |data| < |after| == |before| && after[..|data|] == data && after[|data|] == 0
    requires after[|data| + 1..] == before[|data| + 1..]
    ensures after == data + [0] + before[|data| + 1..]
  {
    assert after == after[..|data|] + [after[|data|]] + after[|data| + 1..];
  }

  /** The bytes of a packet that reach a caller with room for maxlen. */
  function Cut(p: Packet, maxlen: u16): seq<u8>
    requires 1 <= maxlen
  {
    if !Ok(p) then [] else if |p.data| < maxlen then p.data else p.data[..maxlen - 1]
  }

  lemma CutDelivered(p: Packet, maxlen: u16, before: seq<u8>, len: u16, after: seq<u8>)
    requires 1 <= maxlen <= |before| && Delivered(p, maxlen, before, len, after)
    ensures len <= |after| && after[..len] == Cut(p, maxlen)
  {
  }

  /** The packets from a place on have been handed out. */
  predicate HandedOut(log: seq<seq<u8>>, arrived: seq<Packet>, from: nat, maxlen: u16)
    requires 1 <= maxlen
  {
    from + |log| <= |arrived| && forall k :: 0 <= k < |log| ==> log[k] == Cut(arrived[from + k], maxlen)
  }

  lemma HandedOutNext(log: seq<seq<u8>>, seen: seq<Packet>, arrived: seq<Packet>, from: nat, maxlen: u16,
                      taken: seq<seq<u8>>)
    requires 1 <= maxlen && HandedOut(log, seen, from, maxlen) && seen <= arrived
    requires taken == [] || (from + |log| < |arrived| && taken == [Cut(arrived[from + |log|], maxlen)])
    ensures HandedOut(log + taken, arrived, from, maxlen)
  {
  }

  class Driver {
    var bank: u8
    var nextPacketPtr: u16

    var chip: Chip

    // The other end of the line, and how many turns the hardware has had.
    var wire: Traffic
    var turns: nat

    // History: the packets the chip stored since its reset, how many of them the driver took, and where
    // the first one it did not take starts.
    var arrived: seq<Packet>
    var consumed: nat
    var head: nat

    /** A register that keeps what was written to it. */
    static predicate Static(i: nat)
    {
      i < 0x80 && i != ECON1 && i != ECON2 && i != EPKTCNT && i != MISTAT_INDEX && i != ERXWRPT &&
      i != ERXWRPT + 1 && i != MIRDL_INDEX && i != MIRDH_INDEX
    }

    predicate Coherent() reads this`bank, this`chip { bank == 0x20 * Bsel(chip) }

    /** An access to the address selects its bank, or finds it selected. */
    predicate Reaches(address: u8) reads this`bank, this`chip { Coherent() || bank != 0x20 * BankOf(address) }

    /** How the state may differ from the chip's state before the hardware had its turn. */
    twostate predicate Later(before: Chip)
      reads this
    {
      && Evolved(before, old(arrived), chip, arrived, head, consumed)
      && (Silent(wire) || Unfit(wire, before.rd, before.wr) ==> arrived == old(arrived))
    }

    /** A packet that keeps coming is stored exactly if the chip accepts it. */
    twostate predicate Taken(before: Chip)
      reads this
    {
      forall p :: Only(wire, p) ==> arrived == old(arrived) + if Accepts(before, p) then [p] else []
    }

    constructor (chip: Chip)
      ensures this.chip == chip && bank == 0 && Silent(wire)
    {
      this.chip, bank, nextPacketPtr := chip, 0, 0;
      wire, turns, arrived, consumed, head := n => [], 0, [], 0, 0;
    }

    /** A packet is offered to the chip. */
    method Offer(p: Packet)
      modifies this`chip, this`arrived
      ensures chip == old(chip).(mem := chip.mem, wr := chip.wr, count := chip.count)
      ensures arrived == old(arrived) + if old(Accepts(chip, p)) then [p] else []
      ensures old(Accepts(chip, p)) ==> chip == old(Accept(chip, p))
      ensures chip.count - |arrived| == old(chip.count) - |old(arrived)|
      ensures forall a :: RING <= a < MEMORY ==> chip.mem[a] == old(chip.mem)[a]
      ensures old(Safe(chip, head, arrived, consumed)) ==> Safe(chip, head, arrived, consumed)
      ensures |arrived| == |old(arrived)| ==> chip.mem == old(chip.mem) && chip.wr == old(chip.wr)
      ensures !ReceiveEnabled(chip) ==> arrived == old(arrived)
    {
      if Accepts(chip, p) {
        if Safe(chip, head, arrived, consumed) {
          AcceptKeeps(chip, head, arrived, consumed, p);
        }
        chip := Accept(chip, p);
        arrived := arrived + [p];
      }
    }

    /** The chip stores what arrives, as far as it accepts it. */
    method HardwareTurn()
      modifies this`chip, this`turns, this`arrived
      ensures Later(old(chip)) && Taken(old(chip))
    {
      chip := Passed(chip);
      var offered, i := wire(turns), 0;
      turns := turns + 1;
      while i < |offered|
        invariant i <= |offered|
        invariant chip == Passed(old(chip)).(mem := chip.mem, wr := chip.wr, count := chip.count)
        invariant old(arrived) <= arrived
        invariant chip.count - |arrived| == old(chip.count) - |old(arrived)|
        invariant forall a :: RING <= a < MEMORY ==> chip.mem[a] == old(chip.mem)[a]
        invariant old(Safe(chip, head, arrived, consumed)) ==> Safe(chip, head, arrived, consumed)
        invariant |arrived| == |old(arrived)| ==> chip.mem == old(chip.mem) && chip.wr == old(chip.wr)
        invariant !ReceiveEnabled(chip) ==> arrived == old(arrived)
        invariant i == 0 ==> arrived == old(arrived)
        invariant i == 1 ==> arrived == old(arrived) + if Accepts(old(chip), offered[0]) then [offered[0]] else []
        invariant Unfit(wire, old(chip).rd, old(chip).wr) ==> arrived == old(arrived)
      {
        assert offered[i] in wire(old(turns));
        Offer(offered[i]);
        i := i + 1;
      }
    }

    // ---- register access ------------------------------------------------------------------

    method ReadOp(op: Op, address: u8) returns (data: u8)
      modifies this`chip, this`turns, this`arrived
      ensures data == Answer(old(chip), op, address % 0x20)
      ensures Later(Executed(old(chip), op, address % 0x20, 0))
    {
      data := Answer(chip, op, address % 0x20);
      chip := Executed(chip, op, address % 0x20, 0);
      HardwareTurn();
    }

    method WriteOp(op: Op, address: u8, data: u8)
      modifies this`chip, this`turns, this`arrived
      ensures Later(Executed(old(chip), op, address % 0x20, data))
      ensures op == WriteControl ==> Taken(Executed(old(chip), WriteControl, address % 0x20, data))
    {
      chip := Executed(chip, op, address % 0x20, data);
      HardwareTurn();
    }

    /** Afterwards the cache tells the bank of the address, and if it did not before, the chip has been
        switched to it. */
    method SetBank(address: u8)
      modifies this`bank, this`chip, this`turns, this`arrived
      ensures bank == 0x20 * BankOf(address)
      ensures old(Reaches(address)) ==> Coherent()
      ensures bank == old(bank) ==> chip == old(chip) && arrived == old(arrived)
      ensures bank != old(bank) ==> Later(Selected(old(chip), BankOf(address)))
    {
      if 0x20 * BankOf(address) != bank {
        ClearBank();
        ghost var between, seen := chip, arrived;
        ChooseBank(BankOf(address));
        SelectAfter(old(chip), old(arrived), between, seen, chip, arrived, head, consumed, BankOf(address));
        bank := 0x20 * BankOf(address);
      }
    }

    method ClearBank()
      modifies this`chip, this`turns, this`arrived
      ensures Later(Selected(old(chip), 0))
    {
      BankBits(chip, chip, 0);
      WriteOp(BitFieldClear, ECON1, 0x03);
    }

    method ChooseBank(number: BankNumber)
      requires Bsel(chip) == 0
      modifies this`chip, this`turns, this`arrived
      ensures Later(Selected(old(chip), number))
    {
      BankBits(chip, chip, number);
      WriteOp(BitFieldSet, ECON1, number);
    }

    /** The register an address names. */
    static function Named(address: u8): nat { Index(BankOf(address), address % 0x20) }

    /** Reads exactly the register the address names. */
    method Read(address: u8) returns (data: u8)
      requires Reaches(address)
      modifies this`bank, this`chip, this`turns, this`arrived
      ensures bank == 0x20 * BankOf(address) && Coherent()
      ensures Later(Selected(old(chip), BankOf(address)))
      ensures Static(Named(address)) ==> data == old(chip).regs[Named(address)]
      ensures Named(address) == EPKTCNT ==> old(chip.count) <= data <= chip.count
      ensures Named(address) == ECON2 ==> data == ToByte(Econ2(old(chip)))
      ensures Named(address) == ECON1 ==>
                exists busy: bool :: data == ToByte(Selected(old(chip), BankOf(address)).econ1.(b3 := busy))
      ensures Named(address) == ERXWRPT && |arrived| == |old(arrived)| ==> data == old(chip).wr % 0x100
      ensures Named(address) == ERXWRPT + 1 && |arrived| == |old(arrived)| ==> data == old(chip).wr / 0x100
      ensures (Named(address) == MIRDL_INDEX || Named(address) == MIRDH_INDEX) && old(chip.mii) == 0 ==>
                data == old(chip).regs[Named(address)]
      ensures Named(address) == MISTAT_INDEX ==>
                if data == 0 then chip.mii == 0 else data == 1 && chip.mii < old(chip.mii)
    {
      SetBank(address);
      data := ReadOp(ReadControl, address);
    }

    /** Writes exactly the register the address names. What arrives while the bank is switched does not
        matter, except to the registers that steer reception. */
    method Write(address: u8, data: u8)
      requires Reaches(address)
      modifies this`bank, this`chip, this`turns, this`arrived
      ensures bank == 0x20 * BankOf(address)
      ensures Coherent() <==> (address % 0x20 == ECON1 ==> data % 4 == BankOf(address))
      ensures bank == old(bank) ||
              (address % 0x20 < 0x1B && (!ReceiveEnabled(old(chip)) || !Steering(Named(address)))) ==>
                Later(Executed(Selected(old(chip), BankOf(address)), WriteControl, address % 0x20, data))
      ensures exists at: Chip, seen: seq<Packet> ::
                && (if bank == old(bank) then at == old(chip) && seen == old(arrived)
                    else Evolved(Selected(old(chip), BankOf(address)), old(arrived), at, seen, head, consumed))
                && Evolved(Executed(at, WriteControl, address % 0x20, data), seen, chip, arrived, head, consumed)
      ensures address == ERXRDPTH && bank == old(bank) ==>
                Taken(Executed(old(chip), WriteControl, address % 0x20, data))
    {
      SetBank(address);
      ghost var at, seen := chip, arrived;
      WriteSelected(address, data);
      if bank != old(bank) && address % 0x20 < 0x1B && (!ReceiveEnabled(old(chip)) || !Steering(Named(address))) {
        WriteAfter(Selected(old(chip), BankOf(address)), old(arrived), at, seen, chip, arrived, head, consumed,
                   address % 0x20, data);
      }
    }

    /** The same when the bank is selected. */
    method WriteSelected(address: u8, data: u8)
      requires Coherent() && bank == 0x20 * BankOf(address)
      modifies this`chip, this`turns, this`arrived
      ensures Later(Executed(old(chip), WriteControl, address % 0x20, data))
      ensures Taken(Executed(old(chip), WriteControl, address % 0x20, data))
      ensures Coherent() <==> (address % 0x20 == ECON1 ==> data % 4 == BankOf(address))
    {
      WriteSelects(chip, address % 0x20, data);
      WriteOp(WriteControl, address, data);
    }

    // ---- start-up -------------------------------------------------------------------------

    /** The chip is set up, its transmit logic is not held in reset, and the driver knows the selected bank. */
    predicate Running() reads this`bank, this`chip
    {
      Receptive() && !TransmitterHeld(chip)
    }

    predicate Receptive() reads this`bank, this`chip
    {
      Coherent() && RingSet(chip) && Pointer(chip, ETXST) == TXSTART_INIT && chip.autoinc && ReceiveEnabled(chip)
    }

    /** Between calls: the packets not taken are safe in the ring, the chip counts them, and the driver
        remembers where the oldest one starts. */
    ghost predicate Ready() reads this
    {
      && Running() && Safe(chip, head, arrived, consumed)
      && chip.count == |arrived| - consumed && nextPacketPtr == head
    }

    /** Packets may have arrived, unless none comes or none fits; else reception is as before. */
    twostate predicate Quiet()
      reads this
    {
      && old(arrived) <= arrived && chip.count - |arrived| == old(chip.count) - |old(arrived)|
      && chip.frames == old(chip.frames) && chip.rd == old(chip.rd)
      && (|arrived| == |old(arrived)| ==> chip.wr == old(chip.wr))
      && (Silent(wire) || Unfit(wire, old(chip.rd), old(chip.wr)) ==> arrived == old(arrived))
    }

    /** Nothing but arrivals has happened to the packets and to the buffer memory. */
    twostate predicate Undisturbed()
      reads this
    {
      && Quiet()
      && (old(Safe(chip, head, arrived, consumed)) ==> Safe(chip, head, arrived, consumed))
      && (forall a :: RING <= a < MEMORY ==> chip.mem[a] == old(chip.mem)[a])
      && (|arrived| == |old(arrived)| ==> chip.mem == old(chip.mem))
    }

    /** Besides, all but the registers that steers reception is as before. */
    twostate predicate Steady()
      reads this
    {
      && Undisturbed() && chip.tx <= old(chip).tx && chip.autoinc == old(chip).autoinc
      && chip.aligned == old(chip).aligned
      && ReceiveEnabled(chip) == old(ReceiveEnabled(chip)) && TransmitterHeld(chip) == old(TransmitterHeld(chip))
      && (!ReceiveEnabled(chip) ==> arrived == old(arrived) && chip.wr == old(chip).wr)
    }

    /** And the registers outside a set. */
    twostate predicate Kept(except: set<nat>)
      reads this
    {
      Steady() && forall k :: 0 <= k < 0x80 && k !in except ==> chip.regs[k] == old(chip).regs[k]
    }

    /** Writes a register of the banks 1 to 3, unless that starts a PHY access. */
    method Configure(address: u8, data: u8)
      requires Reaches(address) && BankOf(address) > 0 && address % 0x20 < 0x1B
      requires Named(address) != MIWRH_INDEX && !Fetches(Named(address), data)
      modifies this`bank, this`chip, this`turns, this`arrived
      ensures Coherent() && bank == 0x20 * BankOf(address)
      ensures chip.regs == old(chip).regs[Named(address) := data] && chip.phy == old(chip).phy && Steady()
      ensures chip.mii <= old(chip.mii)
    {
      BankedWrite(chip, BankOf(address), address % 0x20, data);
      Write(address, data);
    }

    /** Writes a register that only keeps what is written to it. */
    method WritePlain(address: u8, data: u8)
      requires Reaches(address) && Plain(Named(address))
      modifies this`bank, this`chip, this`turns, this`arrived
      ensures Coherent() && bank == 0x20 * BankOf(address)
      ensures chip.regs == old(chip).regs[Named(address) := data] && chip.phy == old(chip).phy && Steady()
    {
      PlainWrite(chip, BankOf(address), address % 0x20, data);
      Write(address, data);
    }

    /** Writes a pointer that the receive logic does not use, low byte first. */
    method WritePointer(low: u8, p: u16)
      requires Reaches(low) && low < 0x1A && low != ERXSTL && low != ERXRDPTL && Plain(low) && Plain(low + 1) &&
               p < MEMORY
      modifies this`bank, this`chip, this`turns, this`arrived
      ensures Coherent() && bank == 0 && Kept({low, low + 1}) && Pointer(chip, low) == p
      ensures chip.phy == old(chip).phy
    {
      ghost var before := chip;
      WritePlain(low, p % 0x100);
      WritePlain(low + 1, p / 0x100);
      PointerStored(before, low, p, low);
      assert chip.regs == WithPointer(before, low, p).regs;
    }

    method WaitForPhy()
      requires Reaches(MISTAT)
      modifies this`bank, this`chip, this`turns, this`arrived
      ensures Coherent() && Steady() && chip.mii == 0
      ensures chip.regs == old(chip).regs && chip.phy == old(chip).phy
    {
      var busy := PhyBusy();
      while busy % 2 == 1
        invariant Coherent() && Steady()
        invariant chip.regs == old(chip).regs && chip.phy == old(chip).phy
        invariant busy == 1 || (busy == 0 && chip.mii == 0)
        decreases chip.mii + busy
      {
        busy := PhyBusy();
      }
    }

    method PhyBusy() returns (busy: u8)
      requires Reaches(MISTAT)
      modifies this`bank, this`chip, this`turns, this`arrived
      ensures Coherent() && Steady()
      ensures chip.regs == old(chip).regs && chip.phy == old(chip).phy
      ensures if busy == 0 then chip.mii == 0 else busy == 1 && chip.mii < old(chip.mii)
    {
      busy := Read(MISTAT);
    }

    /** Stores a word in a PHY register, and waits until that is done. */
    method PhyWrite(address: u8, data: u16)
      requires Reaches(MIREGADR)
      modifies this`bank, this`chip, this`turns, this`arrived
      ensures Coherent() && Steady() && chip.mii == 0
      ensures chip.phy == old(chip).phy[address % 32 := data]
      ensures chip.regs == old(chip).regs[0x54 := address][0x56 := data % 0x100][0x57 := data / 0x100]
    {
      Configure(MIREGADR, address);
      Configure(MIWRL, data % 0x100);
      PhyStore(address, data);
      WaitForPhy();
    }

    /** Writing the high byte sends the word to the PHY. */
    method PhyStore(address: u8, data: u16)
      requires Coherent() && bank == 0x40 && chip.regs[0x54] == address && chip.regs[0x56] == data % 0x100
      modifies this`bank, this`chip, this`turns, this`arrived
      ensures Coherent() && bank == 0x40 && Steady()
      ensures chip.phy == old(chip).phy[address % 32 := data]
      ensures chip.regs == old(chip).regs[0x57 := data / 0x100]
    {
      PhyStored(chip, address, data);
      Write(MIWRH, data / 0x100);
    }

    /** Starts the reading of a PHY register and waits until it is done. */
    method PhyFetch(address: u8)
      requires Reaches(MIREGADR)
      modifies this`bank, this`chip, this`turns, this`arrived
      ensures Coherent() && bank == 0x40 && Steady() && chip.mii == 0 && chip.phy == old(chip).phy
      ensures chip.regs == Fetched(old(chip).regs[0x54 := address][0x52 := 0], old(chip).phy[address % 32])
    {
      Configure(MIREGADR, address);
      PhyCommand(address);
      WaitForPhy();
      Configure(MICMD, 0x00);
    }

    /** The read command brings the word into the two result registers. */
    method PhyCommand(address: u8)
      requires Coherent() && bank == 0x40 && chip.regs[0x54] == address
      modifies this`bank, this`chip, this`turns, this`arrived
      ensures Coherent() && bank == 0x40 && Steady() && chip.phy == old(chip).phy
      ensures chip.regs == Fetched(old(chip).regs[0x52 := 0x01], old(chip).phy[address % 32])
    {
      PhyFetched(chip, address);
      Write(MICMD, 0x01);
    }

    /** Reads a PHY register. */
    method PhyRead(address: u8) returns (result: u16)
      requires Reaches(MIREGADR)
      modifies this`bank, this`chip, this`turns, this`arrived
      ensures Coherent() && bank == 0x40 && Steady() && chip.mii == 0 && chip.phy == old(chip).phy
      ensures forall k :: 0 <= k < 0x80 && k !in {0x52, 0x54, 0x58, 0x59} ==> chip.regs[k] == old(chip).regs[k]
      ensures result == old(chip).phy[address % 32]
    {
      PhyFetch(address);
      var high := ReadResult(MIRDH);
      var low := ReadResult(MIRDL);
      result := (high as int) * 0x100 + low;
    }

    /** Reads one of the result registers while no PHY access is in progress. */
    method ReadResult(address: u8) returns (data: u8)
      requires Coherent() && bank == 0x40 && chip.mii == 0 && (address == MIRDL || address == MIRDH)
      modifies this`bank, this`chip, this`turns, this`arrived
      ensures Coherent() && bank == 0x40 && Steady() && chip.mii == 0
      ensures chip.regs == old(chip).regs && chip.phy == old(chip).phy && data == chip.regs[Named(address)]
    {
      data := Read(address);
    }

    /** The vendor number, from two PHY registers: ten bits of the one are not part of it. */
    method GetOUI() returns (oui: u32)
      requires Reaches(MIREGADR)
      modifies this`bank, this`chip, this`turns, this`arrived
      ensures Coherent() && bank == 0x60 && chip.phy == old(chip).phy
      ensures var w2: int, w3: int := old(chip).phy[2], old(chip).phy[3]; oui == w3 / 0x400 * 0x1_0000 + w2
    {
      var phid1: int := PhyRead(0x02);
      var phid2: int := PhyRead(0x03);
      var _ := Read(EREVID);
      oui := phid2 / 0x400 * 0x1_0000 + phid1;
    }

    /** Reception is off, and the transmit logic is not held in reset. */
    static predicate Idle(c: Chip) { !ReceiveEnabled(c) && !TransmitterHeld(c) }

    /** The reset puts the chip back to bank 0 behind the driver's back. */
    method SoftReset()
      modifies this`chip, this`turns, this`arrived, this`consumed, this`head
      ensures Bsel(chip) == 0 && Idle(chip) && chip.autoinc && chip.count == 0 && chip.phy == old(chip).phy
      ensures arrived == [] && consumed == 0 && head == 0
    {
      Reset(chip);
      arrived, consumed, head := [], 0, 0;
      WriteOp(Op.SoftReset, 0, 0xFF);
    }

    /** Sets the ring start. The chip's write pointer follows. */
    method InitStart()
      requires Reaches(ERXSTL) && Idle(chip)
      modifies this`bank, this`chip, this`turns, this`arrived
      ensures Coherent() && bank == 0 && Idle(chip) && chip.autoinc == old(chip).autoinc
      ensures arrived == old(arrived) && chip.count == old(chip).count && chip.phy == old(chip).phy
      ensures Pointer(chip, ERXST) == 0 && chip.wr == 0
    {
      StoreStart(ERXSTL, RXSTART_INIT % 0x100);
      StoreStart(ERXSTH, RXSTART_INIT / 0x100);
    }

    method StoreStart(address: u8, data: u8)
      requires Reaches(address) && Idle(chip) && (address == ERXSTL || address == ERXSTH)
      modifies this`bank, this`chip, this`turns, this`arrived
      ensures Coherent() && bank == 0 && Idle(chip) && chip.autoinc == old(chip).autoinc
      ensures arrived == old(arrived) && chip.count == old(chip).count && chip.phy == old(chip).phy
      ensures chip.regs == old(chip).regs[address := data] && chip.wr == Pointer(chip, ERXST)
    {
      RingStartWrite(chip, address, data);
      WriteRingStart(address, data);
    }

    method WriteRingStart(address: u8, data: u8)
      requires Reaches(address) && !ReceiveEnabled(chip) && (address == ERXSTL || address == ERXSTH)
      modifies this`bank, this`chip, this`turns, this`arrived
      ensures Coherent() && bank == 0
      ensures Later(Executed(Selected(old(chip), 0), WriteControl, address, data))
    {
      assert BankOf(address) == 0 && address % 0x20 == address && Named(address) == address;
      Write(address, data);
    }

    /** Sets the chip's read pointer. */
    method InitReadPointer()
      requires Coherent() && bank == 0 && Idle(chip) && Pointer(chip, ERXST) == 0
      modifies this`bank, this`chip, this`turns, this`arrived
      ensures Coherent() && bank == 0 && Idle(chip) && chip.autoinc == old(chip).autoinc
      ensures arrived == old(arrived) && chip.count == old(chip).count && chip.phy == old(chip).phy
      ensures Pointer(chip, ERXST) == 0 && chip.wr == old(chip).wr && chip.rd == 0
    {
      Write(ERXRDPTL, RXSTART_INIT % 0x100);
      ReadPointerWrite(chip, RXSTART_INIT);
      Write(ERXRDPTH, RXSTART_INIT / 0x100);
    }

    /** Sets the end of the ring and the transmit area. */
    method InitLimits()
      requires Coherent() && bank == 0 && Idle(chip) && Pointer(chip, ERXST) == 0
      modifies this`bank, this`chip, this`turns, this`arrived
      ensures Coherent() && bank == 0 && Kept({0x0A, 0x0B, 4, 5, 6, 7}) && chip.phy == old(chip).phy
      ensures RingSet(chip) && Pointer(chip, ETXST) == TXSTART_INIT
    {
      WritePointer(ERXNDL, RXSTOP_INIT);
      WritePointer(ETXSTL, TXSTART_INIT);
      WritePointer(ETXNDL, TXSTOP_INIT);
    }

    /** The areas of the buffer memory are set up, and reception is still off. */
    predicate Prepared()
      reads this`bank, this`chip
    {
      Coherent() && RingSet(chip) && Pointer(chip, ETXST) == TXSTART_INIT && chip.autoinc && Idle(chip)
    }

    /** Still prepared, with the pointers of the receive logic and the history as before. */
    twostate predicate StillPrepared()
      reads this
    {
      Prepared() && arrived == old(arrived) && chip.rd == old(chip).rd && chip.wr == old(chip).wr &&
      chip.count == old(chip).count
    }

    /** Writes a register of the banks 1 to 3 while everything is prepared. */
    method Set(address: u8, data: u8)
      requires Prepared() && BankOf(address) > 0 && address % 0x20 < 0x1B
      requires Named(address) != MIWRH_INDEX && Named(address) != MICMD_INDEX
      modifies this`bank, this`chip, this`turns, this`arrived
      ensures StillPrepared() && bank == 0x20 * BankOf(address) && chip.phy == old(chip).phy
      ensures chip.regs == old(chip).regs[Named(address) := data]
    {
      Configure(address, data);
    }

    /** The packet filter. */
    method InitFilter()
      requires Prepared()
      modifies this`bank, this`chip, this`turns, this`arrived
      ensures StillPrepared() && chip.phy == old(chip).phy
      ensures FilterSet(chip.regs)
    {
      Set(ERXFCON, 0x20);
      Set(EPMM0, 0x3F);
      Set(EPMM1, 0x30);
      Set(EPMCSL, 0xF9);
      Set(EPMCSH, 0xF7);
    }

    method InitMac()
      requires Prepared()
      modifies this`bank, this`chip, this`turns, this`arrived
      ensures StillPrepared() && chip.phy == old(chip).phy
      ensures MacSet(chip.regs) && forall k :: 0 <= k < 0x40 ==> chip.regs[k] == old(chip).regs[k]
    {
      Set(MACON1, 0x0D);
      Set(MACON2, 0x00);
      SetFrameBits();
    }

    /** Padding, checksum and length check, in the bank of the MAC registers. */
    method SetFrameBits()
      requires Prepared() && bank == 0x40
      modifies this`chip, this`turns, this`arrived
      ensures StillPrepared() && chip.phy == old(chip).phy && chip.regs == old(chip).regs[0x42 := chip.regs[0x42]]
      ensures ToBits(chip.regs[0x42]).b5 && ToBits(chip.regs[0x42]).b4 && ToBits(chip.regs[0x42]).b1
    {
      BankedSet(chip, MACON3 % 0x20, 0x32);
      ByteOfBits(Or(ToBits(Control(chip, MACON3 % 0x20)), ToBits(0x32)));
      WriteOp(BitFieldSet, MACON3, 0x32);
    }

    method InitFrames()
      requires Prepared()
      modifies this`bank, this`chip, this`turns, this`arrived
      ensures StillPrepared() && chip.phy == old(chip).phy
      ensures FramesSet(chip.regs) && forall k :: 0 <= k < 0x43 ==> chip.regs[k] == old(chip).regs[k]
    {
      Set(MAIPGL, 0x12);
      Set(MAIPGH, 0x0C);
      Set(MABBIPG, 0x12);
      Set(MAMXFLL, 1500 % 0x100);
      Set(MAMXFLH, 1500 / 0x100);
    }

    /** The station address: the vendor part and three fixed bytes. */
    method InitAddress(oui: u32)
      requires Prepared()
      modifies this`bank, this`chip, this`turns, this`arrived
      ensures StillPrepared() && chip.phy == old(chip).phy
      ensures forall k :: 0 <= k < 0x60 ==> chip.regs[k] == old(chip).regs[k]
      ensures chip.regs[0x60..0x66] == Station(oui)
    {
      Set(MAADR5, oui / 0x1_0000 % 0x100);
      Set(MAADR4, oui / 0x100 % 0x100);
      Set(MAADR3, oui % 0x100);
      Set(MAADR2, 0x14);
      Set(MAADR1, 0x12);
      Set(MAADR0, 0x66);
    }

    method InitSettings(oui: u32)
      requires Prepared()
      modifies this`bank, this`chip, this`turns, this`arrived
      ensures StillPrepared() && chip.phy == old(chip).phy[0x10 := 0x0100]
      ensures Configured(chip.regs) && chip.regs[0x60..0x66] == Station(oui)
    {
      InitFilter();
      InitMac();
      InitStation(oui);
    }

    method InitStation(oui: u32)
      requires Prepared()
      modifies this`bank, this`chip, this`turns, this`arrived
      ensures StillPrepared() && FramesSet(chip.regs) && chip.regs[0x60..0x66] == Station(oui)
      ensures chip.phy == old(chip).phy[0x10 := 0x0100]
      ensures forall k :: 0 <= k < 0x43 ==> chip.regs[k] == old(chip).regs[k]
    {
      InitFrames();
      InitAddress(oui);
      PhyWrite(0x10, 0x0100);
    }

    method InitInterrupts()
      requires Prepared()
      modifies this`bank, this`chip, this`turns, this`arrived
      ensures StillPrepared() && chip.phy == old(chip).phy
      ensures forall k :: 0x20 <= k < 0x80 ==> chip.regs[k] == old(chip).regs[k]
    {
      SetBank(ECON1);
      ghost var _ := EnableInterrupts();
    }

    method EnableInterrupts() returns (ghost mask: u8)
      modifies this`chip, this`turns, this`arrived
      ensures Later(old(chip).(regs := old(chip).regs[0x1B := mask]))
    {
      InterruptsOn(chip);
      mask := Executed(chip, BitFieldSet, 0x1B, 0).regs[0x1B];
      WriteOp(BitFieldSet, 0x1B, 0);
    }

    /** Switches reception on. */
    method InitReception()
      requires Prepared() && arrived == [] && consumed == 0 && head == 0 && nextPacketPtr == 0
      requires chip.count == 0 && chip.rd == 0 && chip.wr == 0
      modifies this`chip, this`turns, this`arrived
      ensures Ready() && chip.regs == old(chip).regs && chip.phy == old(chip).phy && chip.rd == 0 && head == 0
      ensures Silent(wire) ==> arrived == []
    {
      EmptyRing(chip.mem);
      assert Safe(chip, 0, [], 0);
      EnableReception();
    }

    method EnableReception()
      modifies this`chip, this`turns, this`arrived
      ensures Later(old(chip).(econ1 := old(chip).econ1.(b2 := true)))
    {
      ReceptionOn(chip);
      WriteOp(BitFieldSet, ECON1, 0x04);
    }

    /** Whatever state the chip is in, after the start-up the driver knows the selected bank and is ready
        to receive. The first access reaches bank 2 although the cache may be wrong; the reset makes the
        cache wrong again, and the first write to bank 0 puts it right. */
    method Init()
      requires Coherent() || bank == 0
      modifies this`bank, this`chip, this`turns, this`arrived, this`consumed, this`head, this`nextPacketPtr
      ensures Ready() && consumed == 0 && chip.rd == 0 && head == 0
      ensures Configured(chip.regs) && chip.phy == old(chip).phy[0x10 := 0x0100]
      ensures var w2, w3 := old(chip).phy[2], old(chip).phy[3];
              chip.regs[0x60..0x66] == [0x12, 0x66, w2 % 0x100, 0x14, w3 / 0x400, w2 / 0x100]
      ensures Silent(wire) ==> arrived == []
    {
      var oui := GetOUI();
      StationBytes(old(chip).phy[2], old(chip).phy[3], oui);
      InitRing();
      InitSettings(oui);
      InitInterrupts();
      InitReception();
    }

    /** The reset and the areas of the buffer memory. The first write to bank 0 reaches it whatever the cache
        names, as long as that is another bank. */
    method InitRing()
      requires bank == 0x60
      modifies this`bank, this`chip, this`turns, this`arrived, this`consumed, this`head, this`nextPacketPtr
      ensures Prepared() && arrived == [] && consumed == 0 && head == 0 && nextPacketPtr == 0
      ensures chip.count == 0 && chip.rd == 0 && chip.wr == 0 && chip.phy == old(chip).phy
    {
      SoftReset();
      nextPacketPtr := RXSTART_INIT;
      InitStart();
      InitReadPointer();
      InitLimits();
    }

    // ---- receiving ------------------------------------------------------------------------

    /** The packet is the oldest one and safe, and the chip's buffer read pointer stands in it. */
    ghost predicate Reading(p: Packet, from: nat)
      reads this`bank, this`chip, this`arrived, this`consumed, this`head
    {
      && Running() && bank == 0 && Safe(chip, head, arrived, consumed) && consumed < |arrived| && arrived[consumed] == p
      && from < Size(p) < RING && Wellformed(p) && Pointer(chip, ERDPT) == Place(head, from)
    }

    method NextByte(ghost p: Packet, ghost from: nat) returns (data: u8)
      requires Reading(p, from) && from + 1 < Size(p)
      modifies this`chip, this`turns, this`arrived
      ensures Reading(p, from + 1) && Quiet()
      ensures data == Bytes(head, p)[from]
    {
      HeadByte(chip.mem, head, chip.wr, chip.rd, arrived[consumed..], from);
      ReadAdvances(chip, head, from);
      data := ReadOp(Op.ReadBuffer, 0);
    }

    /** Reads the word number k of the header. */
    method NextWord(ghost p: Packet, ghost k: nat) returns (data: u16)
      requires Reading(p, 2 * k) && k < 3
      modifies this`chip, this`turns, this`arrived
      ensures Reading(p, 2 * k + 2) && Quiet()
      ensures data == HeaderWord(head, p, k)
    {
      HeaderWords(head, p, k);
      var low: int := NextByte(p, 2 * k);
      var high: int := NextByte(p, 2 * k + 1);
      data := low + 0x100 * high;
    }

    method Seek()
      requires Ready() && consumed < |arrived|
      modifies this`bank, this`chip, this`turns, this`arrived
      ensures Reading(old(arrived[consumed]), 0) && Quiet()
    {
      SafeTotal(chip, head, arrived, consumed);
      OldestFits(arrived, consumed);
      WritePointer(ERDPTL, nextPacketPtr);
    }

    /** The header of the oldest packet. */
    method ReadHeader(ghost p: Packet) returns (len: u16, status: u16)
      requires Reading(p, 0)
      modifies this`chip, this`turns, this`arrived, this`nextPacketPtr
      ensures Reading(p, 6) && Quiet()
      ensures nextPacketPtr == Place(head, Size(p)) && len == |p.data| && status == p.status
    {
      var next := NextWord(p, 0);
      nextPacketPtr := next;
      assert next == Place(head, Size(p));
      len := NextWord(p, 1);
      len := WithoutChecksum(len);
      assert len == |p.data|;
      status := NextWord(p, 2);
    }

    /** Copies the next bytes of the oldest packet and puts a zero behind them. */
    method ReadBuffer(len: u16, data: array<u8>, ghost p: Packet, ghost from: nat)
      requires len < data.Length && Reading(p, from) && from + len < Size(p)
      modifies this`chip, this`turns, this`arrived, data
      ensures Reading(p, from + len) && Quiet()
      ensures data[..len] == Bytes(head, p)[from..from + len] && data[len] == 0
      ensures data[len + 1..] == old(data[len + 1..])
    {
      var k: nat := 0;
      while k < len
        invariant k <= len && Reading(p, from + k) && Quiet()
        invariant forall i :: 0 <= i < k ==> data[i] == Bytes(head, p)[from + i]
        invariant forall i :: k <= i < data.Length ==> data[i] == old(data[i])
      {
        data[k] := NextByte(p, from + k);
        k := k + 1;
      }
      data[k] := 0;
    }

    /** Gives the chip a new read pointer. What the chip stored before it took the pointer over is part
        of the window. */
    method SetReceivePointer(p: u16) returns (ghost at: Chip, window: seq<Packet>)
      requires Running() && bank == 0 && Safe(chip, head, arrived, consumed) && p < RING
      modifies this`bank, this`chip, this`turns, this`arrived
      ensures Running() && bank == 0 && chip.rd == p
      ensures old(arrived) <= window <= arrived && Window(window) && (Silent(wire) ==> arrived == old(arrived))
      ensures chip.count - |arrived| == old(chip.count) - |old(arrived)|
      ensures Safe(at, head, window, consumed) && at.aligned == chip.aligned == old(chip).aligned
      ensures Safe(at.(rd := p), head, window, consumed) ==> Safe(chip, head, arrived, consumed)
      ensures at.count - |window| == old(chip.count) - |old(arrived)| && Receiving(at)
      ensures forall q :: Only(wire, q) ==> arrived == window + if Accepts(at.(rd := p), q) then [q] else []
      ensures chip.frames == old(chip.frames)
    {
      WritePlain(ERXRDPTL, p % 0x100);
      at, window := chip, arrived;
      TakeOver(p);
    }

    /** The high byte makes the chip take the pointer over. */
    method TakeOver(p: u16)
      requires Coherent() && bank == 0 && p < RING && chip.regs[ERXRDPTL] == p % 0x100
      modifies this`bank, this`chip, this`turns, this`arrived
      ensures Coherent() && bank == 0
      ensures Later(old(chip).(regs := old(chip).regs[ERXRDPTH := p / 0x100], rd := p))
      ensures Taken(old(chip).(regs := old(chip).regs[ERXRDPTH := p / 0x100], rd := p))
    {
      ReadPointerWrite(chip, p);
      Write(ERXRDPTH, p / 0x100);
    }

    /** What has been stored when a read pointer is taken over. */
    twostate predicate Window(window: seq<Packet>)
      reads this
    {
      Silent(wire) || Unfit(wire, old(chip.rd), old(chip.wr)) ==> window == old(arrived)
    }

    static predicate Receiving(c: Chip) { ReceiveEnabled(c) && RingSet(c) }

    /** The first step of giving memory back to the chip: up to the next packet. A packet that keeps coming,
        did not fit before and fills the ring to its last byte is stored now. */
    method GiveUpTo()
      requires Running() && bank == 0 && Safe(chip, head, arrived, consumed) && nextPacketPtr == head
      modifies this`bank, this`chip, this`turns, this`arrived
      ensures Running() && bank == 0 && Safe(chip, head, arrived, consumed) && chip.rd == head
      ensures old(arrived) <= arrived && chip.count - |arrived| == old(chip.count) - |old(arrived)|
      ensures chip.frames == old(chip.frames) && (Silent(wire) ==> arrived == old(arrived))
      ensures forall q :: head == 0 && Lurking(wire, q, old(chip), old(arrived)[consumed..]) ==>
                            arrived == old(arrived) + [q] && Unfit(wire, chip.rd, chip.wr)
    {
      ghost var at, window := SetReceivePointer(nextPacketPtr);
      ReadPointerAtHead(at.mem, head, at.wr, at.rd, window[consumed..]);
      forall q | head == 0 && Lurking(wire, q, old(chip), old(arrived)[consumed..])
        ensures arrived == old(arrived) + [q] && Unfit(wire, chip.rd, chip.wr)
      {
        FillsUp(at, window, consumed, q);
        UnfitWhenFull(wire, q, chip, arrived, consumed);
      }
    }

    /** Gives the memory before the next packet back to the chip, in two steps. The window is what the
        chip had stored when it took over the second read pointer. One of the two is even. */
    method GiveBack() returns (ghost first: u16, window: seq<Packet>)
      requires Running() && bank == 0 && Safe(chip, head, arrived, consumed) && nextPacketPtr == head
      modifies this`bank, this`chip, this`turns, this`arrived
      ensures Running() && bank == 0 && first == head && chip.rd == Pred(head)
      ensures first % 2 == 0 || chip.rd % 2 == 0
      ensures old(arrived) <= window <= arrived && Total(window[consumed..]) <= RING - 1
      ensures chip.count - |arrived| == old(chip.count) - |old(arrived)|
      ensures Total(window[consumed..]) <= RING - 2 <==> Safe(chip, head, arrived, consumed)
      ensures chip.aligned && head != 0 ==> Total(window[consumed..]) <= RING - 2
      ensures Silent(wire) ==> arrived == old(arrived)
      ensures forall q :: head == 0 && Lurking(wire, q, old(chip), old(arrived)[consumed..]) ==>
                            window == old(arrived) + [q]
      ensures chip.frames == old(chip.frames)
    {
      GiveUpTo();
      first := chip.rd;
      EvenWritten(head);
      var before := (nextPacketPtr as int) - 1;
      ghost var at: Chip;
      at, window := SetReceivePointer(if before < RXSTART_INIT || before > RXSTOP_INIT then RXSTOP_INIT else before);
      Spared(at, chip, head, arrived, consumed, window);
    }

    /** Whether the packet counter is not zero. */
    method HasRxPkt() returns (found: bool)
      requires Ready()
      modifies this`bank, this`chip, this`turns, this`arrived
      ensures Ready() && Quiet()
      ensures found ==> consumed < |arrived|
      ensures !found ==> consumed == |old(arrived)|
    {
      var count := Read(0x39);
      found := count != 0;
    }

    /** Copies the oldest packet to the caller. */
    method Fetch(maxlen: u16, packet: array<u8>, ghost p: Packet) returns (len: u16)
      requires Ready() && 1 <= maxlen <= packet.Length && consumed < |arrived| && arrived[consumed] == p
      modifies this`bank, this`chip, this`turns, this`arrived, this`nextPacketPtr, packet
      ensures Running() && bank == 0 && Safe(chip, head, arrived, consumed)
      ensures Quiet() && chip.count == |arrived| - consumed
      ensures Size(p) < RING && nextPacketPtr == Place(head, Size(p))
      ensures Delivered(p, maxlen, old(packet[..]), len, packet[..])
      ensures chip.frames == old(chip.frames)
    {
      Seek();
      var status: u16;
      len, status := ReadHeader(p);
      if len > maxlen - 1 {
        len := maxlen - 1;
      }
      if status / 0x80 % 2 == 0 {
        len := 0;
      } else {
        ReadBuffer(len, packet, p, 6);
        DataBytes(head, p, len);
        Closed(packet[..], old(packet[..]), p.data[..len]);
      }
    }

    /** Tells the chip that one packet less is waiting. */
    method CountDown()
      requires Running() && chip.count > 0
      modifies this`chip, this`turns, this`arrived
      ensures Running() && old(arrived) <= arrived && chip.rd == old(chip.rd) && chip.aligned == old(chip.aligned)
      ensures Silent(wire) ==> arrived == old(arrived)
      ensures chip.count - |arrived| == old(chip.count) - |old(arrived)| - 1
      ensures old(Safe(chip, head, arrived, consumed)) ==> Safe(chip, head, arrived, consumed)
      ensures chip.frames == old(chip.frames)
    {
      DecrementCount();
    }

    method DecrementCount()
      requires chip.autoinc && chip.count > 0
      modifies this`chip, this`turns, this`arrived
      ensures Later(old(chip).(count := old(chip).count - 1))
    {
      CountLess(chip);
      WriteOp(BitFieldSet, ECON2, 0x40);
    }

    /** Takes the oldest packet, if there is one when the packet counter is read. */
    method PacketReceive(maxlen: u16, packet: array<u8>) returns (len: u16, window: seq<Packet>)
      requires Ready() && 1 <= maxlen <= packet.Length
      modifies this`bank, this`chip, this`turns, this`arrived, this`nextPacketPtr, this`head, this`consumed, packet
      ensures old(arrived) <= arrived && Running()
      ensures consumed == old(consumed) || consumed == old(consumed) + 1
      ensures old(consumed) < |old(arrived)| ==> consumed == old(consumed) + 1
      ensures consumed == old(consumed) ==> len == 0 && packet[..] == old(packet[..]) && Ready()
      ensures consumed > old(consumed) ==>
                && old(consumed) < |arrived|
                && Delivered(arrived[old(consumed)], maxlen, old(packet[..]), len, packet[..])
                && Size(arrived[old(consumed)]) < RING && old(head) < RING
                && head == Place(old(head), Size(arrived[old(consumed)]))
                && nextPacketPtr == head && chip.rd == Pred(head) && chip.count == |arrived| - consumed
                && consumed <= |window| && old(arrived) <= window <= arrived && Total(window[consumed..]) <= RING - 1
                && (Total(window[consumed..]) <= RING - 2 <==> Ready())
                && (chip.aligned && nextPacketPtr != 0 ==> Total(window[consumed..]) <= RING - 2)
                && (Total(arrived[|old(arrived)|..]) < Size(arrived[old(consumed)]) ==>
                      Total(window[consumed..]) <= RING - 2)
      ensures Silent(wire) ==> arrived == old(arrived)
      ensures old(consumed) < |old(arrived)| && head == 0 ==>
                forall q :: Lurking(wire, q, old(chip), old(arrived)[consumed..]) ==> window == old(arrived) + [q]
      ensures chip.frames == old(chip.frames)
    {
      SafeTotal(chip, head, arrived, consumed);
      var found := HasRxPkt();
      window := arrived;
      if !found {
        return 0, window;
      }
      len, window := TakeOldest(maxlen, packet);
      LittleArrived(old(arrived), window, arrived, old(consumed));
    }

    /** The part of it for a packet that is there. */
    method TakeOldest(maxlen: u16, packet: array<u8>) returns (len: u16, window: seq<Packet>)
      requires Ready() && 1 <= maxlen <= packet.Length && consumed < |arrived|
      modifies this`bank, this`chip, this`turns, this`arrived, this`nextPacketPtr, this`head, this`consumed, packet
      ensures Running() && consumed == old(consumed) + 1 && chip.frames == old(chip.frames)
      ensures Delivered(old(arrived[consumed]), maxlen, old(packet[..]), len, packet[..])
      ensures Size(old(arrived[consumed])) < RING && old(head) < RING
      ensures head == Place(old(head), Size(old(arrived[consumed]))) && nextPacketPtr == head
      ensures chip.rd == Pred(head) && chip.count == |arrived| - consumed
      ensures consumed <= |old(arrived)| && old(arrived) <= window <= arrived && Total(window[consumed..]) <= RING - 1
      ensures Total(window[consumed..]) <= RING - 2 <==> Ready()
      ensures chip.aligned && nextPacketPtr != 0 ==> Total(window[consumed..]) <= RING - 2
      ensures Silent(wire) ==> arrived == old(arrived)
      ensures head == 0 ==>
                forall q :: Lurking(wire, q, old(chip), old(arrived)[consumed..]) ==> window == old(arrived) + [q]
    {
      len := Fetch(maxlen, packet, arrived[consumed]);
      PopSafe(chip, head, arrived, consumed);
      head, consumed := nextPacketPtr, consumed + 1;
      ghost var first;
      first, window := GiveBack();
      CountDown();
      if Total(window[consumed..]) == RING - 1 {
        Opened(chip, head, arrived, consumed, window);
      }
    }

    // ---- sending --------------------------------------------------------------------------

    /** Puts the transmit logic into reset, which cuts off what is being sent. */
    method HoldTransmitter()
      requires Running()
      modifies this`chip, this`turns, this`arrived
      ensures Receptive() && TransmitterHeld(chip) && chip.regs == old(chip).regs && Undisturbed() && chip.tx == 0
    {
      SetTransmitReset();
    }

    method SetTransmitReset()
      requires !TransmitterHeld(chip)
      modifies this`chip, this`turns, this`arrived
      ensures Later(old(chip).(econ1 := old(chip).econ1.(b7 := true), tx := 0))
    {
      TransmitterHeldUp(chip);
      WriteOp(BitFieldSet, ECON1, 0x80);
    }

    /** And takes it out again. */
    method ReleaseTransmitter()
      requires Receptive()
      modifies this`chip, this`turns, this`arrived
      ensures Running() && chip.regs == old(chip).regs && Undisturbed() && chip.tx <= old(chip.tx)
    {
      ClearTransmitReset();
    }

    method ClearTransmitReset()
      modifies this`chip, this`turns, this`arrived
      ensures Later(old(chip).(econ1 := old(chip).econ1.(b7 := false)))
    {
      TransmitterReleased(chip);
      WriteOp(BitFieldClear, ECON1, 0x80);
    }

    /** Ends a transmission that is in progress, so that no frame is overwritten while it goes out, and leaves
        the transmit logic ready to send. */
    method WaitForTransmitter()
      requires Running()
      modifies this`chip, this`turns, this`arrived
      ensures Running() && chip.regs == old(chip).regs && Undisturbed() && chip.tx == 0
    {
      var busy := TransmitterBusy();
      while busy
        invariant Running() && chip.regs == old(chip).regs && Undisturbed() && (busy || chip.tx == 0)
        decreases busy, chip.tx
      {
        HoldTransmitter();
        ReleaseTransmitter();
        busy := TransmitterBusy();
      }
    }

    method TransmitterBusy() returns (busy: bool)
      modifies this`chip, this`turns, this`arrived
      ensures Later(old(chip))
      ensures if busy then chip.tx < old(chip.tx) else chip.tx == 0
    {
      var state := ReadOp(ReadControl, ECON1);
      busy := state / 8 % 2 == 1;
    }

    /** One byte for the chip's memory, while nothing is being sent from there. Outside the ring it
        leaves the packets alone. */
    method PutByte(data: u8)
      requires Running() && chip.tx == 0
      modifies this`chip, this`turns, this`arrived
      ensures chip.tx == 0
      ensures Running() && Quiet()
      ensures Pointer(chip, ETXND) == old(Pointer(chip, ETXND))
      ensures Pointer(chip, EWRPT) == var w := old(Pointer(chip, EWRPT)); if w == MEMORY - 1 then 0 else w + 1
      ensures RING <= old(Pointer(chip, EWRPT)) && old(Safe(chip, head, arrived, consumed)) ==>
                Safe(chip, head, arrived, consumed)
      ensures SameUpper(chip.mem, old(chip.mem)[old(Pointer(chip, EWRPT)) := data])
      ensures |arrived| == |old(arrived)| ==> chip.mem == old(chip.mem)[old(Pointer(chip, EWRPT)) := data]
    {
      WriteAdvances(chip, data);
      if RING <= Pointer(chip, EWRPT) && Safe(chip, head, arrived, consumed) {
        SafeElsewhere(chip, Executed(chip, Op.WriteBuffer, 0, data), head, arrived, consumed);
      }
      WriteOp(Op.WriteBuffer, 0, data);
    }

    /** One more byte behind those already poured from w on. */
    method PutNext(x: u8, ghost start: Memory, ghost w: nat, ghost done: seq<u8>, ghost count: nat)
      requires Running() && chip.tx == 0 && w < MEMORY && Pointer(chip, EWRPT) == Turned(w, |done|)
      requires SameUpper(chip.mem, Poured(start, w, done)) && count <= |arrived|
      requires |arrived| == count ==> chip.mem == Poured(start, w, done)
      modifies this`chip, this`turns, this`arrived
      ensures chip.tx == 0 && Pointer(chip, EWRPT) == Turned(w, |done| + 1)
      ensures Running() && Quiet()
      ensures Pointer(chip, ETXND) == old(Pointer(chip, ETXND))
      ensures SameUpper(chip.mem, Poured(start, w, done + [x]))
      ensures |arrived| == count ==> chip.mem == Poured(start, w, done + [x])
      ensures RING <= Turned(w, |done|) && old(Safe(chip, head, arrived, consumed)) ==>
                Safe(chip, head, arrived, consumed)
    {
      TurnedStep(w, |done|);
      PouredSnoc(start, w, done, x);
      ghost var before := chip.mem;
      PutByte(x);
      UpperStored(before, chip.mem, Poured(start, w, done), Turned(w, |done|), x);
    }

    /** Copies bytes to the chip, one after the other around the end of the memory. A frame that ends within
        the memory leaves the ring alone. */
    method WriteBuffer(len: u16, data: array<u8>)
      requires Running() && chip.tx == 0 && len <= data.Length
      modifies this`chip, this`turns, this`arrived
      ensures chip.tx == 0
      ensures Running() && Quiet()
      ensures Pointer(chip, ETXND) == old(Pointer(chip, ETXND))
      ensures SameUpper(chip.mem, Poured(old(chip.mem), old(Pointer(chip, EWRPT)), data[..len]))
      ensures |arrived| == |old(arrived)| ==> chip.mem == Poured(old(chip.mem), old(Pointer(chip, EWRPT)), data[..len])
      ensures RING <= old(Pointer(chip, EWRPT)) && old(Pointer(chip, EWRPT)) + len <= MEMORY ==>
                old(Safe(chip, head, arrived, consumed)) ==> Safe(chip, head, arrived, consumed)
    {
      ghost var w, start, bytes := Pointer(chip, EWRPT), chip.mem, data[..];
      ghost var safe := RING <= w && w + len <= MEMORY && Safe(chip, head, arrived, consumed);
      var k: nat := 0;
      while k < len
        invariant k <= len && Running() && chip.tx == 0 && Quiet()
        invariant Pointer(chip, ETXND) == old(Pointer(chip, ETXND))
        invariant Pointer(chip, EWRPT) == Turned(w, k)
        invariant SameUpper(chip.mem, Poured(start, w, bytes[..k]))
        invariant |arrived| == |old(arrived)| ==> chip.mem == Poured(start, w, bytes[..k])
        invariant safe ==> Safe(chip, head, arrived, consumed)
      {
        assert bytes[..k + 1] == bytes[..k] + [bytes[k]];
        if safe { StillAbove(w, k, len); }
        PutNext(data[k], start, w, bytes[..k], |old(arrived)|);
        k := k + 1;
      }
      assert bytes[..k] == data[..len];
    }

    method SetTransmitPointers(len: u16)
      requires Running()
      modifies this`bank, this`chip, this`turns, this`arrived
      ensures Running() && Undisturbed() && chip.tx <= old(chip.tx)
      ensures Pointer(chip, EWRPT) == TXSTART_INIT
      ensures len <= TXSTOP_INIT - TXSTART_INIT ==> Pointer(chip, ETXND) == TXSTART_INIT + len
    {
      WritePointer(EWRPTL, TXSTART_INIT);
      WritePointer(ETXNDL, (TXSTART_INIT + (len as int)) % MEMORY);
    }

    method StartTransmission()
      requires Running() && chip.tx == 0
      modifies this`chip, this`turns, this`arrived
      ensures Running() && chip.regs == old(chip).regs && chip.frames == old(chip).frames + [Outgoing(old(chip))]
      ensures old(arrived) <= arrived && chip.count - |arrived| == old(chip.count) - |old(arrived)|
      ensures old(Safe(chip, head, arrived, consumed)) ==> Safe(chip, head, arrived, consumed)
      ensures forall a :: RING <= a < MEMORY ==> chip.mem[a] == old(chip.mem)[a]
      ensures |arrived| == |old(arrived)| ==> chip.mem == old(chip.mem)
    {
      RequestTransmission();
    }

    method RequestTransmission()
      requires chip.tx == 0 && !TransmitterHeld(chip)
      modifies this`chip, this`turns, this`arrived
      ensures Later(old(chip).(tx := old(chip).txTime, frames := old(chip).frames + [Outgoing(old(chip))]))
    {
      TransmitStart(chip);
      WriteOp(BitFieldSet, ECON1, 0x08);
    }

    /** A frame that fits its area is laid out behind a zero control byte and sent once, and leaves the
        received packets alone. A longer one goes on at the start of the ring. */
    method PacketSend(len: u16, packet: array<u8>)
      requires Running() && len <= packet.Length
      modifies this`bank, this`chip, this`turns, this`arrived
      ensures Running() && old(arrived) <= arrived
      ensures chip.count - |arrived| == old(chip.count) - |old(arrived)|
      ensures len <= TXSTOP_INIT - TXSTART_INIT ==>
                && Pointer(chip, ETXND) == TXSTART_INIT + len && chip.mem[TXSTART_INIT] == 0
                && chip.frames == old(chip.frames) + [packet[..len]]
                && (old(Safe(chip, head, arrived, consumed)) ==> Safe(chip, head, arrived, consumed))
      ensures |arrived| == |old(arrived)| ==>
                && chip.mem == Poured(old(chip.mem), TXSTART_INIT, [0] + packet[..len])
                && forall a :: 0 <= a < RING ==> chip.mem[a] == RingByte(old(chip.mem), packet[..len], a)
    {
      WaitForTransmitter();
      SetTransmitPointers(len);
      LayOut(len, packet);
      StartTransmission();
      FrameLaidOut(old(chip.mem), packet[..len]);
    }

    /** Control byte and frame are written from the start of the transmit area on. */
    method LayOut(len: u16, packet: array<u8>)
      requires Running() && chip.tx == 0 && len <= packet.Length && Pointer(chip, EWRPT) == TXSTART_INIT
      modifies this`chip, this`turns, this`arrived
      ensures chip.tx == 0
      ensures Running() && Quiet()
      ensures Pointer(chip, ETXND) == old(Pointer(chip, ETXND))
      ensures len <= TXSTOP_INIT - TXSTART_INIT ==>
                chip.mem[TXSTART_INIT] == 0 && chip.mem[TXSTART_INIT + 1..TXSTART_INIT + len + 1] == packet[..len]
      ensures |arrived| == |old(arrived)| ==> chip.mem == Poured(old(chip.mem), TXSTART_INIT, [0] + packet[..len])
      ensures len <= TXSTOP_INIT - TXSTART_INIT ==>
                old(Safe(chip, head, arrived, consumed)) ==> Safe(chip, head, arrived, consumed)
    {
      ghost var data := packet[..len];
      PutByte(0x00);
      ghost var first := chip.mem;
      WriteBuffer(len, packet);
      Layered(old(chip.mem), first, chip.mem, data);
    }

    // ---- whole runs -----------------------------------------------------------------------

    /** A call that takes no packet leaves the driver ready. */
    method Call(call: Request, frame: array<u8>)
      requires Ready() && !call.Receive? && Sound(call, frame.Length)
      modifies this`bank, this`chip, this`turns, this`arrived
      ensures Ready() && old(arrived) <= arrived
      ensures chip.frames == old(chip.frames) + SentBy([call], frame[..])
    {
      match call
      case Probe =>
        var _ := HasRxPkt();
      case Send(len) =>
        PacketSend(len, frame);
      case ReadPhy(address) =>
        var _ := PhyRead(address);
      case WritePhy(address, data) =>
        PhyWrite(address, data);
    }

    /** How a call leaves the driver: ready, or with a window that was full to the last byte. */
    ghost predicate Left(window: seq<Packet>, roomy: bool) reads this
    {
      if roomy then Ready() else
        && consumed <= |window| && window <= arrived && Total(window[consumed..]) == RING - 1
        && (chip.aligned ==> nextPacketPtr == 0)
    }

    /** A call that takes a packet, if there is one, and what the caller gets. */
    method Take(maxlen: u16, packet: array<u8>) returns (taken: seq<seq<u8>>, window: seq<Packet>, roomy: bool)
      requires Ready() && 1 <= maxlen <= packet.Length
      modifies this`bank, this`chip, this`turns, this`arrived, this`nextPacketPtr, this`head, this`consumed, packet
      ensures Coherent() && old(arrived) <= arrived && chip.frames == old(chip.frames)
      ensures consumed == old(consumed) + |taken| && consumed <= |arrived|
      ensures taken == [] || (consumed == old(consumed) + 1 && taken == [Cut(arrived[old(consumed)], maxlen)])
      ensures old(consumed) < |old(arrived)| ==> taken != []
      ensures Left(window, roomy)
    {
      ghost var content := packet[..];
      var before, len := consumed, 0;
      len, window := PacketReceive(maxlen, packet);
      taken, roomy := [], true;
      if consumed > before {
        CutDelivered(arrived[before], maxlen, content, len, packet[..]);
        taken := [packet[..len]];
        roomy := Total(window[consumed..]) <= RING - 2;
      }
    }

    /** Any call, and what it hands out. */
    method Handle(call: Request, maxlen: u16, packet: array<u8>, frame: array<u8>)
      returns (taken: seq<seq<u8>>, window: seq<Packet>, roomy: bool)
      requires Ready() && packet != frame && 1 <= maxlen <= packet.Length && Sound(call, frame.Length)
      modifies this`bank, this`chip, this`turns, this`arrived, this`nextPacketPtr, this`head, this`consumed, packet
      ensures Coherent() && old(arrived) <= arrived
      ensures chip.frames == old(chip.frames) + SentBy([call], frame[..])
      ensures consumed == old(consumed) + |taken| && consumed <= |arrived|
      ensures taken == [] || (consumed == old(consumed) + 1 && taken == [Cut(arrived[old(consumed)], maxlen)])
      ensures call.Receive? && old(consumed) < |old(arrived)| ==> taken != []
      ensures Left(window, roomy)
    {
      if call.Receive? {
        taken, window, roomy := Take(maxlen, packet);
      } else {
        taken, window, roomy := [], arrived, true;
        Call(call, frame);
        SafeTotal(chip, head, arrived, consumed);
      }
    }

    /** Any sequence of calls, whatever arrives in between: the bank cache stays right, and the packets are
        handed out in the order of their arrival, none left out and none twice, as long as no window is
        filled to the last byte. */
    method Serve(calls: seq<Request>, maxlen: u16, packet: array<u8>, frame: array<u8>)
      returns (log: seq<seq<u8>>, window: seq<Packet>, roomy: bool)
      requires Ready() && packet != frame && 1 <= maxlen <= packet.Length
      requires forall call :: call in calls ==> Sound(call, frame.Length)
      modifies this`bank, this`chip, this`turns, this`arrived, this`nextPacketPtr, this`head, this`consumed, packet
      ensures Coherent() && old(arrived) <= arrived && consumed == old(consumed) + |log| && consumed <= |arrived|
      ensures forall k :: 0 <= k < |log| ==> log[k] == Cut(arrived[old(consumed) + k], maxlen)
      ensures Left(window, roomy)
      ensures roomy ==> chip.frames == old(chip.frames) + SentBy(calls, frame[..])
      ensures roomy ==> consumed >= |old(arrived)| || consumed >= old(consumed) + Receives(calls)
    {
      log, roomy, window := [], true, arrived;
      var i := 0;
      while i < |calls| && roomy
        invariant i <= |calls| && Coherent() && Left(window, roomy)
        invariant chip.frames == old(chip.frames) + SentBy(calls[..i], frame[..])
        invariant consumed >= |old(arrived)| || consumed >= old(consumed) + Receives(calls[..i])
        invariant old(arrived) <= arrived && consumed == old(consumed) + |log|
        invariant HandedOut(log, arrived, old(consumed), maxlen)
      {
        assert calls[..i + 1] == calls[..i] + [calls[i]];
        var taken;
        ghost var seen := arrived;
        taken, window, roomy := Handle(calls[i], maxlen, packet, frame);
        HandedOutNext(log, seen, arrived, old(consumed), maxlen, taken);
        log := log + taken;
        i := i + 1;
      }
      assert roomy ==> calls[..i] == calls;
    }

    // ---- a run into the race --------------------------------------------------------------

    /** Where a run stands between two calls, while nothing comes. */
    ghost predicate Stands(s: Stand) reads this
    {
      && Ready() && Silent(wire) && chip.rd == s.rd && chip.wr == s.wr
      && head == s.head && consumed == s.consumed && arrived == s.arrived
    }

    /** The start of a run. */
    method Boot()
      requires (Coherent() || bank == 0) && Silent(wire)
      modifies this`bank, this`chip, this`turns, this`arrived, this`consumed, this`head, this`nextPacketPtr
      ensures Stands(Stand(0, 0, 0, 0, []))
    {
      Init();
      SafeTotal(chip, 0, arrived, 0);
    }

    /** A packet comes between two calls. */
    method Arrive(p: Packet, ghost s: Stand)
      requires Stands(s) && Wellformed(p) && |s.arrived| < s.consumed + 0xFF
      requires Size(p) <= Free(s.rd, s.wr) && Place(s.wr, Size(p)) % 2 == 0
      modifies this`chip, this`arrived
      ensures Stands(AfterArrival(s, p))
    {
      Offer(p);
    }

    /** A call while nothing comes. */
    method TakeOne(packet: array<u8>, ghost s: Stand)
      requires Stands(s) && s.consumed < |s.arrived| && Size(s.arrived[s.consumed]) < RING && 1 <= packet.Length
      modifies this`bank, this`chip, this`turns, this`arrived, this`nextPacketPtr, this`head, this`consumed, packet
      ensures Stands(AfterTake(s))
    {
      PopSafe(chip, head, arrived, consumed);
      SafeTotal(chip, Place(head, Size(arrived[consumed])), arrived, consumed + 1);
      var _, _ := PacketReceive(1, packet);
      SafeTotal(chip, head, arrived, consumed);
    }
  }

  /** Pointers and history of a run. */
  datatype Stand = Stand(rd: Address, wr: Address, head: Address, consumed: nat, arrived: seq<Packet>)

  function AfterArrival(s: Stand, p: Packet): Stand
    requires Size(p) < RING
  {
    s.(wr := Place(s.wr, Size(p)), arrived := s.arrived + [p])
  }

  function AfterTake(s: Stand): Stand
    requires s.consumed < |s.arrived| && Size(s.arrived[s.consumed]) < RING
  {
    var next := Place(s.head, Size(s.arrived[s.consumed]));
    s.(rd := Pred(next), head := next, consumed := s.consumed + 1)
  }

  lemma FrameSize(n: nat)
    ensures Size(Frame(n)) == n + 10 && Wellformed(Frame(n))
    ensures 60 <= n <= 1514 ==> Receivable(Frame(n))
  {
  }

  /** The last call of the run: the packet after the one taken starts at address 0, and a packet that did not
      fit before and fills the ring to its last byte comes until it is stored. */
  method LastCall(driver: Driver, p: Packet, packet: array<u8>, ghost s: Stand) returns (window: seq<Packet>)
    requires driver.Stands(s) && s.consumed < |s.arrived| < 0xFF && 1 <= packet.Length
    requires Free(s.rd, s.wr) < Size(p) && Size(s.arrived[s.consumed]) == RING - s.head
    requires Wellformed(p) && Size(p) == RING - 1 - s.wr
    modifies driver, packet
    ensures driver.consumed == s.consumed + 1 && window == s.arrived + [p]
    ensures window <= driver.arrived && Total(window[driver.consumed..]) == RING - 1
    ensures driver.Running() && driver.head == 0 && driver.chip.rd == Pred(0) && !driver.Ready()
  {
    driver.wire := n => [p];
    ghost var unread := s.arrived[s.consumed + 1..];
    PopSafe(driver.chip, driver.head, driver.arrived, driver.consumed);
    SafeTotal(driver.chip, 0, driver.arrived, driver.consumed + 1);
    TotalAppend(unread, p);
    assert (s.arrived + [p])[s.consumed + 1..] == unread + [p];
    assert Lurking(driver.wire, p, driver.chip, unread);
    var len;
    len, window := driver.PacketReceive(1, packet);
  }

  /** Three equal packets arrive. */
  method ThreeArrive(driver: Driver, p: Packet, ghost from: Stand) returns (ghost s: Stand)
    requires driver.Stands(from) && Wellformed(p) && |from.arrived| < 100 && from.wr % 2 == Size(p) % 2 == 0
    requires 3 * Size(p) <= Free(from.rd, from.wr) && from.wr + 3 * Size(p) < RING
    modifies driver
    ensures driver.wire == old(driver.wire) && driver.Stands(s)
    ensures s == from.(wr := from.wr + 3 * Size(p), arrived := from.arrived + [p, p, p])
  {
    driver.Arrive(p, from);
    s := AfterArrival(from, p);
    driver.Arrive(p, s);
    s := AfterArrival(s, p);
    driver.Arrive(p, s);
    s := AfterArrival(s, p);
    assert s.arrived == from.arrived + [p, p, p];
  }

  /** Four full frames arrive after the start-up. */
  method FourArrive(driver: Driver, full: Packet) returns (ghost s: Stand)
    requires (driver.Coherent() || driver.bank == 0) && Silent(driver.wire) && Wellformed(full) && Size(full) == 1524
    modifies driver
    ensures driver.Stands(s) && s == Stand(0, 6096, 0, 0, [full, full, full, full])
  {
    driver.Boot();
    s := ThreeArrive(driver, full, Stand(0, 0, 0, 0, []));
    driver.Arrive(full, s);
    s := AfterArrival(s, full);
  }

  /** They are taken, and behind them a packet fills the ring up to its end. */
  method FourTaken(driver: Driver, full: Packet, closing: Packet, packet: array<u8>, ghost from: Stand)
    returns (ghost s: Stand)
    requires driver.Stands(from) && from == Stand(0, 6096, 0, 0, [full, full, full, full])
    requires Wellformed(closing) && Size(full) == 1524 && Size(closing) == 559 && 1 <= packet.Length
    modifies driver, packet
    ensures driver.Stands(s) && s == Stand(6095, 0, 6096, 4, [full, full, full, full, closing])
    ensures driver.wire == old(driver.wire)
  {
    driver.TakeOne(packet, from);
    s := AfterTake(from);
    driver.Arrive(closing, s);
    s := AfterArrival(s, closing);
    driver.TakeOne(packet, s);
    s := AfterTake(s);
    driver.TakeOne(packet, s);
    s := AfterTake(s);
    driver.TakeOne(packet, s);
    s := AfterTake(s);
  }

  /** More packets arrive behind the end of the ring, while the one that ends there is unread. */
  method FourMore(driver: Driver, full: Packet, short: Packet, ghost from: Stand) returns (ghost s: Stand)
    requires driver.Stands(from) && |from.arrived| < 100 && from.rd == 6095 && from.wr == 0
    requires Wellformed(full) && Wellformed(short) && Size(full) == 1524 && Size(short) == 558
    modifies driver
    ensures driver.Stands(s) && s == from.(wr := 5130, arrived := from.arrived + [full, full, full, short])
  {
    s := ThreeArrive(driver, full, from);
    driver.Arrive(short, s);
    s := AfterArrival(s, short);
    assert s.arrived == from.arrived + [full, full, full, short];
  }

  /** From the start-up of any chip, receivable frames lead into the race: the last call leaves a ring that
      is full to the last byte and that the chip takes for empty. */
  method RaceRun(chip: Chip) returns (driver: Driver, window: seq<Packet>)
    ensures fresh(driver) && window <= driver.arrived && driver.consumed <= |window|
    ensures (forall p :: p in window ==> Receivable(p)) && Total(window[driver.consumed..]) == RING - 1
    ensures driver.Running() && driver.head == 0 && driver.chip.rd == Pred(0) && !driver.Ready()
  {
    var full, closing, short := Frame(1514), Frame(549), Frame(548);
    FrameSize(1514);
    FrameSize(549);
    FrameSize(548);
    var packet := new u8[1];
    driver := new Driver(chip);
    ghost var s := FourArrive(driver, full);
    s := FourTaken(driver, full, closing, packet, s);
    s := FourMore(driver, full, short, s);
    window := LastCall(driver, full, packet, s);
  }
}
