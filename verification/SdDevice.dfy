/** An SD card in SPI mode that keeps blocks of 512 bytes (SD Physical Layer Simplified Specification,
    chapter 7), as an automaton over the bytes exchanged. It says which answers a faithful card may give;
    how long it delays them, and what it sends where nobody listens, is left open. */
module SdDevice {
  import opened MachineInts

  const SECTOR_SIZE := 512

  type Block = s: seq<u8> | |s| == SECTOR_SIZE witness seq(SECTOR_SIZE, i => 0)

  const STOP_TRANSMISSION: u8 := 12
  const READ_SINGLE_BLOCK: u8 := 17
  const READ_MULTIPLE_BLOCK: u8 := 18
  const WRITE_SINGLE_BLOCK: u8 := 24
  const WRITE_MULTIPLE_BLOCK: u8 := 25

  /** What the card is doing. Rogue: it has answered as no faithful card would. */
  datatype Mode =
    | Idle
    | Stopped
    | Command(frame: seq<u8>)
    | Respond(command: u8, arg: u32)
    | DataWait(addr: nat, multi: bool)
    | Data(addr: nat, multi: bool, i: nat)
    | WaitToken(addr: nat, multi: bool)
    | Collect(addr: nat, multi: bool, bytes: seq<u8>)
    | DataResponse(addr: nat, multi: bool, block: Block)
    | Busy(addr: nat, multi: bool)
    | Rogue

  /** The card, with a count of the blocks it refused and of the multiple transfers that the host gave up
      without stopping them. */
  datatype Card = Card(blocks: seq<Block>, byteAddressed: bool, mode: Mode, refusals: nat, abandoned: nat)

  predicate StartsCommand(mosi: u8) { mosi / 0x40 == 1 }

  function Argument(frame: seq<u8>): u32
    requires |frame| >= 5
  {
    (frame[1] as int) * 0x100_0000 + (frame[2] as int) * 0x1_0000 + (frame[3] as int) * 0x100 + (frame[4] as int)
  }

  /** The block an argument names. */
  function BlockOf(byteAddressed: bool, arg: u32): nat { if byteAddressed then arg / SECTOR_SIZE else arg }

  /** A command is complete. A command to stop is not answered in a way anybody relies on. */
  function Commanded(command: u8, arg: u32): Mode
  {
    if command == STOP_TRANSMISSION then Stopped else Respond(command, arg)
  }

  /** A command is accepted. */
  function Started(byteAddressed: bool, command: u8, arg: u32): Mode
  {
    if command == READ_SINGLE_BLOCK || command == READ_MULTIPLE_BLOCK then
      DataWait(BlockOf(byteAddressed, arg), command == READ_MULTIPLE_BLOCK)
    else if command == WRITE_SINGLE_BLOCK || command == WRITE_MULTIPLE_BLOCK then
      WaitToken(BlockOf(byteAddressed, arg), command == WRITE_MULTIPLE_BLOCK)
    else Idle
  }

  /** Before the next block, or done. */
  function NextRead(addr: nat, multi: bool): Mode { if multi then DataWait(addr, true) else Idle }

  function NextWrite(addr: nat, multi: bool): Mode { if multi then WaitToken(addr, true) else Idle }

  /** The mode after one exchange of bytes. */
  function NextMode(c: Card, mosi: u8, miso: u8): Mode
  {
    match c.mode
    case Idle => if miso == 0xFE then Rogue else if StartsCommand(mosi) then Command([mosi]) else Idle
    case Stopped => if StartsCommand(mosi) then Command([mosi]) else Stopped
    case Command(frame) =>
      var f := frame + [mosi];
      if |f| < 6 then Command(f) else Commanded(f[0] % 0x40, Argument(f))
    case Respond(command, arg) =>
      if miso == 0xFF then c.mode else if miso == 0 then Started(c.byteAddressed, command, arg) else Idle
    case DataWait(addr, multi) =>
      if StartsCommand(mosi) then Command([mosi])
      else if miso == 0xFF then c.mode
      else if miso == 0xFE then (if addr < |c.blocks| then Data(addr, multi, 0) else Rogue)
      else Idle
    case Data(addr, multi, i) =>
      if StartsCommand(mosi) then Command([mosi])
      else if i < SECTOR_SIZE
      then (if addr < |c.blocks| && miso == c.blocks[addr][i] then Data(addr, multi, i + 1) else Rogue)
      else if i == SECTOR_SIZE then Data(addr, multi, i + 1)
      else NextRead(addr + 1, multi)
    case WaitToken(addr, multi) =>
      if mosi == (if multi then 0xFC else 0xFE) then Collect(addr, multi, [])
      else if multi && mosi == 0xFD then Busy(addr, false)
      else c.mode
    case Collect(addr, multi, bytes) =>
      var b := bytes + [mosi];
      if |b| == SECTOR_SIZE + 2 then DataResponse(addr, multi, b[..SECTOR_SIZE]) else Collect(addr, multi, b)
    case DataResponse(addr, multi, block) =>
      if miso % 0x10 != 5 then NextWrite(addr, multi) else if addr < |c.blocks| then Busy(addr + 1, multi) else Rogue
    case Busy(addr, multi) => if miso == 0xFF then NextWrite(addr, multi) else c.mode
    case Rogue => Rogue
  }

  /** A block is stored when the card accepts it. */
  function Step(c: Card, mosi: u8, miso: u8): Card
  {
    c.(mode := NextMode(c, mosi, miso),
       refusals := if c.mode.DataResponse? && miso % 0x10 != 5 then c.refusals + 1 else c.refusals,
       blocks := if c.mode.DataResponse? && miso % 0x10 == 5 && c.mode.addr < |c.blocks|
                 then c.blocks[c.mode.addr := c.mode.block] else c.blocks)
  }

  /** In the middle of a multiple transfer. */
  predicate Unfinished(m: Mode) { (m.DataWait? || m.Data? || m.WaitToken? || m.Busy?) && m.multi }

  /** Neither the way of addressing nor the count of abandoned transfers has changed. */
  predicate SameCard(a: Card, b: Card) { a.byteAddressed == b.byteAddressed && a.abandoned == b.abandoned }

  /** The host ends a transfer by deselecting the card, which finishes what it is busy with. */
  function Released(c: Card): Card
  {
    c.(abandoned := if Unfinished(c.mode) then c.abandoned + 1 else c.abandoned,
       mode := if c.mode.Rogue? then Rogue else if c.mode.Busy? then Busy(c.mode.addr, false) else Idle)
  }

  /** Neither the blocks nor the count of refusals have changed. */
  predicate SameStore(a: Card, b: Card) { a.blocks == b.blocks && a.refusals == b.refusals }

  predicate Resting(m: Mode) { m.Idle? || m.Rogue? || (m.Busy? && !m.multi) }

  predicate AwaitsData(m: Mode) { m.WaitToken? || m.Busy? }

  predicate Streaming(m: Mode) { m.Idle? || m.Rogue? || m.DataWait? || m.Data? || m.Stopped? }

  predicate InRange(c: Card) { c.mode.Data? ==> c.mode.addr < |c.blocks| }

  /** An answer that is always faithful: the next byte of a block, acceptance of one, or a line kept high. */
  function FaithfulAnswer(c: Card): u8
    requires InRange(c)
  {
    match c.mode
    case Data(addr, _, i) => if i < SECTOR_SIZE then c.blocks[addr][i] else 0xFF
    case DataResponse(addr, _, _) => if addr < |c.blocks| then 0x05 else 0x0D
    case _ => 0xFF
  }

  /** Whatever the host sends, the card can answer faithfully. */
  lemma NeverStuck(c: Card, mosi: u8)
    requires InRange(c) && !c.mode.Rogue?
    ensures !Step(c, mosi, FaithfulAnswer(c)).mode.Rogue? && InRange(Step(c, mosi, FaithfulAnswer(c)))
  {
  }

  lemma ArgumentBytes(first: u8, arg: u32)
    ensures Argument([first, arg / 0x100_0000 % 0x100, arg / 0x1_0000 % 0x100, arg / 0x100 % 0x100, arg % 0x100]) == arg
  {
    TwoBytes(arg % 0x1_0000);
    TwoBytes(arg / 0x1_0000);
    assert arg / 0x100 % 0x100 == arg % 0x1_0000 / 0x100 && arg % 0x100 == arg % 0x1_0000 % 0x100;
    assert arg / 0x100_0000 == arg / 0x1_0000 / 0x100;
  }

  lemma TwoBytes(x: nat)
    requires x < 0x1_0000
    ensures x / 0x100 % 0x100 * 0x100 + x % 0x100 == x
  {
  }

  // ---- data blocks on the wire ------------------------------------------------------------

  /** A block as it arrives: anything but the token, the token, the data, two checksum bytes. */
  datatype Packet = Packet(delay: seq<u8>, data: seq<u8>, crc: seq<u8>)

  predicate TokenLed(p: Packet, len: nat) { 0xFE !in p.delay && |p.data| == len && |p.crc| == 2 }

  function Bytes(p: Packet): seq<u8> { p.delay + [0xFE] + p.data + p.crc }

  function Flat(ps: seq<Packet>): seq<u8>
  {
    if ps == [] then [] else Flat(ps[..|ps| - 1]) + Bytes(ps[|ps| - 1])
  }

  lemma {:induction false} FlatOne(p: Packet)
    ensures Flat([p]) == Bytes(p)
  {
    assert [p][..0] == [];
    assert [] + Bytes(p) == Bytes(p);
  }

  lemma {:induction false} FlatSnoc(before: seq<u8>, ps: seq<Packet>, p: Packet)
    ensures before + Flat(ps) + Bytes(p) == before + Flat(ps + [p])
  {
    assert (ps + [p])[..|ps|] == ps;
    assert before + Flat(ps) + Bytes(p) == before + (Flat(ps) + Bytes(p));
  }

  // ---- sectors of a buffer ----------------------------------------------------------------

  function Sector(data: seq<u8>, k: nat): Block
    requires SECTOR_SIZE * (k + 1) <= |data|
  {
    data[SECTOR_SIZE * k..SECTOR_SIZE * (k + 1)]
  }

  lemma SectorKept(a: seq<u8>, b: seq<u8>, n: nat, k: nat)
    requires k < n && SECTOR_SIZE * n <= |a| && SECTOR_SIZE * n <= |b| && a[..SECTOR_SIZE * n] == b[..SECTOR_SIZE * n]
    ensures SECTOR_SIZE * (k + 1) <= SECTOR_SIZE * n && Sector(a, k) == Sector(b, k)
  {
    assert Sector(a, k) == a[..SECTOR_SIZE * n][SECTOR_SIZE * k..SECTOR_SIZE * (k + 1)];
    assert Sector(b, k) == b[..SECTOR_SIZE * n][SECTOR_SIZE * k..SECTOR_SIZE * (k + 1)];
  }

  /** The first n sectors of the data stored from base on, as far as there are blocks. */
  function Stored(blocks: seq<Block>, base: nat, data: seq<u8>, n: nat): (s: seq<Block>)
    requires SECTOR_SIZE * n <= |data|
    ensures |s| == |blocks|
  {
    if n == 0 then blocks
    else
      var s := Stored(blocks, base, data, n - 1);
      if base + n - 1 < |blocks| then s[base + n - 1 := Sector(data, n - 1)] else s
  }

  lemma {:induction false} StoredOne(blocks: seq<Block>, base: nat, data: seq<u8>)
    requires SECTOR_SIZE <= |data|
    ensures Stored(blocks, base, data, 0) == blocks
    ensures Stored(blocks, base, data, 1) == if base < |blocks| then blocks[base := data[..SECTOR_SIZE]] else blocks
  {
    assert Sector(data, 0) == data[..SECTOR_SIZE];
    assert Stored(blocks, base, data, 0) == blocks;
  }

  /** Storing changes exactly the blocks it is meant to change. */
  lemma {:induction false} StoredAt(blocks: seq<Block>, base: nat, data: seq<u8>, n: nat, i: nat)
    requires SECTOR_SIZE * n <= |data| && i < |blocks|
    ensures base <= i < base + n ==>
              Stored(blocks, base, data, n)[i] == data[512 * (i - base)..512 * (i - base) + 512]
    ensures !(base <= i < base + n) ==> Stored(blocks, base, data, n)[i] == blocks[i]
  {
    if n > 0 {
      StoredAt(blocks, base, data, n - 1, i);
    }
  }

  /** Bytes that agree with the blocks stored from other bytes are those bytes. */
  lemma {:induction false} ReadAsWritten(blocks: seq<Block>, base: nat, data: seq<u8>, back: seq<u8>, n: nat)
    requires 512 * n <= |data| && 512 * n <= |back| && base + n <= |blocks|
    requires forall k :: 0 <= k < n ==> back[512 * k..512 * k + 512] == Stored(blocks, base, data, n)[base + k]
    ensures forall j :: 0 <= j < 512 * n ==> back[j] == data[j]
  {
    forall j | 0 <= j < 512 * n ensures back[j] == data[j] {
      var k, r := j / 512, j % 512;
      StoredAt(blocks, base, data, n, base + k);
      assert back[512 * k..512 * k + 512] == Stored(blocks, base, data, n)[base + k];
      assert back[j] == back[512 * k..512 * k + 512][r] && data[j] == data[512 * k..512 * k + 512][r];
    }
  }

  /** The argument the driver sends for a sector names that sector unless the byte address overflows. */
  lemma ArgumentNames(sect: u32)
    ensures BlockOf(false, sect) == sect
    ensures BlockOf(true, U32(sect * 512)) == sect % 0x80_0000
    ensures BlockOf(true, U32(sect * 512)) == sect <==> sect < 0x80_0000
  {
    var q, r := sect / 0x80_0000, sect % 0x80_0000;
    assert sect * 512 == q * 0x1_0000_0000 + r * 512;
    Quotient(sect * 512, q, 0x1_0000_0000, r * 512);
  }
}
