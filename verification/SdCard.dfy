/** Block transfers with an SD card over SPI (src/sdcard.c): every byte the card sends is arbitrary. The
    card automaton follows the exchange and tells whether the card was faithful so far. */
module SdCard {
  import opened MachineInts
  import opened SdDevice

  const CARDTYPE_SDV2_HC: u8 := 4

  /** One exchange: what the card sends, and how often the timer interrupt runs meanwhile. */
  datatype Exchange = Exchange(miso: u8, ticks: nat)

  function Less(timer: u32, ticks: nat): u32 { if ticks < timer then timer - ticks else 0 }

  /** The number of sectors a call transfers: a count of zero takes the path of a single one. */
  function Sectors(cnt: u32): nat { if cnt > 1 then cnt else 1 }

  /** The token before a block. */
  function Token(multi: bool): u8 { if multi then 0xFC else 0xFE }

  /** What a faithful card that waited for a block has made of it. */
  predicate Written(before: Card, data: Block, ok: bool, taken: bool, after: Card)
    requires before.mode.WaitToken?
  {
    if taken then
      && before.mode.addr < |before.blocks|
      && after == before.(blocks := before.blocks[before.mode.addr := data],
                          mode := if ok then NextWrite(before.mode.addr + 1, before.mode.multi)
                                  else Busy(before.mode.addr + 1, before.mode.multi))
    else after == before.(mode := NextWrite(before.mode.addr, before.mode.multi), refusals := before.refusals + 1)
  }

  /** An answer to a command: the last byte read, or a code of its own if eight bytes brought none. */
  predicate Replied(r1: u8, got: seq<u8>, start: nat)
  {
    && start < |got|
    && (got[|got| - 1] == r1 ||
        (r1 == 0x82 && start + 8 <= |got| && forall k :: |got| - 8 <= k < |got| ==> got[k] == 0xFF))
  }

  /** What a card makes of a host that waits for it. */
  predicate Waited(before: Card, ready: bool, after: Card)
  {
    && SameCard(after, before)
    && (Resting(before.mode) ==> Resting(after.mode) && (ready ==> !after.mode.Busy?) && SameStore(after, before))
    && (Streaming(before.mode) ==> Streaming(after.mode) && SameStore(after, before))
    && (before.mode.Stopped? ==> after.mode.Stopped?)
    && (AwaitsData(before.mode) ==> (AwaitsData(after.mode) || Resting(after.mode)) && SameStore(after, before))
    && (before.mode.Rogue? ==> after == before)
  }

  lemma WaitStep(before: Card, ready: bool, c: Card, miso: u8)
    requires Waited(before, ready, c)
    ensures Waited(before, miso == 0xFF, Step(c, 0xFF, miso))
  {
  }

  class Host {
    var cardType: u8
    var timer1: u32
    var timer2: u32
    var wire: seq<Exchange>
    var card: Card

    // The bytes received and sent so far.
    var got: seq<u8>
    var put: seq<u8>

    /** How many timer ticks have passed. */
    var clock: nat

    /** How much longer a loop may wait. */
    function Patience(timer: u32): nat
      reads this`wire
    {
      |wire| + timer
    }

    /** When the recorded exchanges are used up, the line stays high and time goes on. */
    method SendByte(mosi: u8) returns (miso: u8)
      modifies this`timer1, this`timer2, this`wire, this`card, this`got, this`put, this`clock
      ensures got == old(got) + [miso] && put == old(put) + [mosi] && card == Step(old(card), mosi, miso)
      ensures timer1 <= old(timer1) && timer2 <= old(timer2) && |wire| <= |old(wire)|
      ensures clock >= old(clock) && timer1 + clock >= old(timer1 + clock) && timer2 + clock >= old(timer2 + clock)
      ensures timer1 > 0 ==> Patience(timer1) < old(Patience(timer1))
      ensures timer2 > 0 ==> Patience(timer2) < old(Patience(timer2))
    {
      var e := Exchange(0xFF, 1);
      if wire != [] {
        e, wire := wire[0], wire[1..];
      }
      miso := e.miso;
      timer1, timer2, clock := Less(timer1, e.ticks), Less(timer2, e.ticks), clock + e.ticks;
      card, got, put := Step(card, mosi, miso), got + [miso], put + [mosi];
    }

    method RecvByte() returns (miso: u8)
      modifies this`timer1, this`timer2, this`wire, this`card, this`got, this`put, this`clock
      ensures got == old(got) + [miso] && card == Step(old(card), 0xFF, miso)
      ensures timer1 <= old(timer1) && timer2 <= old(timer2) && |wire| <= |old(wire)|
      ensures clock >= old(clock) && timer1 + clock >= old(timer1 + clock) && timer2 + clock >= old(timer2 + clock)
      ensures timer1 > 0 ==> Patience(timer1) < old(Patience(timer1))
      ensures timer2 > 0 ==> Patience(timer2) < old(Patience(timer2))
    {
      miso := SendByte(0xFF);
    }

    method WaitForReady() returns (ready: bool)
      modifies this`timer1, this`timer2, this`wire, this`card, this`got, this`put, this`clock
      ensures old(got) <= got && |got| > |old(got)| && clock >= old(clock)
      ensures if ready then got[|got| - 1] == 0xFF else clock >= old(clock) + 50
      ensures Waited(old(card), ready, card)
    {
      timer2 := 50;
      var b := RecvByte();
      ghost var first := card;
      b := RecvByte();
      ready := b == 0xFF;
      WaitStep(old(card), false, first, b);
      while !ready && timer2 > 0
        invariant old(got) <= got && |got| > |old(got)| && (ready ==> got[|got| - 1] == 0xFF)
        invariant clock >= old(clock) && timer2 + clock >= 50 + old(clock)
        invariant Waited(old(card), ready, card)
        decreases Patience(timer2)
      {
        ghost var before := card;
        b := RecvByte();
        ready := b == 0xFF;
        WaitStep(old(card), false, before, b);
      }
    }

    /** A further byte of a command frame. */
    method SendNext(mosi: u8, ghost frame: seq<u8>)
      modifies this`timer1, this`timer2, this`wire, this`card, this`got, this`put, this`clock
      ensures old(got) <= got && put == old(put) + [mosi]
      ensures old(card.mode == Command(frame) && |frame| < 5) ==> card == old(card).(mode := Command(frame + [mosi]))
      ensures old(card.mode == Command(frame) && |frame| == 5) ==>
                card == old(card).(mode := Commanded(frame[0] % 0x40, Argument(frame)))
      ensures old(card.mode.Rogue?) ==> card == old(card)
      ensures SameCard(card, old(card))
      ensures clock >= old(clock)
    {
      var ignored := SendByte(mosi);
    }

    method SendTwo(first: u8, second: u8, ghost frame: seq<u8>)
      modifies this`timer1, this`timer2, this`wire, this`card, this`got, this`put, this`clock
      ensures old(got) <= got && put == old(put) + [first, second]
      ensures old(card.mode == Command(frame) && |frame| < 4) ==>
                card == old(card).(mode := Command(frame + [first, second]))
      ensures old(card.mode.Rogue?) ==> card == old(card)
      ensures SameCard(card, old(card))
      ensures clock >= old(clock)
    {
      SendNext(first, frame);
      SendNext(second, frame + [first]);
      assert frame + [first] + [second] == frame + [first, second];
    }

    /** Six bytes: command, argument with the highest byte first, checksum. The checksum is right for the two
        commands whose checksum a card looks at. */
    method SendFrame(cmd: u8, arg: u32)
      requires cmd < 0x40
      modifies this`timer1, this`timer2, this`wire, this`card, this`got, this`put, this`clock
      ensures old(got) <= got && SameCard(card, old(card))
      ensures old(Streaming(card.mode)) ==>
                SameStore(card, old(card)) && (card.mode == Commanded(cmd, arg) || card.mode.Rogue?)
      ensures old(card.mode.Rogue?) ==> card == old(card)
      ensures clock >= old(clock)
      ensures put == old(put) + [0x40 + cmd, arg / 0x100_0000, arg / 0x1_0000 % 0x100, arg / 0x100 % 0x100,
                                 arg % 0x100, if cmd == 0 then 0x95 else if cmd == 8 then 0x87 else 0x01]
    {
      var crcStop := if cmd == 0 then 0x95 else if cmd == 8 then 0x87 else 0x01;
      var b3, b2, b1, b0 := arg / 0x100_0000 % 0x100, arg / 0x1_0000 % 0x100, arg / 0x100 % 0x100, arg % 0x100;
      ArgumentBytes(cmd + 0x40, arg);
      SendSix(cmd + 0x40, b3, b2, b1, b0, crcStop);
    }

    method SendSix(first: u8, b3: u8, b2: u8, b1: u8, b0: u8, last: u8)
      requires 0x40 <= first < 0x80
      modifies this`timer1, this`timer2, this`wire, this`card, this`got, this`put, this`clock
      ensures old(got) <= got && SameCard(card, old(card))
      ensures old(Streaming(card.mode)) ==>
                && SameStore(card, old(card))
                && (card.mode == Commanded(first % 0x40, Argument([first, b3, b2, b1, b0])) || card.mode.Rogue?)
      ensures old(card.mode.Rogue?) ==> card == old(card)
      ensures clock >= old(clock) && put == old(put) + [first, b3, b2, b1, b0, last]
    {
      var ignored := SendByte(first);
      SendTwo(b3, b2, [first]);
      SendTwo(b1, b0, [first, b3, b2]);
      SendNext(last, [first, b3, b2, b1, b0]);
    }

    /** The first byte other than 0xFF among eight. */
    method Response() returns (r1: u8)
      modifies this`timer1, this`timer2, this`wire, this`card, this`got, this`put, this`clock
      ensures old(got) <= got && SameCard(card, old(card))
      ensures old(card.mode.Respond?) ==> SameStore(card, old(card))
      ensures old(card.mode.Respond?) && r1 != 0 ==> !Unfinished(card.mode)
      ensures old(card.mode.Respond?) && r1 == 0 ==>
                card.mode == Started(card.byteAddressed, old(card).mode.command, old(card).mode.arg) || card.mode.Rogue?
      ensures old(card.mode.Stopped? || card.mode.Rogue?) ==> card == old(card)
      ensures clock >= old(clock) && Replied(r1, got, |old(got)|)
    {
      var i := 8;
      r1 := 0xFF;
      while i > 0
        invariant clock >= old(clock) && |got| == |old(got)| + 8 - i && i <= 8 &&
                  forall k :: |old(got)| <= k < |got| ==> got[k] == 0xFF
        invariant old(card.mode.Respond? || card.mode.Stopped? || card.mode.Rogue?) ==> card == old(card)
        invariant r1 == 0xFF && old(got) <= got && SameCard(card, old(card))
      {
        r1 := RecvByte();
        if r1 != 0xFF {
          return;
        }
        i := i - 1;
      }
      r1 := 0x82;
    }

    /** Sends a command when the card is ready; the answer is its response, or a code above 0x80. */
    method SendCommand(cmd: u8, arg: u32) returns (r1: u8)
      requires cmd < 0x40
      modifies this`timer1, this`timer2, this`wire, this`card, this`got, this`put, this`clock
      ensures old(got) <= got && SameCard(card, old(card))
      ensures r1 == 0 ==> |got| > |old(got)| && got[|got| - 1] == 0
      ensures old(card.mode.Rogue?) ==> card == old(card)
      ensures old(Resting(card.mode)) && cmd != STOP_TRANSMISSION ==> SameStore(card, old(card))
      ensures old(Resting(card.mode)) && cmd != STOP_TRANSMISSION && r1 != 0 ==> !Unfinished(card.mode)
      ensures old(Resting(card.mode)) && cmd != STOP_TRANSMISSION && r1 == 0 ==>
                card.mode == Started(card.byteAddressed, cmd, arg) || card.mode.Rogue?
      ensures old(Streaming(card.mode)) && cmd == STOP_TRANSMISSION ==>
                SameStore(card, old(card)) && Streaming(card.mode)
      ensures old(Streaming(card.mode)) && cmd == STOP_TRANSMISSION ==>
                card.mode.Stopped? || card.mode.Rogue? || clock >= old(clock) + 50
      ensures clock >= old(clock)
      ensures Replied(r1, got, |old(got)|) || (r1 == 0x81 && clock >= old(clock) + 50)
    {
      var ready := WaitForReady();
      if !ready {
        return 0x81;
      }
      SendFrame(cmd, arg);
      r1 := Response();
    }

    // ---- reading --------------------------------------------------------------------------

    /** Reads until the data token or until the timer runs out. */
    method AwaitToken() returns (token: u8, ghost delay: seq<u8>)
      modifies this`timer1, this`timer2, this`wire, this`card, this`got, this`put, this`clock
      ensures got == old(got) + delay + [token] && 0xFE !in delay
      ensures old(card.mode.DataWait?) ==> SameStore(card, old(card))
      ensures old(card.mode.Rogue?) ==> card == old(card)
      ensures SameCard(card, old(card))
      ensures old(card.mode.DataWait?) && token == 0xFE ==>
                card.mode.Rogue? || (card.mode == Data(old(card).mode.addr, old(card).mode.multi, 0) &&
                                     old(card).mode.addr < |card.blocks|)
      ensures old(card.mode.DataWait?) && token != 0xFE ==>
                card.mode == old(card).mode || card.mode.Idle? || card.mode.Rogue?
      ensures clock >= old(clock) && (token != 0xFE ==> clock >= old(clock) + 10)
    {
      timer1 := 10;
      delay := [];
      token := RecvByte();
      while token != 0xFE && timer1 > 0
        invariant clock >= old(clock) && timer1 + clock >= 10 + old(clock)
        invariant got == old(got) + delay + [token] && 0xFE !in delay
        invariant old(card.mode.DataWait?) ==> SameStore(card, old(card))
        invariant old(card.mode.Rogue?) ==> card == old(card)
        invariant SameCard(card, old(card))
        invariant old(card.mode.DataWait?) && token == 0xFE ==>
                    card.mode.Rogue? || (card.mode == Data(old(card).mode.addr, old(card).mode.multi, 0) &&
                                         old(card).mode.addr < |card.blocks|)
        invariant old(card.mode.DataWait?) && token != 0xFE ==>
                    card.mode == old(card).mode || card.mode.Idle? || card.mode.Rogue?
        decreases Patience(timer1)
      {
        delay := delay + [token];
        token := RecvByte();
      }
    }

    /** Reads bytes into the buffer from the given place on. A faithful card that is sending a block
        sends the bytes of that block. */
    method ReadBytes(buf: array<u8>, at: nat, len: nat)
      requires at + len <= buf.Length
      modifies this`timer1, this`timer2, this`wire, this`card, this`got, this`put, this`clock, buf
      ensures got == old(got) + buf[at..at + len]
      ensures buf[..at] == old(buf[..at]) && forall j :: at + len <= j < buf.Length ==> buf[j] == old(buf[j])
      ensures old(card.mode.Rogue?) ==> card == old(card)
      ensures SameCard(card, old(card))
      ensures old(card.mode.Data? && card.mode.i == 0 && len == SECTOR_SIZE) ==>
                && SameStore(card, old(card))
                && (card.mode.Rogue? ||
                    (&& card.mode == old(card).mode.(i := SECTOR_SIZE) && card.mode.addr < |card.blocks|
                     && buf[at..at + len] == card.blocks[card.mode.addr]))
      ensures clock >= old(clock)
    {
      var i := 0;
      while i < len
        invariant clock >= old(clock)
        invariant i <= len && got == old(got) + buf[at..at + i]
        invariant forall j :: 0 <= j < at || at + len <= j < buf.Length ==> buf[j] == old(buf[j])
        invariant old(card.mode.Rogue?) ==> card == old(card)
        invariant SameCard(card, old(card))
        invariant old(card.mode.Data? && card.mode.i == 0 && len == SECTOR_SIZE) ==>
                    && SameStore(card, old(card))
                    && (card.mode.Rogue? ||
                        (&& card.mode == old(card).mode.(i := i) && (i > 0 ==> card.mode.addr < |card.blocks|)
                         && forall j :: 0 <= j < i ==> buf[at + j] == card.blocks[card.mode.addr][j]))
      {
        ghost var before := buf[at..at + i];
        buf[at + i] := RecvByte();
        i := i + 1;
        assert buf[at..at + i] == before + [buf[at + i - 1]];
      }
    }

    /** Reads one block: token, data, checksum. */
    method RecvDataBlock(buf: array<u8>, at: nat, len: nat) returns (ok: bool, ghost p: Packet)
      requires at + len <= buf.Length
      modifies this`timer1, this`timer2, this`wire, this`card, this`got, this`put, this`clock, buf
      ensures old(got) <= got && SameCard(card, old(card))
      ensures ok ==> got == old(got) + Bytes(p) && TokenLed(p, len) && p.data == buf[at..at + len]
      ensures buf[..at] == old(buf[..at]) && forall j :: at + len <= j < buf.Length ==> buf[j] == old(buf[j])
      ensures old(card.mode.Rogue?) ==> card == old(card)
      ensures old(card.mode.DataWait?) && len == SECTOR_SIZE ==> SameStore(card, old(card))
      ensures old(card.mode.DataWait?) && len == SECTOR_SIZE && ok ==>
                card.mode.Rogue? || (&& old(card).mode.addr < |card.blocks|
                                     && p.data == card.blocks[old(card).mode.addr]
                                     && card.mode == SdDevice.NextRead(old(card).mode.addr + 1, old(card).mode.multi))
      ensures old(card.mode.DataWait?) && len == SECTOR_SIZE && !ok ==>
                card.mode == old(card).mode || card.mode.Idle? || card.mode.Rogue?
      ensures clock >= old(clock) && (!ok ==> clock >= old(clock) + 10)
    {
      var token: u8;
      ghost var delay;
      token, delay := AwaitToken();
      p := Packet(delay, [], []);
      if token != 0xFE {
        return false, p;
      }
      ReadBytes(buf, at, len);
      var c0 := RecvByte();
      var c1 := RecvByte();
      p := Packet(delay, buf[at..at + len], [c0, c1]);
      assert got == old(got) + (delay + [token]) + buf[at..at + len] + [c0] + [c1] == old(got) + Bytes(p);
      ok := true;
    }

    /** One block of a transfer into the sector of the buffer meant for it. */
    method RecvSector(buf: array<u8>, n: nat) returns (ok: bool, ghost p: Packet)
      requires SECTOR_SIZE * (n + 1) <= buf.Length
      modifies this`timer1, this`timer2, this`wire, this`card, this`got, this`put, this`clock, buf
      ensures old(got) <= got && SameCard(card, old(card))
      ensures clock >= old(clock) && (!ok ==> clock >= old(clock) + 10)
      ensures ok ==> got == old(got) + Bytes(p) && TokenLed(p, SECTOR_SIZE) && p.data == Sector(buf[..], n)
      ensures forall k :: 0 <= k < n ==> Sector(buf[..], k) == old(Sector(buf[..], k))
      ensures forall j :: SECTOR_SIZE * (n + 1) <= j < buf.Length ==> buf[j] == old(buf[j])
      ensures old(card.mode.Rogue?) ==> card == old(card)
      ensures old(card.mode.DataWait?) ==> SameStore(card, old(card)) && (!ok ==> Streaming(card.mode))
      ensures old(card.mode.DataWait?) && ok ==>
                card.mode.Rogue? || (&& old(card).mode.addr < |card.blocks|
                                     && p.data == card.blocks[old(card).mode.addr]
                                     && card.mode == SdDevice.NextRead(old(card).mode.addr + 1, old(card).mode.multi))
    {
      ghost var before := buf[..];
      ok, p := RecvDataBlock(buf, SECTOR_SIZE * n, SECTOR_SIZE);
      assert before[..SECTOR_SIZE * n] == buf[..SECTOR_SIZE * n];
      assert Sector(buf[..], n) == buf[SECTOR_SIZE * n..SECTOR_SIZE * n + SECTOR_SIZE];
      forall k | 0 <= k < n ensures Sector(buf[..], k) == Sector(before, k) {
        SectorKept(before, buf[..], n, k);
      }
    }

    /** The successive blocks of a multiple transfer. */
    method ReadBlocks(buf: array<u8>, cnt: nat) returns (done: nat, ghost ps: seq<Packet>)
      requires 0 < cnt && SECTOR_SIZE * cnt <= buf.Length
      modifies this`timer1, this`timer2, this`wire, this`card, this`got, this`put, this`clock, buf
      ensures old(got) <= got && SameCard(card, old(card)) && done <= cnt
      ensures old(got) + Flat(ps) <= got && |ps| == done
      ensures old(card.mode.Rogue?) ==> card == old(card)
      ensures forall k :: 0 <= k < done ==> TokenLed(ps[k], SECTOR_SIZE) && ps[k].data == Sector(buf[..], k)
      ensures forall j :: SECTOR_SIZE * cnt <= j < buf.Length ==> buf[j] == old(buf[j])
      ensures old(card.mode.DataWait? && card.mode.multi) ==>
                && SameStore(card, old(card)) && Streaming(card.mode)
                && (done == cnt && !card.mode.Rogue? ==>
                      && old(card).mode.addr + cnt <= |card.blocks|
                      && forall k :: 0 <= k < cnt ==> ps[k].data == card.blocks[old(card).mode.addr + k])
      ensures clock >= old(clock) && (done < cnt ==> clock >= old(clock) + 10)
    {
      done, ps := 0, [];
      while done < cnt
        invariant clock >= old(clock)
        invariant done <= cnt && |ps| == done && SameCard(card, old(card))
        invariant got == old(got) + Flat(ps)
        invariant old(card.mode.Rogue?) ==> card == old(card)
        invariant forall k :: 0 <= k < done ==> TokenLed(ps[k], SECTOR_SIZE) && ps[k].data == Sector(buf[..], k)
        invariant forall j :: SECTOR_SIZE * cnt <= j < buf.Length ==> buf[j] == old(buf[j])
        invariant old(card.mode.DataWait? && card.mode.multi) ==>
                    && SameStore(card, old(card))
                    && (!card.mode.Rogue? ==>
                          && card.mode == DataWait(old(card).mode.addr + done, true)
                          && (done > 0 ==> old(card).mode.addr + done <= |card.blocks|)
                          && forall k :: 0 <= k < done ==> ps[k].data == card.blocks[old(card).mode.addr + k])
      {
        var ok: bool;
        ghost var p;
        ok, p := RecvSector(buf, done);
        if !ok {
          return;
        }
        FlatSnoc(old(got), ps, p);
        ps := ps + [p];
        done := done + 1;
      }
    }

    /** The argument sent for a sector: its number, or its byte address in 32 bits. It names that sector
        to a card of the type found, unless the byte address does not fit. */
    function Addressed(sect: u32): (arg: u32)
      reads this`cardType
      ensures BlockOf(cardType != CARDTYPE_SDV2_HC, arg) == sect <==> cardType == CARDTYPE_SDV2_HC || sect < 0x80_0000
    {
      ArgumentNames(sect);
      if cardType != CARDTYPE_SDV2_HC then U32(sect * 512) else sect
    }

    method Deselect()
      modifies this`card
      ensures card == Released(old(card))
    {
      card := Released(card);
    }

    /** A transfer of several blocks, stopped at its end. */
    method ReadMany(sect: u32, buf: array<u8>, cnt: u32)
      returns (flag: bool, ghost r1: u8, ghost from: nat, ghost ps: seq<Packet>)
      requires 1 < cnt && SECTOR_SIZE * cnt <= buf.Length
      modifies this`timer1, this`timer2, this`wire, this`card, this`got, this`put, this`clock, buf
      ensures old(got) <= got && SameCard(card, old(card)) && clock >= old(clock)
      ensures old(card.mode.Rogue?) ==> card == old(card)
      ensures forall j :: SECTOR_SIZE * cnt <= j < buf.Length ==> buf[j] == old(buf[j])
      ensures flag ==> |ps| == cnt &&
                       forall k :: 0 <= k < cnt ==> TokenLed(ps[k], SECTOR_SIZE) && ps[k].data == Sector(buf[..], k)
      ensures |old(got)| <= from <= |got| && (flag ==> r1 == 0 && Flat(ps) <= got[from..])
      ensures Replied(r1, got[..from], |old(got)|) || (r1 == 0x81 && clock >= old(clock) + 50)
      ensures !flag ==> r1 != 0 || clock >= old(clock) + 10
      ensures old(Resting(card.mode)) ==> SameStore(card, old(card))
      ensures old(Resting(card.mode)) ==> !Unfinished(card.mode) || clock >= old(clock) + 50
      ensures old(Resting(card.mode)) && flag && !card.mode.Rogue? ==>
                var base := BlockOf(card.byteAddressed, Addressed(sect));
                base + cnt <= |card.blocks| && forall k :: 0 <= k < cnt ==> ps[k].data == card.blocks[base + k]
    {
      flag, ps := false, [];
      var response := SendCommand(READ_MULTIPLE_BLOCK, Addressed(sect));
      r1, from := response, |got|;
      if response == 0 {
        var done;
        ghost var before := got;
        done, ps := ReadBlocks(buf, cnt);
        assert Flat(ps) == (before + Flat(ps))[from..] && got[..from] == before;
        var ready := Stop();
        flag := ready && done == cnt;
      }
    }

    /** Ends the transfer. */
    method Stop() returns (ready: bool)
      modifies this`timer1, this`timer2, this`wire, this`card, this`got, this`put, this`clock
      ensures old(got) <= got && SameCard(card, old(card)) && clock >= old(clock)
      ensures old(card.mode.Rogue?) ==> card == old(card)
      ensures old(Streaming(card.mode)) ==>
                && SameStore(card, old(card))
                && (!Unfinished(card.mode) || clock >= old(clock) + 50)
      ensures !ready ==> clock >= old(clock) + 50
    {
      var _ := SendCommand(STOP_TRANSMISSION, 0);
      ready := WaitForReady();
    }

    method ReadOne(sect: u32, buf: array<u8>)
      returns (flag: bool, ghost r1: u8, ghost from: nat, ghost p: Packet)
      requires SECTOR_SIZE <= buf.Length
      modifies this`timer1, this`timer2, this`wire, this`card, this`got, this`put, this`clock, buf
      ensures old(got) <= got && SameCard(card, old(card)) && clock >= old(clock)
      ensures old(card.mode.Rogue?) ==> card == old(card)
      ensures forall j :: SECTOR_SIZE <= j < buf.Length ==> buf[j] == old(buf[j])
      ensures flag ==> TokenLed(p, SECTOR_SIZE) && p.data == buf[..SECTOR_SIZE]
      ensures |old(got)| <= from <= |got| && (flag ==> r1 == 0 && got[from..] == Bytes(p))
      ensures Replied(r1, got[..from], |old(got)|) || (r1 == 0x81 && clock >= old(clock) + 50)
      ensures !flag ==> r1 != 0 || clock >= old(clock) + 10
      ensures old(Resting(card.mode)) ==> SameStore(card, old(card)) && !Unfinished(card.mode)
      ensures old(Resting(card.mode)) && flag && !card.mode.Rogue? ==>
                var base := BlockOf(card.byteAddressed, Addressed(sect));
                base < |card.blocks| && p.data == card.blocks[base]
    {
      flag, p := false, Packet([], [], []);
      var response := SendCommand(READ_SINGLE_BLOCK, Addressed(sect));
      r1, from := response, |got|;
      if response == 0 {
        flag, p := RecvDataBlock(buf, 0, SECTOR_SIZE);
        assert flag ==> p.data == buf[..SECTOR_SIZE];
      }
    }

    /** Only as many token-led blocks as asked for make a read succeed, and the buffer then holds them in
        order; if the card was faithful, they are the blocks the argument names. */
    method ReadSector(sect: u32, buf: array<u8>, cnt: u32)
      returns (flag: bool, ghost r1: u8, ghost from: nat, ghost ps: seq<Packet>)
      requires SECTOR_SIZE * Sectors(cnt) <= buf.Length
      modifies this`timer1, this`timer2, this`wire, this`card, this`got, this`put, this`clock, buf
      ensures old(got) <= got && Resting(card.mode) && card.byteAddressed == old(card).byteAddressed
      ensures old(card.mode.Rogue?) ==> card == old(card)
      ensures forall j :: SECTOR_SIZE * Sectors(cnt) <= j < buf.Length ==> buf[j] == old(buf[j])
      ensures flag ==> |ps| == Sectors(cnt) &&
                       forall k :: 0 <= k < Sectors(cnt) ==>
                         TokenLed(ps[k], SECTOR_SIZE) && ps[k].data == buf[512 * k..512 * k + 512]
      ensures |old(got)| <= from <= |got| && (flag ==> r1 == 0 && Flat(ps) <= got[from..])
      ensures Replied(r1, got[..from], |old(got)|) || (r1 == 0x81 && clock >= old(clock) + 50)
      ensures !flag ==> r1 != 0 || clock >= old(clock) + 10
      ensures old(Resting(card.mode)) ==> SameStore(card, old(card))
      ensures old(Resting(card.mode)) && flag && !card.mode.Rogue? ==>
                var base := BlockOf(card.byteAddressed, Addressed(sect));
                && base + Sectors(cnt) <= |card.blocks|
                && forall k :: 0 <= k < Sectors(cnt) ==> ps[k].data == card.blocks[base + k]
      ensures old(Resting(card.mode)) ==> card.abandoned == old(card).abandoned || clock >= old(clock) + 50
    {
      if cnt > 1 {
        flag, r1, from, ps := ReadMany(sect, buf, cnt);
      } else {
        ghost var p;
        flag, r1, from, p := ReadOne(sect, buf);
        ps := [p];
        FlatOne(p);
        assert Sector(buf[..], 0) == buf[..SECTOR_SIZE];
      }
      Deselect();
    }

    // ---- writing --------------------------------------------------------------------------

    method SendBytes(buf: array<u8>, at: nat, len: nat)
      requires at + len <= buf.Length
      modifies this`timer1, this`timer2, this`wire, this`card, this`got, this`put, this`clock
      ensures old(got) <= got && SameCard(card, old(card))
      ensures old(card.mode.Rogue?) ==> card == old(card)
      ensures old(card.mode.Collect?) && old(card).mode.bytes == [] && len <= SECTOR_SIZE ==>
                card == old(card).(mode := old(card).mode.(bytes := buf[at..at + len]))
      ensures clock >= old(clock)
    {
      var i := 0;
      while i < len
        invariant clock >= old(clock)
        invariant i <= len && old(got) <= got && SameCard(card, old(card))
        invariant old(card.mode.Rogue?) ==> card == old(card)
        invariant old(card.mode.Collect?) && old(card).mode.bytes == [] && len <= SECTOR_SIZE ==>
                    card == old(card).(mode := old(card).mode.(bytes := buf[at..at + i]))
      {
        assert buf[at..at + i + 1] == buf[at..at + i] + [buf[at + i]];
        var _ := SendByte(buf[at + i]);
        i := i + 1;
      }
    }

    /** Waits until a busy card is done or the timer runs out. */
    method AwaitWritten() returns (done: bool)
      modifies this`timer1, this`timer2, this`wire, this`card, this`got, this`put, this`clock
      ensures old(got) <= got && SameCard(card, old(card))
      ensures old(card.mode.Rogue?) ==> card == old(card)
      ensures old(card.mode.Busy?) ==>
                card == old(card).(mode := if done then NextWrite(old(card).mode.addr, old(card).mode.multi)
                                   else old(card).mode)
      ensures clock >= old(clock) && (!done ==> clock >= old(clock) + 20)
    {
      timer1 := 20;
      var b := RecvByte();
      while b != 0xFF && timer1 > 0
        invariant clock >= old(clock) && timer1 + clock >= 20 + old(clock)
        invariant old(got) <= got && SameCard(card, old(card))
        invariant old(card.mode.Rogue?) ==> card == old(card)
        invariant old(card.mode.Busy?) ==>
                    card == old(card).(mode := if b == 0xFF then NextWrite(old(card).mode.addr, old(card).mode.multi)
                                       else old(card).mode)
        decreases Patience(timer1)
      {
        b := RecvByte();
      }
      done := b == 0xFF;
    }

    /** Sends the token, a block and a dummy checksum, and waits for the card to store it. A faithful card
        has stored the block if it took it, even if the driver then lost patience. */
    method SendDataBlock(buf: array<u8>, at: nat, tkn: u8, len: nat) returns (ok: bool, ghost taken: bool)
      requires at + len <= buf.Length
      modifies this`timer1, this`timer2, this`wire, this`card, this`got, this`put, this`clock
      ensures old(got) <= got && SameCard(card, old(card)) && (ok ==> taken)
      ensures old(card.mode.Rogue?) ==> card == old(card)
      ensures old(card.mode.WaitToken?) && tkn == Token(old(card).mode.multi) && len == SECTOR_SIZE ==>
                card.mode.Rogue? || Written(old(card), buf[at..at + len], ok, taken, card)
      ensures clock >= old(clock) && (taken && !ok ==> clock >= old(clock) + 20)
    {
      var ignored := SendByte(tkn);
      SendBytes(buf, at, len);
      ignored := SendByte(0xFF);
      ignored := SendByte(0xFF);
      assert (buf[at..at + len] + [0xFF] + [0xFF])[..len] == buf[at..at + len];
      var response := RecvByte();
      taken := response % 0x10 == 5;
      if response % 0x10 != 5 {
        return false, taken;
      }
      ok := AwaitWritten();
    }

    /** The successive blocks of a multiple transfer; kept counts those a faithful card has stored. */
    method WriteBlocks(buf: array<u8>, cnt: nat) returns (done: nat, ghost kept: nat)
      requires 0 < cnt && SECTOR_SIZE * cnt <= buf.Length
      modifies this`timer1, this`timer2, this`wire, this`card, this`got, this`put, this`clock
      ensures old(got) <= got && SameCard(card, old(card)) && done <= kept <= cnt
      ensures old(card.mode.Rogue?) ==> card == old(card)
      ensures old(card.mode.WaitToken? && card.mode.multi) && !card.mode.Rogue? ==>
                && card.blocks == Stored(old(card).blocks, old(card).mode.addr, buf[..], kept)
                && AwaitsData(card.mode) && ((card.mode.WaitToken? && card.mode.multi) || clock >= old(clock) + 20)
                && (done > 0 ==> old(card).mode.addr + done <= |card.blocks|)
      ensures clock >= old(clock) && (done < kept ==> clock >= old(clock) + 20)
      ensures old(card.mode.WaitToken? && card.mode.multi) && !card.mode.Rogue? ==>
                card.refusals == old(card).refusals + (if done == kept < cnt then 1 else 0)
    {
      done, kept := 0, 0;
      while done < cnt
        invariant clock >= old(clock)
        invariant done == kept <= cnt && old(got) <= got && SameCard(card, old(card))
        invariant old(card.mode.Rogue?) ==> card == old(card)
        invariant old(card.mode.WaitToken? && card.mode.multi) && !card.mode.Rogue? ==>
                    && card.blocks == Stored(old(card).blocks, old(card).mode.addr, buf[..], done)
                    && card.refusals == old(card).refusals
                    && card.mode == WaitToken(old(card).mode.addr + done, true)
                    && (done > 0 ==> old(card).mode.addr + done <= |card.blocks|)
      {
        var ok: bool;
        ghost var taken: bool;
        assert buf[SECTOR_SIZE * done..SECTOR_SIZE * done + SECTOR_SIZE] == Sector(buf[..], done);
        ok, taken := SendDataBlock(buf, SECTOR_SIZE * done, 0xFC, SECTOR_SIZE);
        kept := if taken then done + 1 else done;
        if !ok {
          return;
        }
        done := done + 1;
      }
    }

    /** A transfer of several blocks, closed by a stop token. */
    method WriteMany(sect: u32, buf: array<u8>, cnt: u32)
      returns (flag: bool, ghost r1: u8, ghost from: nat, ghost kept: nat)
      requires 1 < cnt && SECTOR_SIZE * cnt <= buf.Length
      modifies this`timer1, this`timer2, this`wire, this`card, this`got, this`put, this`clock
      ensures old(got) <= got && SameCard(card, old(card)) && clock >= old(clock)
      ensures old(card.mode.Rogue?) ==> card == old(card)
      ensures kept <= cnt && (flag ==> kept == cnt && r1 == 0)
      ensures |old(got)| <= from <= |got|
      ensures Replied(r1, got[..from], |old(got)|) || (r1 == 0x81 && clock >= old(clock) + 50)
      ensures old(Resting(card.mode)) && !flag ==>
                r1 != 0 || clock >= old(clock) + 20 || card.mode.Rogue? || card.refusals > old(card).refusals
      ensures old(Resting(card.mode)) && !card.mode.Rogue? ==>
                var base := BlockOf(card.byteAddressed, Addressed(sect));
                && card.blocks == Stored(old(card).blocks, base, buf[..], kept)
                && (flag ==> base + cnt <= |card.blocks|)
      ensures old(Resting(card.mode)) ==> !Unfinished(card.mode) || clock >= old(clock) + 20
    {
      flag, kept := false, 0;
      var response := SendCommand(WRITE_MULTIPLE_BLOCK, Addressed(sect));
      r1, from := response, |got|;
      if response == 0 {
        var done;
        done, kept := WriteBlocks(buf, cnt);
        var ready := Close();
        flag := ready && done == cnt;
      }
    }

    /** The stop token, after which the card is busy for a while. */
    method Close() returns (ready: bool)
      modifies this`timer1, this`timer2, this`wire, this`card, this`got, this`put, this`clock
      ensures old(got) <= got && SameCard(card, old(card)) && clock >= old(clock)
      ensures old(card.mode.Rogue?) ==> card == old(card)
      ensures old(AwaitsData(card.mode)) && !card.mode.Rogue? ==> SameStore(card, old(card))
      ensures old(card.mode.WaitToken? && card.mode.multi) ==> !Unfinished(card.mode)
      ensures !ready ==> clock >= old(clock) + 50
    {
      var _ := SendByte(0xFD);
      ready := WaitForReady();
    }

    method WriteOne(sect: u32, buf: array<u8>) returns (flag: bool, ghost r1: u8, ghost from: nat, ghost taken: bool)
      requires SECTOR_SIZE <= buf.Length
      modifies this`timer1, this`timer2, this`wire, this`card, this`got, this`put, this`clock
      ensures old(got) <= got && SameCard(card, old(card)) && clock >= old(clock)
      ensures old(card.mode.Rogue?) ==> card == old(card)
      ensures flag ==> taken && r1 == 0
      ensures |old(got)| <= from <= |got|
      ensures Replied(r1, got[..from], |old(got)|) || (r1 == 0x81 && clock >= old(clock) + 50)
      ensures old(Resting(card.mode)) && !flag ==>
                r1 != 0 || clock >= old(clock) + 20 || card.mode.Rogue? || card.refusals > old(card).refusals
      ensures old(Resting(card.mode)) && !card.mode.Rogue? ==>
                var base := BlockOf(card.byteAddressed, Addressed(sect));
                if taken then base < |old(card).blocks| && card.blocks == old(card).blocks[base := buf[..SECTOR_SIZE]]
                else card.blocks == old(card).blocks
      ensures old(Resting(card.mode)) ==> !Unfinished(card.mode)
    {
      flag, taken := false, false;
      var response := SendCommand(WRITE_SINGLE_BLOCK, Addressed(sect));
      r1, from := response, |got|;
      if response == 0 {
        assert buf[0..SECTOR_SIZE] == buf[..SECTOR_SIZE];
        flag, taken := SendDataBlock(buf, 0, 0xFE, SECTOR_SIZE);
      }
    }

    /** If the card was faithful, the first blocks of the buffer are stored from the addressed block on, all
        of them if the write succeeds, and no other block has changed. */
    method WriteSector(sect: u32, buf: array<u8>, cnt: u32)
      returns (flag: bool, ghost r1: u8, ghost from: nat, ghost kept: nat)
      requires SECTOR_SIZE * Sectors(cnt) <= buf.Length
      modifies this`timer1, this`timer2, this`wire, this`card, this`got, this`put, this`clock
      ensures old(got) <= got && Resting(card.mode) && card.byteAddressed == old(card).byteAddressed
      ensures old(card.mode.Rogue?) ==> card == old(card)
      ensures kept <= Sectors(cnt) && (flag ==> kept == Sectors(cnt) && r1 == 0)
      ensures |old(got)| <= from <= |got|
      ensures Replied(r1, got[..from], |old(got)|) || (r1 == 0x81 && clock >= old(clock) + 50)
      ensures old(Resting(card.mode)) && !flag ==>
                r1 != 0 || clock >= old(clock) + 20 || card.mode.Rogue? || card.refusals > old(card).refusals
      ensures old(Resting(card.mode)) && !card.mode.Rogue? ==>
                var base := BlockOf(card.byteAddressed, Addressed(sect));
                && card.blocks == Stored(old(card).blocks, base, buf[..], kept)
                && (flag ==> base + Sectors(cnt) <= |card.blocks|)
      ensures old(Resting(card.mode)) ==> card.abandoned == old(card).abandoned || clock >= old(clock) + 20
    {
      if cnt > 1 {
        flag, r1, from, kept := WriteMany(sect, buf, cnt);
      } else {
        ghost var taken: bool;
        flag, r1, from, taken := WriteOne(sect, buf);
        kept := if taken then 1 else 0;
        StoredOne(old(card).blocks, BlockOf(card.byteAddressed, Addressed(sect)), buf[..]);
      }
      Deselect();
    }

    // ---- both -----------------------------------------------------------------------------

    /** What was written is read back: two successful calls for the same range hand out the same bytes,
        unless the card was not faithful. */
    method WriteThenRead(sect: u32, data: array<u8>, back: array<u8>, cnt: u32) returns (ok: bool)
      requires data != back && SECTOR_SIZE * Sectors(cnt) <= data.Length && SECTOR_SIZE * Sectors(cnt) <= back.Length
      requires Resting(card.mode)
      modifies this`timer1, this`timer2, this`wire, this`card, this`got, this`put, this`clock, back
      ensures ok && !card.mode.Rogue? ==>
                forall j :: 0 <= j < 512 * Sectors(cnt) ==> back[j] == data[j]
    {
      var written, read;
      ghost var r1, kept, from, ps;
      ghost var blocks := card.blocks;
      written, r1, from, kept := WriteSector(sect, data, cnt);
      read, r1, from, ps := ReadSector(sect, back, cnt);
      ok := written && read;
      ghost var base := BlockOf(card.byteAddressed, Addressed(sect));
      if ok && !card.mode.Rogue? {
        forall k | 0 <= k < Sectors(cnt)
          ensures back[..][512 * k..512 * k + 512] == card.blocks[base + k]
        {
          assert ps[k].data == back[512 * k..512 * k + 512] == back[..][512 * k..512 * k + 512];
        }
        ReadAsWritten(blocks, base, data[..], back[..], Sectors(cnt));
      }
    }
  }
}
