/** The receive ring of the ENC28J60 (src/enc28j60.c, inc/enc28j60.h): how the chip stores packets one
    after the other in a region of its buffer memory, and which part of it the chip may overwrite. */
module Enc28j60Ring {
  import opened MachineInts

  const RXSTART_INIT := 0x0
  const RXSTOP_INIT := 0x1FFF - 0x0600 - 1
  const TXSTART_INIT := 0x1FFF - 0x0600
  const TXSTOP_INIT := 0x1FFF

  const MEMORY := 0x2000

  /** The number of bytes in the receive ring, which starts at address 0. */
  const RING: nat := 0x19FF

  type Memory = m: seq<u8> | |m| == MEMORY witness seq(MEMORY, i => 0)

  type Address = a: nat | a < RING witness 0

  /** A ring address up to one turn too far, brought back. */
  function Wrap(a: nat): Address
    requires a < 2 * RING
  {
    if a >= RING then a - RING else a
  }

  function Pred(a: Address): Address { if a == 0 then RING - 1 else a - 1 }

  // ---- packets ----------------------------------------------------------------------------

  /** A received packet: the frame without its checksum, the four checksum bytes, the receive status,
      and the bytes the chip leaves out before the next packet. */
  datatype Packet = Packet(data: seq<u8>, crc: seq<u8>, status: u16, gap: seq<u8>)

  predicate Wellformed(p: Packet) { |p.crc| == 4 }

  /** The received-ok bit. */
  predicate Ok(p: Packet) { p.status / 0x80 % 2 == 1 }

  function Size(p: Packet): nat { 6 + |p.data| + |p.crc| + |p.gap| }

  function Total(q: seq<Packet>): nat
  {
    if q == [] then 0 else Size(q[0]) + Total(q[1..])
  }

  /** The header: next packet pointer, byte count and status, low bytes first. */
  function Header(p: Packet, next: u16): (h: seq<u8>)
    requires |p.data| + 4 < 0x1_0000
    ensures |h| == 6
  {
    var count := |p.data| + 4;
    [next % 0x100, next / 0x100, count % 0x100, count / 0x100, p.status % 0x100, p.status / 0x100]
  }

  function Image(p: Packet, next: u16): (s: seq<u8>)
    requires |p.data| + 4 < 0x1_0000
    ensures |s| == Size(p)
  {
    Header(p, next) + p.data + p.crc + p.gap
  }

  predicate Fitting(q: seq<Packet>)
  {
    Total(q) < RING && forall p :: p in q ==> Wellformed(p)
  }

  /** Where the ring byte i places after start is kept. */
  function Place(start: Address, i: nat): Address
    requires i < RING
  {
    Wrap(start + i)
  }

  function Word(s: seq<u8>, i: nat): u16
    requires i + 1 < |s|
  {
    var low: int, high: int := s[i], s[i + 1];
    low + 0x100 * high
  }

  /** The ring bytes of a packet that starts at the given address. */
  function Bytes(start: Address, p: Packet): (s: seq<u8>)
    requires Size(p) < RING && Wellformed(p)
    ensures |s| == Size(p)
  {
    Image(p, Place(start, Size(p)))
  }

  /** The three words of the header: where the next packet starts, the byte count, the status. */
  function HeaderWord(start: Address, p: Packet, k: nat): u16
    requires Size(p) < RING && Wellformed(p)
  {
    if k == 0 then Place(start, Size(p)) else if k == 1 then |p.data| + 4 else p.status
  }

  lemma HeaderWords(start: Address, p: Packet, k: nat)
    requires Size(p) < RING && Wellformed(p) && k < 3
    ensures Word(Bytes(start, p), 2 * k) == HeaderWord(start, p, k)
  {
    assert Bytes(start, p)[..6] == Header(p, Place(start, Size(p)));
  }

  lemma DataBytes(start: Address, p: Packet, n: nat)
    requires Size(p) < RING && Wellformed(p) && n <= |p.data|
    ensures Bytes(start, p)[6..6 + n] == p.data[..n]
  {
  }

  /** A packet with its header is found from start on. */
  ghost predicate PacketAt(mem: Memory, start: Address, p: Packet)
    requires Size(p) < RING && Wellformed(p)
  {
    forall i :: 0 <= i < Size(p) ==> mem[Place(start, i)] == Bytes(start, p)[i]
  }

  /** The packets of a queue are found one after the other from start on. */
  ghost predicate Stored(mem: Memory, start: Address, q: seq<Packet>)
    decreases |q|
  {
    Fitting(q) &&
    (q == [] || (PacketAt(mem, start, q[0]) && Stored(mem, Place(start, Size(q[0])), q[1..])))
  }

  lemma {:induction false} StoredElsewhere(mem: Memory, other: Memory, start: Address, q: seq<Packet>)
    requires Stored(mem, start, q)
    requires forall i :: 0 <= i < Total(q) ==> other[Place(start, i)] == mem[Place(start, i)]
    ensures Stored(other, start, q)
    decreases |q|
  {
    if q != [] {
      var n := Size(q[0]);
      forall i | 0 <= i < Total(q[1..])
        ensures other[Place(Place(start, n), i)] == mem[Place(Place(start, n), i)]
      {
        assert Place(Place(start, n), i) == Place(start, n + i);
      }
      StoredElsewhere(mem, other, Place(start, n), q[1..]);
    }
  }

  lemma {:induction false} TotalAppend(q: seq<Packet>, p: Packet)
    ensures Total(q + [p]) == Total(q) + Size(p)
  {
    if q == [] {
      assert q + [p] == [p] && [p][1..] == [];
    } else {
      assert (q + [p])[1..] == q[1..] + [p];
      TotalAppend(q[1..], p);
    }
  }

  lemma {:induction false} StoredAppend(mem: Memory, start: Address, q: seq<Packet>, p: Packet)
    requires Stored(mem, start, q) && Wellformed(p) && Total(q) + Size(p) < RING
    requires PacketAt(mem, Place(start, Total(q)), p)
    ensures Stored(mem, start, q + [p])
    decreases |q|
  {
    TotalAppend(q, p);
    if q == [] {
      assert q + [p] == [p] && [p][1..] == [];
      assert Stored(mem, Place(start, Size(p)), []);
    } else {
      var n := Size(q[0]);
      assert (q + [p])[1..] == q[1..] + [p];
      assert Place(Place(start, n), Total(q[1..])) == Place(start, Total(q));
      StoredAppend(mem, Place(start, n), q[1..], p);
    }
  }

  // ---- the ring ---------------------------------------------------------------------------

  /** How many bytes the chip may still write: all but one up to its read pointer. When the two
      pointers are equal it takes the ring for empty. */
  function Free(rd: Address, wr: Address): nat
  {
    if rd > wr then rd - wr - 1 else rd + RING - wr - 1
  }

  /** What the driver relies on: the unread packets are stored one after the other from head to the
      chip's write pointer, and the region given to the chip for writing does not reach into them. */
  ghost predicate RxInv(mem: Memory, head: Address, wr: Address, rd: Address, q: seq<Packet>)
  {
    && Stored(mem, head, q)
    && wr == Place(head, Total(q))
    && Free(rd, wr) + Total(q) < RING
  }

  lemma EmptyRing(mem: Memory)
    ensures RxInv(mem, 0, 0, 0, [])
  {
  }

  /** No byte of an unread packet lies where the chip may write. */
  lemma UnreadBytesAreSafe(mem: Memory, head: Address, wr: Address, rd: Address, q: seq<Packet>, i: nat, k: nat)
    requires RxInv(mem, head, wr, rd, q) && i < Total(q) && k < Free(rd, wr)
    ensures Place(head, i) != Place(wr, k)
  {
  }

  /** The chip stores a packet behind the others. */
  function Received(mem: Memory, wr: Address, p: Packet): Memory
    requires Wellformed(p) && Size(p) < RING
  {
    var image := Bytes(wr, p);
    seq(MEMORY, a requires 0 <= a < MEMORY =>
      if a < RING && Distance(wr, a) < Size(p) then image[Distance(wr, a)] else mem[a])
  }

  /** How far behind start a ring address lies. */
  function Distance(start: Address, a: Address): (d: nat)
    ensures d < RING && Place(start, d) == a
  {
    if a >= start then a - start else a + RING - start
  }

  lemma PlaceDistance(start: Address, i: nat)
    requires i < RING
    ensures Distance(start, Place(start, i)) == i
  {
  }

  /** An arrival that fits keeps everything the driver relies on. */
  lemma {:induction false} ArrivalKeeps(mem: Memory, head: Address, wr: Address, rd: Address, q: seq<Packet>, p: Packet)
    requires RxInv(mem, head, wr, rd, q) && Wellformed(p) && Size(p) <= Free(rd, wr)
    ensures RxInv(Received(mem, wr, p), head, Place(wr, Size(p)), rd, q + [p])
  {
    var other := Received(mem, wr, p);
    forall i | 0 <= i < Total(q) ensures other[Place(head, i)] == mem[Place(head, i)] {
      if Distance(wr, Place(head, i)) < Size(p) {
        UnreadBytesAreSafe(mem, head, wr, rd, q, i, Distance(wr, Place(head, i)));
      }
    }
    StoredElsewhere(mem, other, head, q);
    forall i | 0 <= i < Size(p) ensures other[Place(wr, i)] == Bytes(wr, p)[i] {
      PlaceDistance(wr, i);
    }
    TotalAppend(q, p);
    StoredAppend(other, head, q, p);
  }

  /** The driver reads the oldest packet where it expects it. */
  lemma HeadByte(mem: Memory, head: Address, wr: Address, rd: Address, q: seq<Packet>, i: nat)
    requires RxInv(mem, head, wr, rd, q) && q != [] && i < Size(q[0])
    ensures Size(q[0]) < RING && mem[Place(head, i)] == Bytes(head, q[0])[i]
  {
  }

  /** Dropping the oldest packet, before its bytes are given back. */
  lemma {:induction false} PopKeeps(mem: Memory, head: Address, wr: Address, rd: Address, q: seq<Packet>)
    requires RxInv(mem, head, wr, rd, q) && q != []
    ensures Size(q[0]) < RING && RxInv(mem, Place(head, Size(q[0])), wr, rd, q[1..])
  {
    assert Place(Place(head, Size(q[0])), Total(q[1..])) == Place(head, Total(q));
  }

  /** Setting the read pointer to the oldest packet is always safe. */
  lemma ReadPointerAtHead(mem: Memory, head: Address, wr: Address, rd: Address, q: seq<Packet>)
    requires RxInv(mem, head, wr, rd, q)
    ensures RxInv(mem, head, wr, head, q)
  {
  }

  /** Setting it one byte before the oldest packet is safe exactly if the ring has a byte to spare;
      in a ring filled to its last byte the chip would take it for empty. */
  lemma ReadPointerBeforeHead(mem: Memory, head: Address, wr: Address, rd: Address, q: seq<Packet>)
    requires RxInv(mem, head, wr, rd, q)
    ensures RxInv(mem, head, wr, Pred(head), q) <==> Total(q) <= RING - 2
    ensures Total(q) == RING - 1 ==> Free(Pred(head), wr) == RING - 1
  {
  }

  /** The full ring is reached when, while the read pointer stands at the oldest packet, a packet
      arrives that fits to the last byte; the next write of the read pointer then opens the whole ring
      to the chip although packets are unread. */
  lemma {:induction false} FullRingOpens(mem: Memory, head: Address, wr: Address, q: seq<Packet>, p: Packet)
    requires RxInv(mem, head, wr, head, q) && Wellformed(p) && Size(p) == RING - 1 - Total(q)
    ensures Size(p) <= Free(head, wr)
    ensures var wr' := Place(wr, Size(p));
            && RxInv(Received(mem, wr, p), head, wr', head, q + [p])
            && !RxInv(Received(mem, wr, p), head, wr', Pred(head), q + [p])
            && Free(Pred(head), wr') == RING - 1
  {
    ArrivalKeeps(mem, head, wr, head, q, p);
    TotalAppend(q, p);
  }

  /** A chip that starts packets on even addresses only can fill the ring to its last byte only
      behind an oldest packet at address 0. */
  lemma {:induction false} EvenRingFillsAtZero(mem: Memory, head: Address, wr: Address, rd: Address, q: seq<Packet>)
    requires RxInv(mem, head, wr, rd, q) && EvenStarts(head, q) && Total(q) == RING - 1
    ensures head == 0
  {
    EvenEnd(head, q);
  }

  /** All packets, and what follows the last one, start on even addresses. */
  predicate EvenStarts(start: Address, q: seq<Packet>)
    requires Total(q) < RING
    decreases |q|
  {
    start % 2 == 0 && (q == [] || EvenStarts(Place(start, Size(q[0])), q[1..]))
  }

  lemma {:induction false} EvenEnd(start: Address, q: seq<Packet>)
    requires Total(q) < RING && EvenStarts(start, q)
    ensures Place(start, Total(q)) % 2 == 0
    decreases |q|
  {
    if q != [] {
      EvenEnd(Place(start, Size(q[0])), q[1..]);
      assert Place(Place(start, Size(q[0])), Total(q[1..])) == Place(start, Total(q));
    }
  }

  lemma {:induction false} EvenAppend(start: Address, q: seq<Packet>, p: Packet)
    requires Total(q) + Size(p) < RING && EvenStarts(start, q) && Place(start, Total(q) + Size(p)) % 2 == 0
    ensures Total(q + [p]) < RING && EvenStarts(start, q + [p])
    decreases |q|
  {
    TotalAppend(q, p);
    if q == [] {
      assert q + [p] == [p] && [p][1..] == [];
    } else {
      var n := Size(q[0]);
      assert (q + [p])[1..] == q[1..] + [p];
      assert Place(Place(start, n), Total(q[1..]) + Size(p)) == Place(start, Total(q) + Size(p));
      EvenAppend(Place(start, n), q[1..], p);
    }
  }

  /** Of an address and the one before it one is even, and the one before is odd exactly if the address is
      even and not the start of the ring. */
  lemma EvenWritten(a: Address)
    ensures a % 2 == 0 || Pred(a) % 2 == 0
    ensures Pred(a) % 2 == 1 <==> a % 2 == 0 && a != 0
  {
  }

  lemma {:induction false} TotalConcat(q: seq<Packet>, r: seq<Packet>)
    ensures Total(q + r) == Total(q) + Total(r)
    decreases |q|
  {
    if q == [] {
      assert q + r == r;
    } else {
      assert (q + r)[1..] == q[1..] + r;
      TotalConcat(q[1..], r);
    }
  }

  /** If less arrives during a call than the call takes, the ring is not filled meanwhile. */
  lemma {:induction false} LittleArrived(before: seq<Packet>, window: seq<Packet>, after: seq<Packet>, consumed: nat)
    requires consumed < |after| && before <= after && window <= after && consumed < |window| && consumed <= |before|
    requires Total(before[consumed..]) < RING
    ensures Total(after[|before|..]) < Size(after[consumed]) ==> Total(window[consumed + 1..]) <= RING - 2
  {
    var recent, taken := after[|before|..], after[consumed];
    if consumed < |before| {
      var old0 := before[consumed..];
      assert old0[0] == taken && old0[1..] == before[consumed + 1..];
      assert after[consumed + 1..] == before[consumed + 1..] + recent;
      TotalConcat(before[consumed + 1..], recent);
      assert after[consumed + 1..] == window[consumed + 1..] + after[|window|..];
      TotalConcat(window[consumed + 1..], after[|window|..]);
    }
  }

  /** A frame that the Ethernet admits, checksum included, with at most one byte of padding. */
  predicate Receivable(p: Packet)
  {
    |p.crc| == 4 && 64 <= |p.data| + 4 <= 1518 && |p.gap| <= 1
  }

  function Frame(n: nat): Packet { Packet(seq(n, i => 0), [0, 0, 0, 0], 0x80, []) }

  // ---- the transmit area ------------------------------------------------------------------

  /** Bytes written one after the other from w on, with a pointer that wraps at the end of the memory. */
  function Poured(mem: Memory, w: nat, s: seq<u8>): Memory
    requires w < MEMORY
    decreases |s|
  {
    if s == [] then mem
    else
      var n := |s| - 1;
      Poured(mem, w, s[..n])[(w + n) % MEMORY := s[n]]
  }

  lemma PouredSnoc(mem: Memory, w: nat, s: seq<u8>, x: u8)
    requires w < MEMORY
    ensures Poured(mem, w, s + [x]) == Poured(mem, w, s)[Turned(w, |s|) := x]
  {
    assert (s + [x])[..|s|] == s;
  }

  /** Where a pointer at w stands after k bytes. */
  function Turned(w: nat, k: nat): nat { (w + k) % MEMORY }

  lemma TurnedStep(w: nat, k: nat)
    ensures Turned(w, k + 1) == if Turned(w, k) == MEMORY - 1 then 0 else Turned(w, k) + 1
  {
  }

  /** How far behind w an address lies in the memory. */
  function Behind(w: nat, a: nat): nat
    requires w < MEMORY && a < MEMORY
  {
    if a >= w then a - w else a + MEMORY - w
  }

  /** The last of n bytes that comes to lie d places behind the first. */
  function LastAt(d: nat, n: nat): (k: nat)
    requires d < n
    ensures d <= k < n
  {
    d + MEMORY * ((n - 1 - d) / MEMORY)
  }

  /** Each address holds the last byte written to it. */
  lemma {:induction false} PouredAt(mem: Memory, w: nat, s: seq<u8>, a: nat)
    requires w < MEMORY && a < MEMORY
    ensures Poured(mem, w, s)[a] == if Behind(w, a) < |s| then s[LastAt(Behind(w, a), |s|)] else mem[a]
    decreases |s|
  {
    if s != [] {
      var n := |s| - 1;
      PouredAt(mem, w, s[..n], a);
      LastStep(w, n, a);
    }
  }

  lemma LastStep(w: nat, n: nat, a: nat)
    requires w < MEMORY && a < MEMORY
    ensures var d := Behind(w, a);
            if (w + n) % MEMORY == a then d <= n && LastAt(d, n + 1) == n
            else d != n && (d < n ==> LastAt(d, n + 1) == LastAt(d, n))
  {
  }

  /** The same bytes outside the ring. */
  predicate SameUpper(mem: Memory, other: Memory) { forall a :: RING <= a < MEMORY ==> mem[a] == other[a] }

  lemma UpperStored(mem: Memory, next: Memory, other: Memory, i: nat, x: u8)
    requires i < MEMORY && SameUpper(mem, other) && SameUpper(next, mem[i := x])
    ensures SameUpper(next, other[i := x])
  {
  }

  lemma UpperSlice(mem: Memory, other: Memory, len: nat)
    requires SameUpper(mem, other) && len <= TXSTOP_INIT - TXSTART_INIT
    ensures mem[TXSTART_INIT] == other[TXSTART_INIT]
    ensures mem[TXSTART_INIT + 1..TXSTART_INIT + len + 1] == other[TXSTART_INIT + 1..TXSTART_INIT + len + 1]
  {
  }

  lemma {:induction false} PouredUpper(mem: Memory, other: Memory, w: nat, s: seq<u8>)
    requires w < MEMORY && SameUpper(mem, other)
    ensures SameUpper(Poured(mem, w, s), Poured(other, w, s))
  {
    forall a | RING <= a < MEMORY ensures Poured(mem, w, s)[a] == Poured(other, w, s)[a] {
      PouredAt(mem, w, s, a);
      PouredAt(other, w, s, a);
    }
  }

  lemma {:induction false} PouredCons(mem: Memory, w: nat, x: u8, s: seq<u8>)
    requires w + 1 < MEMORY
    ensures Poured(mem[w := x], w + 1, s) == Poured(mem, w, [x] + s)
    decreases |s|
  {
    if s == [] {
      assert [x] + s == [x] && [x][..0] == [];
    } else {
      var n := |s| - 1;
      assert ([x] + s)[..n + 1] == [x] + s[..n];
      PouredCons(mem, w, x, s[..n]);
    }
  }

  /** What a ring address holds after a frame has been laid out behind its control byte. */
  function RingByte(mem: Memory, data: seq<u8>, a: Address): u8
  {
    if a + 0x600 < |data| then data[LastAt(a + 0x601, |data| + 1) - 1] else mem[a]
  }

  /** The bytes of a frame from number 0x600 on go to the ring, from its start on. */
  lemma {:induction false} FrameInRing(mem: Memory, data: seq<u8>, a: Address)
    ensures Poured(mem, TXSTART_INIT, [0] + data)[a] == RingByte(mem, data, a)
  {
    PouredAt(mem, TXSTART_INIT, [0] + data, a);
  }

  /** Where the bytes of a frame come to lie. */
  lemma {:induction false} FrameLaidOut(mem: Memory, data: seq<u8>)
    ensures forall a: nat :: a < RING ==> Poured(mem, TXSTART_INIT, [0] + data)[a] == RingByte(mem, data, a)
    ensures |data| <= TXSTOP_INIT - TXSTART_INIT ==>
              && Poured(mem, TXSTART_INIT, [0] + data)[TXSTART_INIT] == 0
              && Poured(mem, TXSTART_INIT, [0] + data)[TXSTART_INIT + 1..TXSTART_INIT + |data| + 1] == data
  {
    forall a: nat | a < RING ensures Poured(mem, TXSTART_INIT, [0] + data)[a] == RingByte(mem, data, a) {
      FrameInRing(mem, data, a);
    }
    if |data| <= TXSTOP_INIT - TXSTART_INIT {
      var out := Poured(mem, TXSTART_INIT, [0] + data);
      forall k | 0 <= k <= |data| ensures out[TXSTART_INIT + k] == ([0] + data)[k] {
        PouredAt(mem, TXSTART_INIT, [0] + data, TXSTART_INIT + k);
      }
      assert out[TXSTART_INIT + 0] == ([0] + data)[0];
      forall k | 0 <= k < |data| ensures out[TXSTART_INIT + 1..TXSTART_INIT + |data| + 1][k] == data[k] {
        assert out[TXSTART_INIT + (k + 1)] == ([0] + data)[k + 1];
      }
    }
  }

  /** A frame laid out behind its control byte, whatever arrives in between. */
  lemma {:induction false} Layered(start: Memory, first: Memory, mem: Memory, data: seq<u8>)
    requires SameUpper(first, start[TXSTART_INIT := 0])
    requires SameUpper(mem, Poured(first, TXSTART_INIT + 1, data))
    ensures |data| <= TXSTOP_INIT - TXSTART_INIT ==>
              mem[TXSTART_INIT] == 0 && mem[TXSTART_INIT + 1..TXSTART_INIT + |data| + 1] == data
    ensures first == start[TXSTART_INIT := 0] && mem == Poured(first, TXSTART_INIT + 1, data) ==>
              mem == Poured(start, TXSTART_INIT, [0] + data)
  {
    PouredUpper(first, start[TXSTART_INIT := 0], TXSTART_INIT + 1, data);
    PouredCons(start, TXSTART_INIT, 0, data);
    FrameLaidOut(start, data);
    if |data| <= TXSTOP_INIT - TXSTART_INIT {
      UpperSlice(mem, Poured(start, TXSTART_INIT, [0] + data), |data|);
    }
  }

  /** Exactly the frames that fit the transmit area leave the ring alone, whatever their bytes. */
  lemma {:induction false} FrameStaysOutOfRing(len: nat)
    ensures len <= TXSTOP_INIT - TXSTART_INIT <==>
            forall mem: Memory, data: seq<u8> :: |data| == len ==>
              Poured(mem, TXSTART_INIT, [0] + data)[..RING] == mem[..RING]
  {
    if len <= TXSTOP_INIT - TXSTART_INIT {
      forall mem: Memory, data: seq<u8> | |data| == len
        ensures Poured(mem, TXSTART_INIT, [0] + data)[..RING] == mem[..RING]
      {
        forall a: nat | a < RING ensures Poured(mem, TXSTART_INIT, [0] + data)[a] == mem[a] {
          FrameInRing(mem, data, a);
        }
      }
    } else {
      var mem: Memory, data: seq<u8> := seq(MEMORY, i => 0), seq(len, i => 1);
      FrameInRing(mem, data, 0);
      assert Poured(mem, TXSTART_INIT, [0] + data)[..RING][0] == 1 && mem[..RING][0] == 0;
    }
  }
}
