/** Model of the NMEA 0183 link layer (src/nmea.c): the byte-driven receiver and the transmitter.

    A frame on the wire is '$' payload '*' high low CR LF, where high and low
    are the two hexadecimal digits of the exclusive-or of the payload. */
module Nmea {
  import opened MachineInts

  const DOLLAR: u8 := 0x24
  const STAR: u8 := 0x2A
  const CR: u8 := 0x0D
  const LF: u8 := 0x0A

  const NMEA_BUFFER_SIZE := 128
  const MAX_PAYLOAD := 126

  // ---- the frame format -------------------------------------------------------------------

  function Xor8(a: u8, b: u8): u8
  {
    XorBound(a, b, 8);
    assert Pow2(8) == 256;
    Xor(a, b)
  }

  /** The running exclusive-or of a byte string. */
  function SumFrom(init: u8, s: seq<u8>): u8
  {
    if s == [] then init else Xor8(SumFrom(init, s[..|s| - 1]), s[|s| - 1])
  }

  function Checksum(s: seq<u8>): u8 { SumFrom(0, s) }

  function Hex(nibble: u8): u8
    requires nibble < 16
  {
    if nibble <= 9 then nibble + 0x30 else nibble + 0x37
  }

  function High(sum: u8): u8 { Hex(sum / 16) }

  function Low(sum: u8): u8 { Hex(sum % 16) }

  function Trailer(sum: u8): seq<u8>
  {
    [STAR, High(sum), Low(sum), CR, LF]
  }

  function Frame(payload: seq<u8>): (f: seq<u8>)
    ensures |f| == |payload| + 6
  {
    [DOLLAR] + payload + Trailer(Checksum(payload))
  }

  const HEX_DIGITS: string := "0123456789ABCDEF"

  /** The trailer in characters: a star, the checksum in two upper-case hexadecimal digits, carriage return
      and line feed. */
  lemma TrailerText(sum: u8)
    ensures Trailer(sum) == ['*' as int, HEX_DIGITS[sum / 16] as int, HEX_DIGITS[sum % 16] as int, 0x0D, 0x0A]
  {
    HexDigit(sum / 16);
    HexDigit(sum % 16);
  }

  lemma HexDigit(nibble: u8)
    requires nibble < 16
    ensures Hex(nibble) == HEX_DIGITS[nibble] as int
  {
  }

  /** A byte the receiver stores: not a delimiter and below 0x80. */
  predicate Plain(b: u8)
  {
    b != DOLLAR && b != STAR && b != CR && b != LF && b < 0x80
  }

  /** What the receiver can buffer. */
  predicate Storable(s: seq<u8>)
  {
    |s| <= MAX_PAYLOAD && forall k :: 0 <= k < |s| ==> Plain(s[k])
  }

  /** A payload that survives as a C string as well. */
  predicate Payload(s: seq<u8>)
  {
    Storable(s) && forall k :: 0 <= k < |s| ==> s[k] != 0
  }

  /** The C string that a buffer holds: everything before its first zero. */
  function CString(s: seq<u8>): (t: seq<u8>)
    ensures t <= s && (forall k :: 0 <= k < |t| ==> t[k] != 0)
    ensures |t| == |s| || s[|t|] == 0
  {
    if s == [] || s[0] == 0 then [] else [s[0]] + CString(s[1..])
  }

  /** The two hexadecimal digits determine the checksum. */
  lemma {:induction false} DigitsDetermine(a: u8, b: u8)
    requires High(a) == High(b) && Low(a) == Low(b)
    ensures a == b
  {
  }

  lemma {:induction false} DigitsArePlain(sum: u8)
    ensures Plain(High(sum)) && Plain(Low(sum))
  {
  }

  // ---- the receiver -----------------------------------------------------------------------

  datatype RxState = Start | InPayload | Checksum1 | Checksum2 | EndCr | EndLf

  /** What the receiver remembers: its state, the bytes stored since the last start marker and
      their running checksum. */
  datatype Rx = Rx(state: RxState, stored: seq<u8>, sum: u8)

  const IDLE := Rx(Start, [], 0)

  datatype Option<+T> = None | Some(value: T)

  /** One received byte: the next receiver and the buffer delivered, if any. */
  function Step(r: Rx, b: u8): (Rx, Option<seq<u8>>)
  {
    match r.state
    case Start =>
      if b == DOLLAR then (Rx(InPayload, [], 0), None) else (r, None)
    case InPayload =>
      if b == DOLLAR || b == CR || b == LF || b >= 0x80 then (r.(state := Start), None)
      else if b == STAR then (r.(state := Checksum1), None)
      else
        var next := Rx(InPayload, r.stored + [b], Xor8(r.sum, b));
        if |next.stored| >= NMEA_BUFFER_SIZE - 1 then (next.(state := Start), None) else (next, None)
    case Checksum1 =>
      (r.(state := if b == High(r.sum) then Checksum2 else Start), None)
    case Checksum2 =>
      (r.(state := if b == Low(r.sum) then EndCr else Start), None)
    case EndCr =>
      (r.(state := if b == CR then EndLf else Start), None)
    case EndLf =>
      (r.(state := Start), if b == LF then Some(r.stored) else None)
  }

  /** The receiver after a whole stream, from a given state. */
  function Run(r: Rx, s: seq<u8>): Rx
  {
    if s == [] then r else Step(Run(r, s[..|s| - 1]), s[|s| - 1]).0
  }

  /** Everything delivered while a whole stream is received, in order. */
  function Delivered(r: Rx, s: seq<u8>): seq<seq<u8>>
  {
    if s == [] then []
    else
      var last := Step(Run(r, s[..|s| - 1]), s[|s| - 1]).1;
      Delivered(r, s[..|s| - 1]) + if last.Some? then [last.value] else []
  }

  lemma {:induction false} RunSnoc(r: Rx, s: seq<u8>, b: u8)
    ensures Run(r, s + [b]) == Step(Run(r, s), b).0
    ensures var d := Step(Run(r, s), b).1;
            Delivered(r, s + [b]) == Delivered(r, s) + if d.Some? then [d.value] else []
  {
    assert (s + [b])[..|s + [b]| - 1] == s;
  }

  lemma {:induction false} RunConcat(r: Rx, s: seq<u8>, t: seq<u8>)
    ensures Run(r, s + t) == Run(Run(r, s), t)
    ensures Delivered(r, s + t) == Delivered(r, s) + Delivered(Run(r, s), t)
  {
    if t == [] {
      assert s + t == s;
    } else {
      var t', b := t[..|t| - 1], t[|t| - 1];
      assert t == t' + [b] && s + t == (s + t') + [b];
      RunConcat(r, s, t');
      RunSnoc(r, s + t', b);
      RunSnoc(Run(r, s), t', b);
    }
  }

  /** The stream ends with t, and the receiver was waiting for a start marker before t. */
  ghost predicate Pending(s: seq<u8>, t: seq<u8>)
  {
    |t| <= |s| && s[|s| - |t|..] == t && Run(IDLE, s[..|s| - |t|]).state == Start
  }

  /** How much of a frame with this payload the receiver has seen. */
  function Seen(r: Rx): seq<u8>
  {
    var head := [DOLLAR] + r.stored;
    match r.state
    case Start => []
    case InPayload => head
    case Checksum1 => head + [STAR]
    case Checksum2 => head + [STAR, High(r.sum)]
    case EndCr => head + [STAR, High(r.sum), Low(r.sum)]
    case EndLf => head + [STAR, High(r.sum), Low(r.sum), CR]
  }

  /** The receiver remembers the checksum of what it stored, which fits its buffer. */
  predicate Sound(r: Rx)
  {
    r.sum == Checksum(r.stored) && (r.state != Start ==> Storable(r.stored))
  }

  lemma {:induction false} ByteStored(s: seq<u8>, b: u8)
    ensures Checksum(s + [b]) == Xor8(Checksum(s), b)
    ensures ([DOLLAR] + s) + [b] == [DOLLAR] + (s + [b])
  {
    assert (s + [b])[..|s|] == s;
  }

  /** One byte either extends what has been seen, or completes a frame, or is a reset. */
  lemma {:induction false} StepSeen(r: Rx, b: u8)
    requires Sound(r)
    ensures var (r', d) := Step(r, b);
            && Sound(r')
            && (r'.state != Start ==> Seen(r') == Seen(r) + [b])
            && (d.Some? ==> r'.state == Start && Storable(d.value) && Seen(r) + [b] == Frame(d.value))
  {
    match r.state
    case Start =>
    case InPayload => ByteStored(r.stored, b);
    case Checksum1 =>
    case Checksum2 =>
    case EndCr =>
    case EndLf => assert Seen(r) + [LF] == Frame(r.stored);
  }

  /** The receiver's invariant over every stream: outside the start state it has seen exactly a
      prefix of a well-formed frame, and that prefix ends the stream. */
  lemma {:induction false} ReceiverInvariant(s: seq<u8>)
    ensures Sound(Run(IDLE, s)) && Pending(s, Seen(Run(IDLE, s)))
  {
    if s != [] {
      var s', b := s[..|s| - 1], s[|s| - 1];
      ReceiverInvariant(s');
      StepSeen(Run(IDLE, s'), b);
      if Run(IDLE, s).state == Start {
        assert s[..|s| - 0] == s;
      } else {
        PendingExtends(s, Seen(Run(IDLE, s')), b);
      }
    }
  }

  lemma {:induction false} PendingExtends(s: seq<u8>, t: seq<u8>, b: u8)
    requires s != [] && s[|s| - 1] == b && Pending(s[..|s| - 1], t)
    ensures Pending(s, t + [b])
  {
    assert s == s[..|s| - 1] + [b];
    assert s[..|s| - |t| - 1] == s[..|s| - 1][..|s| - 1 - |t|];
  }

  lemma {:induction false} PayloadStored(r: Rx, p: seq<u8>)
    requires r.state == Start && Storable(p)
    ensures Run(r, [DOLLAR] + p) == Rx(InPayload, p, Checksum(p))
    ensures Delivered(r, [DOLLAR] + p) == []
    decreases |p|
  {
    if p == [] {
      RunSnoc(r, [], DOLLAR);
      assert [] + [DOLLAR] == [DOLLAR] + p;
    } else {
      var q, b := p[..|p| - 1], p[|p| - 1];
      PayloadStored(r, q);
      RunSnoc(r, [DOLLAR] + q, b);
      assert q + [b] == p && ([DOLLAR] + q) + [b] == [DOLLAR] + p;
    }
  }

  /** A frame up to but excluding its line feed keeps the receiver busy and delivers nothing. */
  lemma {:induction false} FrameButLast(r: Rx, p: seq<u8>)
    requires r.state == Start && Storable(p)
    ensures var sum, f := Checksum(p), Frame(p);
            && Run(r, f[..|p| + 1]) == Rx(InPayload, p, sum)
            && Run(r, f[..|p| + 2]) == Rx(Checksum1, p, sum)
            && Run(r, f[..|p| + 3]) == Rx(Checksum2, p, sum)
            && Run(r, f[..|p| + 4]) == Rx(EndCr, p, sum)
            && Run(r, f[..|p| + 5]) == Rx(EndLf, p, sum)
            && Delivered(r, f[..|p| + 5]) == []
  {
    var sum, f := Checksum(p), Frame(p);
    PayloadStored(r, p);
    assert f[..|p| + 1] == [DOLLAR] + p;
    assert f[..|p| + 2] == f[..|p| + 1] + [STAR];
    assert f[..|p| + 3] == f[..|p| + 2] + [High(sum)];
    assert f[..|p| + 4] == f[..|p| + 3] + [Low(sum)];
    assert f[..|p| + 5] == f[..|p| + 4] + [CR];
    RunSnoc(r, f[..|p| + 1], STAR);
    RunSnoc(r, f[..|p| + 2], High(sum));
    RunSnoc(r, f[..|p| + 3], Low(sum));
    RunSnoc(r, f[..|p| + 4], CR);
  }

  /** A whole frame is delivered from the start state, and the receiver is back in it. */
  lemma {:induction false} FrameAccepted(r: Rx, p: seq<u8>)
    requires r.state == Start && Storable(p)
    ensures Run(r, Frame(p)).state == Start && Delivered(r, Frame(p)) == [p]
  {
    FrameButLast(r, p);
    RunSnoc(r, Frame(p)[..|p| + 5], LF);
    assert Frame(p) == Frame(p)[..|p| + 5] + [LF];
  }

  /** The receiver's language, exactly: a payload is delivered on the last byte of a stream if and
      only if the stream ends with that payload's frame and the receiver was in its start state
      when that frame began. */
  lemma {:induction false} DeliveredExactly(s: seq<u8>, b: u8, p: seq<u8>)
    ensures Step(Run(IDLE, s), b).1 == Some(p) <==> Storable(p) && Pending(s + [b], Frame(p))
  {
    ReceiverInvariant(s);
    StepSeen(Run(IDLE, s), b);
    assert (s + [b])[..|s + [b]| - 1] == s;
    if Step(Run(IDLE, s), b).1 == Some(p) {
      PendingExtends(s + [b], Seen(Run(IDLE, s)), b);
    }
    if Storable(p) && Pending(s + [b], Frame(p)) {
      PendingDelivered(s, b, p);
    }
  }

  lemma {:induction false} PendingDelivered(s: seq<u8>, b: u8, p: seq<u8>)
    requires Storable(p) && Pending(s + [b], Frame(p))
    ensures Step(Run(IDLE, s), b).1 == Some(p)
  {
    var f := Frame(p);
    var pre := LastSplit(s, b, f);
    RunConcat(IDLE, pre, f[..|p| + 5]);
    FrameButLast(Run(IDLE, pre), p);
  }

  lemma LastSplit(s: seq<u8>, b: u8, f: seq<u8>) returns (pre: seq<u8>)
    requires 0 < |f| <= |s| + 1 && (s + [b])[|s| + 1 - |f|..] == f
    ensures pre == (s + [b])[..|s| + 1 - |f|] && s == pre + f[..|f| - 1] && b == f[|f| - 1]
  {
    pre := (s + [b])[..|s| + 1 - |f|];
    assert s + [b] == pre + f;
    assert (s + [b])[|s|] == (pre + f)[|s|] && s == (s + [b])[..|s|] == (pre + f)[..|s|];
  }

  // ---- error detection --------------------------------------------------------------------

  /** Changing one byte always changes the checksum. */
  lemma {:induction false} ChecksumSingleChange(s: seq<u8>, k: nat, b: u8)
    requires k < |s| && b != s[k]
    ensures Checksum(s[k := b]) != Checksum(s)
  {
    var t, n := s[k := b], |s| - 1;
    if k == n {
      assert t[..n] == s[..n];
      if Checksum(t) == Checksum(s) { XorCancels(Checksum(s[..n]), s[n], b); }
    } else {
      assert t[..n] == s[..n][k := b];
      ChecksumSingleChange(s[..n], k, b);
      if Checksum(t) == Checksum(s) {
        XorCommutes(Checksum(t[..n]), s[n]);
        XorCommutes(Checksum(s[..n]), s[n]);
        XorCancels(s[n], Checksum(t[..n]), Checksum(s[..n]));
      }
    }
  }

  /** Two frames never differ in exactly one byte. */
  lemma {:induction false} FramesDifferTwice(p: seq<u8>, q: seq<u8>, k: nat, b: u8)
    requires k < |p| + 6 && |q| == |p| && b != Frame(p)[k]
    ensures Frame(p)[k := b] != Frame(q)
  {
    var f, g := Frame(p), Frame(q);
    if f[k := b] == g {
      assert q == g[1..|p| + 1] && p == f[1..|p| + 1];
      if 1 <= k <= |p| {
        ChecksumSingleChange(p, k - 1, b);
        assert g[1..|p| + 1] == p[k - 1 := b];
        DigitsDetermine(Checksum(p), Checksum(q));
      }
    }
  }

  /** In a frame with one byte replaced, the receiver leaves its start state only at the first
      byte: any prefix that is pending began there. */
  lemma {:induction false} PendingFromFirstByte(p: seq<u8>, k: nat, b: u8, j: nat, t: seq<u8>)
    requires Storable(p) && k < |p| + 6 && b != Frame(p)[k]
    requires j <= |p| + 6 && t != [] && t[0] == DOLLAR && Pending(Frame(p)[k := b][..j], t)
    ensures |t| == j
  {
    var f, s := Frame(p), Frame(p)[k := b];
    var i := j - |t|;
    assert s[i] == DOLLAR by { assert s[..j][i..][0] == s[i]; }
    if i > 0 {
      assert i == k by { if i != k { OneDollar(p, i); } }
      assert s[..j][..i] == f[..i];
      PrefixBusy(p, i);
      assert false;
    }
  }

  lemma {:induction false} OneDollar(p: seq<u8>, i: nat)
    requires Storable(p) && 0 < i < |p| + 6
    ensures Frame(p)[i] != DOLLAR
  {
    DigitsArePlain(Checksum(p));
  }

  /** Inside a correct frame the receiver is never in its start state. */
  lemma {:induction false} PrefixBusy(p: seq<u8>, i: nat)
    requires Storable(p) && 0 < i < |p| + 6
    ensures Run(IDLE, Frame(p)[..i]).state != Start
  {
    if i <= |p| {
      InsidePayload(p, i);
    } else {
      FrameButLast(IDLE, p);
    }
  }

  lemma {:induction false} InsidePayload(p: seq<u8>, i: nat)
    requires Storable(p) && 0 < i <= |p|
    ensures Run(IDLE, Frame(p)[..i]).state != Start
  {
    PayloadStored(IDLE, p[..i - 1]);
    assert Frame(p)[..i] == [DOLLAR] + p[..i - 1];
  }

  /** A correct frame with one byte replaced delivers nothing, wherever the replacement is, and
      leaves the receiver ready for the next frame. */
  lemma {:induction false} CorruptFrameRejected(p: seq<u8>, k: nat, b: u8)
    requires Storable(p) && k < |p| + 6 && b != Frame(p)[k]
    ensures Run(IDLE, Frame(p)[k := b]).state == Start
    ensures Delivered(IDLE, Frame(p)[k := b]) == []
  {
    var s := Frame(p)[k := b];
    var r := Run(IDLE, s);
    ReceiverInvariant(s);
    assert s[..|s|] == s;
    if r.state != Start {
      PendingFromFirstByte(p, k, b, |s|, Seen(r));
      BusyTail(r);
    }
    NothingDelivered(p, k, b, |s|);
  }

  /** A busy receiver has not just seen a line feed, nor a carriage return one byte earlier. */
  lemma {:induction false} BusyTail(r: Rx)
    requires Sound(r) && r.state != Start
    ensures var t := Seen(r);
            t[|t| - 1] != LF && (|t| >= 2 ==> t[|t| - 2] != CR)
  {
    DigitsArePlain(r.sum);
  }

  lemma {:induction false} NothingDelivered(p: seq<u8>, k: nat, b: u8, j: nat)
    requires Storable(p) && k < |p| + 6 && b != Frame(p)[k] && j <= |p| + 6
    ensures Delivered(IDLE, Frame(p)[k := b][..j]) == []
  {
    if j > 0 {
      var s := Frame(p)[k := b];
      var pre, c := s[..j - 1], s[j - 1];
      assert s[..j] == pre + [c];
      NothingDelivered(p, k, b, j - 1);
      RunSnoc(IDLE, pre, c);
      var d := Step(Run(IDLE, pre), c).1;
      if d.Some? {
        DeliveredExactly(pre, c, d.value);
        PendingFromFirstByte(p, k, b, j, Frame(d.value));
        FullLength(p, k, b, j, d.value);
        assert s[..|s|] == s;
        FramesDifferTwice(p, d.value, k, b);
      }
    }
  }

  /** A frame found in a prefix of a corrupted frame must be as long as the whole. */
  lemma {:induction false} FullLength(p: seq<u8>, k: nat, b: u8, j: nat, q: seq<u8>)
    requires Storable(p) && k < |p| + 6 && b != Frame(p)[k] && j <= |p| + 6
    requires Frame(p)[k := b][..j] == Frame(q)
    ensures j == |p| + 6
  {
    var s := Frame(p)[k := b];
    if j < |p| + 6 {
      assert s[j - 1] == Frame(q)[j - 1] == LF && s[j - 2] == Frame(q)[j - 2] == CR;
      DigitsArePlain(Checksum(p));
    }
  }

  // ---- whole streams ----------------------------------------------------------------------

  /** A frame as it reaches the receiver: intact, or with the byte at one place replaced. */
  datatype Sent = Intact(payload: seq<u8>) | Damaged(payload: seq<u8>, place: nat, byte: u8)

  predicate Transmissible(m: Sent)
  {
    && Payload(m.payload)
    && (m.Damaged? ==> m.place < |m.payload| + 6 && m.byte != Frame(m.payload)[m.place])
  }

  function OnWire(m: Sent): seq<u8>
    requires Transmissible(m)
  {
    match m
    case Intact(p) => Frame(p)
    case Damaged(p, k, b) => Frame(p)[k := b]
  }

  function Stream(ms: seq<Sent>): seq<u8>
    requires forall m :: m in ms ==> Transmissible(m)
  {
    if ms == [] then [] else OnWire(ms[0]) + Stream(ms[1..])
  }

  function IntactPayloads(ms: seq<Sent>): seq<seq<u8>>
  {
    if ms == [] then []
    else (if ms[0].Intact? then [ms[0].payload] else []) + IntactPayloads(ms[1..])
  }

  /** What the receiver stored before it started waiting does not matter. */
  lemma {:induction false} StartForgets(r: Rx, s: seq<u8>)
    requires r.state == Start
    ensures Run(r, s).state == Run(IDLE, s).state
    ensures Run(r, s) == Run(IDLE, s) || (Run(r, s) == r && Run(IDLE, s) == IDLE)
    ensures Delivered(r, s) == Delivered(IDLE, s)
  {
    if s != [] {
      StartForgets(r, s[..|s| - 1]);
    }
  }

  /** Error detection and resynchronisation: whatever the receiver saw before, a stream of frames
      each with at most one byte replaced delivers exactly the payloads of the intact ones, in
      order, and the receiver ends in its start state. */
  lemma {:induction false} IntactFramesOnly(r: Rx, ms: seq<Sent>)
    requires r.state == Start && forall m :: m in ms ==> Transmissible(m)
    ensures Run(r, Stream(ms)).state == Start
    ensures Delivered(r, Stream(ms)) == IntactPayloads(ms)
    decreases |ms|
  {
    if ms != [] {
      var m, w := ms[0], OnWire(ms[0]);
      StartForgets(r, w);
      match m {
        case Intact(p) => FrameAccepted(IDLE, p);
        case Damaged(p, k, b) => CorruptFrameRejected(p, k, b);
      }
      IntactFramesOnly(Run(r, w), ms[1..]);
      RunConcat(r, w, Stream(ms[1..]));
    }
  }

  // ---- the driver -------------------------------------------------------------------------

  lemma {:induction false} CStringWhole(s: seq<u8>)
    requires forall k :: 0 <= k < |s| ==> s[k] != 0
    ensures CString(s) == s
  {
    if s != [] { CStringWhole(s[1..]); }
  }

  lemma {:induction false} CStringCut(s: seq<u8>, t: seq<u8>)
    requires t != [] && t[0] == 0
    ensures CString(s + t) == CString(s)
  {
    if s != [] && s[0] != 0 {
      assert (s + t)[1..] == s[1..] + t;
      CStringCut(s[1..], t);
    } else if s == [] {
      assert s + t == t;
    }
  }

  /** The receiver's module variables, and the strings handed to the application so far. */
  class Receiver {
    var state: RxState
    var index: nat
    var checksum: u8
    const buffer: array<u8>
    var inbox: seq<seq<u8>>

    ghost predicate Valid()
      reads this, buffer
    {
      && buffer.Length == NMEA_BUFFER_SIZE
      && index < NMEA_BUFFER_SIZE
      && (state == InPayload ==> index < NMEA_BUFFER_SIZE - 1)
    }

    ghost function View(): Rx
      requires Valid()
      reads this, buffer
    {
      Rx(state, buffer[..index], checksum)
    }

    constructor ()
      ensures Valid() && View().state == Start && inbox == [] && fresh(buffer)
    {
      state, index, checksum, inbox := Start, 0, 0, [];
      buffer := new u8[NMEA_BUFFER_SIZE];
    }

    method OnRxByte(data: u8)
      requires Valid()
      modifies this, buffer
      ensures Valid()
      ensures View() == Step(old(View()), data).0
      ensures var d := Step(old(View()), data).1;
              inbox == old(inbox) + if d.Some? then [CString(d.value)] else []
    {
      match state {
        case Start =>
          if data == DOLLAR {
            state := InPayload;
            checksum := 0;
            index := 0;
            return;
          }
        case InPayload =>
          if data != DOLLAR && data != CR && data != LF && data < 0x80 {
            if data == STAR {
              state := Checksum1;
              return;
            }
            checksum := Xor8(checksum, data);
            buffer[index] := data;
            index := index + 1;
            if index < NMEA_BUFFER_SIZE - 1 {
              return;
            }
          }
        case Checksum1 =>
          if data == High(checksum) {
            state := Checksum2;
            return;
          }
        case Checksum2 =>
          if data == Low(checksum) {
            state := EndCr;
            return;
          }
        case EndCr =>
          if data == CR {
            state := EndLf;
            return;
          }
        case EndLf =>
          if data == LF {
            ghost var stored := buffer[..index];
            buffer[index] := 0;
            assert buffer[..] == stored + buffer[index..] && buffer[..index] == stored;
            CStringCut(stored, buffer[index..]);
            inbox := inbox + [CString(buffer[..])];
          }
      }
      state := Start;
    }

    /** A whole stream, byte by byte. */
    method OnRxStream(s: seq<u8>)
      requires Valid()
      modifies this, buffer
      ensures Valid() && View() == Run(old(View()), s)
      ensures inbox == old(inbox) + Strings(Delivered(old(View()), s))
    {
      ghost var r0, inbox0 := View(), inbox;
      for k := 0 to |s|
        invariant Valid() && View() == Run(r0, s[..k])
        invariant inbox == inbox0 + Strings(Delivered(r0, s[..k]))
      {
        RunSnoc(r0, s[..k], s[k]);
        assert s[..k + 1] == s[..k] + [s[k]];
        StringsSnoc(Delivered(r0, s[..k]), Step(View(), s[k]).1);
        OnRxByte(s[k]);
      }
      assert s[..|s|] == s;
    }
  }

  lemma {:induction false} StringsSnoc(ps: seq<seq<u8>>, d: Option<seq<u8>>)
    ensures Strings(ps + if d.Some? then [d.value] else []) == Strings(ps) + if d.Some? then [CString(d.value)] else []
  {
  }

  function Strings(ps: seq<seq<u8>>): seq<seq<u8>>
  {
    seq(|ps|, k requires 0 <= k < |ps| => CString(ps[k]))
  }

  /** What nmea_tx_frame puts on the line for a C string: the string and a trailer whose checksum
      starts from a dollar sign, so that a leading one cancels. */
  function Sending(text: seq<u8>): seq<u8>
  {
    text + Trailer(SumFrom(DOLLAR, text))
  }

  lemma {:induction false} DollarCancels(p: seq<u8>)
    ensures SumFrom(DOLLAR, [DOLLAR] + p) == Checksum(p)
  {
    if p == [] {
      assert ([DOLLAR] + p)[..0] == [];
      XorSelf(DOLLAR);
    } else {
      assert ([DOLLAR] + p)[..|p|] == [DOLLAR] + p[..|p| - 1];
      DollarCancels(p[..|p| - 1]);
    }
  }

  /** Sending a payload behind its start marker puts exactly its frame on the line. */
  lemma {:induction false} SendingIsFrame(p: seq<u8>)
    ensures Sending([DOLLAR] + p) == Frame(p)
  {
    DollarCancels(p);
  }

  /** The transmitter: the bytes put on the line, and whether an output function is installed. */
  class Transmitter {
    var line: seq<u8>
    var hasOutput: bool

    constructor (hasOutput: bool)
      ensures line == [] && this.hasOutput == hasOutput
    {
      line := [];
      this.hasOutput := hasOutput;
    }

    method TxByte(data: u8)
      modifies this`line
      ensures line == old(line) + if hasOutput then [data] else []
    {
      if hasOutput { line := line + [data]; }
    }

    /** Sends a zero-terminated string and its trailer. */
    method TxFrame(frame: array<u8>)
      requires 0 in frame[..]
      modifies this`line
      ensures line == old(line) + if hasOutput then Sending(CString(frame[..])) else []
    {
      var checksum := TxText(frame);
      TxTrailer(checksum);
      Concatenated(old(line), CString(frame[..]), Trailer(checksum));
    }

    /** The string, of which the checksum is formed. */
    method TxText(frame: array<u8>) returns (checksum: u8)
      requires 0 in frame[..]
      modifies this`line
      ensures checksum == SumFrom(DOLLAR, CString(frame[..]))
      ensures line == old(line) + if hasOutput then CString(frame[..]) else []
    {
      checksum := DOLLAR;
      var i := 0;
      ghost var text := CString(frame[..]);
      assert |text| < frame.Length;
      while frame[i] != 0
        invariant 0 <= i <= |text|
        invariant checksum == SumFrom(DOLLAR, text[..i])
        invariant line == old(line) + if hasOutput then text[..i] else []
        decreases |text| - i
      {
        var data := frame[i];
        SumStep(text, i);
        i := i + 1;
        checksum := Xor8(checksum, data);
        TxByte(data);
      }
      assert text[..i] == text;
    }

    method TxTrailer(checksum: u8)
      modifies this`line
      ensures line == old(line) + if hasOutput then Trailer(checksum) else []
      ensures hasOutput ==>
                line == old(line)
                      + ['*' as int, HEX_DIGITS[checksum / 16] as int, HEX_DIGITS[checksum % 16] as int, 13, 10]
    {
      TrailerText(checksum);
      TxByte(STAR);
      if checksum < 0xA0 {
        TxByte(checksum / 16 + 0x30);
      } else {
        TxByte(checksum / 16 + 0x37);
      }
      var low := checksum % 16;
      if low < 0x0A {
        TxByte(low + 0x30);
      } else {
        TxByte(low + 0x37);
      }
      TxByte(CR);
      TxByte(LF);
    }
  }

  lemma Concatenated(a: seq<u8>, b: seq<u8>, c: seq<u8>)
    ensures (a + b) + c == a + (b + c) && a + [] + [] == a + []
  {
  }

  lemma {:induction false} SumStep(t: seq<u8>, i: nat)
    requires i < |t|
    ensures t[..i + 1] == t[..i] + [t[i]] && SumFrom(DOLLAR, t[..i + 1]) == Xor8(SumFrom(DOLLAR, t[..i]), t[i])
  {
    assert t[..i + 1][..i] == t[..i];
  }

  lemma {:induction false} IntactAreStrings(ms: seq<Sent>)
    requires forall m :: m in ms ==> Transmissible(m)
    ensures Strings(IntactPayloads(ms)) == IntactPayloads(ms)
  {
    forall k | 0 <= k < |IntactPayloads(ms)| ensures CString(IntactPayloads(ms)[k]) == IntactPayloads(ms)[k] {
      IntactIsPayload(ms, k);
      CStringWhole(IntactPayloads(ms)[k]);
    }
  }

  lemma {:induction false} IntactIsPayload(ms: seq<Sent>, k: nat)
    requires (forall m :: m in ms ==> Transmissible(m)) && k < |IntactPayloads(ms)|
    ensures Payload(IntactPayloads(ms)[k])
  {
    var n := if ms[0].Intact? then 1 else 0;
    assert Transmissible(ms[0]);
    if k >= n { IntactIsPayload(ms[1..], k - n); }
  }

  /** The link end to end: a receiver in its start state, fed the damaged and undamaged frames of
      any list of messages, hands the application the undamaged messages and nothing else. */
  method ReceiveAll(rx: Receiver, ms: seq<Sent>)
    requires rx.Valid() && rx.View().state == Start
    requires forall m :: m in ms ==> Transmissible(m)
    modifies rx, rx.buffer
    ensures rx.Valid() && rx.View().state == Start
    ensures rx.inbox == old(rx.inbox) + IntactPayloads(ms)
  {
    IntactFramesOnly(rx.View(), ms);
    IntactAreStrings(ms);
    rx.OnRxStream(Stream(ms));
  }
}
