/** Model of the MAX7219 driver (src/max7219.c): the bit-banged daisy chain, and the framebuffer that
    shadows the chips. */
module Max7219 {
  import opened MachineInts

  // ---- words and bits ---------------------------------------------------------------------

  /** The n low bits of a word, least significant first. */
  function Bits(w: nat, n: nat): (s: seq<bool>)
    ensures |s| == n
  {
    if n == 0 then [] else [w % 2 == 1] + Bits(w / 2, n - 1)
  }

  /** The word that a row of bits stands for. */
  function Word(s: seq<bool>): nat
  {
    if s == [] then 0 else (if s[0] then 1 else 0) + 2 * Word(s[1..])
  }

  lemma {:induction false} WordOfBits(w: nat, n: nat)
    requires w < Pow2(n)
    ensures Word(Bits(w, n)) == w
  {
    if n != 0 {
      WordOfBits(w / 2, n - 1);
      assert Bits(w, n)[1..] == Bits(w / 2, n - 1);
    }
  }

  lemma {:induction false} TopBit(w: nat, n: nat)
    requires w < 2 * Pow2(n)
    ensures Bits(w, n + 1)[n] <==> w >= Pow2(n)
  {
    if n != 0 {
      TopBit(w / 2, n - 1);
      assert Bits(w, n + 1)[n] == Bits(w / 2, n)[n - 1];
    }
  }

  /** Shifting a word left by one, dropping the carry. */
  lemma {:induction false} ShiftedBits(w: nat, n: nat)
    ensures Bits(2 * w % (2 * Pow2(n)), n + 1) == [false] + Bits(w, n)
  {
    var p := Pow2(n);
    var q := w / p;
    assert 2 * w == q * (2 * p) + 2 * (w % p) by { assert w == q * p + w % p; }
    Quotient(2 * w, q, 2 * p, 2 * (w % p));
    LowBits(w, n);
  }

  lemma {:induction false} LowBits(w: nat, n: nat)
    ensures Bits(w % Pow2(n), n) == Bits(w, n)
  {
    if n != 0 {
      var p := Pow2(n - 1);
      var q, r := w / (2 * p), w % (2 * p);
      assert w == q * (2 * p) + r;
      Quotient(w / 2, q, p, r / 2);
      assert r % 2 == w % 2 by { assert w == 2 * (q * p) + r; }
      LowBits(w / 2, n - 1);
    }
  }

  lemma {:induction false} FewerBits(w: nat, n: nat)
    ensures Bits(w, n + 1)[..n] == Bits(w, n)
  {
    if n != 0 {
      FewerBits(w / 2, n - 1);
      assert Bits(w, n + 1)[..n] == [w % 2 == 1] + Bits(w / 2, n)[..n - 1];
    }
  }

  // ---- the chain --------------------------------------------------------------------------

  /** The sixteen registers of one chip; register 0 is the no-op. */
  type Chip = r: seq<u8> | |r| == 16 witness seq(16, i => 0)

  const NOP: u8 := 0

  /** The command word for a register. */
  function Command(reg: u8, data: u8): u16 { reg % 16 * 256 + data }

  /** What a chip does with its shift register when CS goes high. */
  function Latched(c: Chip, word: nat): Chip
  {
    var reg := word / 256 % 16;
    if reg == NOP then c else c[reg := word % 256]
  }

  /** The shift registers of the chain, nearest chip first. */
  function Words(chain: seq<bool>): (s: seq<nat>)
    ensures |s| == |chain| / 16
  {
    seq(|chain| / 16, k requires 0 <= k < |chain| / 16 => Word(chain[16 * k..16 * k + 16]))
  }

  /** Sixteen bits pushed in move every word one chip further. */
  lemma {:induction false} WordsShift(chain: seq<bool>, w: u16)
    requires |chain| % 16 == 0
    ensures Words((Bits(w, 16) + chain)[..|chain|]) == ([w] + Words(chain))[..|chain| / 16]
  {
    var all := Bits(w, 16) + chain;
    var next := all[..|chain|];
    Pow2Values();
    forall k | 0 <= k < |chain| / 16
      ensures Words(next)[k] == ([w] + Words(chain))[k]
    {
      if k == 0 {
        assert next[0..16] == Bits(w, 16);
        WordOfBits(w, 16);
      } else {
        MovedUp(Bits(w, 16), chain, 16 * k - 16);
      }
    }
  }

  lemma MovedUp(front: seq<bool>, chain: seq<bool>, i: nat)
    requires |front| == 16 && i + 32 <= |chain|
    ensures (front + chain)[..|chain|][i + 16..i + 32] == chain[i..i + 16]
  {
  }

  lemma PushedIn(all: seq<bool>, chain: seq<bool>, i: nat)
    requires 0 < i <= |all|
    ensures ([all[i - 1]] + (all[i..] + chain)[..|chain|])[..|chain|] == (all[i - 1..] + chain)[..|chain|]
  {
    assert all[i - 1..] + chain == [all[i - 1]] + (all[i..] + chain);
  }

  function LatchAll(chips: seq<Chip>, words: seq<nat>): seq<Chip>
    requires |chips| == |words|
  {
    seq(|chips|, k requires 0 <= k < |chips| => Latched(chips[k], words[k]))
  }

  /** The effect of one data transfer on the chips: one register of one of them. */
  function Delivered(chips: seq<Chip>, reg: u8, data: u8, device: u8): seq<Chip>
  {
    if device < |chips| && reg % 16 != NOP then chips[device := chips[device][reg % 16 := data]] else chips
  }

  /** A chain with one command at a device and no-ops elsewhere. */
  predicate OnlyAt(words: seq<nat>, command: u16, device: int)
  {
    forall k :: 0 <= k < |words| ==> words[k] == if k == device then command else 0
  }

  lemma LatchDelivers(chips: seq<Chip>, words: seq<nat>, reg: u8, data: u8, device: u8)
    requires |chips| == |words| && OnlyAt(words, Command(reg, data), device)
    ensures LatchAll(chips, words) == Delivered(chips, reg, data, device)
  {
    CommandParts(reg, data);
  }

  lemma CommandParts(reg: u8, data: u8)
    ensures Command(reg, data) / 256 % 16 == reg % 16 && Command(reg, data) % 256 == data
  {
  }

  /** One turn of the bit loop: the top bit is the next one to send, and shifting left brings up the
      one after it. */
  lemma {:induction false} NextBit(all: seq<bool>, temp: u16, count: nat)
    requires |all| == 16 && count < 16 && Bits(temp, 16)[count..] == all[..16 - count]
    ensures temp >= 0x8000 <==> all[15 - count]
    ensures Bits(U16(2 * temp), 16)[count + 1..] == all[..15 - count]
  {
    Pow2Values();
    TopBit(temp, 15);
    ShiftLeft(temp);
    Remaining(all, Bits(temp, 16), Bits(U16(2 * temp), 16), count);
  }

  lemma Remaining(all: seq<bool>, now: seq<bool>, next: seq<bool>, count: nat)
    requires |all| == |now| == 16 && count < 16
    requires now[count..] == all[..16 - count] && next == [false] + now[..15]
    ensures now[15] == all[15 - count] && next[count + 1..] == all[..15 - count]
  {
    assert now[15] == now[count..][15 - count];
    forall k | 0 <= k < 15 - count ensures next[count + 1..][k] == all[k] {
      assert now[count..][k] == all[..16 - count][k];
    }
  }

  lemma {:induction false} ShiftLeft(temp: u16)
    ensures Bits(U16(2 * temp), 16) == [false] + Bits(temp, 16)[..15]
  {
    Pow2Values();
    ShiftedBits(temp, 15);
    FewerBits(temp, 15);
  }

  // ---- single bits ------------------------------------------------------------------------

  predicate Bit(x: nat, i: nat)
  {
    if i == 0 then x % 2 == 1 else Bit(x / 2, i - 1)
  }

  /** x with bit i set or cleared, as or-ing with a one-bit mask or and-ing with its complement. */
  function WithBit(x: nat, i: nat, b: bool): nat
  {
    if i == 0 then 2 * (x / 2) + (if b then 1 else 0) else 2 * WithBit(x / 2, i - 1, b) + x % 2
  }

  lemma {:induction false} OneBitChanges(x: nat, i: nat, b: bool, j: nat)
    ensures Bit(WithBit(x, i, b), j) == if j == i then b else Bit(x, j)
  {
    if i != 0 && j != 0 { OneBitChanges(x / 2, i - 1, b, j - 1); }
  }

  lemma {:induction false} WithBitBound(x: nat, i: nat, b: bool, k: nat)
    requires i < k && x < Pow2(k)
    ensures WithBit(x, i, b) < Pow2(k)
  {
    assert Pow2(k) == 2 * Pow2(k - 1);
    if i != 0 { WithBitBound(x / 2, i - 1, b, k - 1); }
  }

  function Set8(x: u8, i: nat, b: bool): u8
    requires i < 8
  {
    Pow2Values();
    WithBitBound(x, i, b, 8);
    WithBit(x, i, b)
  }

  type Table = t: seq<u8> | |t| == 128 witness seq(128, i => 0)

  /** The byte found at an index of the table: behind its end it is whatever lies there in memory. */
  function Lookup(t: Table, index: u8, beyond: u8): u8 { if index < |t| then t[index] else beyond }

  /** The character meant: one without an entry is to be shown as a space. */
  function Meant(t: Table, value: u8): u8 { if value > 127 then t[32] else t[value] }

  /** The lookup stays within the table, and so shows the character meant whatever lies behind it, exactly
      for the characters below 128. */
  lemma LookupInTable(t: Table, value: u8)
    ensures value < |t| <==> value < 128
    ensures (forall beyond: u8 :: Lookup(t, value, beyond) == Meant(t, value)) <==> value < 128
  {
    if value >= 128 {
      var other: u8 := if t[32] == 0 then 1 else 0;
      assert Lookup(t, value, other) != Meant(t, value);
    }
  }

  /** A pattern with the decimal point or without: the point is the top bit, and the other seven are those
      of the pattern. */
  function Segments(pattern: u8, dp: bool): (r: u8)
    ensures r == if dp then 0x80 + pattern % 0x80 else pattern
  {
    TopBitSet(pattern);
    if dp then Set8(pattern, 7, true) else pattern
  }

  lemma TopBitSet(x: u8)
    ensures Set8(x, 7, true) == 0x80 + x % 0x80
  {
    Pow2Values();
    LowBitsKept(x, 7);
  }

  lemma {:induction false} LowBitsKept(x: nat, i: nat)
    requires x < Pow2(i + 1)
    ensures WithBit(x, i, true) == Pow2(i) + x % Pow2(i)
  {
    if i != 0 {
      LowBitsKept(x / 2, i - 1);
      HalfRemainder(x, Pow2(i - 1));
    }
  }

  lemma HalfRemainder(x: nat, p: nat)
    requires p > 0
    ensures x % (2 * p) == 2 * (x / 2 % p) + x % 2
  {
    var q, r := x / 2 / p, x / 2 % p;
    assert x / 2 == q * p + r;
    assert q * (2 * p) == 2 * (q * p);
    Quotient(x, q, 2 * p, 2 * r + x % 2);
  }

  /** The driver's pins and variables, and the chips at the other end of the wire. */
  class Driver {
    const maxDevNumber: u8
    const charTable: Table
    /** The rows of up to eight devices. */
    const matrix: array<u8>
    var dout: bool
    var chain: seq<bool>
    var chips: seq<Chip>

    ghost predicate Wired()
      reads this
    {
      |chips| == maxDevNumber && |chain| == 16 * |chips| && matrix.Length == 64
    }

    /** The framebuffer agrees with the digit registers of the chips. */
    ghost predicate Agrees()
      requires Wired()
      reads this, matrix
    {
      maxDevNumber <= 8 &&
      forall dev, k :: 0 <= dev < maxDevNumber && 0 <= k < 8 ==> Row(dev, k) == chips[dev][k + 1]
    }

    /** The framebuffer byte of one row of one device. */
    ghost function Row(dev: int, row: int): u8
      requires matrix.Length == 64 && 0 <= dev < 8 && 0 <= row < 8
      reads matrix
    {
      matrix[8 * dev + row]
    }

    constructor (maxDevNumber: u8, charTable: Table)
      ensures Wired() && this.maxDevNumber == maxDevNumber && this.charTable == charTable
      ensures maxDevNumber <= 8 ==> Agrees()
      ensures fresh(matrix)
    {
      this.maxDevNumber, this.charTable := maxDevNumber, charTable;
      matrix := new u8[64](i => 0);
      dout := false;
      chips := seq(maxDevNumber, k => seq(16, i => 0));
      chain := seq(16 * maxDevNumber, k => false);
    }

    /** A rising clock edge shifts the data pin into the chain; the last bit falls out. */
    method ClockHigh()
      requires Wired()
      modifies this`chain
      ensures Wired() && chain == ([dout] + old(chain))[..|old(chain)|]
    {
      chain := ([dout] + chain)[..|chain|];
    }

    /** max7219_serial3wire_write_short: sixteen bits, most significant first. */
    method WriteShort(data: u16)
      requires Wired()
      modifies this`dout, this`chain
      ensures Wired() && Words(chain) == ([data] + Words(old(chain)))[..maxDevNumber]
    {
      ghost var all, chain0 := Bits(data, 16), chain;
      var temp: u16 := data;
      var count := 0;
      while count < 16
        invariant 0 <= count <= 16 && Wired()
        invariant Bits(temp, 16)[count..] == all[..16 - count]
        invariant chain == (all[16 - count..] + chain0)[..|chain0|]
        decreases 16 - count
      {
        NextBit(all, temp, count);
        dout := temp >= 0x8000;
        temp := U16(2 * temp);
        PushedIn(all, chain0, 16 - count);
        ClockHigh();
        count := count + 1;
      }
      WordsShift(chain0, data);
    }

    /** CS going high: every chip executes the word in its shift register. */
    method Deselect()
      requires Wired()
      modifies this`chips
      ensures Wired()
      ensures chips == LatchAll(old(chips), Words(chain))
    {
      chips := LatchAll(chips, Words(chain));
    }

    /** Sends one command to one chip of the chain, between the no-ops for the others: that chip's
        register changes and nothing else. A device number equal to the number of chips is not
        refused, but the command is shifted out at the far end. */
    method SendData(reg: u8, data: u8, device: u8)
      requires Wired()
      modifies this`dout, this`chain, this`chips
      ensures Wired() && chips == Delivered(old(chips), reg, data, device)
    {
      if device > maxDevNumber {
        return;
      }
      var precedNop := maxDevNumber - (device + 1);
      var followNop := maxDevNumber - (precedNop + 1);
      ghost var n := maxDevNumber;
      var i := 0;
      while i < precedNop
        invariant 0 <= i && (precedNop >= 0 ==> i <= precedNop) && (precedNop < 0 ==> i == 0) && Wired()
        invariant forall k :: 0 <= k < i ==> Words(chain)[k] == 0
        invariant chips == old(chips)
      {
        WriteShort(Command(NOP, 0));
        i := i + 1;
      }
      ghost var sent := i;
      WriteShort(Command(reg, data));
      i := 0;
      while i < followNop
        invariant 0 <= i <= followNop && Wired()
        invariant forall k :: 0 <= k <= i + sent && k < n ==>
                    Words(chain)[k] == if k == i then Command(reg, data) else 0
        invariant chips == old(chips)
      {
        WriteShort(Command(NOP, 0));
        i := i + 1;
      }
      assert OnlyAt(Words(chain), Command(reg, data), device);
      LatchDelivers(chips, Words(chain), reg, data, device);
      Deselect();
    }

    /** Writes one row of one device to the framebuffer and to the chip. */
    method SetRow(dev: u8, row: u8, value: u8)
      requires Wired() && Agrees()
      modifies this`dout, this`chain, this`chips, matrix
      ensures Wired() && Agrees()
      ensures forall d, r :: 0 <= d < 8 && 0 <= r < 8 ==>
                Row(d, r) == if dev < maxDevNumber && d == dev && r == row then value else old(Row(d, r))
    {
      if dev >= maxDevNumber || row > 7 {
        return;
      }
      Store(dev, row, value);
    }

    /** The common end of the display functions: one framebuffer byte and the chip register for it. */
    method Store(dev: u8, row: u8, value: u8)
      requires Wired() && Agrees() && dev < maxDevNumber && row <= 7
      modifies this`dout, this`chain, this`chips, matrix
      ensures Wired() && Agrees()
      ensures forall d, r :: 0 <= d < 8 && 0 <= r < 8 ==>
                Row(d, r) == if d == dev && r == row then value else old(Row(d, r))
    {
      var offset := dev * 8;
      matrix[offset + row] := value;
      assert forall d, r :: 0 <= d < 8 && 0 <= r < 8 ==>
               Row(d, r) == if d == dev && r == row then value else old(Row(d, r));
      SendData(row + 1, matrix[offset + row], dev);
      forall d, k | 0 <= d < maxDevNumber && 0 <= k < 8 ensures Row(d, k) == chips[d][k + 1] {
        assert old(Row(d, k) == chips[d][k + 1]);
      }
    }

    method SetLed(dev: u8, row: u8, col: u8, state: bool)
      requires Wired() && Agrees()
      modifies this`dout, this`chain, this`chips, matrix
      ensures Wired() && Agrees()
      ensures forall d, r :: 0 <= d < 8 && 0 <= r < 8 ==>
                Row(d, r) == if dev < maxDevNumber && col <= 7 && d == dev && r == row
                             then Set8(old(Row(d, r)), 7 - col, state) else old(Row(d, r))
    {
      if dev >= maxDevNumber || row > 7 || col > 7 {
        return;
      }
      Store(dev, row, Set8(matrix[dev * 8 + row], 7 - col, state));
    }

    /** Sets exactly one column of one device: row r shows bit 7 - r of the value there, and every
        other light keeps its state. */
    method SetCol(dev: u8, col: u8, value: u8)
      requires Wired() && Agrees()
      modifies this`dout, this`chain, this`chips, matrix
      ensures Wired() && Agrees()
      ensures forall d, r, j :: 0 <= d < 8 && 0 <= r < 8 && 0 <= j < 8 ==>
                Bit(Row(d, r), j) == if dev < maxDevNumber && d == dev && j == 7 - col then Bit(value, 7 - r)
                                     else Bit(old(Row(d, r)), j)
    {
      if dev >= maxDevNumber || col > 7 {
        return;
      }
      var row := 0;
      while row < 8
        invariant 0 <= row <= 8 && Wired() && Agrees()
        invariant forall d, r :: 0 <= d < 8 && 0 <= r < 8 ==>
                    Row(d, r) == if d == dev && r < row then Set8(old(Row(d, r)), 7 - col, Bit(value, 7 - r))
                                 else old(Row(d, r))
      {
        SetLed(dev, row, col, Bit(value, 7 - row));
        row := row + 1;
      }
      forall d, r, j | 0 <= d < 8 && 0 <= r < 8 && 0 <= j < 8
        ensures Bit(Row(d, r), j) == if d == dev && j == 7 - col then Bit(value, 7 - r) else Bit(old(Row(d, r)), j)
      {
        OneBitChanges(old(Row(d, r)), 7 - col, Bit(value, 7 - r), j);
      }
    }

    /** Shows a hexadecimal digit in one position of a seven-segment device. */
    method DispDigit(dev: u8, digit: u8, value: u8, dp: bool)
      requires Wired() && Agrees()
      modifies this`dout, this`chain, this`chips, matrix
      ensures Wired() && Agrees()
      ensures forall d, r :: 0 <= d < 8 && 0 <= r < 8 ==>
                Row(d, r) == if dev < maxDevNumber && value <= 15 && d == dev && r == digit
                             then (if dp then 0x80 + charTable[value] % 0x80 else charTable[value])
                             else old(Row(d, r))
    {
      if dev >= maxDevNumber || digit > 7 || value > 15 {
        return;
      }
      Store(dev, digit, Segments(charTable[value], dp));
    }

    /** Shows a character; the result tells whether the lookup stayed within the table. From 128 on it does
        not, since the source replaces the character by a space only after it has taken the index. */
    method DispChar(dev: u8, digit: u8, value: u8, dp: bool, beyond: u8) returns (inTable: bool)
      requires Wired() && Agrees()
      modifies this`dout, this`chain, this`chips, matrix
      ensures Wired() && Agrees()
      ensures inTable <==> dev >= maxDevNumber || digit > 7 || value < 128
      ensures forall d, r :: 0 <= d < 8 && 0 <= r < 8 ==>
                Row(d, r) == if dev < maxDevNumber && d == dev && r == digit
                             then (if dp then 0x80 + Lookup(charTable, value, beyond) % 0x80
                                   else Lookup(charTable, value, beyond))
                             else old(Row(d, r))
    {
      if dev >= maxDevNumber || digit > 7 {
        return true;
      }
      var index, character := value, value;
      if index > 127 {
        character := 32;
      }
      inTable := index < |charTable|;
      Store(dev, digit, Segments(Lookup(charTable, index, beyond), dp));
    }
  }
}
