/** Capacity of an SD card from its CSD register (src/sdcard.c:434-453). */
module SdCsd {
  import opened MachineInts

  type Csd = s: seq<u8> | |s| == 16 witness seq(16, i => 0)

  /** Bytes read as one big-endian number. */
  function Number(s: seq<u8>): nat
  {
    if s == [] then 0 else 0x100 * Number(s[..|s| - 1]) + s[|s| - 1]
  }

  /** The bits of a number from position low on, width of them. */
  function Field(n: nat, low: nat, width: nat): nat { n / Pow2(low) % Pow2(width) }

  // The fields as the SD Physical Layer Simplified Specification names them, sections 5.3.2 and 5.3.3.
  function Structure(csd: Csd): nat { Field(Number(csd), 126, 2) }
  function ReadBlLen(csd: Csd): nat { Field(Number(csd), 80, 4) }
  function CSize(csd: Csd): nat { Field(Number(csd), 62, 12) }
  function CSizeMult(csd: Csd): nat { Field(Number(csd), 47, 3) }
  function CSize2(csd: Csd): nat { Field(Number(csd), 48, 22) }

  datatype Count = Count(sectors: u32) | Undefined

  /** (x) << s for a 32-bit x; a shift by 32 or more is undefined in C. */
  function ShiftLeft(x: u32, s: u32): Count { if s < 32 then Count(U32(x * Pow2(s))) else Undefined }

  function Byte(csd: Csd, i: nat): nat
    requires i < 16
  {
    csd[i]
  }

  // The fields as the driver takes them out of the bytes.
  function MaskedSize(csd: Csd): nat { (Byte(csd, 6) % 4 * 0x400 + Byte(csd, 7) * 4 + Byte(csd, 8) / 0x40) % 0x1000 }
  function MaskedMult(csd: Csd): nat { Byte(csd, 9) % 4 * 2 + Byte(csd, 10) / 0x80 }
  function MaskedLen(csd: Csd): nat { Byte(csd, 5) % 0x10 }
  function MaskedSize2(csd: Csd): nat { (Byte(csd, 7) * 0x1_0000 + Byte(csd, 8) * 0x100 + Byte(csd, 9)) % 0x40_0000 }

  /** The sector count as the driver computes it. */
  function SectorCount(csd: Csd): Count
  {
    if Byte(csd, 0) / 0x40 % 4 == 1 then Count(U32((MaskedSize2(csd) + 1) * 1024))
    else ShiftLeft(MaskedSize(csd) + 1, U32(MaskedLen(csd) + MaskedMult(csd) - 7))
  }

  lemma DivTwice(n: nat, a: nat, b: nat)
    requires a > 0 && b > 0
    ensures a * b > 0 && n / (a * b) == n / a / b
  {
    var q, r := n / a, n % a;
    var p, t := q / b, q % b;
    Divided(n, a);
    Divided(q, b);
    Regroup(p, b, t, a);
    MulMonotone(t + 1, b, a);
    MulMonotone(0, t, a);
    MulMonotone(1, a, b);
    Quotient(n, p, a * b, t * a + r);
  }

  lemma Divided(n: nat, a: nat)
    requires a > 0
    ensures n == n / a * a + n % a && n % a < a
  {
  }

  lemma Regroup(p: nat, b: nat, t: nat, a: nat)
    ensures (p * b + t) * a == p * (a * b) + t * a && b * a == a * b && (t + 1) * a == t * a + a
  {
    assert (p * b + t) * a == p * b * a + t * a;
    assert p * b * a == p * (b * a);
  }

  lemma {:induction false} Pow2Add(j: nat, k: nat)
    ensures Pow2(j + k) == Pow2(j) * Pow2(k)
    decreases j
  {
    if j > 0 {
      Pow2Add(j - 1, k);
      assert Pow2(j + k) == 2 * Pow2(j - 1 + k);
    }
  }

  /** Dropping the last k bytes divides by 2 to the power 8 k. */
  lemma {:induction false} DropBytes(s: seq<u8>, k: nat)
    requires k <= |s|
    ensures Number(s) / Pow2(8 * k) == Number(s[..|s| - k])
  {
    if k == 0 {
      assert s[..|s|] == s;
    } else {
      var t := s[..|s| - 1];
      DropBytes(t, k - 1);
      assert t[..|t| - (k - 1)] == s[..|s| - k];
      Quotient(Number(s), Number(t), 0x100, s[|s| - 1]);
      Pow2Add(8, 8 * (k - 1));
      Pow2Values();
      DivTwice(Number(s), 0x100, Pow2(8 * (k - 1)));
    }
  }

  /** A field of a number is found in its leading bytes. */
  lemma {:induction false} FieldInBytes(csd: Csd, k: nat, low: nat, width: nat)
    requires k <= 16
    ensures Field(Number(csd), 8 * k + low, width) == Field(Number(csd[..16 - k]), low, width)
  {
    DropBytes(csd, k);
    Pow2Add(8 * k, low);
    DivTwice(Number(csd), Pow2(8 * k), Pow2(low));
  }

  lemma Powers()
    ensures Pow2(1) == 2 && Pow2(2) == 4 && Pow2(3) == 8 && Pow2(4) == 0x10 && Pow2(6) == 0x40
    ensures Pow2(7) == 0x80 && Pow2(9) == 0x200 && Pow2(10) == 0x400 && Pow2(12) == 0x1000 &&
            Pow2(22) == 0x40_0000 && Pow2(0) == 1
  {
    Pow2Add(4, 6);
    Pow2Add(10, 12);
    assert Pow2(4) == 16 && Pow2(7) == 8 * Pow2(4) && Pow2(9) == 4 * Pow2(7) && Pow2(12) == 8 * Pow2(9);
  }

  lemma LowField(n: nat, width: nat)
    ensures Field(n, 0, width) == n % Pow2(width)
  {
  }

  lemma {:induction false} Last(csd: Csd, k: nat)
    requires 0 < k <= 16
    ensures Number(csd[..k]) == 0x100 * Number(csd[..k - 1]) + Byte(csd, k - 1)
  {
    assert csd[..k][..k - 1] == csd[..k - 1];
  }

  lemma SizeBits(p: nat, b6: nat, b7: nat, b8: nat)
    requires b6 < 0x100 && b7 < 0x100 && b8 < 0x100
    ensures (0x100 * (0x100 * (0x100 * p + b6) + b7) + b8) / 0x40 % 0x1000 ==
            (b6 % 4 * 0x400 + b7 * 4 + b8 / 0x40) % 0x1000
  {
    var n := 0x100 * (0x100 * (0x100 * p + b6) + b7) + b8;
    var low := b6 % 4 * 0x400 + b7 * 4 + b8 / 0x40;
    Quotient(n, (0x40 * p + b6 / 4) * 0x1000 + low, 0x40, b8 % 0x40);
    Quotient(n / 0x40, 0x40 * p + b6 / 4, 0x1000, low);
  }

  lemma Size2Bits(p: nat, b7: nat, b8: nat, b9: nat)
    requires b7 < 0x100 && b8 < 0x100 && b9 < 0x100
    ensures (0x100 * (0x100 * (0x100 * p + b7) + b8) + b9) % 0x40_0000 == (b7 * 0x1_0000 + b8 * 0x100 + b9) % 0x40_0000
  {
    var low := b7 * 0x1_0000 + b8 * 0x100 + b9;
    ModPlusMultiple(low, 4 * p, 0x40_0000);
  }

  lemma MultBits(p: nat, b9: nat, b10: nat)
    requires b9 < 0x100 && b10 < 0x100
    ensures (0x100 * (0x100 * p + b9) + b10) / 0x80 % 8 == b9 % 4 * 2 + b10 / 0x80
  {
    var n := 0x100 * (0x100 * p + b9) + b10;
    Quotient(n, (0x40 * p + b9 / 4) * 8 + b9 % 4 * 2 + b10 / 0x80, 0x80, b10 % 0x80);
    Quotient(n / 0x80, 0x40 * p + b9 / 4, 8, b9 % 4 * 2 + b10 / 0x80);
  }

  /** The driver's masks and shifts pick exactly the fields of the 128-bit register. */
  lemma {:induction false} SizeRead(csd: Csd)
    ensures CSize(csd) == MaskedSize(csd)
  {
    Powers();
    FieldInBytes(csd, 7, 6, 12);
    Last(csd, 9);
    Last(csd, 8);
    Last(csd, 7);
    SizeBits(Number(csd[..6]), Byte(csd, 6), Byte(csd, 7), Byte(csd, 8));
  }

  lemma {:induction false} Size2Read(csd: Csd)
    ensures CSize2(csd) == MaskedSize2(csd)
  {
    Size2Field(csd);
    Size2Tail(csd);
  }

  lemma {:induction false} Size2Tail(csd: Csd)
    ensures Number(csd[..10]) % 0x40_0000 == MaskedSize2(csd)
  {
    LastThree(csd, 10);
    Size2Bits(Number(csd[..7]), Byte(csd, 7), Byte(csd, 8), Byte(csd, 9));
  }

  lemma {:induction false} Size2Field(csd: Csd)
    ensures CSize2(csd) == Number(csd[..10]) % 0x40_0000
  {
    Powers();
    FieldInBytes(csd, 6, 0, 22);
    LowField(Number(csd[..10]), 22);
  }

  lemma {:induction false} LastThree(csd: Csd, k: nat)
    requires 3 <= k <= 16
    ensures Number(csd[..k]) ==
            0x100 * (0x100 * (0x100 * Number(csd[..k - 3]) + Byte(csd, k - 3)) + Byte(csd, k - 2)) + Byte(csd, k - 1)
  {
    Last(csd, k);
    Last(csd, k - 1);
    Last(csd, k - 2);
  }

  lemma {:induction false} MultRead(csd: Csd)
    ensures CSizeMult(csd) == MaskedMult(csd)
  {
    Powers();
    FieldInBytes(csd, 5, 7, 3);
    Last(csd, 11);
    Last(csd, 10);
    MultBits(Number(csd[..9]), Byte(csd, 9), Byte(csd, 10));
  }

  lemma {:induction false} LenRead(csd: Csd)
    ensures ReadBlLen(csd) == MaskedLen(csd)
  {
    Powers();
    FieldInBytes(csd, 10, 0, 4);
    LowField(Number(csd[..6]), 4);
    Last(csd, 6);
    ModPlusMultiple(Byte(csd, 5), 0x10 * Number(csd[..5]), 0x10);
  }

  lemma {:induction false} StructureRead(csd: Csd)
    ensures Structure(csd) == Byte(csd, 0) / 0x40 % 4
  {
    Powers();
    FieldInBytes(csd, 15, 6, 2);
    Last(csd, 1);
    assert csd[..0] == [];
  }

  /** The capacity in bytes that the specification gives for version 1.0. */
  function Capacity(size: nat, mult: nat, len: nat): nat { (size + 1) * Pow2(mult + 2) * Pow2(len) }

  /** Version 2.0: 512 KiB units, unless the largest size makes the count wrap to zero. */
  lemma {:induction false} CapacityV2(csd: Csd)
    requires Structure(csd) == 1
    ensures SectorCount(csd).Count?
    ensures SectorCount(csd).sectors == (CSize2(csd) + 1) * 1024 <==> CSize2(csd) < 0x3F_FFFF
    ensures CSize2(csd) == 0x3F_FFFF ==> SectorCount(csd).sectors == 0
  {
    StructureRead(csd);
    Size2Read(csd);
  }

  /** Other versions: the count times 512 is the capacity in bytes exactly if the two length fields add
      up to 7 or more; below that the shift is undefined. Block lengths of 512 to 2048 bytes qualify. */
  lemma {:induction false} CapacityV1(csd: Csd)
    requires Structure(csd) != 1
    ensures SectorCount(csd).Count? <==> ReadBlLen(csd) + CSizeMult(csd) >= 7
    ensures 9 <= ReadBlLen(csd) <= 11 ==> SectorCount(csd).Count?
    ensures SectorCount(csd).Count? ==>
              SectorCount(csd).sectors * 512 == Capacity(CSize(csd), CSizeMult(csd), ReadBlLen(csd))
  {
    OldCount(csd);
    SizeRead(csd);
    MultRead(csd);
    LenRead(csd);
    ShiftedCount(MaskedSize(csd), MaskedLen(csd), MaskedMult(csd));
  }

  lemma {:induction false} OldCount(csd: Csd)
    requires Structure(csd) != 1
    ensures SectorCount(csd) == ShiftLeft(MaskedSize(csd) + 1, U32(MaskedLen(csd) + MaskedMult(csd) - 7))
    ensures MaskedSize(csd) + 1 <= 0x1000 && MaskedLen(csd) < 0x10 && MaskedMult(csd) < 8
  {
    StructureRead(csd);
  }

  lemma WrappedDifference(a: nat, b: nat)
    requires a < 0x1_0000_0000 && b < 0x1_0000_0000
    ensures U32(a - b) == if a >= b then a - b else a - b + 0x1_0000_0000
  {
  }

  /** A shift by the sum of the two lengths less 7 multiplies and divides as the capacity formula does. */
  lemma {:induction false} ShiftedCount(size: nat, len: nat, mult: nat)
    requires size < 0x1000 && len < 0x10 && mult < 8
    ensures ShiftLeft(size + 1, U32(len + mult - 7)).Count? <==> len + mult >= 7
    ensures len + mult >= 7 ==> ShiftLeft(size + 1, U32(len + mult - 7)).sectors * 512 == Capacity(size, mult, len)
  {
    var x, sum := size + 1, len + mult;
    WrappedDifference(sum, 7);
    if sum >= 7 {
      ShiftExact(x, sum - 7);
      Pow2Add(mult + 2, len);
      Pow2Add(sum - 7, 9);
      Powers();
      Rearrange(x, Pow2(sum - 7), Pow2(mult + 2), Pow2(len));
    }
  }

  lemma Rearrange(x: nat, p: nat, a: nat, b: nat)
    requires p * 512 == a * b
    ensures x * p * 512 == x * a * b
  {
    assert x * p * 512 == x * (p * 512) && x * a * b == x * (a * b);
  }

  /** No overflow: the shift is by 15 bits at most. */
  lemma {:induction false} ShiftExact(x: u32, s: nat)
    requires x <= 0x1000 && s <= 15
    ensures ShiftLeft(x, s).Count? && ShiftLeft(x, s).sectors == x * Pow2(s)
  {
    Pow2Values();
    Pow2Grows(s, 15);
    MulMonotone(x, 0x1000, Pow2(s));
    MulMonotone(Pow2(s), 0x8000, 0x1000);
  }

  lemma {:induction false} Pow2Grows(s: nat, t: nat)
    requires s <= t
    ensures Pow2(s) <= Pow2(t)
    decreases t
  {
    if s < t {
      Pow2Grows(s, t - 1);
    }
  }
}
