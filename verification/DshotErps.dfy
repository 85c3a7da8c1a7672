/** dshot_erps.h and dshot_erps.c: the bidirectional DShot telemetry packet and its line code.

    A packet is 16 bits: 3-bit exponent, 9-bit mantissa, 4-bit check sum.  On the line each nibble
    becomes a 5-bit GCR symbol, and a 1 in the symbol stream is a level change. */
module DshotErps {

  // ---------- packet fields ----------

  function Crc(p: bv16): bv16 { p & 0xF }
  function Mantissa(p: bv16): bv16 { (p >> 4) & 0x1FF }
  function Exponent(p: bv16): bv16 { p >> 13 }
  function EdtType(p: bv16): bv16 { p >> 12 }

  function MakePacket(mantissa: bv16, exponent: bv16): bv16 {
    ((exponent & 7) << 13) | ((mantissa & 0x1FF) << 4)
  }

  /** An extended-telemetry frame: type nibble even and not zero. */
  predicate IsEdt(p: bv16) {
    EdtType(p) & 1 == 0 && EdtType(p) & 0xE != 0
  }

  function Crc4(val: bv16): bv16 {
    var v := val >> 4;
    (!(v ^ (v >> 4) ^ (v >> 8))) & 0xF
  }

  predicate CrcOk(p: bv16) {
    Crc4(p) == Crc(p)
  }

  function WithCrc(p: bv16): bv16 {
    (p & 0xFFF0) | Crc4(p)
  }

  lemma PacketFields(m: bv16, k: bv16)
    requires m <= 511 && k <= 7
    ensures var p := WithCrc(MakePacket(m, k)); Mantissa(p) == m && Exponent(p) == k && CrcOk(p)
    ensures IsEdt(WithCrc(MakePacket(m, k))) <==> k > 0 && m < 256
    ensures m == 511 && k == 7 <==> WithCrc(MakePacket(m, k)) >> 4 == 0xFFF
  {
  }

  /** Where the fields lie in the 16 bits, and which bits make an extended-telemetry frame. */
  lemma PacketLayout(p: bv16)
    ensures (Exponent(p) << 13) | (Mantissa(p) << 4) | Crc(p) == p
    ensures Exponent(p) <= 7 && Mantissa(p) <= 511 && Crc(p) <= 15
    ensures IsEdt(p) <==> p & 0x1000 == 0 && p & 0xE000 != 0
  {
  }

  /** The exclusive or of the four nibbles. */
  function NibbleSum(p: bv16): bv16 {
    (p ^ (p >> 4) ^ (p >> 8) ^ (p >> 12)) & 0xF
  }

  /** What the check sum is: the nibbles of a good packet add up to all ones. */
  lemma CrcLaw(p: bv16)
    ensures CrcOk(p) <==> NibbleSum(p) == 0xF
    ensures WithCrc(p) & 0xFFF0 == p & 0xFFF0 && NibbleSum(WithCrc(p)) == 0xF
  {
  }

  predicate InsideNibble(d: bv16) {
    d & 0xFFF0 == 0 || d & 0xFF0F == 0 || d & 0xF0FF == 0 || d & 0x0FFF == 0
  }

  /** Damage inside one nibble of a good packet is always noticed. */
  lemma NibbleErrorRefused(p: bv16, d: bv16)
    requires CrcOk(p) && d != 0 && InsideNibble(d)
    ensures !CrcOk(p ^ d)
  {
    CrcLaw(p);
    CrcLaw(p ^ d);
    NibbleSumOfError(p, d);
    hide CrcOk, NibbleSum;
  }

  lemma NibbleSumOfError(p: bv16, d: bv16)
    requires d != 0 && InsideNibble(d)
    ensures NibbleSum(p ^ d) == NibbleSum(p) ^ NibbleSum(d) && NibbleSum(d) != 0
    ensures NibbleSum(p) == 0xF ==> NibbleSum(p ^ d) != 0xF
  {
  }

  // ---------- period packing ----------

  /** 32 - clz(x): the position of the highest bit set. */
  function BitLength(x: nat): nat {
    if x == 0 then 0 else 1 + BitLength(x / 2)
  }

  function Pow2(k: nat): (r: nat)
    ensures r > 0
  {
    if k == 0 then 1 else 2 * Pow2(k - 1)
  }

  /** eperiodToPacked.  The exponent field keeps three bits, the mantissa field nine. */
  function PackedExponent(eperiod: nat): (k: nat)
    ensures k < 8
  {
    if eperiod / 512 > 128 then 7 else BitLength(eperiod / 512) % 8
  }

  function PackedMantissa(eperiod: nat): (m: nat)
    ensures m < 512
  {
    if eperiod / 512 > 128 then 511 else eperiod / Pow2(PackedExponent(eperiod)) % 512
  }

  function EperiodToPacked(eperiod: nat): bv16 {
    WithCrc(MakePacket(PackedMantissa(eperiod) as bv16, PackedExponent(eperiod) as bv16))
  }

  /** DshotErpsGetEperiod */
  function Eperiod(p: bv16): nat {
    (Mantissa(p) as nat) * Pow2(Exponent(p) as nat)
  }

  /** DshotErpsGetRpm; a zero period reads as the largest 32-bit value. */
  function Rpm(p: bv16): nat {
    if p >> 4 == 0xFFF then 0 else RpmOfPeriod(Eperiod(p))
  }

  function RpmOfPeriod(eperiod: nat): nat {
    if eperiod != 0 then 60000000 / eperiod else 0xFFFF_FFFF
  }

  /** The period a packed period stands for. */
  function Quantized(eperiod: nat): nat {
    PackedMantissa(eperiod) * Pow2(PackedExponent(eperiod))
  }

  lemma SmallConversion(m: nat)
    requires m < 512
    ensures (m as bv16) as nat == m && m as bv16 <= 511 && (m < 8 ==> m as bv16 <= 7)
    ensures m < 256 <==> (m as bv16) < 256
    ensures m > 0 <==> (m as bv16) > 0
    ensures m == 511 <==> (m as bv16) == 511
    ensures m == 7 <==> (m as bv16) == 7
  {
  }

  lemma Packed(e: nat)
    ensures Eperiod(EperiodToPacked(e)) == Quantized(e)
    ensures CrcOk(EperiodToPacked(e))
    ensures IsEdt(EperiodToPacked(e)) <==> PackedExponent(e) > 0 && PackedMantissa(e) < 256
    ensures EperiodToPacked(e) >> 4 == 0xFFF <==> PackedMantissa(e) == 511 && PackedExponent(e) == 7
  {
    hide Mantissa, Exponent, MakePacket, WithCrc, CrcOk, IsEdt, PackedExponent, PackedMantissa;
    SmallConversion(PackedMantissa(e));
    SmallConversion(PackedExponent(e));
    PacketFields(PackedMantissa(e) as bv16, PackedExponent(e) as bv16);
  }

  lemma {:induction false} BitLengthIs(x: nat, k: nat)
    requires if k == 0 then x == 0 else Pow2(k - 1) <= x < Pow2(k)
    ensures BitLength(x) == k
  {
    if k > 0 {
      BitLengthIs(x / 2, k - 1);
    }
  }

  /** The binade of a period below 65536: its exponent, and two to that power. */
  lemma FindBinade(e: nat) returns (k: nat, p: nat)
    requires e < 65536
    ensures k <= 7 && p == Pow2(k) && e < 512 * p && (k > 0 ==> 256 * p <= e)
    ensures BitLength(e / 512) == k
  {
    assert Pow2(1) == 2 && Pow2(2) == 4 && Pow2(3) == 8 && Pow2(4) == 16 && Pow2(5) == 32 && Pow2(6) == 64;
    assert Pow2(7) == 128;
    k, p := 0, 1;
    while 512 * p <= e
      invariant k <= 7 && p == Pow2(k) && (k > 0 ==> 256 * p <= e)
      decreases 7 - k
    {
      k, p := k + 1, 2 * p;
    }
    BinadeOf(e, k);
  }

  lemma LessThanOne(x: int, p: int)
    requires p > 0 && x * p < p
    ensures x < 1
  {
  }

  lemma AtMostQuotient(e: nat, p: nat, n: nat)
    requires p > 0 && n * p <= e
    ensures n <= e / p
  {
    var q := e / p;
    assert (n - q) * p == n * p - q * p;
    LessThanOne(n - q, p);
  }

  lemma AboveQuotient(e: nat, p: nat, n: nat)
    requires p > 0 && e < n * p
    ensures e / p < n
  {
    var q := e / p;
    assert (q + 1 - n) * p == q * p + p - n * p;
    LessThanOne(q + 1 - n, p);
  }

  lemma FieldsAre(x: nat, k: nat, p: nat, m: nat)
    requires k <= 7 && p == Pow2(k) && BitLength(x / 512) == k && x / 512 <= 128
    requires x / p == m < 512
    ensures PackedExponent(x) == k && PackedMantissa(x) == m && Quantized(x) == m * p
  {
  }

  /** Fields of a packed period below 65536. */
  lemma PackedBelow(e: nat) returns (k: nat, p: nat)
    requires e < 65536
    ensures k <= 7 && p == Pow2(k) && e < 512 * p && (k > 0 ==> 256 * p <= e)
    ensures PackedExponent(e) == k && PackedMantissa(e) == e / p
    ensures e / p < 512 && (k > 0 ==> e / p >= 256)
    ensures Quantized(e) == e / p * p <= e < Quantized(e) + p && (k > 0 ==> 256 * p <= Quantized(e))
  {
    hide Quantized, PackedMantissa, PackedExponent, Pow2, BitLength;
    k, p := FindBinade(e);
    var m := e / p;
    assert e == m * p + e % p;
    AboveQuotient(e, p, 512);
    if k > 0 {
      AtMostQuotient(e, p, 256);
      MulMonotone(256, m, p);
    }
    FieldsAre(e, k, p, m);
  }

  /** Periods 65536..66047 need exponent 8, which the field cannot hold. */
  lemma PackedInHole(e: nat)
    requires 65536 <= e < 66048
    ensures PackedExponent(e) == 0 && PackedMantissa(e) == e - 65536 && Quantized(e) == e - 65536
  {
    assert Pow2(7) == 128 && Pow2(8) == 256;
    BitLengthIs(128, 8);
  }

  lemma PackedSaturates(e: nat)
    requires e >= 66048
    ensures PackedExponent(e) == 7 && PackedMantissa(e) == 511 && Quantized(e) == 65408
  {
    assert Pow2(7) == 128;
  }

  /** Below 65536 a packed period loses less than one unit of its last place. */
  lemma PackedError(e: nat)
    requires e < 65536
    ensures Quantized(e) <= e < Quantized(e) + Pow2(PackedExponent(e))
    ensures PackedExponent(e) > 0 ==> PackedMantissa(e) >= 256
  {
    var k, p := PackedBelow(e);
  }

  /** The relative error stays below 1/256 exactly for the periods below 65536. */
  lemma PackedAccurateIff(e: nat)
    requires e > 0
    ensures Quantized(e) <= e && 256 * (e - Quantized(e)) < e <==> e < 65536
  {
    if e < 65536 {
      var k, p := PackedBelow(e);
    } else if e < 66048 {
      PackedInHole(e);
    } else {
      PackedSaturates(e);
    }
  }

  /** Packing is monotone, except that a period in the hole, which wraps to its distance from 65536,
      falls below every shorter period that exceeds this distance. */
  lemma PackedMonotoneIff(e: nat, f: nat)
    requires e <= f
    ensures Quantized(e) <= Quantized(f) <==> !(e < 65536 <= f < 66048 && f - 65536 < e)
  {
    if f < 65536 {
      QuantizedMonotone(e, f);
    } else if f < 66048 {
      PackedInHole(f);
      if e >= 65536 {
        PackedInHole(e);
      } else {
        var k, p := PackedBelow(e);
        assert k > 0 ==> Quantized(e) >= 512;
        assert k == 0 ==> Quantized(e) == e;
      }
    } else {
      PackedSaturates(f);
      QuantizedBounded(e);
    }
  }

  lemma QuantizedBounded(e: nat)
    ensures Quantized(e) <= 65408
  {
    if e < 65536 {
      var k, p := PackedBelow(e);
      assert Pow2(7) == 128;
      if k < 7 {
        Pow2Grows(k, 7);
      }
    } else if e < 66048 {
      PackedInHole(e);
    } else {
      PackedSaturates(e);
    }
  }

  lemma QuantizedMonotone(e: nat, f: nat)
    requires e <= f < 65536
    ensures Quantized(e) <= Quantized(f)
  {
    hide Pow2, PackedMantissa, PackedExponent, Quantized;
    var k, p := PackedBelow(e);
    var j, q := PackedBelow(f);
    if k == j {
      var m: nat, n: nat := e / p, f / p;
      AtMostQuotient(f, p, m);
      MulMonotone(m, n, p);
    } else if k < j {
      Pow2Grows(k, j);
    } else {
      Pow2Grows(j, k);
    }
  }

  lemma MulMonotone(x: nat, y: nat, p: nat)
    requires x <= y
    ensures x * p <= y * p
  {
  }

  lemma {:induction false} Pow2Grows(k: nat, j: nat)
    requires k < j
    ensures 2 * Pow2(k) <= Pow2(j)
  {
    if k + 1 < j {
      Pow2Grows(k, j - 1);
    }
  }

  lemma BinadeOf(x: nat, k: nat)
    requires x < 512 * Pow2(k) && (k > 0 ==> 256 * Pow2(k) <= x)
    ensures BitLength(x / 512) == k
  {
    BitLengthIs(x / 512, k);
  }

  lemma Pow2AtMost128(k: nat)
    requires k <= 7
    ensures 1 <= Pow2(k) <= 128 && Pow2(0) == 1
  {
    assert Pow2(7) == 128;
    if k < 7 {
      Pow2Grows(k, 7);
    }
  }

  lemma FieldsSurvive(m: nat, k: nat)
    requires m < 512 && k <= 7 && (k > 0 ==> m >= 256)
    ensures PackedExponent(m * Pow2(k)) == k && PackedMantissa(m * Pow2(k)) == m
  {
    hide *;
    var p := Pow2(k);
    Pow2AtMost128(k);
    var x := m * p;
    MulBounds(m, p);
    BinadeOf(x, k);
    AtMostQuotient(x, p, m);
    AboveQuotient(x, p, m + 1);
    FieldsAre(x, k, p, m);
  }

  lemma MulBounds(m: nat, p: nat)
    requires 0 < p <= 128 && m < 512
    ensures m * p < 512 * p && m * p / 512 < 128 && (m >= 256 ==> m * p >= 256 * p)
  {
    assert m * p <= 511 * p;
  }

  /** Packing what a packet stands for gives the packet back. */
  lemma PackedIdempotent(e: nat)
    ensures EperiodToPacked(Quantized(e)) == EperiodToPacked(e)
  {
    hide Pow2, EperiodToPacked, PackedMantissa, PackedExponent;
    if e < 65536 {
      var k, p := PackedBelow(e);
    } else if e < 66048 {
      PackedInHole(e);
    } else {
      PackedSaturates(e);
    }
    FieldsSurvive(PackedMantissa(e), PackedExponent(e));
    SameFields(e, Quantized(e));
  }

  lemma SameFields(e: nat, f: nat)
    requires PackedMantissa(e) == PackedMantissa(f) && PackedExponent(e) == PackedExponent(f)
    ensures EperiodToPacked(e) == EperiodToPacked(f)
  {
  }

  /** No packed period passes for a telemetry frame, whatever the period. */
  lemma PackedIsNeverEdt(e: nat)
    ensures CrcOk(EperiodToPacked(e)) && !IsEdt(EperiodToPacked(e))
  {
    Packed(e);
    if e < 65536 {
      var k, p := PackedBelow(e);
    } else if e < 66048 {
      PackedInHole(e);
    } else {
      PackedSaturates(e);
    }
  }

  /** A packet reads as speed 0 if all its twelve payload bits are set, as the largest value if its period is 0, and
      as 60000000 divided by its period, rounded down, otherwise. */
  lemma RpmMeaning(p: bv16)
    ensures Eperiod(p) == (Mantissa(p) as nat) * Pow2(Exponent(p) as nat)
    ensures p & 0xFFF0 == 0xFFF0 ==> Rpm(p) == 0
    ensures p & 0xFFF0 != 0xFFF0 && Eperiod(p) == 0 ==> Rpm(p) == 0xFFFF_FFFF
    ensures p & 0xFFF0 != 0xFFF0 && Eperiod(p) > 0 ==>
              Rpm(p) * Eperiod(p) <= 60000000 < (Rpm(p) + 1) * Eperiod(p)
  {
    hide Mantissa, Exponent, Eperiod;
    AllOnes(p);
    if Eperiod(p) > 0 {
      QuotientOf(60000000, Eperiod(p));
    }
    EperiodIs(p);
  }

  lemma EperiodIs(p: bv16)
    ensures Eperiod(p) == (Mantissa(p) as nat) * Pow2(Exponent(p) as nat)
  {
    hide Mantissa, Exponent;
  }

  lemma AllOnes(p: bv16)
    ensures p & 0xFFF0 == 0xFFF0 <==> p >> 4 == 0xFFF
  {
  }

  lemma QuotientOf(x: nat, y: nat)
    requires y > 0
    ensures x / y * y <= x < (x / y + 1) * y
  {
    assert x == x / y * y + x % y;
  }

  /** The speed read back from the packet of a speed: periods of 65408 and more read as a standstill, but for the
      hole above 65535; below, no speed is understated, and it is overstated by less than 1/255 of the period's. */
  lemma RpmReadBack(rpm: nat)
    requires rpm > 0
    ensures var e := 60000000 / rpm;
            var r := Rpm(EperiodToPacked(e));
            && (e == 0 ==> r == 0xFFFF_FFFF)
            && (0 < e < 65408 ==> rpm <= r && 255 * (r * e) <= 256 * 60000000)
            && (65408 <= e < 65536 || e >= 66048 ==> r == 0)
  {
    var e := 60000000 / rpm;
    Packed(e);
    StoppedIff(e);
    if 0 < e < 65408 {
      PackedAccurateIff(e);
      ReadBackBounds(rpm, e, Quantized(e));
    }
    hide Eperiod, EperiodToPacked, Quantized, PackedExponent, PackedMantissa, IsEdt, CrcOk;
  }

  lemma StoppedIff(e: nat)
    ensures e == 0 ==> Quantized(e) == 0 && !(PackedMantissa(e) == 511 && PackedExponent(e) == 7)
    ensures e < 65408 ==> !(PackedMantissa(e) == 511 && PackedExponent(e) == 7)
    ensures 65408 <= e < 65536 || e >= 66048 ==> PackedMantissa(e) == 511 && PackedExponent(e) == 7
  {
    if e < 65536 {
      var k, p := PackedBelow(e);
      assert Pow2(7) == 128;
      if k == 7 {
        assert e / 128 == 511 <==> e >= 65408;
      } else if k < 7 {
        Pow2Grows(k, 7);
      }
    } else if e >= 66048 {
      PackedSaturates(e);
    }
    hide PackedExponent, PackedMantissa;
  }

  lemma ReadBackBounds(rpm: nat, e: nat, q: nat)
    requires rpm > 0 && e == 60000000 / rpm && 0 < q <= e && 256 * (e - q) < e
    ensures rpm <= 60000000 / q && 255 * (60000000 / q * e) <= 256 * 60000000
  {
    var r := 60000000 / q;
    QuotientOf(60000000, rpm);
    MulMonotone(q, e, rpm);
    AtMostQuotient(60000000, q, rpm);
    QuotientOf(60000000, q);
    Overstated(r, e, q);
  }

  lemma Overstated(r: nat, e: nat, q: nat)
    requires r * q <= 60000000 && 255 * e <= 256 * q
    ensures 255 * (r * e) <= 256 * 60000000
  {
    MulMonotone(255 * e, 256 * q, r);
    assert 255 * e * r == 255 * (r * e) && 256 * q * r == 256 * (r * q);
  }
}
