/** Bits of bytes, and of the 11-bit values cut out of two or three of them. */
module ChannelBits {

  function Wide(b: bv8): bv16 { b as bv16 }
  function Low11(x: bv16): bv16 { x & 0x7FF }

  /** Bit i, bit 0 being worth 1. */
  predicate BitOf(x: bv16, i: nat) {
    match i
    case 0 => x & 1 != 0 case 1 => x & 2 != 0 case 2 => x & 4 != 0 case 3 => x & 8 != 0
    case 4 => x & 0x10 != 0 case 5 => x & 0x20 != 0 case 6 => x & 0x40 != 0 case 7 => x & 0x80 != 0
    case 8 => x & 0x100 != 0 case 9 => x & 0x200 != 0 case _ => x & 0x400 != 0
  }

  /** Bit n of three bytes, the lowest bit of each byte first. */
  predicate BitOfThree(b0: bv8, b1: bv8, b2: bv8, n: nat) {
    if n < 8 then BitOf(Wide(b0), n) else if n < 16 then BitOf(Wide(b1), n - 8) else BitOf(Wide(b2), n - 16)
  }

  /** x is the eleven bits from bit o of the three bytes on. */
  predicate CutOut(x: bv16, b0: bv8, b1: bv8, b2: bv8, o: nat) {
    x < 2048 && forall i :: 0 <= i < 11 ==> (BitOf(x, i) <==> BitOfThree(b0, b1, b2, o + i))
  }

  lemma EachBit(x: bv16, b0: bv8, b1: bv8, b2: bv8, o: nat)
    requires x < 2048
    requires BitOf(x, 0) <==> BitOfThree(b0, b1, b2, o + 0)
    requires BitOf(x, 1) <==> BitOfThree(b0, b1, b2, o + 1)
    requires BitOf(x, 2) <==> BitOfThree(b0, b1, b2, o + 2)
    requires BitOf(x, 3) <==> BitOfThree(b0, b1, b2, o + 3)
    requires BitOf(x, 4) <==> BitOfThree(b0, b1, b2, o + 4)
    requires BitOf(x, 5) <==> BitOfThree(b0, b1, b2, o + 5)
    requires BitOf(x, 6) <==> BitOfThree(b0, b1, b2, o + 6)
    requires BitOf(x, 7) <==> BitOfThree(b0, b1, b2, o + 7)
    requires BitOf(x, 8) <==> BitOfThree(b0, b1, b2, o + 8)
    requires BitOf(x, 9) <==> BitOfThree(b0, b1, b2, o + 9)
    requires BitOf(x, 10) <==> BitOfThree(b0, b1, b2, o + 10)
    ensures CutOut(x, b0, b1, b2, o)
  {
    hide BitOf, BitOfThree;
  }

  // Eleven bits from bit n of the first byte on.

  function From0(b0: bv8, b1: bv8): bv16 { Low11(Wide(b0) | (Wide(b1) << 8)) }
  function From1(b0: bv8, b1: bv8): bv16 { Low11((Wide(b0) >> 1) | (Wide(b1) << 7)) }
  function From2(b0: bv8, b1: bv8): bv16 { Low11((Wide(b0) >> 2) | (Wide(b1) << 6)) }
  function From3(b0: bv8, b1: bv8): bv16 { Low11((Wide(b0) >> 3) | (Wide(b1) << 5)) }
  function From4(b0: bv8, b1: bv8): bv16 { Low11((Wide(b0) >> 4) | (Wide(b1) << 4)) }
  function From5(b0: bv8, b1: bv8): bv16 { Low11((Wide(b0) >> 5) | (Wide(b1) << 3)) }
  function From6(b0: bv8, b1: bv8, b2: bv8): bv16 { Low11((Wide(b0) >> 6) | (Wide(b1) << 2) | (Wide(b2) << 10)) }
  function From7(b0: bv8, b1: bv8, b2: bv8): bv16 { Low11((Wide(b0) >> 7) | (Wide(b1) << 1) | (Wide(b2) << 9)) }

  lemma From0CutsOut(b0: bv8, b1: bv8, b2: bv8)
    ensures CutOut(From0(b0, b1), b0, b1, b2, 0)
  {
    EachBit(From0(b0, b1), b0, b1, b2, 0);
  }

  lemma From1CutsOut(b0: bv8, b1: bv8, b2: bv8)
    ensures CutOut(From1(b0, b1), b0, b1, b2, 1)
  {
    EachBit(From1(b0, b1), b0, b1, b2, 1);
  }

  lemma From2CutsOut(b0: bv8, b1: bv8, b2: bv8)
    ensures CutOut(From2(b0, b1), b0, b1, b2, 2)
  {
    EachBit(From2(b0, b1), b0, b1, b2, 2);
  }

  lemma From3CutsOut(b0: bv8, b1: bv8, b2: bv8)
    ensures CutOut(From3(b0, b1), b0, b1, b2, 3)
  {
    EachBit(From3(b0, b1), b0, b1, b2, 3);
  }

  lemma From4CutsOut(b0: bv8, b1: bv8, b2: bv8)
    ensures CutOut(From4(b0, b1), b0, b1, b2, 4)
  {
    EachBit(From4(b0, b1), b0, b1, b2, 4);
  }

  lemma From5CutsOut(b0: bv8, b1: bv8, b2: bv8)
    ensures CutOut(From5(b0, b1), b0, b1, b2, 5)
  {
    EachBit(From5(b0, b1), b0, b1, b2, 5);
  }

  lemma From6CutsOut(b0: bv8, b1: bv8, b2: bv8)
    ensures CutOut(From6(b0, b1, b2), b0, b1, b2, 6)
  {
    EachBit(From6(b0, b1, b2), b0, b1, b2, 6);
  }

  lemma From7CutsOut(b0: bv8, b1: bv8, b2: bv8)
    ensures CutOut(From7(b0, b1, b2), b0, b1, b2, 7)
  {
    EachBit(From7(b0, b1, b2), b0, b1, b2, 7);
  }
}
