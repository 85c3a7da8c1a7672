/** The command path: setCrc4 and buildDshotDmaBuffer of esc_dshot.c turn packets into pulse widths,
    guessDshot of decode_dshot.c turns captured pulses back into a packet. */
module DshotWave {

  const BIT_WIDTHS := 16
  const PRE_FRAME := 2
  const BUFFER_SIZE := 22         // DSHOT_DMA_BUFFER_SIZE: two silent rows, 16 bits, four silent rows
  const CAPTURED := 32            // DMA_DATA_LEN / 2
  const GAP := 1000
  const BAD_FRAME: bv16 := 0xFFFF

  // ---------- packets: 11 bits of throttle, the telemetry bit, 4 bits of check sum ----------

  function Crc(p: bv16): bv16 { p & 0xF }
  function Payload(p: bv16): bv16 { p >> 4 }

  function Crc4(p: bv16): bv16 {
    (Payload(p) ^ (Payload(p) >> 4) ^ (Payload(p) >> 8)) & 0xF
  }

  predicate CrcOk(p: bv16) {
    Crc(p) == Crc4(p)
  }

  /** The packet with its check sum, which bidirectional DShot inverts. */
  function Sealed(p: bv16, bidir: bool): bv16 {
    (p & 0xFFF0) | (if bidir then !Crc4(p) & 0xF else Crc4(p))
  }

  lemma SealedIsValid(p: bv16, bidir: bool)
    ensures Payload(Sealed(p, bidir)) == Payload(p)
    ensures CrcOk(Sealed(p, bidir)) <==> !bidir
  {
  }

  /** The exclusive or of the four nibbles. */
  function NibbleSum(p: bv16): bv16 {
    (p ^ (p >> 4) ^ (p >> 8) ^ (p >> 12)) & 0xF
  }

  /** What the check sum is: the nibbles of a good packet add up to 0 without carry. */
  lemma CrcLaw(p: bv16)
    ensures CrcOk(p) <==> NibbleSum(p) == 0
  {
  }

  /** Sealing keeps the payload and makes the nibbles add up to 0, or inverted to all ones. */
  lemma SealedLaw(p: bv16)
    ensures Sealed(p, false) & 0xFFF0 == p & 0xFFF0 && NibbleSum(Sealed(p, false)) == 0
  {
  }

  lemma InvertedLaw(p: bv16)
    ensures Sealed(p, true) & 0xFFF0 == p & 0xFFF0 && NibbleSum(Sealed(p, true)) == 0xF
  {
  }

  /** setDshotPacketThrottle and setDshotPacketTlm: eleven bits of throttle above the telemetry bit. */
  function Command(throttle: bv16, tlm: bool): bv16 {
    ((throttle & 0x7FF) << 5) | (if tlm then 0x10 else 0)
  }

  /** Throttle and telemetry bit can be read off the sealed packet. */
  lemma CommandFields(throttle: bv16, tlm: bool, bidir: bool)
    requires throttle < 2048
    ensures var q := Sealed(Command(throttle, tlm), bidir);
            q >> 5 == throttle && (q & 0x10 != 0 <==> tlm)
  {
  }

  /** The value guessDshot returns for an error is a valid packet: full throttle with the telemetry bit. */
  lemma BadFrameIsAPacket()
    ensures CrcOk(BAD_FRAME) && Payload(BAD_FRAME) == 0xFFF
  {
  }

  // four bits, as the bit field crc
  function Nibble(x: bv16): bv16 { x & 0xF }
  function Xor(x: bv16, y: bv16): bv16 { x ^ y }
  function Shr4(x: bv16): bv16 { x >> 4 }
  function Not(x: bv16): bv16 { !x }
  function Or(x: bv16, y: bv16): bv16 { x | y }
  function And(x: bv16, y: bv16): bv16 { x & y }

  lemma NibbleByNibble(p: bv16)
    ensures var c := Payload(p);
            Crc4(p) == Nibble(Xor(Nibble(Xor(Nibble(Xor(0, c)), Shr4(c))), Shr4(Shr4(c))))
  {
  }

  lemma SealedInPieces(p: bv16, bidir: bool)
    ensures Sealed(p, bidir) == Or(And(p, 0xFFF0), if bidir then Nibble(Not(Crc4(p))) else Crc4(p))
  {
    hide And, Or, Not, Nibble, Crc4;
    var c := if bidir then Nibble(Not(Crc4(p))) else Crc4(p);
    AndIs(p, 0xFFF0);
    OrIs(And(p, 0xFFF0), c);
    NibbleOfNot(Crc4(p));
  }

  lemma NibbleOfNot(x: bv16)
    ensures Nibble(Not(x)) == !x & 0xF
  {
  }

  /** setCrc4 */
  method SetCrc4(p: bv16, bidir: bool) returns (r: bv16)
    ensures r == Sealed(p, bidir)
  {
    hide *;
    var crc, csum := 0, Payload(p);
    ghost var c := csum;
    NibbleByNibble(p);
    SealedInPieces(p, bidir);
    for i := 0 to 3
      invariant i == 0 ==> crc == 0 && csum == c
      invariant i == 1 ==> crc == Nibble(Xor(0, c)) && csum == Shr4(c)
      invariant i == 2 ==> crc == Nibble(Xor(Nibble(Xor(0, c)), Shr4(c))) && csum == Shr4(Shr4(c))
      invariant i == 3 ==> crc == Crc4(p)
    {
      crc := Nibble(Xor(crc, csum));
      csum := Shr4(csum);
    }
    if bidir {
      crc := Nibble(Not(crc));
    }
    r := Or(And(p, 0xFFF0), crc);
  }

  // ---------- bits, the highest first ----------

  function Halved(x: bv16): bv16 { x >> 1 }

  function BitMask(i: nat): bv16 {
    if i == 0 then 0x8000 else Halved(BitMask(i - 1))
  }

  predicate Bit(p: bv16, i: nat) {
    And(p, BitMask(i)) != 0
  }

  function HighMask(n: nat): bv16 {
    if n == 0 then 0 else Or(HighMask(n - 1), BitMask(n - 1))
  }

  /** The n highest bits of p. */
  function High(p: bv16, n: nat): bv16 {
    And(p, HighMask(n))
  }

  // at most one bit is set
  predicate Single(m: bv16) { m & (m - 1) == 0 }

  lemma {:induction false} MaskIsSingle(i: nat)
    ensures Single(BitMask(i))
  {
    if i > 0 {
      MaskIsSingle(i - 1);
      HalvedSingle(BitMask(i - 1));
    } else {
      assert BitMask(0) == 0x8000;
    }
  }

  lemma HalvedSingle(m: bv16)
    requires Single(m)
    ensures Single(Halved(m))
  {
  }

  function Doubled(x: bv16): bv16 { x << 1 }

  lemma AndHalved(p: bv16, m: bv16)
    ensures And(p, Halved(m)) == Halved(And(Doubled(p), m))
  {
  }

  lemma {:induction false} BitOrNothing(p: bv16, i: nat)
    ensures And(p, BitMask(i)) == 0 || And(p, BitMask(i)) == BitMask(i)
    decreases i
  {
    if i > 0 {
      BitOrNothing(Doubled(p), i - 1);
      AndHalved(p, BitMask(i - 1));
      assert Halved(0) == 0;
    } else {
      TopBit(p);
    }
    hide And, Halved, Doubled;
  }

  lemma TopBit(p: bv16)
    ensures And(p, 0x8000) == 0 || And(p, 0x8000) == 0x8000
  {
  }

  lemma AndOr(p: bv16, h: bv16, m: bv16)
    ensures Or(And(p, h), And(p, m)) == And(p, Or(h, m))
  {
    hide *;
    calc {
      Or(And(p, h), And(p, m));
      { AndIs(p, h); AndIs(p, m); OrIs(p & h, p & m); }
      (p & h) | (p & m);
      { AndOrBits(p, h, m); }
      p & (h | m);
      { OrIs(h, m); AndIs(p, h | m); }
      And(p, Or(h, m));
    }
  }

  lemma AndOrBits(p: bv16, h: bv16, m: bv16)
    ensures (p & h) | (p & m) == p & (h | m)
  {
  }

  lemma AndIs(x: bv16, y: bv16)
    ensures And(x, y) == x & y
  {
  }

  lemma OrIs(x: bv16, y: bv16)
    ensures Or(x, y) == x | y
  {
  }

  lemma HighStep(p: bv16, i: nat)
    ensures Or(High(p, i), if Bit(p, i) then BitMask(i) else 0) == High(p, i + 1)
  {
    BitOrNothing(p, i);
    AndOr(p, HighMask(i), BitMask(i));
    hide Or, And, BitMask;
  }

  /** The pulses are the bits of the frame, the highest first. */
  lemma MasksInOrder()
    ensures BitMask(0) == 0x8000 && BitMask(1) == 0x4000 && BitMask(2) == 0x2000 && BitMask(3) == 0x1000
    ensures BitMask(4) == 0x800 && BitMask(5) == 0x400 && BitMask(6) == 0x200 && BitMask(7) == 0x100
    ensures BitMask(8) == 0x80 && BitMask(9) == 0x40 && BitMask(10) == 0x20 && BitMask(11) == 0x10
    ensures BitMask(12) == 8 && BitMask(13) == 4 && BitMask(14) == 2 && BitMask(15) == 1
  {
    assert BitMask(0) == 0x8000;
    assert BitMask(1) == 0x4000;
    assert BitMask(2) == 0x2000;
    assert BitMask(3) == 0x1000;
    assert BitMask(4) == 0x800;
    assert BitMask(5) == 0x400;
    assert BitMask(6) == 0x200;
    assert BitMask(7) == 0x100;
    assert BitMask(8) == 0x80;
    assert BitMask(9) == 0x40;
    assert BitMask(10) == 0x20;
    assert BitMask(11) == 0x10;
    assert BitMask(12) == 8;
    assert BitMask(13) == 4;
    assert BitMask(14) == 2;
  }

  /** The buffer of a packet: two silent rows, the sixteen pulses, silence. */
  lemma WaveRows(p: bv16, duty0: nat, duty1: nat)
    ensures Wave(p, duty0, duty1, 0) == 0 && Wave(p, duty0, duty1, 1) == 0
    ensures forall i :: 0 <= i < 16 ==> Wave(p, duty0, duty1, i + 2) == if Bit(p, i) then duty1 else duty0
    ensures forall row :: row >= 18 ==> Wave(p, duty0, duty1, row) == 0
  {
    hide Bit;
  }

  /** The complement of the bits below a single one. */
  function Above(m: bv16): bv16 { !((m << 1) - 1) }

  lemma AboveStep(m: bv16)
    requires Single(m) && Halved(m) != 0
    ensures Or(Above(m), m) == Above(Halved(m))
  {
  }

  lemma HalvedZero(m: bv16)
    requires Halved(m) != 0
    ensures m != 0
  {
  }

  lemma {:induction false} HighMaskIsAbove(n: nat)
    requires BitMask(n) != 0
    ensures HighMask(n) == Above(BitMask(n))
  {
    if n > 0 {
      HalvedZero(BitMask(n - 1));
      HighMaskIsAbove(n - 1);
      MaskIsSingle(n - 1);
      AboveStep(BitMask(n - 1));
    } else {
      assert Above(0x8000) == 0;
    }
  }

  lemma LastMask()
    ensures BitMask(15) == 1
  {
    assert BitMask(3) == 0x1000;
    assert BitMask(6) == 0x200;
    assert BitMask(9) == 0x40;
    assert BitMask(12) == 8;
  }

  lemma AllBits(p: bv16)
    ensures High(p, 16) == p
  {
    LastMask();
    HighMaskIsAbove(15);
    assert Or(Above(1), 1) == 0xFFFF;
    assert And(p, 0xFFFF) == p;
  }

  // ---------- sending ----------

  /** What row row of the buffer holds for packet p. */
  function Wave(p: bv16, duty0: nat, duty1: nat, row: nat): nat {
    if PRE_FRAME <= row < PRE_FRAME + BIT_WIDTHS then (if Bit(p, row - PRE_FRAME) then duty1 else duty0) else 0
  }

  class DshotSender {
    const bidir: bool
    const bit0Duty: nat
    const bit1Duty: nat
    const dp: array<bv16>
    const widths: array2<nat>

    /** The silent rows are zeroed once, at the start, and never written. */
    ghost predicate Valid()
      reads this, dp, widths
    {
      && widths.Length0 == BUFFER_SIZE && widths.Length1 == dp.Length
      && forall row, c :: 0 <= row < BUFFER_SIZE && 0 <= c < dp.Length && Silent(row) ==> widths[row, c] == 0
    }

    constructor (channels: nat, period: nat, ratio: nat, bidir: bool)
      ensures Valid() && fresh(dp) && fresh(widths) && dp.Length == channels && this.bidir == bidir
      ensures bit0Duty == period * ratio / 1000 && bit1Duty == 2 * bit0Duty && widths.Length0 == 22
    {
      this.bidir := bidir;
      bit0Duty := period * ratio / 1000;
      bit1Duty := 2 * (period * ratio / 1000);
      dp := new bv16[channels](_ => 0);
      widths := new nat[BUFFER_SIZE, channels]((_, _) => 0);
    }

    /** buildDshotDmaBuffer: every packet is sealed, and every column holds the pulses of its packet. */
    method BuildDshotDmaBuffer()
      requires Valid()
      modifies dp, widths
      ensures Valid()
      ensures forall c :: 0 <= c < dp.Length ==> dp[c] == Sealed(old(dp[c]), bidir)
      ensures forall row, c :: 0 <= row < BUFFER_SIZE && 0 <= c < dp.Length ==>
                widths[row, c] == Wave(dp[c], bit0Duty, bit1Duty, row)
    {
      hide Sealed, Bit;
      for chanIdx := 0 to dp.Length
        invariant Valid()
        invariant forall c :: 0 <= c < dp.Length ==>
                    dp[c] == if c < chanIdx then Sealed(old(dp[c]), bidir) else old(dp[c])
        invariant forall row, c :: 0 <= row < BUFFER_SIZE && 0 <= c < chanIdx ==>
                    widths[row, c] == Wave(dp[c], bit0Duty, bit1Duty, row)
      {
        dp[chanIdx] := SetCrc4(dp[chanIdx], bidir);
        BuildColumn(chanIdx);
      }
    }

    method BuildColumn(chanIdx: nat)
      requires Valid() && chanIdx < dp.Length
      modifies widths
      ensures Valid()
      ensures forall row :: 0 <= row < BUFFER_SIZE ==>
                widths[row, chanIdx] == Wave(dp[chanIdx], bit0Duty, bit1Duty, row)
      ensures forall row, c :: 0 <= row < BUFFER_SIZE && 0 <= c < dp.Length && c != chanIdx ==>
                widths[row, c] == old(widths[row, c])
    {
      hide Bit, BitMask;
      var rawFrame := dp[chanIdx];
      for bitIdx := 0 to BIT_WIDTHS
        invariant Valid()
        invariant forall row :: PRE_FRAME <= row < PRE_FRAME + bitIdx ==>
                    widths[row, chanIdx] == Wave(rawFrame, bit0Duty, bit1Duty, row)
        invariant forall row, c :: 0 <= row < BUFFER_SIZE && 0 <= c < dp.Length && c != chanIdx ==>
                    widths[row, c] == old(widths[row, c])
      {
        widths[bitIdx + PRE_FRAME, chanIdx] := if Bit(rawFrame, bitIdx) then bit1Duty else bit0Duty;
      }
    }
  }

  predicate Silent(row: int) {
    row < PRE_FRAME || row >= PRE_FRAME + BIT_WIDTHS
  }

  // ---------- receiving ----------

  datatype WidthPeriod = WidthPeriod(w: nat, p: nat)

  /** On the first timer channel the two registers are captured in the other order. */
  function Period(x: WidthPeriod, channel2: bool): nat {
    if channel2 then x.p else x.w
  }

  function Width(x: WidthPeriod, channel2: bool): nat {
    if channel2 then x.w else x.p
  }

  predicate Gap(wp: seq<WidthPeriod>, channel2: bool, g: nat)
  {
    && g < |wp| && Period(wp[g], channel2) >= GAP
    && forall k :: 0 <= k < g ==> Period(wp[k], channel2) < GAP
  }

  /** The first n pulses from wp[first], as the highest bits of a frame: at least the threshold is a one. */
  function ReadBits(wp: seq<WidthPeriod>, channel2: bool, threshold: nat, first: nat, n: nat): bv16
    requires first + n <= |wp|
  {
    if n == 0 then 0
    else Or(ReadBits(wp, channel2, threshold, first, n - 1),
            if Width(wp[first + n - 1], channel2) < threshold then 0 else BitMask(n - 1))
  }

  function Checked(rawFrame: bv16): bv16 {
    if CrcOk(rawFrame) then rawFrame else BAD_FRAME
  }

  function Min(a: nat, b: nat): nat { if a < b then a else b }

  function FirstGap(wp: seq<WidthPeriod>, channel2: bool, ci: nat): nat
    decreases |wp| - ci
  {
    if ci < |wp| && Period(wp[ci], channel2) < GAP then FirstGap(wp, channel2, ci + 1) else ci
  }

  lemma {:induction false} GapIsFirst(wp: seq<WidthPeriod>, channel2: bool, ci: nat, g: nat)
    requires ci <= g <= |wp| && (forall k :: ci <= k < g ==> Period(wp[k], channel2) < GAP)
    requires g < |wp| ==> Period(wp[g], channel2) >= GAP
    ensures FirstGap(wp, channel2, ci) == g
    decreases g - ci
  {
    if ci < g {
      GapIsFirst(wp, channel2, ci + 1, g);
    }
  }

  /** The packet a capture stands for. */
  function Guess(wp: seq<WidthPeriod>, channel2: bool): bv16
    requires |wp| == CAPTURED
  {
    var g := FirstGap(wp, channel2, 0);
    if g + 1 >= CAPTURED then BAD_FRAME
    else Checked(ReadBits(wp, channel2, Period(wp[g + 1], channel2) / 2, g + 1, Min(16, CAPTURED - 1 - g)))
  }

  /** guessDshot */
  method GuessDshot(wp: seq<WidthPeriod>, channel2: bool) returns (r: bv16)
    requires |wp| == CAPTURED
    ensures r == Guess(wp, channel2)
    ensures (forall g :: 0 <= g < CAPTURED - 1 ==> Period(wp[g], channel2) < GAP) ==> r == BAD_FRAME
    ensures forall g: nat :: Gap(wp, channel2, g) && g < CAPTURED - 1 ==>
              r == Checked(ReadBits(wp, channel2, Period(wp[g + 1], channel2) / 2, g + 1, Min(16, CAPTURED - 1 - g)))
  {
    var ci := 0;
    while ci < CAPTURED && Period(wp[ci], channel2) < GAP
      invariant 0 <= ci <= CAPTURED
      invariant forall k :: 0 <= k < ci ==> Period(wp[k], channel2) < GAP
    {
      ci := ci + 1;
    }
    GapIsFirst(wp, channel2, 0, ci);
    ci := ci + 1;
    if ci >= CAPTURED {
      return BAD_FRAME;
    }
    assert Gap(wp, channel2, ci - 1);
    var rawFrame := ReadPulses(wp, channel2, ci);
    var crc := Crc4(rawFrame);
    r := if Crc(rawFrame) != crc then BAD_FRAME else rawFrame;
    hide ReadBits, Crc4, Crc, Width;
    assert forall g: nat :: Gap(wp, channel2, g) ==> g == ci - 1;
  }

  /** The second loop of guessDshot. */
  method ReadPulses(wp: seq<WidthPeriod>, channel2: bool, first: nat) returns (rawFrame: bv16)
    requires |wp| == CAPTURED && first < CAPTURED
    ensures rawFrame == ReadBits(wp, channel2, Period(wp[first], channel2) / 2, first, Min(16, CAPTURED - first))
  {
    hide Or, BitMask;
    var ci, bitShift := first, 0;
    var wThreshold := Period(wp[ci], channel2) / 2;
    rawFrame := 0;
    while ci < CAPTURED
      invariant first <= ci <= CAPTURED && bitShift == ci - first < 16
      invariant rawFrame == ReadBits(wp, channel2, wThreshold, first, bitShift)
    {
      rawFrame := Or(rawFrame, if Width(wp[ci], channel2) < wThreshold then 0 else BitMask(bitShift));
      bitShift := bitShift + 1;
      if bitShift == 16 {
        break;
      }
      ci := ci + 1;
    }
  }

  // ---------- there and back ----------

  /** A capture of packet p behind a gap at index g: a pulse reaches half the first period exactly if it was
      sent for a one. */
  predicate Follows(wp: seq<WidthPeriod>, channel2: bool, g: nat, p: bv16) {
    && |wp| == CAPTURED && g + 1 < CAPTURED && Gap(wp, channel2, g)
    && forall i :: 0 <= i < Min(16, CAPTURED - 1 - g) ==> Reaches(wp, channel2, g, i) == Bit(p, i)
  }

  predicate Reaches(wp: seq<WidthPeriod>, channel2: bool, g: nat, i: nat)
    requires g + 1 + i < |wp|
  {
    Width(wp[g + 1 + i], channel2) >= Period(wp[g + 1], channel2) / 2
  }

  lemma {:induction false} BitsRead(wp: seq<WidthPeriod>, channel2: bool, g: nat, p: bv16, n: nat)
    requires Follows(wp, channel2, g, p) && n <= Min(16, CAPTURED - 1 - g)
    ensures ReadBits(wp, channel2, Period(wp[g + 1], channel2) / 2, g + 1, n) == High(p, n)
  {
    if n > 0 {
      BitsRead(wp, channel2, g, p, n - 1);
      assert Reaches(wp, channel2, g, n - 1) == Bit(p, n - 1);
      HighStep(p, n - 1);
    } else {
      assert And(p, 0) == 0;
    }
    hide High, Bit, Or, BitMask, Follows, Width, Period;
  }

  /** What a capture decodes to: with the gap late in it the last bits are missing and count as zero, and only
      the check sum tells. */
  lemma CaptureDecodes(wp: seq<WidthPeriod>, channel2: bool, g: nat, p: bv16)
    requires Follows(wp, channel2, g, p)
    ensures Guess(wp, channel2) == Checked(if g <= 15 then p else High(p, 31 - g))
  {
    BitsRead(wp, channel2, g, p, Min(16, CAPTURED - 1 - g));
    AllBits(p);
    GapIsFirst(wp, channel2, 0, g);
    hide High, Follows, Checked, ReadBits, FirstGap, Period;
  }

  /** The same in terms of what the timer captured, period and width on its second channel, width and period on its
      first: behind the first period of at least 1000, up to 16 widths against half the period that follows. */
  lemma GuessMeaning(wp: seq<WidthPeriod>, channel2: bool, g: nat, p: bv16)
    requires |wp| == 32 && g < 31
    requires if channel2 then wp[g].p >= 1000 && forall k :: 0 <= k < g ==> wp[k].p < 1000
             else wp[g].w >= 1000 && forall k :: 0 <= k < g ==> wp[k].w < 1000
    requires forall i :: 0 <= i < 16 && g + 1 + i < 32 ==>
               (Bit(p, i) <==> if channel2 then wp[g + 1 + i].w >= wp[g + 1].p / 2
                               else wp[g + 1 + i].p >= wp[g + 1].w / 2)
    ensures var q := if g <= 15 then p else High(p, 31 - g);
            Guess(wp, channel2) == if NibbleSum(q) == 0 then q else 0xFFFF
  {
    hide Bit, High, Guess, CrcOk, NibbleSum;
    CaptureDecodes(wp, channel2, g, p);
    CrcLaw(if g <= 15 then p else High(p, 31 - g));
  }

  /** Without a gap early enough there is nothing to decode. */
  lemma NoGapMeaning(wp: seq<WidthPeriod>, channel2: bool)
    requires |wp| == 32
    requires forall k :: 0 <= k < 31 ==> (if channel2 then wp[k].p else wp[k].w) < 1000
    ensures Guess(wp, channel2) == 0xFFFF
  {
    assert forall k :: 0 <= k < 31 ==> Period(wp[k], channel2) < 1000;
    GapIsFirst(wp, channel2, 0, if Period(wp[31], channel2) < 1000 then 32 else 31);
    hide FirstGap, Checked, ReadBits;
  }

  /** For every throttle and telemetry bit: the packet comes back when the gap is at index 15 or before.  With
      a later gap it comes back exactly when the bits cut off are zero, or when it is the packet that equals
      the error value and the check sum refuses what is left.  The inverted check sum of bidirectional DShot is
      refused, unless a gap at index 19 or later cuts all of it off and what is left has check sum 0. */
  lemma CommandRoundTrip(wp: seq<WidthPeriod>, channel2: bool, g: nat, p: bv16, bidir: bool)
    requires Follows(wp, channel2, g, Sealed(p, bidir))
    ensures g <= 15 ==> Guess(wp, channel2) == if bidir then BAD_FRAME else Sealed(p, bidir)
    ensures g > 15 ==> Guess(wp, channel2) == Checked(High(Sealed(p, bidir), 31 - g))
    ensures !bidir && g > 15 ==>
              var cut := High(Sealed(p, bidir), 31 - g);
              (Guess(wp, channel2) == Sealed(p, bidir) <==>
               cut == Sealed(p, bidir) || (Sealed(p, bidir) == BAD_FRAME && !CrcOk(cut)))
    ensures bidir ==>
              Guess(wp, channel2) ==
              if g >= 19 && Crc4(High(p, 31 - g)) == 0 then High(p, 31 - g) else BAD_FRAME
    ensures bidir && g >= 19 ==> High(p, 31 - g) != BAD_FRAME
  {
    CaptureDecodes(wp, channel2, g, Sealed(p, bidir));
    SealedIsValid(p, bidir);
    if g > 15 && bidir {
      InvertedCut(p, 31 - g);
    }
    hide Sealed, CrcOk, High, Guess, Follows, Crc4;
  }

  // the bit masks down to the check sum

  lemma {:induction false} MaskAtLeast16(k: nat)
    requires k <= 11
    ensures BitMask(k) >= 16
    decreases 11 - k
  {
    if k < 11 {
      MaskAtLeast16(k + 1);
      HalvedAtLeast16(BitMask(k));
    } else {
      assert BitMask(3) == 0x1000;
      assert BitMask(6) == 0x200;
      assert BitMask(9) == 0x40;
    }
  }

  lemma HalvedAtLeast16(m: bv16)
    requires Halved(m) >= 16
    ensures m >= 16
  {
  }

  lemma NibbleOfOr(x: bv16, m: bv16)
    requires Nibble(x) == 0 && Single(m) && m >= 16
    ensures Nibble(Or(x, m)) == 0
  {
  }

  lemma {:induction false} PayloadMask(n: nat)
    requires n <= 12
    ensures Nibble(HighMask(n)) == 0
  {
    if n > 0 {
      PayloadMask(n - 1);
      MaskIsSingle(n - 1);
      MaskAtLeast16(n - 1);
      NibbleOfOr(HighMask(n - 1), BitMask(n - 1));
    }
  }

  lemma CutPayload(p: bv16, h: bv16)
    requires Nibble(h) == 0
    ensures And(Sealed(p, true), h) == And(p, h) != BAD_FRAME
    ensures CrcOk(And(p, h)) <==> Crc4(And(p, h)) == 0
  {
  }

  lemma CutChecksum(p: bv16)
    ensures !CrcOk(And(Sealed(p, true), 0xFFFE))
    ensures !CrcOk(And(Sealed(p, true), 0xFFFC))
    ensures !CrcOk(And(Sealed(p, true), 0xFFF8))
  {
  }

  /** An inverted check sum of which a bit is left is wrong; with none left the cut packet must have sum 0. */
  lemma InvertedCut(p: bv16, n: nat)
    requires 1 <= n <= 15
    ensures n > 12 ==> !CrcOk(High(Sealed(p, true), n))
    ensures n <= 12 ==> High(Sealed(p, true), n) == High(p, n) != BAD_FRAME
    ensures n <= 12 ==> (CrcOk(High(p, n)) <==> Crc4(High(p, n)) == 0)
  {
    if n <= 12 {
      PayloadMask(n);
      CutPayload(p, HighMask(n));
    } else {
      LastMasks();
      HighMaskIsAbove(n);
      CutChecksum(p);
    }
    hide Sealed, CrcOk, Crc4, HighMask, BitMask, And, Above, Nibble;
  }

  lemma LastMasks()
    ensures BitMask(13) == 4 && BitMask(14) == 2 && BitMask(15) == 1
    ensures Above(4) == 0xFFF8 && Above(2) == 0xFFFC && Above(1) == 0xFFFE
  {
    LastMask();
    assert BitMask(3) == 0x1000;
    assert BitMask(6) == 0x200;
    assert BitMask(9) == 0x40;
    assert BitMask(12) == 8;
  }

  // ---------- timings ----------

  /** got counts of the receiving timer were measured for ticks of the sending one, to within one count;
      the receiving timer counts num times while the sending one counts den times. */
  predicate Measured(ticks: nat, num: nat, den: nat, got: nat) {
    got * den <= ticks * num + den && ticks * num <= got * den + den
  }

  function Pulse(p: bv16, duty: nat, i: nat): nat {
    Wave(p, duty, 2 * duty, i + PRE_FRAME)
  }

  /** A capture of the column of packet p, sent with a period of period ticks and pulses of duty and twice
      duty ticks. */
  predicate Captures(wp: seq<WidthPeriod>, channel2: bool, g: nat, p: bv16, period: nat, duty: nat, num: nat, den: nat) {
    && |wp| == CAPTURED && g + 1 < CAPTURED && Gap(wp, channel2, g)
    && Measured(period, num, den, Period(wp[g + 1], channel2))
    && forall i :: 0 <= i < Min(16, CAPTURED - 1 - g) ==> Measured(Pulse(p, duty, i), num, den, Width(wp[g + 1 + i], channel2))
  }

  /** The timings at which one count of error cannot turn a bit. */
  predicate Readable(period: nat, duty: nat, num: nat, den: nat) {
    den > 0 && period * num > 2 * (duty * num) + 4 * den && 4 * (duty * num) > period * num + den
  }

  lemma ScaleLeft(a: nat, b: nat, c: nat)
    requires a <= b
    ensures a * c <= b * c
  {
  }

  lemma ZeroStaysBelow(period: nat, duty: nat, num: nat, den: nat, w: nat, p: nat)
    requires Readable(period, duty, num, den) && Measured(period, num, den, p) && Measured(duty, num, den, w)
    ensures w < p / 2
  {
    ScaleLeft(p, 2 * (p / 2) + 1, den);
    if w >= p / 2 {
      ScaleLeft(p / 2, w, den);
      BelowHalf(duty * num, period * num, w * den, p / 2 * den, p * den, den);
    }
  }

  lemma BelowHalf(duty: int, period: int, w: int, half: int, p: int, den: int)
    requires period > 2 * duty + 4 * den
    requires w <= duty + den && period <= p + den && p <= 2 * half + den
    ensures w < half
  {
  }

  lemma OneReaches(period: nat, duty: nat, num: nat, den: nat, w: nat, p: nat)
    requires Readable(period, duty, num, den) && Measured(period, num, den, p) && Measured(2 * duty, num, den, w)
    ensures w >= p / 2
  {
    ScaleLeft(2 * (p / 2), p, den);
    assert 2 * duty * num == 2 * (duty * num);
    if w < p / 2 {
      ScaleLeft(w + 1, p / 2, den);
      ReachesHalf(duty * num, period * num, w * den, p / 2 * den, p * den, den);
    }
  }

  lemma ReachesHalf(duty: int, period: int, w: int, half: int, p: int, den: int)
    requires 4 * duty > period + den
    requires 2 * duty <= w + den && p <= period + den && 2 * half <= p
    ensures w + den > half
  {
  }

  lemma AtUnitSpeed(ticks: nat, num: nat, got: nat)
    requires got <= ticks * num + 1 && ticks * num <= got + 1
    ensures Measured(ticks, num, 1, got)
  {
  }

  lemma TwiceScaled(duty: nat, num: nat)
    ensures 2 * duty * num == 2 * (duty * num)
  {
  }

  /** A receiver that counts a whole number of times as fast as the sender reads every bit right, whatever the
      error of one count, exactly at these timings. */
  lemma ReadableIff(period: nat, duty: nat, num: nat)
    ensures Readable(period, duty, num, 1) <==>
            forall w0: nat, w1: nat, p: nat ::
              Measured(duty, num, 1, w0) && Measured(2 * duty, num, 1, w1) && Measured(period, num, 1, p) ==> w0 < p / 2 <= w1
  {
    hide Measured;
    var d, x := duty * num, period * num;
    TwiceScaled(duty, num);
    if Readable(period, duty, num, 1) {
      forall w0: nat, w1: nat, p: nat |
        Measured(duty, num, 1, w0) && Measured(2 * duty, num, 1, w1) && Measured(period, num, 1, p)
        ensures w0 < p / 2 <= w1
      {
        ZeroStaysBelow(period, duty, num, 1, w0, p);
        OneReaches(period, duty, num, 1, w1, p);
      }
    } else if x <= 2 * d + 4 {
      var p := if x > 0 then x - 1 else 0;
      AtUnitSpeed(duty, num, d + 1);
      AtUnitSpeed(2 * duty, num, 2 * d);
      AtUnitSpeed(period, num, p);
      assert !(d + 1 < p / 2);
    } else {
      var w1 := if d > 0 then 2 * d - 1 else 0;
      AtUnitSpeed(duty, num, d);
      AtUnitSpeed(2 * duty, num, w1);
      AtUnitSpeed(period, num, x + 1);
      assert !((x + 1) / 2 <= w1);
    }
  }

  /** The duty ratios in use, 333 and 373 in 1000, with at least 50 ticks and 16 counts in a period. */
  lemma UsualTimings(period: nat, ratio: nat, num: nat, den: nat)
    requires 333 <= ratio <= 373 && period >= 50 && den > 0 && period * num >= 16 * den
    ensures Readable(period, period * ratio / 1000, num, den)
  {
    var duty := period * ratio / 1000;
    ScaleLeft(333, ratio, period);
    ScaleLeft(ratio, 373, period);
    assert 313 * period <= 1000 * duty <= 373 * period;
    ScaleLeft(313 * period, 1000 * duty, num);
    ScaleLeft(1000 * duty, 373 * period, num);
    UsualBounds(duty * num, period * num, den);
  }

  lemma UsualBounds(duty: int, period: int, den: int)
    requires den > 0 && period >= 16 * den && 313 * period <= 1000 * duty <= 373 * period
    ensures period > 2 * duty + 4 * den && 4 * duty > period + den
  {
  }

  /** What is sent is followed by what is captured, at readable timings. */
  lemma CaptureFollows(wp: seq<WidthPeriod>, channel2: bool, g: nat, p: bv16, period: nat, duty: nat, num: nat, den: nat)
    requires Readable(period, duty, num, den) && Captures(wp, channel2, g, p, period, duty, num, den)
    ensures Follows(wp, channel2, g, p)
  {
    forall i | 0 <= i < Min(16, CAPTURED - 1 - g)
      ensures Reaches(wp, channel2, g, i) == Bit(p, i)
    {
      var w, t := Width(wp[g + 1 + i], channel2), Period(wp[g + 1], channel2);
      assert Measured(Pulse(p, duty, i), num, den, w);
      if Bit(p, i) {
        OneReaches(period, duty, num, den, w, t);
      } else {
        ZeroStaysBelow(period, duty, num, den, w, t);
      }
    }
    hide Readable, Captures, Bit, Measured;
  }

  // ---------- captures that mislead ----------

  /** Pulses of 33 counts in periods of 100, and a gap at index g. */
  function ZeroPulses(g: nat): seq<WidthPeriod> {
    seq(CAPTURED, k => WidthPeriod(33, if k == g then GAP else 100))
  }

  lemma {:induction false} NoBits(p: bv16, n: nat, i: nat)
    requires High(p, n) == 0 && i < n
    ensures !Bit(p, i)
    decreases n
  {
    var m := BitMask(n - 1);
    HighStep(p, n - 1);
    OrZero(High(p, n - 1), if Bit(p, n - 1) then m else 0);
    BitOrNothing(p, n - 1);
    hide Or, BitMask, High;
    if i < n - 1 {
      NoBits(p, n - 1, i);
    }
  }

  lemma OrZero(x: bv16, y: bv16)
    requires Or(x, y) == 0
    ensures x == 0 && y == 0
  {
  }

  lemma ZeroPulsesFollow(g: nat, p: bv16)
    requires 15 < g < CAPTURED - 1 && High(p, 31 - g) == 0
    ensures Follows(ZeroPulses(g), true, g, p) && Captures(ZeroPulses(g), true, g, p, 100, 33, 1, 1)
  {
    hide Bit, High;
    forall i | 0 <= i < Min(16, CAPTURED - 1 - g)
      ensures !Bit(p, i)
    {
      NoBits(p, 31 - g, i);
    }
  }

  /** Throttle 0 with the telemetry bit, captured behind a gap at index 20, is read as throttle 0 without it;
      and throttle 0 with an inverted check sum, behind a gap at index 19, is read as a good packet. */
  lemma LateGapMisleads()
    ensures Captures(ZeroPulses(20), true, 20, Sealed(0x10, false), 100, 33, 1, 1) && Readable(100, 33, 1, 1)
    ensures Guess(ZeroPulses(20), true) == 0 != Sealed(0x10, false) && CrcOk(0)
    ensures Captures(ZeroPulses(19), true, 19, Sealed(0, true), 100, 33, 1, 1)
    ensures Guess(ZeroPulses(19), true) == 0 && !CrcOk(Sealed(0, true))
  {
    assert Sealed(0x10, false) == 0x11 && Sealed(0, true) == 0xF && CrcOk(0) && !CrcOk(0xF);
    HighMasks11And12();
    assert And(0x11, 0xFFE0) == 0 && And(0xF, 0xFFF0) == 0;
    hide Captures, Guess, Sealed, CrcOk, HighMask, And;
    ZeroPulsesFollow(20, 0x11);
    ZeroPulsesFollow(19, 0xF);
    CaptureDecodes(ZeroPulses(20), true, 20, 0x11);
    CaptureDecodes(ZeroPulses(19), true, 19, 0xF);
  }

  lemma HighMasks11And12()
    ensures HighMask(11) == 0xFFE0 && HighMask(12) == 0xFFF0
  {
    assert BitMask(3) == 0x1000;
    assert BitMask(6) == 0x200;
    assert BitMask(9) == 0x40;
    assert BitMask(12) == 8 && BitMask(11) == 0x10;
    HighMaskIsAbove(11);
    HighMaskIsAbove(12);
    assert Above(8) == 0xFFF0 && Above(0x10) == 0xFFE0;
  }
}
