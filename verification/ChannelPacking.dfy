/** Sixteen 11-bit channels in 22 bytes, low bit first, as S.Bus and F.Port pack them
    (futabaSbusSio.cpp and frskyFport_fsm.c).  Eight channels fill eleven bytes, twice. */
module ChannelPacking {

  import opened ChannelBits

  function Byte(x: bv16): bv8 { (x & 0xff) as bv8 }

  function DecodeHalf(b: seq<bv8>): (c: seq<bv16>)
    requires |b| == 11
    ensures |c| == 8
  {
    [ From0(b[0], b[1]), From3(b[1], b[2]), From6(b[2], b[3], b[4]), From1(b[4], b[5]),
      From4(b[5], b[6]), From7(b[6], b[7], b[8]), From2(b[8], b[9]), From5(b[9], b[10]) ]
  }

  function EncodeHalf(c: seq<bv16>): (b: seq<bv8>)
    requires |c| == 8
    ensures |b| == 11
  {
    [ Byte(Low11(c[0])),
      Byte((Low11(c[0]) >> 8) | (Low11(c[1]) << 3)),
      Byte((Low11(c[1]) >> 5) | (Low11(c[2]) << 6)),
      Byte(Low11(c[2]) >> 2),
      Byte((Low11(c[2]) >> 10) | (Low11(c[3]) << 1)),
      Byte((Low11(c[3]) >> 7) | (Low11(c[4]) << 4)),
      Byte((Low11(c[4]) >> 4) | (Low11(c[5]) << 7)),
      Byte(Low11(c[5]) >> 1),
      Byte((Low11(c[5]) >> 9) | (Low11(c[6]) << 2)),
      Byte((Low11(c[6]) >> 6) | (Low11(c[7]) << 5)),
      Byte(Low11(c[7]) >> 3) ]
  }

  lemma DecodeEncode0(c: seq<bv16>)
    requires |c| == 8
    ensures var d := DecodeHalf(EncodeHalf(c)); d[0] == Low11(c[0]) && d[1] == Low11(c[1])
  {
  }

  lemma DecodeEncode1(c: seq<bv16>)
    requires |c| == 8
    ensures var d := DecodeHalf(EncodeHalf(c)); d[2] == Low11(c[2]) && d[3] == Low11(c[3])
  {
  }

  lemma DecodeEncode2(c: seq<bv16>)
    requires |c| == 8
    ensures var d := DecodeHalf(EncodeHalf(c)); d[4] == Low11(c[4]) && d[5] == Low11(c[5])
  {
  }

  lemma DecodeEncode3(c: seq<bv16>)
    requires |c| == 8
    ensures var d := DecodeHalf(EncodeHalf(c)); d[6] == Low11(c[6]) && d[7] == Low11(c[7])
  {
  }

  lemma DecodeEncodeHalf(c: seq<bv16>)
    requires |c| == 8
    ensures forall k :: 0 <= k < 8 ==> DecodeHalf(EncodeHalf(c))[k] == Low11(c[k])
  {
    hide DecodeHalf, EncodeHalf, Low11;
    DecodeEncode0(c);
    DecodeEncode1(c);
    DecodeEncode2(c);
    DecodeEncode3(c);
  }

  lemma EncodeDecode0(b: seq<bv8>)
    requires |b| == 11
    ensures var e := EncodeHalf(DecodeHalf(b)); e[0] == b[0] && e[1] == b[1] && e[2] == b[2]
  {
  }

  lemma EncodeDecode1(b: seq<bv8>)
    requires |b| == 11
    ensures var e := EncodeHalf(DecodeHalf(b)); e[3] == b[3] && e[4] == b[4] && e[5] == b[5]
  {
  }

  lemma EncodeDecode2(b: seq<bv8>)
    requires |b| == 11
    ensures var e := EncodeHalf(DecodeHalf(b)); e[6] == b[6] && e[7] == b[7] && e[8] == b[8]
  {
  }

  lemma EncodeDecode3(b: seq<bv8>)
    requires |b| == 11
    ensures var e := EncodeHalf(DecodeHalf(b)); e[9] == b[9] && e[10] == b[10]
  {
  }

  lemma EncodeDecodeHalf(b: seq<bv8>)
    requires |b| == 11
    ensures EncodeHalf(DecodeHalf(b)) == b
  {
    hide DecodeHalf, EncodeHalf;
    EncodeDecode0(b);
    EncodeDecode1(b);
    EncodeDecode2(b);
    EncodeDecode3(b);
  }

  // ---------- the layout ----------

  /** Bit n of a row of bytes, the lowest bit of each byte first. */
  predicate BitOfRow(b: seq<bv8>, n: nat)
    requires n < 8 * |b|
  {
    BitOf(Wide(b[n / 8]), n % 8)
  }

  lemma RowOfThree(b: seq<bv8>, j: nat, n: nat, b2: bv8)
    requires j + 1 < |b| && n < 24 && 8 * j + n < 8 * |b| && (j + 2 < |b| ==> b2 == b[j + 2])
    ensures BitOfRow(b, 8 * j + n) <==> BitOfThree(b[j], b[j + 1], b2, n)
  {
    hide BitOf;
  }

  function Third(b: seq<bv8>, j: nat): bv8 {
    if j + 2 < |b| then b[j + 2] else 0
  }

  lemma ThirdIs(b: seq<bv8>, j: nat)
    ensures j + 2 < |b| ==> Third(b, j) == b[j + 2]
  {
  }

  /** Channel k is cut out of the bytes from b[j] on, o bits behind their start. */
  predicate IsCutOut(b: seq<bv8>, x: bv16, j: nat, o: nat)
    requires j + 1 < |b|
  {
    CutOut(x, b[j], b[j + 1], Third(b, j), o)
  }

  lemma FirstChannels(b: seq<bv8>)
    requires |b| == 11
    ensures var c := DecodeHalf(b);
            IsCutOut(b, c[0], 0, 0) && IsCutOut(b, c[1], 1, 3) && IsCutOut(b, c[2], 2, 6) && IsCutOut(b, c[3], 4, 1)
  {
    hide CutOut, From0, From1, From2, From3, From4, From5, From6, From7;
    From0CutsOut(b[0], b[1], Third(b, 0));
    From3CutsOut(b[1], b[2], Third(b, 1));
    From6CutsOut(b[2], b[3], Third(b, 2));
    From1CutsOut(b[4], b[5], Third(b, 4));
  }

  lemma LastChannels(b: seq<bv8>)
    requires |b| == 11
    ensures var c := DecodeHalf(b);
            IsCutOut(b, c[4], 5, 4) && IsCutOut(b, c[5], 6, 7) && IsCutOut(b, c[6], 8, 2) && IsCutOut(b, c[7], 9, 5)
  {
    hide CutOut, From0, From1, From2, From3, From4, From5, From6, From7;
    From4CutsOut(b[5], b[6], Third(b, 5));
    From7CutsOut(b[6], b[7], Third(b, 6));
    From2CutsOut(b[8], b[9], Third(b, 8));
    From5CutsOut(b[9], b[10], Third(b, 9));
  }

  lemma ChannelCutOut(b: seq<bv8>, k: nat)
    requires |b| == 11 && k < 8
    ensures var j := 11 * k / 8; j + 1 < 11 && IsCutOut(b, DecodeHalf(b)[k], j, 11 * k % 8)
  {
    hide IsCutOut, DecodeHalf;
    FirstChannels(b);
    LastChannels(b);
  }

  /** Channel k is the eleven bits from bit 11 * k of the row on. */
  lemma ChannelLayout(b: seq<bv8>, k: nat, i: nat)
    requires |b| == 11 && k < 8 && i < 11
    ensures BitOf(DecodeHalf(b)[k], i) <==> BitOfRow(b, 11 * k + i)
    ensures DecodeHalf(b)[k] < 2048
  {
    hide DecodeHalf, BitOf, BitOfThree, BitOfRow, Third;
    var j, o := 11 * k / 8, 11 * k % 8;
    ChannelCutOut(b, k);
    ThirdIs(b, j);
    RowOfThree(b, j, o + i, Third(b, j));
    assert 8 * j + (o + i) == 11 * k + i;
  }

  function DecodeBoth(row: seq<bv8>): (c: seq<bv16>)
    requires |row| == 22
    ensures |c| == 16
  {
    DecodeHalf(row[..11]) + DecodeHalf(row[11..])
  }

  lemma RowPart(row: seq<bv8>, from: nat, part: seq<bv8>, n: nat)
    requires from + |part| <= |row| && part == row[from..from + |part|] && n < 8 * |part|
    ensures BitOfRow(part, n) <==> BitOfRow(row, 8 * from + n)
  {
    hide BitOf;
    assert (8 * from + n) / 8 == from + n / 8 && (8 * from + n) % 8 == n % 8;
  }

  /** The same for all sixteen channels in 22 bytes. */
  lemma SixteenChannelsLayout(row: seq<bv8>, k: nat, i: nat)
    requires |row| == 22 && k < 16 && i < 11
    ensures BitOf(DecodeBoth(row)[k], i) <==> BitOfRow(row, 11 * k + i)
    ensures DecodeBoth(row)[k] < 2048
  {
    hide DecodeHalf, BitOf, BitOfRow;
    if k < 8 {
      ChannelLayout(row[..11], k, i);
      RowPart(row, 0, row[..11], 11 * k + i);
    } else {
      ChannelLayout(row[11..], k - 8, i);
      RowPart(row, 11, row[11..], 11 * (k - 8) + i);
    }
  }
}
