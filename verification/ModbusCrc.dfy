/** crc16_modbus.c: the check sum of MODBUS over a serial line, by table.

    Section 6.2.2 of the MODBUS over Serial Line Specification and Implementation Guide V1.02 defines it bit
    by bit: the register starts with ones; every byte is xored into its low half; eight times the register
    is shifted right, and xored with 0xA001 when a one falls out. */
module ModbusCrc {

  // ---------- bit by bit ----------

  function Xor(x: bv16, y: bv16): bv16 { x ^ y }
  function Low(x: bv16): bv16 { x & 0xFF }
  function Drop8(x: bv16): bv16 { x >> 8 }
  function Wide(b: bv8): bv16 { b as bv16 }

  function Halved(x: bv16): bv16 { x >> 1 }
  predicate Odd(x: bv16) { x & 1 == 1 }

  function Shift(x: bv16): bv16 {
    if Odd(x) then Xor(Halved(x), 0xA001) else Halved(x)
  }

  function Twice(x: bv16): bv16 { Shift(Shift(x)) }
  function Eight(x: bv16): bv16 { Twice(Twice(Twice(Twice(x)))) }

  function Crc(message: seq<bv8>): bv16 {
    CrcFrom(0xFFFF, message)
  }

  function CrcFrom(start: bv16, message: seq<bv8>): bv16 {
    if message == [] then start
    else Eight(Xor(CrcFrom(start, message[..|message| - 1]), Wide(message[|message| - 1])))
  }

  // ---------- the register is linear ----------

  lemma XorHalved(x: bv16, y: bv16)
    ensures Halved(Xor(x, y)) == Xor(Halved(x), Halved(y))
    ensures Odd(Xor(x, y)) <==> Odd(x) != Odd(y)
  {
  }

  lemma XorRegroup(x: bv16, y: bv16, a: bv16)
    ensures Xor(Xor(x, a), y) == Xor(Xor(x, y), a)
    ensures Xor(x, Xor(y, a)) == Xor(Xor(x, y), a)
    ensures Xor(Xor(x, a), Xor(y, a)) == Xor(x, y)
  {
  }

  lemma ShiftLinear(x: bv16, y: bv16)
    ensures Shift(Xor(x, y)) == Xor(Shift(x), Shift(y))
  {
    XorHalved(x, y);
    XorRegroup(Halved(x), Halved(y), 0xA001);
    hide Xor, Halved, Odd;
  }

  lemma TwiceLinear(x: bv16, y: bv16)
    ensures Twice(Xor(x, y)) == Xor(Twice(x), Twice(y))
  {
    ShiftLinear(x, y);
    ShiftLinear(Shift(x), Shift(y));
    hide Shift, Xor;
  }

  lemma EightLinear(x: bv16, y: bv16)
    ensures Eight(Xor(x, y)) == Xor(Eight(x), Eight(y))
  {
    hide Twice, Xor;
    var x2, y2 := Twice(x), Twice(y);
    var x4, y4 := Twice(x2), Twice(y2);
    TwiceLinear(x, y);
    TwiceLinear(x2, y2);
    TwiceLinear(x4, y4);
    TwiceLinear(Twice(x4), Twice(y4));
  }

  // the upper half falls through
  lemma EightOfHigh(x: bv16)
    requires Low(x) == 0
    ensures Eight(x) == Drop8(x)
  {
    assert Twice(x) == x >> 2;
    assert Twice(x >> 2) == x >> 4;
    assert Twice(x >> 4) == x >> 6;
    assert Twice(x >> 6) == x >> 8;
  }

  function High(x: bv16): bv16 { x & 0xFF00 }

  lemma Halves(x: bv16)
    ensures Xor(High(x), Low(x)) == x && Low(High(x)) == 0 && Drop8(High(x)) == Drop8(x)
  {
  }

  lemma EightByTable(x: bv16)
    ensures Eight(x) == Xor(Drop8(x), Eight(Low(x)))
  {
    Halves(x);
    EightLinear(High(x), Low(x));
    EightOfHigh(High(x));
    hide Eight, Xor, High, Low, Drop8;
  }

  // ---------- by table ----------

  /** The table, eight entries a row. */
  function Row(r: bv8): (row: seq<bv16>)
    ensures |row| == 8
  {
    match r
    case 0 => [0x0000, 0xC0C1, 0xC181, 0x0140, 0xC301, 0x03C0, 0x0280, 0xC241]
    case 1 => [0xC601, 0x06C0, 0x0780, 0xC741, 0x0500, 0xC5C1, 0xC481, 0x0440]
    case 2 => [0xCC01, 0x0CC0, 0x0D80, 0xCD41, 0x0F00, 0xCFC1, 0xCE81, 0x0E40]
    case 3 => [0x0A00, 0xCAC1, 0xCB81, 0x0B40, 0xC901, 0x09C0, 0x0880, 0xC841]
    case 4 => [0xD801, 0x18C0, 0x1980, 0xD941, 0x1B00, 0xDBC1, 0xDA81, 0x1A40]
    case 5 => [0x1E00, 0xDEC1, 0xDF81, 0x1F40, 0xDD01, 0x1DC0, 0x1C80, 0xDC41]
    case 6 => [0x1400, 0xD4C1, 0xD581, 0x1540, 0xD701, 0x17C0, 0x1680, 0xD641]
    case 7 => [0xD201, 0x12C0, 0x1380, 0xD341, 0x1100, 0xD1C1, 0xD081, 0x1040]
    case 8 => [0xF001, 0x30C0, 0x3180, 0xF141, 0x3300, 0xF3C1, 0xF281, 0x3240]
    case 9 => [0x3600, 0xF6C1, 0xF781, 0x3740, 0xF501, 0x35C0, 0x3480, 0xF441]
    case 10 => [0x3C00, 0xFCC1, 0xFD81, 0x3D40, 0xFF01, 0x3FC0, 0x3E80, 0xFE41]
    case 11 => [0xFA01, 0x3AC0, 0x3B80, 0xFB41, 0x3900, 0xF9C1, 0xF881, 0x3840]
    case 12 => [0x2800, 0xE8C1, 0xE981, 0x2940, 0xEB01, 0x2BC0, 0x2A80, 0xEA41]
    case 13 => [0xEE01, 0x2EC0, 0x2F80, 0xEF41, 0x2D00, 0xEDC1, 0xEC81, 0x2C40]
    case 14 => [0xE401, 0x24C0, 0x2580, 0xE541, 0x2700, 0xE7C1, 0xE681, 0x2640]
    case 15 => [0x2200, 0xE2C1, 0xE381, 0x2340, 0xE101, 0x21C0, 0x2080, 0xE041]
    case 16 => [0xA001, 0x60C0, 0x6180, 0xA141, 0x6300, 0xA3C1, 0xA281, 0x6240]
    case 17 => [0x6600, 0xA6C1, 0xA781, 0x6740, 0xA501, 0x65C0, 0x6480, 0xA441]
    case 18 => [0x6C00, 0xACC1, 0xAD81, 0x6D40, 0xAF01, 0x6FC0, 0x6E80, 0xAE41]
    case 19 => [0xAA01, 0x6AC0, 0x6B80, 0xAB41, 0x6900, 0xA9C1, 0xA881, 0x6840]
    case 20 => [0x7800, 0xB8C1, 0xB981, 0x7940, 0xBB01, 0x7BC0, 0x7A80, 0xBA41]
    case 21 => [0xBE01, 0x7EC0, 0x7F80, 0xBF41, 0x7D00, 0xBDC1, 0xBC81, 0x7C40]
    case 22 => [0xB401, 0x74C0, 0x7580, 0xB541, 0x7700, 0xB7C1, 0xB681, 0x7640]
    case 23 => [0x7200, 0xB2C1, 0xB381, 0x7340, 0xB101, 0x71C0, 0x7080, 0xB041]
    case 24 => [0x5000, 0x90C1, 0x9181, 0x5140, 0x9301, 0x53C0, 0x5280, 0x9241]
    case 25 => [0x9601, 0x56C0, 0x5780, 0x9741, 0x5500, 0x95C1, 0x9481, 0x5440]
    case 26 => [0x9C01, 0x5CC0, 0x5D80, 0x9D41, 0x5F00, 0x9FC1, 0x9E81, 0x5E40]
    case 27 => [0x5A00, 0x9AC1, 0x9B81, 0x5B40, 0x9901, 0x59C0, 0x5880, 0x9841]
    case 28 => [0x8801, 0x48C0, 0x4980, 0x8941, 0x4B00, 0x8BC1, 0x8A81, 0x4A40]
    case 29 => [0x4E00, 0x8EC1, 0x8F81, 0x4F40, 0x8D01, 0x4DC0, 0x4C80, 0x8C41]
    case 30 => [0x4400, 0x84C1, 0x8581, 0x4540, 0x8701, 0x47C0, 0x4680, 0x8641]
    case _ => [0x8201, 0x42C0, 0x4380, 0x8341, 0x4100, 0x81C1, 0x8081, 0x4040]
  }

  function Table(i: bv8): bv16 {
    Column(Row(i >> 3), i & 7)
  }

  function Column(row: seq<bv16>, j: bv8): bv16
    requires |row| == 8
  {
    match j
    case 0 => row[0]
    case 1 => row[1]
    case 2 => row[2]
    case 3 => row[3]
    case 4 => row[4]
    case 5 => row[5]
    case 6 => row[6]
    case _ => row[7]
  }

  function Entry(r: bv8, j: bv8): bv16 {
    Eight(Wide((r << 3) | j))
  }

  function BitwiseRow(r: bv8): seq<bv16> {
    [Entry(r, 0), Entry(r, 1), Entry(r, 2), Entry(r, 3), Entry(r, 4), Entry(r, 5), Entry(r, 6), Entry(r, 7)]
  }

  lemma FirstRows(r: bv8)
    requires r < 16
    ensures Row(r) == BitwiseRow(r)
  {
  }

  lemma LastRows(r: bv8)
    requires 16 <= r < 32
    ensures Row(r) == BitwiseRow(r)
  {
  }

  lemma RowIsBitwise(r: bv8)
    requires r < 32
    ensures Row(r) == BitwiseRow(r)
  {
    if r < 16 {
      FirstRows(r);
    } else {
      LastRows(r);
    }
    hide Row, BitwiseRow;
  }

  lemma ColumnOfRow(r: bv8, j: bv8)
    requires j < 8
    ensures Column(BitwiseRow(r), j) == Entry(r, j)
  {
    hide Entry;
  }

  lemma RowAndColumn(i: bv8)
    ensures i >> 3 < 32 && i & 7 < 8 && Entry(i >> 3, i & 7) == Eight(Wide(i))
  {
    assert ((i >> 3) << 3) | (i & 7) == i;
    hide Eight, Wide;
  }

  /** An entry is what eight shifts make of its index. */
  lemma TableIsBitwise(i: bv8)
    ensures Table(i) == Eight(Wide(i))
  {
    hide Row, BitwiseRow, Column, Entry, Eight, Wide;
    RowAndColumn(i);
    RowIsBitwise(i >> 3);
    ColumnOfRow(i >> 3, i & 7);
  }

  function Trunc(x: bv16): bv8 { (x & 0xFF) as bv8 }

  lemma TableIndex(crc: bv16, b: bv8)
    ensures Wide(Trunc(Xor(Wide(b), crc))) == Low(Xor(crc, Wide(b)))
    ensures Drop8(Xor(crc, Wide(b))) == Drop8(crc)
  {
  }

  /** One step by table is eight shifts of the register with the byte in its low half. */
  lemma TableStep(crc: bv16, b: bv8)
    ensures Xor(Drop8(crc), Table(Trunc(Xor(Wide(b), crc)))) == Eight(Xor(crc, Wide(b)))
  {
    TableIndex(crc, b);
    TableIsBitwise(Trunc(Xor(Wide(b), crc)));
    EightByTable(Xor(crc, Wide(b)));
    hide Table, Xor, Drop8, Eight, Low, Wide, Trunc;
  }

  /** modbus_crc16 */
  method ModbusCrc16(buf: seq<bv8>) returns (crc: bv16)
    ensures crc == Crc(buf)
  {
    hide Table, Xor, Drop8, Eight, Wide, Trunc;
    crc := 0xFFFF;
    for i := 0 to |buf|
      invariant crc == Crc(buf[..i])
    {
      TableStep(crc, buf[i]);
      assert buf[..i + 1][..i] == buf[..i];
      var xor := Trunc(Xor(Wide(buf[i]), crc));
      crc := Drop8(crc);
      crc := Xor(crc, Table(xor));
    }
    assert buf[..|buf|] == buf;
  }

  // ---------- what the check sum tells ----------

  lemma CrcStep(start: bv16, message: seq<bv8>, b: bv8)
    ensures CrcFrom(start, message + [b]) == Eight(Xor(CrcFrom(start, message), Wide(b)))
  {
    hide Eight, Xor, Wide;
    assert (message + [b])[..|message|] == message;
  }

  lemma {:induction false} InTwo(start: bv16, x: seq<bv8>, y: seq<bv8>)
    ensures CrcFrom(start, x + y) == CrcFrom(CrcFrom(start, x), y)
    decreases |y|
  {
    hide Eight, Xor, Wide;
    if y == [] {
      assert x + y == x;
    } else {
      var n := |y| - 1;
      assert (x + y)[..|x| + n] == x + y[..n];
      InTwo(start, x, y[..n]);
    }
  }

  lemma Residue(c: bv16)
    ensures var x := Xor(c, Wide(Trunc(c)));
            Low(x) == 0 && Drop8(x) == Drop8(c) && Xor(Drop8(c), Wide(Trunc(Drop8(c)))) == 0
  {
  }

  /** A message followed by its check sum, low byte first, has check sum 0. */
  lemma AppendedGivesZero(message: seq<bv8>)
    ensures Crc(message + [Trunc(Crc(message)), Trunc(Drop8(Crc(message)))]) == 0
  {
    var c := Crc(message);
    var lo, hi := Trunc(c), Trunc(Drop8(c));
    Residue(c);
    EightOfHigh(Xor(c, Wide(lo)));
    assert Eight(0) == 0;
    hide Eight, Xor, Wide, Trunc, Drop8, Low;
    CrcStep(0xFFFF, message, lo);
    CrcStep(0xFFFF, message + [lo], hi);
    assert message + [lo] + [hi] == message + [lo, hi];
  }

  function Unshift(y: bv16): bv16 {
    if y & 0x8000 != 0 then ((y ^ 0xA001) << 1) | 1 else y << 1
  }

  lemma ShiftBack(x: bv16)
    ensures Unshift(Shift(x)) == x
  {
  }

  lemma TwiceBack(x: bv16)
    ensures Unshift(Unshift(Twice(x))) == x
  {
    ShiftBack(x);
    ShiftBack(Shift(x));
    hide Shift, Unshift;
  }

  lemma EightInjective(x: bv16, y: bv16)
    ensures Eight(x) == Eight(y) <==> x == y
  {
    TwiceBack(x);
    TwiceBack(Twice(x));
    TwiceBack(Twice(Twice(x)));
    TwiceBack(Twice(Twice(Twice(x))));
    TwiceBack(y);
    TwiceBack(Twice(y));
    TwiceBack(Twice(Twice(y)));
    TwiceBack(Twice(Twice(Twice(y))));
    hide Twice, Unshift;
  }

  lemma XorTwice(x: bv16, a: bv16)
    ensures Xor(Xor(x, a), a) == x && Xor(a, x) == Xor(x, a)
  {
  }

  lemma XorZero(x: bv16, y: bv16)
    ensures Xor(x, y) == 0 ==> x == y
  {
  }

  lemma XorCancels(x: bv16, y: bv16, a: bv16)
    ensures Xor(x, a) == Xor(y, a) <==> x == y
    ensures Xor(a, x) == Xor(a, y) <==> x == y
    ensures Xor(x, y) == 0 ==> x == y
  {
    XorTwice(x, a);
    XorTwice(y, a);
    XorZero(x, y);
    hide Xor;
  }

  lemma WideInjective(a: bv8, b: bv8)
    ensures Wide(a) == Wide(b) <==> a == b
  {
  }

  /** The bytes that follow keep different registers different. */
  lemma {:induction false} CrcInjective(s: bv16, t: bv16, message: seq<bv8>)
    ensures CrcFrom(s, message) == CrcFrom(t, message) <==> s == t
    decreases |message|
  {
    hide Eight, Xor, Wide;
    if message != [] {
      var n := |message| - 1;
      var x, y, b := CrcFrom(s, message[..n]), CrcFrom(t, message[..n]), Wide(message[n]);
      CrcInjective(s, t, message[..n]);
      XorCancels(x, y, b);
      EightInjective(Xor(x, b), Xor(y, b));
    }
  }

  function Up8(x: bv16): bv16 { x << 8 }

  lemma UpAndDown(e: bv16, d: bv16)
    ensures Low(Up8(e)) == 0
    ensures Drop8(e) == 0 ==> Drop8(Up8(e)) == e
    ensures Low(d) == d && Low(d) == 0 ==> d == 0
  {
  }

  // a difference in one byte reaches the upper half
  lemma DifferenceSpreads(d: bv16)
    requires Low(d) == d && Drop8(Eight(d)) == 0
    ensures d == 0
  {
    var e := Eight(d);
    UpAndDown(e, d);
    EightOfHigh(Up8(e));
    EightInjective(Up8(e), d);
  }

  lemma SecondByteIsLow(p: bv16, q: bv16, b: bv8, b': bv8)
    requires Xor(p, Wide(b)) == Xor(q, Wide(b'))
    ensures Drop8(Xor(p, q)) == 0
  {
  }

  lemma XorOfBytes(c: bv16, a: bv8, a': bv8)
    ensures Xor(Xor(c, Wide(a)), Xor(c, Wide(a'))) == Xor(Wide(a), Wide(a'))
    ensures Low(Xor(Wide(a), Wide(a'))) == Xor(Wide(a), Wide(a'))
  {
  }

  lemma TwoBytesTell(c: bv16, a: bv8, b: bv8, a': bv8, b': bv8)
    requires Eight(Xor(Eight(Xor(c, Wide(a))), Wide(b))) == Eight(Xor(Eight(Xor(c, Wide(a'))), Wide(b')))
    ensures a == a' && b == b'
  {
    hide Eight, Xor, Wide, Low, Drop8;
    var x, x' := Xor(c, Wide(a)), Xor(c, Wide(a'));
    var p, q, d := Eight(x), Eight(x'), Xor(Wide(a), Wide(a'));
    EightInjective(Xor(p, Wide(b)), Xor(q, Wide(b')));
    SecondByteIsLow(p, q, b, b');
    XorOfBytes(c, a, a');
    EightLinear(x, x');
    DifferenceSpreads(d);
    XorCancels(Wide(a), Wide(a'), 0);
    XorCancels(Wide(b), Wide(b'), p);
    WideInjective(a, a');
    WideInjective(b, b');
  }

  /** Damage to two neighbouring bytes never goes unnoticed, wherever it is. */
  lemma DamageDetected(before: seq<bv8>, a: bv8, b: bv8, a': bv8, b': bv8, after: seq<bv8>)
    ensures Crc(before + [a, b] + after) == Crc(before + [a', b'] + after) <==> a == a' && b == b'
  {
    hide Eight, Xor, Wide;
    var c := Crc(before);
    InTwo(0xFFFF, before + [a, b], after);
    InTwo(0xFFFF, before + [a', b'], after);
    CrcInjective(Crc(before + [a, b]), Crc(before + [a', b']), after);
    CrcStep(0xFFFF, before, a);
    CrcStep(0xFFFF, before + [a], b);
    CrcStep(0xFFFF, before, a');
    CrcStep(0xFFFF, before + [a'], b');
    assert before + [a] + [b] == before + [a, b];
    assert before + [a'] + [b'] == before + [a', b'];
    if Crc(before + [a, b]) == Crc(before + [a', b']) {
      TwoBytesTell(c, a, b, a', b');
    }
  }

  /** So the two bytes that give 0 are the check sum, and no others. */
  lemma ZeroIffChecksum(message: seq<bv8>, lo: bv8, hi: bv8)
    ensures Crc(message + [lo, hi]) == 0 <==> lo == Trunc(Crc(message)) && hi == Trunc(Drop8(Crc(message)))
  {
    AppendedGivesZero(message);
    var lo', hi' := Trunc(Crc(message)), Trunc(Drop8(Crc(message)));
    DamageDetected(message, lo, hi, lo', hi', []);
    hide Crc, Trunc, Drop8;
    assert message + [lo, hi] + [] == message + [lo, hi];
    assert message + [lo', hi'] + [] == message + [lo', hi'];
  }

  /** The register after each of the nine digits 1 to 9 as characters. */
  lemma Digits()
    ensures Eight(Xor(0xFFFF, Wide(0x31))) == 0x947E
    ensures Eight(Xor(0x947E, Wide(0x32))) == 0xF595
    ensures Eight(Xor(0xF595, Wide(0x33))) == 0x7A75
    ensures Eight(Xor(0x7A75, Wide(0x34))) == 0x30BA
    ensures Eight(Xor(0x30BA, Wide(0x35))) == 0xA471
    ensures Eight(Xor(0xA471, Wide(0x36))) == 0x32E4
    ensures Eight(Xor(0x32E4, Wide(0x37))) == 0x9D73
    ensures Eight(Xor(0x9D73, Wide(0x38))) == 0x37DD
    ensures Eight(Xor(0x37DD, Wide(0x39))) == 0x4B37
  {
  }

  lemma NextDigit(before: seq<bv8>, b: bv8, c: bv16, c': bv16)
    requires Crc(before) == c && Eight(Xor(c, Wide(b))) == c'
    ensures Crc(before + [b]) == c'
  {
    CrcStep(0xFFFF, before, b);
    hide Eight, Xor, Wide;
  }

  lemma FirstDigit()
    ensures Crc([0x31]) == 0x947E
  {
    Digits();
    hide Eight, Xor, Wide;
    assert [0x31][..0] == [];
  }

  /** The check value of this sum, that of the nine digits. */
  lemma CheckValue()
    ensures Crc([0x31, 0x32, 0x33, 0x34, 0x35, 0x36, 0x37, 0x38, 0x39]) == 0x4B37
  {
    hide Eight, Xor, Wide, Crc;
    Digits();
    var d1: seq<bv8> := [0x31];
    FirstDigit();
    var d2: seq<bv8> := d1 + [0x32];
    NextDigit(d1, 0x32, 0x947E, 0xF595);
    var d3: seq<bv8> := d2 + [0x33];
    NextDigit(d2, 0x33, 0xF595, 0x7A75);
    var d4: seq<bv8> := d3 + [0x34];
    NextDigit(d3, 0x34, 0x7A75, 0x30BA);
    var d5: seq<bv8> := d4 + [0x35];
    NextDigit(d4, 0x35, 0x30BA, 0xA471);
    var d6: seq<bv8> := d5 + [0x36];
    NextDigit(d5, 0x36, 0xA471, 0x32E4);
    var d7: seq<bv8> := d6 + [0x37];
    NextDigit(d6, 0x37, 0x32E4, 0x9D73);
    var d8: seq<bv8> := d7 + [0x38];
    NextDigit(d7, 0x38, 0x9D73, 0x37DD);
    var d9: seq<bv8> := d8 + [0x39];
    NextDigit(d8, 0x39, 0x37DD, 0x4B37);
    assert d9 == [0x31, 0x32, 0x33, 0x34, 0x35, 0x36, 0x37, 0x38, 0x39];
  }
}
