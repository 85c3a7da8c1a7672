/** The line code of dshot_erps.c: GCR symbols, level coding, and the driver object. */
module DshotLine {
  import opened DshotErps

  // ---------- level coding ----------

  function Xor(x: bv32, y: bv32): bv32 { x ^ y }
  function Shr1(x: bv32): bv32 { x >> 1 }
  function Shr2(x: bv32): bv32 { x >> 2 }
  function Shr4(x: bv32): bv32 { x >> 4 }
  function Shr8(x: bv32): bv32 { x >> 8 }
  function Shr16(x: bv32): bv32 { x >> 16 }

  // The five steps of greyEncode: num ^= num >> k.
  function Fold16(num: bv32): bv32 { Xor(num, Shr16(num)) }
  function Fold8(num: bv32): bv32 { Xor(num, Shr8(num)) }
  function Fold4(num: bv32): bv32 { Xor(num, Shr4(num)) }
  function Fold2(num: bv32): bv32 { Xor(num, Shr2(num)) }
  function Fold1(num: bv32): bv32 { Xor(num, Shr1(num)) }

  /** greyEncode: bit i of the result is the exclusive or of bits i and above. */
  function GreyEncode(num: bv32): bv32 {
    Fold1(Fold2(Fold4(Fold8(Fold16(num)))))
  }

  function GreyDecode(num: bv32): bv32 {
    Xor(num, Shr1(num))
  }

  lemma XorChain(a: bv32, b: bv32, c: bv32)
    ensures Xor(Xor(a, b), Xor(b, c)) == Xor(a, c)
  {
  }

  // Shifting distributes over exclusive or, and a shift by k done twice is a shift by 2k.
  lemma ShiftXor1(x: bv32, y: bv32)
    ensures Shr1(Xor(x, y)) == Xor(Shr1(x), Shr1(y)) && Shr1(Shr1(x)) == Shr2(x)
  {
  }

  lemma ShiftXor2(x: bv32, y: bv32)
    ensures Shr2(Xor(x, y)) == Xor(Shr2(x), Shr2(y)) && Shr2(Shr2(x)) == Shr4(x)
  {
  }

  lemma ShiftXor4(x: bv32, y: bv32)
    ensures Shr4(Xor(x, y)) == Xor(Shr4(x), Shr4(y)) && Shr4(Shr4(x)) == Shr8(x)
  {
  }

  lemma ShiftXor8(x: bv32, y: bv32)
    ensures Shr8(Xor(x, y)) == Xor(Shr8(x), Shr8(y)) && Shr8(Shr8(x)) == Shr16(x)
  {
  }

  lemma ShiftXor16(x: bv32, y: bv32)
    ensures Shr16(Xor(x, y)) == Xor(Shr16(x), Shr16(y)) && Shr16(Shr16(x)) == 0
  {
  }

  // Folding a fold folds twice as far.
  lemma FoldTwice1(x: bv32)
    ensures GreyDecode(Fold1(x)) == Fold2(x)
  {
    ShiftXor1(x, Shr1(x));
    XorChain(x, Shr1(x), Shr1(Shr1(x)));
    hide Xor, Shr1, Shr2, Shr4, Shr8, Shr16;
  }

  lemma FoldTwice2(x: bv32)
    ensures Fold2(Fold2(x)) == Fold4(x)
  {
    ShiftXor2(x, Shr2(x));
    XorChain(x, Shr2(x), Shr2(Shr2(x)));
    hide Xor, Shr1, Shr2, Shr4, Shr8, Shr16;
  }

  lemma FoldTwice4(x: bv32)
    ensures Fold4(Fold4(x)) == Fold8(x)
  {
    ShiftXor4(x, Shr4(x));
    XorChain(x, Shr4(x), Shr4(Shr4(x)));
    hide Xor, Shr1, Shr2, Shr4, Shr8, Shr16;
  }

  lemma FoldTwice8(x: bv32)
    ensures Fold8(Fold8(x)) == Fold16(x)
  {
    ShiftXor8(x, Shr8(x));
    XorChain(x, Shr8(x), Shr8(Shr8(x)));
    hide Xor, Shr1, Shr2, Shr4, Shr8, Shr16;
  }

  lemma FoldTwice16(x: bv32)
    ensures Fold16(Fold16(x)) == x
  {
    assert Xor(x, 0) == x;
    ShiftXor16(x, Shr16(x));
    XorChain(x, Shr16(x), Shr16(Shr16(x)));
    hide Xor, Shr1, Shr2, Shr4, Shr8, Shr16;
  }

  /** Decoding undoes encoding for every 32-bit word. */
  lemma GreyRoundTrip(num: bv32)
    ensures GreyDecode(GreyEncode(num)) == num
  {
    hide Fold1, Fold2, Fold4, Fold8, Fold16, GreyDecode, Xor;
    FoldTwice16(num);
    FoldTwice8(Fold16(num));
    FoldTwice4(Fold8(Fold16(num)));
    FoldTwice2(Fold4(Fold8(Fold16(num))));
    FoldTwice1(Fold2(Fold4(Fold8(Fold16(num)))));
  }

  lemma GreyKeepsWidth(num: bv32)
    requires num >> 20 == 0
    ensures GreyEncode(num) >> 20 == 0
  {
  }

  // ---------- GCR ----------

  function GcrNibble(n: bv32): bv32 {
    match n
    case 0 => 0x19 case 1 => 0x1B case 2 => 0x12 case 3 => 0x13
    case 4 => 0x1D case 5 => 0x15 case 6 => 0x16 case 7 => 0x17
    case 8 => 0x1A case 9 => 0x09 case 10 => 0x0A case 11 => 0x0B
    case 12 => 0x1E case 13 => 0x0D case 14 => 0x0E case _ => 0x0F
  }

  const INVALID: bv32 := 0xff

  function GcrNibbleInv(s: bv32): bv32 {
    match s
    case 0x09 => 0x9 case 0x0A => 0xa case 0x0B => 0xb case 0x0D => 0xd case 0x0E => 0xe case 0x0F => 0xf
    case 0x12 => 0x2 case 0x13 => 0x3 case 0x15 => 0x5 case 0x16 => 0x6 case 0x17 => 0x7
    case 0x19 => 0x0 case 0x1A => 0x8 case 0x1B => 0x1 case 0x1D => 0x4 case 0x1E => 0xc
    case _ => INVALID
  }

  lemma NibbleRoundTrip(n: bv32)
    requires n <= 15
    ensures GcrNibbleInv(GcrNibble(n)) == n && GcrNibble(n) <= 31
  {
  }

  lemma SymbolRoundTrip(s: bv32)
    requires s <= 31 && GcrNibbleInv(s) != INVALID
    ensures GcrNibble(GcrNibbleInv(s)) == s && GcrNibbleInv(s) <= 15
  {
  }

  /** No 00 at either end, no 000 inside. */
  predicate ShortRuns(s: bv32) {
    s & 0x18 != 0 && s & 3 != 0 && s & 0xE != 0
  }

  /** The code by a rule: a nibble is kept, with a one in front if its high bit is not set.  Where that makes a run
      too long, one or two more ones break it: after an even nibble below 8 the last bit, after the other one the
      last but one, and the fourth; after one from 8 on the first and the last but one. */
  lemma GcrRule(n: bv32)
    requires n <= 15
    ensures var kept := if n >= 8 then n else 0x10 | n;
            && ShortRuns(GcrNibble(n)) && GcrNibble(n) != 0x1F
            && GcrNibble(n) == (if ShortRuns(kept) then kept
                                else if n >= 8 then n | 0x12
                                else if n & 1 == 0 then kept | 9
                                else kept | 10)
  {
  }

  function Or(x: bv32, y: bv32): bv32 { x | y }
  function Low5(x: bv32): bv32 { x & 0x1f }
  function Low4(x: bv32): bv32 { x & 0xf }
  function Drop5(x: bv32): bv32 { x >> 5 }
  function Drop4(x: bv32): bv32 { x >> 4 }

  /** x << 5*i and x << 4*i, the shift of the i-th symbol and of the i-th nibble. */
  function ToSymbol(x: bv32, i: nat): bv32 {
    if i == 0 then x else if i == 1 then x << 5 else if i == 2 then x << 10 else x << 15
  }

  function ToNibble(x: bv32, i: nat): bv32 {
    if i == 0 then x else if i == 1 then x << 4 else if i == 2 then x << 8 else x << 12
  }

  /** Four fields of five bits, low field first; four fields of four bits. */
  function Symbols(a: bv32, b: bv32, c: bv32, d: bv32): bv32 {
    Or(Or(Or(Or(0, ToSymbol(a, 0)), ToSymbol(b, 1)), ToSymbol(c, 2)), ToSymbol(d, 3))
  }

  function Nibbles(a: bv32, b: bv32, c: bv32, d: bv32): bv32 {
    Or(Or(Or(Or(0, ToNibble(a, 0)), ToNibble(b, 1)), ToNibble(c, 2)), ToNibble(d, 3))
  }

  /** What the loops have left of their argument after i turns. */
  function LeftOfSymbols(w: bv32, i: nat): bv32 {
    if i == 0 then w else if i == 1 then w >> 5 else if i == 2 then w >> 10 else if i == 3 then w >> 15 else w >> 20
  }

  function LeftOfNibbles(w: bv32, i: nat): bv32 {
    if i == 0 then w else if i == 1 then w >> 4 else if i == 2 then w >> 8 else if i == 3 then w >> 12 else w >> 16
  }

  function Symbol(w: bv32, i: nat): bv32 {
    Low5(LeftOfSymbols(w, i))
  }

  function Nibble(w: bv32, i: nat): bv32 {
    Low4(LeftOfNibbles(w, i))
  }

  function GcrEncode(w: bv32): bv32 {
    Symbols(GcrNibble(Nibble(w, 0)), GcrNibble(Nibble(w, 1)), GcrNibble(Nibble(w, 2)), GcrNibble(Nibble(w, 3)))
  }

  predicate AllGcr(w: bv32) {
    forall i :: 0 <= i < 4 ==> GcrNibbleInv(Symbol(w, i)) != INVALID
  }

  /** Any symbol outside the code makes the whole word read as 0. */
  function GcrDecode(w: bv32): bv32 {
    if AllGcr(w) then
      Nibbles(GcrNibbleInv(Symbol(w, 0)), GcrNibbleInv(Symbol(w, 1)), GcrNibbleInv(Symbol(w, 2)), GcrNibbleInv(Symbol(w, 3)))
    else 0
  }

  lemma SymbolsFields(a: bv32, b: bv32, c: bv32, d: bv32)
    requires a <= 31 && b <= 31 && c <= 31 && d <= 31
    ensures var w := Symbols(a, b, c, d);
            Symbol(w, 0) == a && Symbol(w, 1) == b && Symbol(w, 2) == c && Symbol(w, 3) == d && w >> 20 == 0
  {
  }

  lemma NibblesFields(a: bv32, b: bv32, c: bv32, d: bv32)
    requires a <= 15 && b <= 15 && c <= 15 && d <= 15
    ensures var w := Nibbles(a, b, c, d);
            Nibble(w, 0) == a && Nibble(w, 1) == b && Nibble(w, 2) == c && Nibble(w, 3) == d && w >> 16 == 0
  {
  }

  lemma FieldsOfWord(w: bv32)
    ensures w >> 16 == 0 ==> Nibbles(Nibble(w, 0), Nibble(w, 1), Nibble(w, 2), Nibble(w, 3)) == w
    ensures Symbols(Symbol(w, 0), Symbol(w, 1), Symbol(w, 2), Symbol(w, 3)) == w & 0xFFFFF
    ensures forall i :: 0 <= i < 4 ==> Nibble(w, i) <= 15 && Symbol(w, i) <= 31
  {
  }

  /** Every 16-bit word survives GCR coding; the code is 20 bits wide and uses valid symbols only. */
  lemma GcrRoundTrip(w: bv32)
    requires w >> 16 == 0
    ensures AllGcr(GcrEncode(w)) && GcrDecode(GcrEncode(w)) == w && GcrEncode(w) >> 20 == 0
  {
    hide GcrNibble, GcrNibbleInv, Symbol, Nibble, Symbols, Nibbles;
    FieldsOfWord(w);
    var a, b, c, d := Nibble(w, 0), Nibble(w, 1), Nibble(w, 2), Nibble(w, 3);
    NibbleRoundTrip(a);
    NibbleRoundTrip(b);
    NibbleRoundTrip(c);
    NibbleRoundTrip(d);
    SymbolsFields(GcrNibble(a), GcrNibble(b), GcrNibble(c), GcrNibble(d));
    assert INVALID > 15;
  }

  /** The places of symbols and nibbles in a word. */
  lemma SymbolPlaces(w: bv32)
    ensures Symbol(w, 0) == w & 0x1F
    ensures Symbol(w, 1) == (w >> 5) & 0x1F
    ensures Symbol(w, 2) == (w >> 10) & 0x1F
    ensures Symbol(w, 3) == (w >> 15) & 0x1F
  {
    assert LeftOfSymbols(w, 1) == w >> 5 && LeftOfSymbols(w, 2) == w >> 10 && LeftOfSymbols(w, 3) == w >> 15;
    hide LeftOfSymbols;
  }

  lemma NibblePlaces(w: bv32)
    ensures Nibble(w, 0) == w & 0xF
    ensures Nibble(w, 1) == (w >> 4) & 0xF
    ensures Nibble(w, 2) == (w >> 8) & 0xF
    ensures Nibble(w, 3) == (w >> 12) & 0xF
  {
    assert LeftOfNibbles(w, 1) == w >> 4 && LeftOfNibbles(w, 2) == w >> 8 && LeftOfNibbles(w, 3) == w >> 12;
    hide LeftOfNibbles;
  }

  /** Each symbol of the code is that of the nibble at the same place of the word. */
  lemma GcrSymbols(w: bv32, i: nat)
    requires i < 4
    ensures Symbol(GcrEncode(w), i) == GcrNibble(Nibble(w, i))
  {
    hide GcrNibble, GcrNibbleInv, Symbol, Nibble, Symbols;
    var a, b, c, d := Nibble(w, 0), Nibble(w, 1), Nibble(w, 2), Nibble(w, 3);
    FieldsOfWord(w);
    NibbleRoundTrip(a);
    NibbleRoundTrip(b);
    NibbleRoundTrip(c);
    NibbleRoundTrip(d);
    SymbolsFields(GcrNibble(a), GcrNibble(b), GcrNibble(c), GcrNibble(d));
  }

  /** A word of valid symbols is the code of what it decodes to. */
  lemma GcrUnique(w: bv32)
    requires AllGcr(w)
    ensures GcrEncode(GcrDecode(w)) == w & 0xFFFFF && GcrDecode(w) >> 16 == 0
  {
    hide GcrNibble, GcrNibbleInv, Symbol, Nibble, Symbols, Nibbles;
    FieldsOfWord(w);
    forall i | 0 <= i < 4
      ensures GcrNibble(GcrNibbleInv(Symbol(w, i))) == Symbol(w, i) && GcrNibbleInv(Symbol(w, i)) <= 15
    {
      SymbolRoundTrip(Symbol(w, i));
    }
    NibblesFields(GcrNibbleInv(Symbol(w, 0)), GcrNibbleInv(Symbol(w, 1)),
                  GcrNibbleInv(Symbol(w, 2)), GcrNibbleInv(Symbol(w, 3)));
  }

  // ---------- frames ----------

  function FrameOf(p: bv16): bv32 {
    GreyEncode(GcrEncode(p as bv32))
  }

  function Low16(w: bv32): bv16 {
    (w & 0xFFFF) as bv16
  }

  function PacketOf(frame: bv32): bv16 {
    Low16(GcrDecode(GreyDecode(frame)))
  }

  lemma FrameRoundTrip(p: bv16)
    ensures PacketOf(FrameOf(p)) == p && FrameOf(p) >> 20 == 0
  {
    hide GcrEncode, GcrDecode, GreyEncode, GreyDecode;
    GcrRoundTrip(p as bv32);
    GreyRoundTrip(GcrEncode(p as bv32));
    GreyKeepsWidth(GcrEncode(p as bv32));
  }

  function CodeOf(p: bv16): bv32 {
    GcrEncode(p as bv32)
  }

  lemma CodeIdentifiesPacket(frame: bv32, p: bv16)
    requires CodeOf(p) == GreyDecode(frame) & 0xFFFFF
    ensures AllGcr(GreyDecode(frame)) && PacketOf(frame) == p
  {
    hide GcrEncode, GcrDecode, GreyDecode, AllGcr;
    GcrRoundTrip(p as bv32);
    DecodeLow(GreyDecode(frame));
  }

  lemma CodeOfAccepted(frame: bv32)
    ensures AllGcr(GreyDecode(frame)) ==> CodeOf(PacketOf(frame)) == GreyDecode(frame) & 0xFFFFF
    ensures !AllGcr(GreyDecode(frame)) ==> PacketOf(frame) == 0
  {
    hide GcrEncode, GreyDecode, AllGcr;
    var w := GreyDecode(frame);
    if AllGcr(w) {
      GcrUnique(w);
      hide GcrDecode;
      assert (PacketOf(frame) as bv32) == GcrDecode(w);
    }
  }

  /** A received frame passes the check exactly when its 20 transitions are the code of a packet whose
      check sum is right, and then that packet is delivered.  A frame with a symbol outside the code,
      in particular the 0 that stands for a refused capture, never passes. */
  lemma AcceptedIff(frame: bv32)
    ensures CrcOk(PacketOf(frame)) <==> exists p: bv16 :: CrcOk(p) && CodeOf(p) == GreyDecode(frame) & 0xFFFFF
    ensures forall p: bv16 :: CodeOf(p) == GreyDecode(frame) & 0xFFFFF ==> p == PacketOf(frame)
    ensures !AllGcr(GreyDecode(frame)) ==> !CrcOk(PacketOf(frame))
    ensures CrcOk(PacketOf(frame)) <==> NibbleSum(PacketOf(frame)) == 0xF
  {
    CrcLaw(PacketOf(frame));
    assert !CrcOk(0);
    hide *;
    CodeOfAccepted(frame);
    forall p: bv16 | CodeOf(p) == GreyDecode(frame) & 0xFFFFF
      ensures AllGcr(GreyDecode(frame)) && p == PacketOf(frame)
    {
      CodeIdentifiesPacket(frame, p);
    }
  }

  lemma SymbolLow(w: bv32, i: nat)
    requires i < 4
    ensures Symbol(w & 0xFFFFF, i) == Symbol(w, i)
  {
  }

  lemma DecodeLow(w: bv32)
    ensures AllGcr(w & 0xFFFFF) == AllGcr(w) && GcrDecode(w & 0xFFFFF) == GcrDecode(w)
  {
    hide Symbol, GcrNibbleInv, Nibbles;
    SymbolLow(w, 0);
    SymbolLow(w, 1);
    SymbolLow(w, 2);
    SymbolLow(w, 3);
  }

  lemma RefusedCaptureFails()
    ensures !CrcOk(PacketOf(0))
  {
    assert GreyDecode(0) == 0 && Symbol(0, 0) == 0;
    AcceptedIff(0);
  }

  // ---------- the loops and the driver object ----------

  lemma Shifts5(w: bv32)
    ensures (w >> 5) >> 5 == w >> 10 && (w >> 10) >> 5 == w >> 15 && (w >> 15) >> 5 == w >> 20
  {
  }

  lemma NextSymbol(w: bv32, i: nat)
    requires i < 4
    ensures Drop5(LeftOfSymbols(w, i)) == LeftOfSymbols(w, i + 1)
  {
    Shifts5(w);
    if i == 0 {
    } else if i == 1 {
    } else if i == 2 {
    } else {
    }
  }

  lemma Shifts4(w: bv32)
    ensures (w >> 4) >> 4 == w >> 8 && (w >> 8) >> 4 == w >> 12 && (w >> 12) >> 4 == w >> 16
  {
  }

  lemma NextNibble(w: bv32, i: nat)
    requires i < 4
    ensures Drop4(LeftOfNibbles(w, i)) == LeftOfNibbles(w, i + 1)
  {
    Shifts4(w);
    if i == 0 {
    } else if i == 1 {
    } else if i == 2 {
    } else {
    }
  }

  /** The first i fields of Symbols and of Nibbles. */
  function SymbolsUpTo(a: bv32, b: bv32, c: bv32, d: bv32, i: nat): bv32 {
    if i == 0 then 0
    else if i == 1 then Or(0, ToSymbol(a, 0))
    else if i == 2 then Or(Or(0, ToSymbol(a, 0)), ToSymbol(b, 1))
    else if i == 3 then Or(Or(Or(0, ToSymbol(a, 0)), ToSymbol(b, 1)), ToSymbol(c, 2))
    else Symbols(a, b, c, d)
  }

  function NibblesUpTo(a: bv32, b: bv32, c: bv32, d: bv32, i: nat): bv32 {
    if i == 0 then 0
    else if i == 1 then Or(0, ToNibble(a, 0))
    else if i == 2 then Or(Or(0, ToNibble(a, 0)), ToNibble(b, 1))
    else if i == 3 then Or(Or(Or(0, ToNibble(a, 0)), ToNibble(b, 1)), ToNibble(c, 2))
    else Nibbles(a, b, c, d)
  }

  lemma SymbolsStep(a: bv32, b: bv32, c: bv32, d: bv32, i: nat, x: bv32)
    requires i < 4 && x == if i == 0 then a else if i == 1 then b else if i == 2 then c else d
    ensures Or(SymbolsUpTo(a, b, c, d, i), ToSymbol(x, i)) == SymbolsUpTo(a, b, c, d, i + 1)
  {
    hide Or, ToSymbol;
    if i == 0 {
    } else if i == 1 {
    } else if i == 2 {
    } else {
    }
  }

  lemma NibblesStep(a: bv32, b: bv32, c: bv32, d: bv32, i: nat, x: bv32)
    requires i < 4 && x == if i == 0 then a else if i == 1 then b else if i == 2 then c else d
    ensures Or(NibblesUpTo(a, b, c, d, i), ToNibble(x, i)) == NibblesUpTo(a, b, c, d, i + 1)
  {
    hide Or, ToNibble;
    if i == 0 {
    } else if i == 1 {
    } else if i == 2 {
    } else {
    }
  }

  method GcrEncodeLoop(w: bv32) returns (ret: bv32)
    ensures ret == GcrEncode(w)
  {
    assert LeftOfNibbles(w, 0) == w;
    hide GcrNibble, LeftOfNibbles, ToSymbol, Or, Low4, Drop4;
    ghost var a, b, c, d :=
      GcrNibble(Nibble(w, 0)), GcrNibble(Nibble(w, 1)), GcrNibble(Nibble(w, 2)), GcrNibble(Nibble(w, 3));
    var from := w;
    ret := 0;
    for i := 0 to 4
      invariant ret == SymbolsUpTo(a, b, c, d, i) && from == LeftOfNibbles(w, i)
    {
      var symbol := GcrNibble(Low4(from));
      SymbolsStep(a, b, c, d, i, symbol);
      NextNibble(w, i);
      ret := Or(ret, ToSymbol(symbol, i));
      from := Drop4(from);
    }
  }

  method GcrDecodeLoop(w: bv32) returns (ret: bv32)
    ensures ret == GcrDecode(w)
  {
    assert LeftOfSymbols(w, 0) == w;
    hide GcrNibbleInv, LeftOfSymbols, ToNibble, Or, Low5, Drop5;
    ghost var a, b, c, d :=
      GcrNibbleInv(Symbol(w, 0)), GcrNibbleInv(Symbol(w, 1)), GcrNibbleInv(Symbol(w, 2)), GcrNibbleInv(Symbol(w, 3));
    var from := w;
    ret := 0;
    for i := 0 to 4
      invariant ret == NibblesUpTo(a, b, c, d, i) && from == LeftOfSymbols(w, i)
      invariant forall j :: 0 <= j < i ==> GcrNibbleInv(Symbol(w, j)) != INVALID
    {
      var nibble := GcrNibbleInv(Low5(from));
      assert nibble == GcrNibbleInv(Symbol(w, i));
      if nibble == INVALID {
        ret := 0;
        return;
      }
      NibblesStep(a, b, c, d, i, nibble);
      NextSymbol(w, i);
      ret := Or(ret, ToNibble(nibble, i));
      from := Drop5(from);
    }
  }

  lemma FrameIs(p: bv16)
    ensures FrameOf(p) == GreyEncode(GcrEncode(p as bv32))
  {
  }

  lemma PeriodFrame(period: nat)
    ensures var p := EperiodToPacked(period);
            && FrameOf(p) == GreyEncode(GcrEncode(p as bv32)) && PacketOf(FrameOf(p)) == p
            && CrcOk(p) && !IsEdt(p) && NibbleSum(p) == 0xF
  {
    hide *;
    var p := EperiodToPacked(period);
    PackedIsNeverEdt(period);
    CrcLaw(p);
    FrameRoundTrip(p);
    FrameIs(p);
  }

  /** The driver object: a packet and its frame. */
  class Erps {
    var ep: bv16
    var ef: bv32

    /** DshotErpsSetFromFrame */
    method SetFromFrame(frame: bv32)
      modifies this
      ensures ef == frame && ep == PacketOf(frame)
    {
      hide GreyDecode, GcrDecode, Low16;
      ef := frame;
      var raw := GcrDecodeLoop(GreyDecode(ef));
      ep := Low16(raw);
    }

    /** DshotErpsSetFromRpm */
    method SetFromRpm(rpm: nat)
      requires rpm > 0
      modifies this
      ensures ep == EperiodToPacked(60000000 / rpm) && ef == FrameOf(ep)
      ensures CrcOk(ep) && !IsEdt(ep) && PacketOf(ef) == ep
      ensures NibbleSum(ep) == 0xF
    {
      hide *;
      var period := 60000000 / rpm;
      ep := EperiodToPacked(period);
      var code := GcrEncodeLoop(ep as bv32);
      ef := GreyEncode(code);
      PeriodFrame(period);
    }
  }
}
