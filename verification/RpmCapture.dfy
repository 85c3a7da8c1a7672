/** dshot_rpmCapture.c: from edge timestamps back to the 21-bit frame.

    The line idles high.  A frame is 21 levels, sent from bit 20 down; bit 20 is always low.  The timer
    captures the time of every level change, modulo 65536, and processErpsDmaBuffer rebuilds the frame
    from the intervals. */
module RpmCapture {
  import opened DshotLine
  import opened DshotErps
  import opened EdgeRuns

  const MAX_EDGES: nat := 18    // DSHOT_DMA_DATA_LEN + DSHOT_DMA_EXTRADATA_LEN

  // ---------- bits of a word ----------

  function ShiftR(w: bv32, k: nat): bv32 {
    if k == 0 then w else Shr1(ShiftR(w, k - 1))
  }

  function LowBit(w: bv32): bool { w & 1 == 1 }

  function Bit(w: bv32, k: nat): bool {
    LowBit(ShiftR(w, k))
  }

  lemma {:induction false} ShiftRAdd(w: bv32, a: nat, b: nat)
    ensures ShiftR(ShiftR(w, a), b) == ShiftR(w, a + b)
  {
    if b > 0 {
      ShiftRAdd(w, a, b - 1);
    }
  }

  lemma Shift5(x: bv32)
    ensures Shr1(Shr1(Shr1(Shr1(Shr1(x))))) == Drop5(x)
  {
  }

  lemma ShiftRBy5(w: bv32, k: nat)
    ensures ShiftR(w, k + 5) == Drop5(ShiftR(w, k))
  {
    hide Shr1, Drop5;
    assert ShiftR(w, k + 2) == Shr1(Shr1(ShiftR(w, k)));
    assert ShiftR(w, k + 4) == Shr1(Shr1(ShiftR(w, k + 2)));
    Shift5(ShiftR(w, k));
  }

  /** A word is its upper bits followed by its lowest one. */
  function Append(w: bv32, b: bool): bv32 {
    (w << 1) | (if b then 1 else 0)
  }

  lemma AppendLowBit(x: bv32)
    ensures Append(Shr1(x), LowBit(x)) == x
  {
  }

  lemma {:induction false} BitOfGreyDecode(w: bv32, k: nat)
    ensures ShiftR(GreyDecode(w), k) == GreyDecode(ShiftR(w, k))
    ensures Bit(GreyDecode(w), k) == (Bit(w, k) != Bit(w, k + 1))
  {
    LowBitXor(ShiftR(w, k), ShiftR(w, k + 1));
    hide Xor, Shr1, LowBit;
    if k > 0 {
      BitOfGreyDecode(w, k - 1);
      ShiftXor1(ShiftR(w, k - 1), Shr1(ShiftR(w, k - 1)));
    }
  }

  lemma LowBitXor(x: bv32, y: bv32)
    ensures LowBit(Xor(x, y)) == (LowBit(x) != LowBit(y))
  {
  }

  function Levels(f: bv32): (ls: seq<bool>)
    ensures |ls| == 21
  {
    seq(21, p requires 0 <= p < 21 => Bit(f, 20 - p))
  }

  /** The word whose bits, high bit first, are the given levels. */
  function Word(ls: seq<bool>): bv32 {
    if ls == [] then 0 else Append(Word(ls[..|ls| - 1]), ls[|ls| - 1])
  }

  lemma {:induction false} WordOfPrefix(f: bv32, p: nat)
    requires p <= 21 && ShiftR(f, 21) == 0
    ensures Word(Levels(f)[..p]) == ShiftR(f, 21 - p)
  {
    hide Append, Shr1, LowBit;
    if p > 0 {
      WordOfPrefix(f, p - 1);
      AppendLowBit(ShiftR(f, 21 - p));
      assert Levels(f)[..p][..p - 1] == Levels(f)[..p - 1];
    }
  }

  lemma TopBits(f: bv32)
    requires f >> 20 == 0
    ensures ShiftR(f, 20) == 0 && ShiftR(f, 21) == 0 && !Bit(f, 20)
  {
    ShiftRBy5(f, 0);
    ShiftRBy5(f, 5);
    ShiftRBy5(f, 10);
    ShiftRBy5(f, 15);
    assert Drop5(Drop5(Drop5(Drop5(f)))) == f >> 20;
    assert Shr1(0) == 0;
  }

  // ---------- rebuilding a frame from runs ----------

  /** The frame good runs stand for: their levels, then high up to 21 bits. */
  function FrameOfRuns(runs: seq<nat>): bv32
    requires GoodRuns(runs)
  {
    Word(Expand(runs) + Repeat(true, FRAME_LEN + 1 - Sum(runs)))
  }

  /** What a capture stands for: the frame of its runs, or 0 if it is refused. */
  function Processed(capture: seq<uint16>, dmaLen: nat, duty: nat): bv32
    requires duty > 0
  {
    if 8 <= dmaLen <= MAX_EDGES && dmaLen <= |capture| && GoodRuns(Runs(capture[..dmaLen], duty))
    then FrameOfRuns(Runs(capture[..dmaLen], duty)) else 0
  }

  // x << n, and n low ones
  function ShiftL(x: bv32, n: nat): bv32 {
    if n == 0 then x else Shl1(ShiftL(x, n - 1))
  }

  function Shl1(x: bv32): bv32 { x << 1 }
  function Dec(x: bv32): bv32 { x - 1 }
  function And(x: bv32, y: bv32): bv32 { x & y }

  function Ones(n: nat): bv32 {
    Dec(ShiftL(1, n))
  }

  /** One turn of the loop: shift in n copies of the current level, bit being all zeros or all ones. */
  function AppendRun(v: bv32, n: nat, bit: bv32): bv32 {
    Or(ShiftL(v, n), And(Ones(n), bit))
  }

  function AllBits(b: bool): bv32 { if b then 0xFFFF_FFFF else 0 }

  function Flip(bit: bv32): bv32 { !bit }

  lemma FlipAllBits(b: bool)
    ensures Flip(AllBits(b)) == AllBits(!b)
  {
  }

  lemma MaskLow(x: bv32)
    ensures And(x, AllBits(false)) == 0 && And(x, AllBits(true)) == x && Or(x, 0) == x
    ensures Append(x, false) == Shl1(x)
  {
  }

  lemma OnesStep(o: bv32)
    ensures Dec(Shl1(o)) == Append(Dec(o), true) && Dec(1) == 0
  {
  }

  lemma OrStep(s: bv32, t: bv32)
    ensures Or(Shl1(s), Append(t, true)) == Append(Or(s, t), true)
  {
  }

  lemma AppendRunStep(v: bv32, n: nat, b: bool)
    ensures AppendRun(v, 0, AllBits(b)) == v
    ensures AppendRun(v, n + 1, AllBits(b)) == Append(AppendRun(v, n, AllBits(b)), b)
  {
    hide AllBits, Append, Or, And, Shl1, Dec;
    MaskLow(v);
    MaskLow(ShiftL(v, n));
    MaskLow(ShiftL(v, n + 1));
    MaskLow(Ones(n + 1));
    MaskLow(Ones(n));
    MaskLow(Ones(0));
    OnesStep(ShiftL(1, n));
    OrStep(ShiftL(v, n), Ones(n));
  }

  lemma WordSnoc(ls: seq<bool>, b: bool)
    ensures Word(ls + [b]) == Append(Word(ls), b)
  {
    hide Append;
    assert (ls + [b])[..|ls|] == ls;
  }

  lemma RepeatSnoc(ls: seq<bool>, b: bool, n: nat)
    ensures ls + Repeat(b, n + 1) == (ls + Repeat(b, n)) + [b]
    ensures ls + Repeat(b, 0) == ls
  {
  }

  lemma {:induction false} AppendRunIsWord(ls: seq<bool>, n: nat, b: bool)
    ensures AppendRun(Word(ls), n, AllBits(b)) == Word(ls + Repeat(b, n))
  {
    hide *;
    if n == 0 {
      AppendRunStep(Word(ls), 0, b);
      RepeatSnoc(ls, b, 0);
    } else {
      AppendRunIsWord(ls, n - 1, b);
      AppendRunStep(Word(ls), n - 1, b);
      RepeatSnoc(ls, b, n - 1);
      WordSnoc(ls + Repeat(b, n - 1), b);
    }
  }

  /** The state of the loop when the first k runs have been appended. */
  ghost predicate Appended(runs: seq<nat>, k: nat, erpsVal: bv32, bit: bv32, bitIndex: nat) {
    && k <= |runs| && bit == AllBits(High(k))
    && bitIndex == Sum(runs[..k]) <= FRAME_LEN + 1
    && erpsVal == Word(Expand(runs[..k]))
    && forall j :: 0 <= j < k ==> 1 <= runs[j] <= 3
  }

  /** One turn of the loop, for an interval of nbConsecutives bit times; ok is false where it returns 0. */
  method AppendInterval(nbConsecutives: nat, erpsVal: bv32, bit: bv32, bitIndex: nat, ghost runs: seq<nat>, ghost k: nat)
    returns (ok: bool, erpsVal': bv32, bit': bv32, bitIndex': nat)
    requires Appended(runs, k, erpsVal, bit, bitIndex) && k < |runs| && nbConsecutives == runs[k]
    ensures ok ==> Appended(runs, k + 1, erpsVal', bit', bitIndex')
    ensures !ok ==> !GoodRuns(runs)
  {
    hide Word, Expand, AppendRun, AllBits, Flip, Sum, Repeat, High;
    erpsVal', bit', bitIndex' := erpsVal, bit, bitIndex;
    RunsStep(runs, k + 1);
    if nbConsecutives == 0 || nbConsecutives > 3 || bitIndex + nbConsecutives > FRAME_LEN + 1 {
      return false, erpsVal', bit', bitIndex';
    }
    AppendRunIsWord(Expand(runs[..k]), nbConsecutives, High(k));
    FlipAllBits(High(k));
    HighAlternates(k);
    erpsVal' := AppendRun(erpsVal, nbConsecutives, bit);
    bit' := Flip(bit);
    bitIndex' := bitIndex + nbConsecutives;
    ok := true;
  }

  method ProcessErpsDmaBuffer(capture: seq<uint16>, dmaLen: nat, duty: nat) returns (frame: bv32)
    requires duty > 0
    requires 8 <= dmaLen <= MAX_EDGES ==> dmaLen <= |capture|
    ensures frame == Processed(capture, dmaLen, duty)
    ensures frame == 0 <==> !(8 <= dmaLen <= MAX_EDGES && GoodRuns(Runs(capture[..dmaLen], duty)))
  {
    if dmaLen < 8 || dmaLen > MAX_EDGES {
      return 0;
    }
    ghost var runs := Runs(capture[..dmaLen], duty);
    var erpsVal, bit, bitIndex: nat := 0, AllBits(false), 0;
    var prec := capture[0];
    NothingAppended(runs);
    hide Appended, AllBits, BitTimes, GoodRuns, FrameOfRuns, Runs;
    for i := 1 to dmaLen
      invariant prec == capture[i - 1]
      invariant Appended(runs, i - 1, erpsVal, bit, bitIndex)
    {
      var nbConsecutives := BitTimes(prec, capture[i], duty);
      prec := capture[i];
      RunAt(capture[..dmaLen], duty, i - 1);
      var ok;
      ok, erpsVal, bit, bitIndex := AppendInterval(nbConsecutives, erpsVal, bit, bitIndex, runs, i - 1);
      if !ok {
        return 0;
      }
    }
    frame := AppendTrailing(erpsVal, bitIndex, bit, runs);
    FrameIsNotZero(runs);
  }

  /** The final high level is completed without an edge. */
  method AppendTrailing(erpsVal: bv32, bitIndex: nat, ghost bit: bv32, ghost runs: seq<nat>) returns (frame: bv32)
    requires Appended(runs, |runs|, erpsVal, bit, bitIndex)
    ensures GoodRuns(runs) && frame == FrameOfRuns(runs)
  {
    hide AppendRun, AllBits, Word, Expand, Repeat;
    assert runs[..|runs|] == runs;
    var trailing := FRAME_LEN + 1 - bitIndex;
    AppendRunIsWord(Expand(runs), trailing, true);
    frame := AppendRun(erpsVal, trailing, AllBits(true));
  }

  lemma NothingAppended(runs: seq<nat>)
    ensures Appended(runs, 0, 0, AllBits(false), 0)
  {
    assert runs[..0] == [];
  }

  // ---------- an accepted capture is not read as 0 ----------

  lemma {:induction false} ShiftOfZero(k: nat)
    ensures ShiftR(0, k) == 0
  {
    if k > 0 {
      ShiftOfZero(k - 1);
    }
  }

  lemma Shifted21(w: bv32)
    ensures ShiftR(w, 21) == 0 ==> w >> 21 == 0
  {
    ShiftRBy5(w, 0);
    ShiftRBy5(w, 5);
    ShiftRBy5(w, 10);
    ShiftRBy5(w, 15);
    assert Shr1(Drop5(Drop5(Drop5(Drop5(w))))) == w >> 21;
    assert ShiftR(w, 21) == Shr1(ShiftR(w, 20));
  }

  lemma AppendKeeps(w: bv32, b: bool)
    requires w >> 21 == 0
    ensures Shr1(Append(w, b)) == w && (w != 0 || b ==> Append(w, b) != 0)
  {
  }

  /** A word of up to 21 levels has no higher bits, and is 0 only if all levels are low. */
  lemma {:induction false} WordOfLevels(ls: seq<bool>)
    requires |ls| <= 21
    ensures ShiftR(Word(ls), |ls|) == 0 && Word(ls) >> 21 == 0
    ensures true in ls ==> Word(ls) != 0
  {
    hide Shr1, Append, ShiftR;
    if ls == [] {
      ShiftOfZero(0);
      assert (0 as bv32) >> 21 == 0;
    } else {
      var n := |ls| - 1;
      var front, b := ls[..n], ls[n];
      var w := Word(front);
      WordOfLevels(front);
      AppendKeeps(w, b);
      var x := Append(w, b);
      ShiftRAdd(x, 1, n);
      ShiftROne(x);
      ShiftRAdd(x, n + 1, 20 - n);
      ShiftOfZero(20 - n);
      Shifted21(x);
      assert ls == front + [b];
    }
  }

  lemma ShiftROne(x: bv32)
    ensures ShiftR(x, 1) == Shr1(x)
  {
    assert ShiftR(x, 0) == x;
  }

  /** The word of up to 21 levels has them as its bits, the first one highest. */
  lemma {:induction false} WordBit(ls: seq<bool>, p: nat)
    requires p < |ls| <= 21
    ensures Bit(Word(ls), |ls| - 1 - p) == ls[p]
  {
    var n := |ls| - 1;
    var front, b := ls[..n], ls[n];
    var w := Word(front);
    WordOfLevels(front);
    AppendKeeps(w, b);
    LowBitOfAppend(w, b);
    var x := Append(w, b);
    hide Shr1, Append, LowBit;
    if p < n {
      WordBit(front, p);
      ShiftROne(x);
      ShiftRAdd(x, 1, n - 1 - p);
    } else {
      assert ShiftR(x, 0) == x;
    }
  }

  lemma LowBitOfAppend(w: bv32, b: bool)
    ensures LowBit(Append(w, b)) == b
  {
  }

  /** The levels of a frame are its 21 bits, bit 20 first. */
  lemma LevelsAreBits(f: bv32)
    ensures Levels(f)[0] == (f & 0x100000 != 0) && Levels(f)[20] == (f & 1 != 0)
    ensures forall p :: 0 <= p < 21 ==> Levels(f)[p] == Bit(f, 20 - p)
  {
    BitTwenty(f);
    assert ShiftR(f, 0) == f;
    assert LowBit(f) == (f & 1 != 0);
  }

  lemma BitTwenty(f: bv32)
    ensures Bit(f, 20) == (f & 0x100000 != 0)
  {
    ShiftRBy5(f, 0);
    ShiftRBy5(f, 5);
    ShiftRBy5(f, 10);
    ShiftRBy5(f, 15);
    assert Drop5(Drop5(Drop5(Drop5(f)))) & 1 == 1 <==> f & 0x100000 != 0;
  }

  /** The bit times of interval i of a capture, rounded, the timer counting modulo 65536. */
  function Rounded(capture: seq<uint16>, i: nat, duty: nat): nat
    requires i + 1 < |capture| && duty > 0
  {
    ((capture[i + 1] as int - capture[i] as int) % 65536 + duty / 2) / duty
  }

  function AllRounded(capture: seq<uint16>, duty: nat): seq<nat>
    requires |capture| > 0 && duty > 0
  {
    seq(|capture| - 1, i requires 0 <= i < |capture| - 1 => Rounded(capture, i, duty))
  }

  /** When a capture is refused: with less than 8 or more than 18 edges, an interval that rounds to less than one or
      more than three bit times, or intervals that add up to more than 21. */
  lemma RefusedIff(capture: seq<uint16>, dmaLen: nat, duty: nat)
    requires duty > 0 && (8 <= dmaLen <= 18 ==> dmaLen <= |capture|)
    ensures Processed(capture, dmaLen, duty) == 0 <==>
            !(8 <= dmaLen <= 18
              && (forall i :: 0 <= i < dmaLen - 1 ==> 1 <= Rounded(capture[..dmaLen], i, duty) <= 3)
              && Sum(AllRounded(capture[..dmaLen], duty)) <= 21)
  {
    hide FrameOfRuns, Sum, Rounded;
    if 8 <= dmaLen <= 18 {
      var edges := capture[..dmaLen];
      RunsAreRounded(edges, duty);
      RunsInRange(edges, duty);
      hide Runs, GoodRuns, AllRounded;
      if GoodRuns(Runs(edges, duty)) {
        FrameIsNotZero(Runs(edges, duty));
      }
    }
  }

  lemma RunsAreRounded(edges: seq<uint16>, duty: nat)
    requires |edges| > 0 && duty > 0
    ensures Runs(edges, duty) == AllRounded(edges, duty)
  {
    forall i | 0 <= i < |edges| - 1
      ensures Runs(edges, duty)[i] == Rounded(edges, i, duty)
    {
      RunAt(edges, duty, i);
    }
  }

  lemma RunsInRange(edges: seq<uint16>, duty: nat)
    requires |edges| > 0 && duty > 0 && Runs(edges, duty) == AllRounded(edges, duty)
    ensures GoodRuns(Runs(edges, duty)) <==>
            Sum(AllRounded(edges, duty)) <= 21 && forall i :: 0 <= i < |edges| - 1 ==> 1 <= Rounded(edges, i, duty) <= 3
  {
    hide Runs, Rounded, Sum;
    var all := AllRounded(edges, duty);
    assert forall i :: 0 <= i < |edges| - 1 ==> all[i] == Rounded(edges, i, duty);
  }

  lemma FrameIsNotZero(runs: seq<nat>)
    requires GoodRuns(runs) && |runs| >= 2
    ensures FrameOfRuns(runs) != 0
  {
    var n := |runs|;
    var ls := Expand(runs) + Repeat(true, FRAME_LEN + 1 - Sum(runs));
    assert runs[..n] == runs;
    RunsStep(runs, n);
    RunsStep(runs, n - 1);
    HighAlternates(n - 2);
    LastLevel(runs[n - 1], High(n - 1));
    LastLevel(runs[n - 2], High(n - 2));
    hide Expand, Sum, Repeat, High, Word;
    assert true in ls;
    WordOfLevels(ls);
  }

  lemma LastLevel(n: nat, b: bool)
    requires n > 0
    ensures b in Repeat(b, n)
  {
    assert Repeat(b, n)[0] == b;
  }

  // ---------- frames of valid symbols ----------

  function B(x: bv32, i: nat): nat {
    if LowBit(ShiftR(x, i)) then 1 else 0
  }

  /** A symbol has two to four ones, starts and ends with at most one zero, and has no 000 inside. */
  lemma SymbolBits(x: bv32)
    requires GcrNibbleInv(Low5(x)) != INVALID
    ensures 2 <= B(x, 0) + B(x, 1) + B(x, 2) + B(x, 3) + B(x, 4) <= 4
    ensures B(x, 0) + B(x, 1) > 0 && B(x, 3) + B(x, 4) > 0 && B(x, 1) + B(x, 2) + B(x, 3) > 0
  {
    SymbolMasks(x);
    BitMasks(x);
    hide GcrNibbleInv, Low5, Shr1, LowBit;
  }

  predicate Has(x: bv32, mask: bv32) {
    x & mask == mask
  }

  lemma BitMasks(x: bv32)
    ensures LowBit(x) == Has(x, 1)
    ensures LowBit(Shr1(x)) == Has(x, 2)
    ensures LowBit(Shr1(Shr1(x))) == Has(x, 4)
    ensures LowBit(Shr1(Shr1(Shr1(x)))) == Has(x, 8)
    ensures LowBit(Shr1(Shr1(Shr1(Shr1(x))))) == Has(x, 16)
  {
  }

  lemma SymbolMasks(x: bv32)
    requires GcrNibbleInv(Low5(x)) != INVALID
    ensures Has(x, 1) || Has(x, 2)
    ensures Has(x, 8) || Has(x, 16)
    ensures Has(x, 2) || Has(x, 4) || Has(x, 8)
    ensures !(Has(x, 1) && Has(x, 2) && Has(x, 4) && Has(x, 8) && Has(x, 16))
  {
  }

  lemma WindowOfSymbols(x: bv32, i: nat)
    requires i < 5 && GcrNibbleInv(Low5(x)) != INVALID
    requires i < 3 || GcrNibbleInv(Low5(ShiftR(x, 5))) != INVALID
    ensures B(x, i) + B(x, i + 1) + B(x, i + 2) > 0
  {
    SymbolBits(x);
    if i >= 3 {
      SymbolBits(ShiftR(x, 5));
      ShiftRAdd(x, 5, 0);
      ShiftRAdd(x, 5, 1);
    }
    hide ShiftR, LowBit, GcrNibbleInv, Low5;
  }

  /** The four symbols of a word, as shifts of it. */
  lemma SymbolAt(g: bv32, j: nat)
    requires j < 4 && AllGcr(g)
    ensures GcrNibbleInv(Low5(ShiftR(g, 5 * j))) != INVALID
  {
    hide GcrNibbleInv, Low5, Drop5, LeftOfSymbols, ShiftR;
    LeftOfSymbolsIsShift(g, j);
    assert GcrNibbleInv(Symbol(g, j)) != INVALID;
  }

  lemma {:induction false} LeftOfSymbolsIsShift(g: bv32, j: nat)
    requires j < 4
    ensures LeftOfSymbols(g, j) == ShiftR(g, 5 * j)
  {
    if j > 0 {
      LeftOfSymbolsIsShift(g, j - 1);
      NextSymbol(g, j - 1);
      ShiftRBy5(g, 5 * (j - 1));
      hide LeftOfSymbols, ShiftR, Drop5;
    }
  }

  /** In the symbol stream of a frame, any three neighbours contain a one. */
  lemma WindowOfFrame(g: bv32, k: nat)
    requires AllGcr(g) && k <= 17
    ensures B(g, k) + B(g, k + 1) + B(g, k + 2) > 0
  {
    hide ShiftR, LowBit, GcrNibbleInv, Low5, AllGcr;
    var j, i := k / 5, k % 5;
    var x := ShiftR(g, 5 * j);
    ShiftRAdd(g, 5 * j, i);
    ShiftRAdd(g, 5 * j, i + 1);
    ShiftRAdd(g, 5 * j, i + 2);
    ShiftRAdd(g, 5 * j, 5);
    SymbolAt(g, j);
    if i >= 3 {
      SymbolAt(g, j + 1);
    }
    WindowOfSymbols(x, i);
  }

  /** A one in the symbol stream is a level change. */
  lemma EdgeIsOne(f: bv32, q: nat)
    requires 1 <= q <= 20
    ensures Edge(Levels(f), q) <==> B(GreyDecode(f), 20 - q) == 1
  {
    BitOfGreyDecode(f, 20 - q);
    hide ShiftR, LowBit, GreyDecode;
  }

  function Ones5(g: bv32, k: nat): nat {
    B(g, k) + B(g, k + 1) + B(g, k + 2) + B(g, k + 3) + B(g, k + 4)
  }

  lemma Ones5Bounds(g: bv32, j: nat)
    requires j < 4 && AllGcr(g)
    ensures 2 <= Ones5(g, 5 * j) <= 4
  {
    SymbolAt(g, j);
    SymbolBits(ShiftR(g, 5 * j));
    ShiftRAdd(g, 5 * j, 0);
    ShiftRAdd(g, 5 * j, 1);
    ShiftRAdd(g, 5 * j, 2);
    ShiftRAdd(g, 5 * j, 3);
    ShiftRAdd(g, 5 * j, 4);
    hide ShiftR, LowBit, GcrNibbleInv, Low5, AllGcr;
  }

  lemma OneEdge(f: bv32, q: nat)
    requires 1 <= q <= 20
    ensures |Edges(Levels(f), q)| == B(GreyDecode(f), 20 - q) + |Edges(Levels(f), q + 1)|
  {
    EdgeIsOne(f, q);
    hide Edge, Levels, B;
  }

  lemma EdgesOfSymbol(f: bv32, j: nat)
    requires j < 4
    ensures |Edges(Levels(f), 16 - 5 * j)| == Ones5(GreyDecode(f), 5 * j) + |Edges(Levels(f), 21 - 5 * j)|
  {
    hide Edges, B, GreyDecode, Levels;
    OneEdge(f, 16 - 5 * j);
    OneEdge(f, 17 - 5 * j);
    OneEdge(f, 18 - 5 * j);
    OneEdge(f, 19 - 5 * j);
    OneEdge(f, 20 - 5 * j);
  }

  lemma FirstLevelLow(f: bv32)
    requires f >> 20 == 0
    ensures |Levels(f)| == 21 && !Levels(f)[0] && Edge(Levels(f), 0)
  {
    TopBits(f);
    hide ShiftR, LowBit;
  }

  lemma OuterEdges(ls: seq<bool>)
    requires |ls| == 21 && Edge(ls, 0)
    ensures |Edges(ls, 0)| == 1 + |Edges(ls, 1)| && |Edges(ls, 21)| <= 1
  {
    hide Edge;
    assert |Edges(ls, 22)| == 0;
  }

  /** A frame of valid symbols has between 9 and 18 edges. */
  lemma EdgeCount(f: bv32)
    requires f >> 20 == 0 && AllGcr(GreyDecode(f))
    ensures 9 <= |Edges(Levels(f), 0)| <= 18
  {
    hide Ones5, AllGcr, GreyDecode, Levels;
    FirstLevelLow(f);
    OuterEdges(Levels(f));
    hide Edges, Edge;
    EdgesOfSymbol(f, 0);
    EdgesOfSymbol(f, 1);
    EdgesOfSymbol(f, 2);
    EdgesOfSymbol(f, 3);
    Ones5Bounds(GreyDecode(f), 0);
    Ones5Bounds(GreyDecode(f), 1);
    Ones5Bounds(GreyDecode(f), 2);
    Ones5Bounds(GreyDecode(f), 3);
  }

  /** Its edges are at most three bit times apart. */
  lemma EdgesClose(f: bv32, es: seq<nat>, i: nat)
    requires f >> 20 == 0 && AllGcr(GreyDecode(f))
    requires ListsEdges(Levels(f), 0, es) && i + 1 < |es|
    ensures 1 <= Distance(es, i) <= 3
  {
    var q := es[i];
    assert NoEdgeBetween(Levels(f), es, i);
    if es[i + 1] > q + 3 {
      WindowOfFrame(GreyDecode(f), 20 - (q + 3));
      EdgeIsOne(f, q + 1);
      EdgeIsOne(f, q + 2);
      EdgeIsOne(f, q + 3);
      hide AllGcr, GreyDecode, Edge, ShiftR;
    }
  }

  lemma EdgesOfFrame(f: bv32)
    requires f >> 20 == 0 && AllGcr(GreyDecode(f))
    ensures var es := Edges(Levels(f), 0);
            && ListsEdges(Levels(f), 0, es) && 9 <= |es| <= MAX_EDGES
            && forall i :: 0 <= i < |es| - 1 ==> 1 <= Distance(es, i) <= 3
  {
    hide Edges, AllGcr, GreyDecode, Levels, Distance, ListsEdges;
    var es := Edges(Levels(f), 0);
    EdgesListed(Levels(f), 0);
    EdgeCount(f);
    forall i | 0 <= i < |es| - 1
      ensures 1 <= Distance(es, i) <= 3
    {
      EdgesClose(f, es, i);
    }
  }

  lemma FrameOfLevels(f: bv32, runs: seq<nat>)
    requires f >> 20 == 0 && Sum(runs) <= 21
    requires Expand(runs) + Repeat(true, 21 - Sum(runs)) == Levels(f)
    requires forall i :: 0 <= i < |runs| ==> 1 <= runs[i] <= 3
    ensures GoodRuns(runs) && FrameOfRuns(runs) == f
  {
    hide Expand, Sum, Repeat, Word, ShiftR, LowBit;
    TopBits(f);
    WordOfPrefix(f, 21);
    ShiftRZero(f);
    assert Levels(f)[..21] == Levels(f);
    hide Levels;
  }

  /** capture holds the times of the level changes of f. */
  ghost predicate CleanCapture(capture: seq<uint16>, f: bv32, jitter: seq<int>, duty: nat) {
    Captures(capture, Edges(Levels(f), 0), jitter, duty)
  }

  /** Every clean capture of a frame of valid symbols is rebuilt exactly. */
  lemma FrameRecovered(f: bv32, capture: seq<uint16>, jitter: seq<int>, duty: nat)
    requires 0 < duty && 4 * duty <= 65536
    requires f >> 20 == 0 && AllGcr(GreyDecode(f))
    requires CleanCapture(capture, f, jitter, duty)
    ensures 9 <= |capture| <= MAX_EDGES && Processed(capture, |capture|, duty) == f
  {
    hide Edges, ListsEdges, AllGcr, GreyDecode, Levels, Expand, Sum, Repeat, Runs, Distance, GoodRuns, FrameOfRuns;
    var ls, es := Levels(f), Edges(Levels(f), 0);
    assert capture[..|capture|] == capture;
    EdgesOfFrame(f);
    FirstLevelLow(f);
    RunsRecovered(capture, es, jitter, duty);
    LevelsFromEdges(ls, es);
    FrameOfLevels(f, Distances(es));
  }

  lemma ShiftRZero(f: bv32)
    ensures ShiftR(f, 0) == f
  {
  }

  /** The edge times of a packet's frame. */
  function CaptureOf(p: bv16, first: uint16, jitter: seq<int>, duty: nat): seq<uint16>
    requires |jitter| == MAX_EDGES
  {
    EnoughJitter(p);
    Times(Edges(Levels(FrameOf(p)), 0), first, jitter, duty)
  }

  lemma EnoughJitter(p: bv16)
    ensures |Edges(Levels(FrameOf(p)), 0)| <= MAX_EDGES
  {
    hide FrameOf, AllGcr, GreyDecode, Edges, Levels;
    FrameIsValid(p);
    EdgeCount(FrameOf(p));
  }

  /** End to end: every packet, sent as level changes whose times are off by up to half a bit and captured
      modulo 65536, is read back unchanged. */
  lemma TelemetryRoundTrip(p: bv16, first: uint16, jitter: seq<int>, duty: nat) returns (capture: seq<uint16>)
    requires 0 < duty && 4 * duty <= 65536
    requires |jitter| == MAX_EDGES && SmallJitter(jitter, duty)
    ensures 9 <= |capture| <= MAX_EDGES && PacketOf(Processed(capture, |capture|, duty)) == p
    ensures capture == CaptureOf(p, first, jitter, duty)
  {
    hide FrameOf, PacketOf, AllGcr, Captures, Times, GreyDecode, Processed, Edges, Levels, SmallJitter;
    var es := Edges(Levels(FrameOf(p)), 0);
    EnoughJitter(p);
    FrameIsValid(p);
    TimesAreCaptured(es, first, jitter, duty);
    capture := CaptureOf(p, first, jitter, duty);
    FrameRecovered(FrameOf(p), capture, jitter[..|es|], duty);
    FrameRoundTrip(p);
  }

  lemma FrameIsValid(p: bv16)
    ensures FrameOf(p) >> 20 == 0 && AllGcr(GreyDecode(FrameOf(p)))
  {
    hide GcrEncode, AllGcr, GreyEncode, GreyDecode;
    FrameRoundTrip(p);
    GcrRoundTrip(p as bv32);
    GreyRoundTrip(GcrEncode(p as bv32));
  }
}
