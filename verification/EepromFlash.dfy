/** eeprom_l4.c: the record log in write-once flash.

    A double word of flash can be programmed once after an erase; erasing sets every byte to 0xff.
    The partition object holds the cells and remembers which double words were programmed, as the
    part's error-correcting flash does.  Ghost fields say which log the cells hold. */
module EepromFlash {
  import opened EepromLog

  // ---------- bytes in memory ----------

  /** The four bytes of a 32-bit word, low byte first. */
  function Word(x: uint32): (s: seq<byte>)
    ensures |s| == 4
  {
    [x % 256, x / 256 % 256, x / 256 / 256 % 256, x / 256 / 256 / 256]
  }

  function WordAt(s: seq<byte>, i: nat): uint32
    requires i + 4 <= |s|
  {
    s[i] as int + 256 * (s[i + 1] as int + 256 * (s[i + 2] as int + 256 * s[i + 3] as int))
  }

  lemma WordRoundTrip(x: uint32)
    ensures WordAt(Word(x), 0) == x
  {
    var y := x / 256;
    var z := y / 256;
    assert x == x % 256 + 256 * y && y == y % 256 + 256 * z && z == z % 256 + 256 * (z / 256);
  }

  /** The lowest byte comes first. */
  lemma WordIsLittleEndian(x: uint32)
    ensures var w := Word(x); x == w[0] as int + 256 * w[1] as int + 65536 * w[2] as int + 16777216 * w[3] as int
  {
    var y := x / 256;
    var z := y / 256;
    assert x == x % 256 + 256 * y && y == y % 256 + 256 * z && z == z % 256 + 256 * (z / 256);
  }

  /** The RAM image eepromStore builds: header, then data. */
  function Record(next: uint32, e: Entry, ram: uint32): (s: seq<byte>)
    requires e.typ < ERASED_WORD && |e.data| <= MAX_LEN
    ensures |s| == HEADER + |e.data|
  {
    Word(next) + Word(e.typ) + Word(|e.data|) + Word(ram) + e.data
  }

  lemma RecordFields(next: uint32, e: Entry, ram: uint32)
    requires e.typ < ERASED_WORD && |e.data| <= MAX_LEN
    ensures var s := Record(next, e, ram);
            && WordAt(s, 0) == next && WordAt(s, 4) == e.typ
            && WordAt(s, 8) == |e.data| && WordAt(s, 12) == ram
            && s[HEADER..] == e.data
  {
    WordRoundTrip(next);
    WordRoundTrip(e.typ);
    WordRoundTrip(|e.data|);
    WordRoundTrip(ram);
  }

  /** Zero padding to a whole number of double words. */
  function Padded(s: seq<byte>): (p: seq<byte>)
    ensures |p| == |s| + AlignOffset(|s|) && |p| % WSIZE == 0
    ensures s <= p && forall i :: |s| <= i < |p| ==> p[i] == 0
  {
    s + seq(AlignOffset(|s|), i => 0 as byte)
  }

  function Splice(cells: seq<byte>, i: nat, dword: seq<byte>): seq<byte>
    requires i + |dword| <= |cells|
  {
    cells[..i] + dword + cells[i + |dword|..]
  }

  /** cells' is cells with the first n bytes of image written at offset o. */
  ghost predicate Spliced(cells: seq<byte>, cells': seq<byte>, o: nat, image: seq<byte>, n: nat)
    requires n <= |image| && o + n <= |cells|
  {
    && |cells'| == |cells|
    && cells'[..o] == cells[..o] && cells'[o..o + n] == image[..n] && cells'[o + n..] == cells[o + n..]
  }

  lemma SplicedHolds(cells: seq<byte>, cells': seq<byte>, o: nat, image: seq<byte>)
    requires o + |image| <= |cells| && Spliced(cells, cells', o, image, |image|)
    ensures |cells'| == |cells| && cells'[o..o + |image|] == image
  {
  }

  lemma SplicedStep(cells0: seq<byte>, cells: seq<byte>, o: nat, image: seq<byte>, n: nat)
    requires n + WSIZE <= |image| && o + n + WSIZE <= |cells0|
    requires Spliced(cells0, cells, o, image, n)
    ensures Spliced(cells0, Splice(cells, o + n, image[n..n + WSIZE]), o, image, n + WSIZE)
  {
    var cells' := Splice(cells, o + n, image[n..n + WSIZE]);
    assert cells'[..o] == cells[..o];
    assert cells'[o..o + n + WSIZE] == cells[o..o + n] + image[n..n + WSIZE];
    assert cells'[o + n + WSIZE..] == cells[o + n..][WSIZE..] == cells0[o + n..][WSIZE..];
  }

  lemma SliceOfSlice(c: seq<byte>, a: nat, b: nat, i: nat)
    requires a + i + WSIZE <= b <= |c|
    ensures c[a..b][i..i + WSIZE] == c[a + i..a + i + WSIZE]
  {
    var x, y := c[a..b][i..i + WSIZE], c[a + i..a + i + WSIZE];
    assert forall j :: 0 <= j < |x| ==> x[j] == y[j];
    assert x == y;
  }

  lemma PrefixStep(a: seq<byte>, b: seq<byte>, i: nat, j: nat)
    requires i <= j <= |a| && j <= |b| && a[..i] == b[..i] && a[i..j] == b[i..j]
    ensures a[..j] == b[..j]
  {
    assert a[..j] == a[..i] + a[i..j];
    assert b[..j] == b[..i] + b[i..j];
  }

  /** k-th record of the log, at its place, in cells that start at address `start`. */
  ghost predicate RecordAt(cells: seq<byte>, start: uint32, log: seq<Entry>, rams: seq<uint32>, k: nat)
    requires |rams| == |log| && k < |log|
  {
    && log[k].typ < ERASED_WORD && |log[k].data| <= MAX_LEN
    && Off(log, k + 1) <= |cells|
    && start + Off(log, k + 1) < ERASED_WORD
    && Off(log, k + 1) == Off(log, k) + RecSize(|log[k].data|)
    && cells[Off(log, k)..Off(log, k + 1)] == Padded(Record(start + Off(log, k + 1), log[k], rams[k]))
  }

  ghost predicate Holds(cells: seq<byte>, start: uint32, log: seq<Entry>, rams: seq<uint32>) {
    && |rams| == |log|
    && (forall k :: 0 <= k < |log| ==> RecordAt(cells, start, log, rams, k))
    && (forall i :: Size(log) <= i < |cells| ==> cells[i] == ERASED)
  }

  lemma RecordReads(cells: seq<byte>, o: nat, next: uint32, e: Entry, ram: uint32)
    requires e.typ < ERASED_WORD && |e.data| <= MAX_LEN
    requires o + RecSize(|e.data|) <= |cells|
    requires cells[o..o + RecSize(|e.data|)] == Padded(Record(next, e, ram))
    ensures WordAt(cells, o) == next && WordAt(cells, o + 4) == e.typ
    ensures WordAt(cells, o + 8) == |e.data| && WordAt(cells, o + 12) == ram
    ensures cells[o + HEADER..o + HEADER + |e.data|] == e.data
  {
    var r := Record(next, e, ram);
    RecordFields(next, e, ram);
    assert cells[o..o + |r|] == cells[o..o + RecSize(|e.data|)][..|r|] == r;
    assert forall i {:trigger r[i]} :: 0 <= i < |r| ==> cells[o + i] == cells[o..o + |r|][i];
    assert cells[o + HEADER..o + |r|] == r[HEADER..];
  }

  /** What the chain walk reads at the header of the k-th record. */
  lemma HeaderAt(cells: seq<byte>, start: uint32, log: seq<Entry>, rams: seq<uint32>, k: nat)
    requires |rams| == |log| && k < |log| && RecordAt(cells, start, log, rams, k)
    ensures Off(log, k) + HEADER + |log[k].data| <= |cells|
    ensures WordAt(cells, Off(log, k)) == start + Off(log, k + 1) < ERASED_WORD
    ensures WordAt(cells, Off(log, k) + 4) == log[k].typ < ERASED_WORD
    ensures WordAt(cells, Off(log, k) + 8) == |log[k].data|
    ensures WordAt(cells, Off(log, k) + 12) == rams[k]
    ensures cells[Off(log, k) + HEADER..Off(log, k) + HEADER + |log[k].data|] == log[k].data
  {
    hide Word, WordAt, RecSize, Off;
    RecordReads(cells, Off(log, k), start + Off(log, k + 1), log[k], rams[k]);
  }

  lemma PrefixSlice(c: seq<byte>, c': seq<byte>, n: nat, a: nat, b: nat)
    requires a <= b <= n <= |c| && n <= |c'| && c'[..n] == c[..n]
    ensures c'[a..b] == c[a..b]
  {
    assert c'[a..b] == c'[..n][a..b];
    assert c[a..b] == c[..n][a..b];
  }

  lemma RecordKept(cells: seq<byte>, cells': seq<byte>, start: uint32, log: seq<Entry>, rams: seq<uint32>,
                   e: Entry, ram: uint32, k: nat)
    requires |rams| == |log| && k < |log| && RecordAt(cells, start, log, rams, k)
    requires |cells'| == |cells| && Size(log) <= |cells| && cells'[..Size(log)] == cells[..Size(log)]
    ensures RecordAt(cells', start, log + [e], rams + [ram], k)
  {
    hide RecSize, Record, Padded;
    OffOfPrefix(log, [e], k);
    OffOfPrefix(log, [e], k + 1);
    OffMonotone(log, k + 1, |log|);
    PrefixSlice(cells, cells', Size(log), Off(log, k), Off(log, k + 1));
  }

  lemma RecordAppended(cells': seq<byte>, start: uint32, log: seq<Entry>, rams: seq<uint32>, e: Entry, ram: uint32)
    requires e.typ < ERASED_WORD && |e.data| <= MAX_LEN && |rams| == |log|
    requires Size(log) + RecSize(|e.data|) <= |cells'| && start + |cells'| < ERASED_WORD
    requires cells'[Size(log)..Size(log) + RecSize(|e.data|)]
          == Padded(Record(start + Size(log) + RecSize(|e.data|), e, ram))
    ensures RecordAt(cells', start, log + [e], rams + [ram], |log|)
  {
    OffOfPrefix(log, [e], |log|);
    SizeOfSnoc(log, e);
  }

  /** Programming the next record behind the last one extends the log. */
  lemma HoldsAfterAppend(cells: seq<byte>, cells': seq<byte>, start: uint32, log: seq<Entry>, rams: seq<uint32>,
                         e: Entry, ram: uint32)
    requires Holds(cells, start, log, rams) && e.typ < ERASED_WORD && |e.data| <= MAX_LEN
    requires |cells'| == |cells| && start + |cells| < ERASED_WORD
    requires Size(log) + RecSize(|e.data|) <= |cells|
    requires var image := Padded(Record(start + Size(log) + RecSize(|e.data|), e, ram));
             Spliced(cells, cells', Size(log), image, |image|)
    ensures Holds(cells', start, log + [e], rams + [ram])
  {
    var log', rams' := log + [e], rams + [ram];
    RecordAppended(cells', start, log, rams, e, ram);
    forall k | 0 <= k < |log'|
      ensures RecordAt(cells', start, log', rams', k)
    {
      if k < |log| {
        RecordKept(cells, cells', start, log, rams, e, ram, k);
      }
    }
    SizeOfSnoc(log, e);
    var b: nat := Size(log');
    forall i | b <= i < |cells'|
      ensures cells'[i] == ERASED
    {
      assert cells'[i] == cells'[b..][i - b] == cells[b..][i - b] == cells[i];
    }
  }

  function AllErased(n: nat): seq<byte> {
    seq(n, i => ERASED)
  }

  ghost predicate Free(programmed: set<int>, a: int, b: int) {
    forall d {:trigger d in programmed} :: a <= d < b && d % WSIZE == 0 ==> d !in programmed
  }

  ghost function Dwords(a: int, b: int): set<int> {
    set d | a <= d < b && d % WSIZE == 0
  }

  /** The double words from a to p were free before and are programmed now. */
  ghost predicate NewlyProgrammed(before: set<int>, now: set<int>, a: int, p: int) {
    Free(before, a, p) && now == before + Dwords(a, p)
  }

  lemma NewlyProgrammedStep(before: set<int>, now: set<int>, a: int, p: int, end: int)
    requires NewlyProgrammed(before, now, a, p) && a <= p < end && p % WSIZE == 0
    ensures p !in now ==> NewlyProgrammed(before, now + {p}, a, p + WSIZE)
    ensures p in now ==> p in before && !Free(before, a, end)
  {
    assert Dwords(a, p + WSIZE) == Dwords(a, p) + {p};
  }

  lemma ErasedIsFree(a: int, b: int)
    ensures Free({}, a, b)
  {
  }

  lemma BehindIsFree(a: int, p: int, q: int)
    requires a <= p <= q
    ensures Free(Dwords(a, p), p, q) && Dwords(a, p) + Dwords(p, q) == Dwords(a, q)
  {
  }

  /** Programming image from address a on stopped at its byte n, at a double word that was programmed before;
      what comes before it is written and nothing else is changed. */
  ghost predicate Stopped(before: set<int>, now: set<int>, cells: seq<byte>, cells': seq<byte>, a: int, o: nat,
                          image: seq<byte>, n: nat)
  {
    && n < |image| && n % WSIZE == 0 && o + n <= |cells|
    && a + n in before && NewlyProgrammed(before, now, a, a + n) && Spliced(cells, cells', o, image, n)
  }

  ghost predicate StoppedSomewhere(before: set<int>, now: set<int>, cells: seq<byte>, cells': seq<byte>, a: int, o: nat,
                                   image: seq<byte>)
  {
    exists n: nat :: Stopped(before, now, cells, cells', a, o, image, n)
  }

  lemma NothingProgrammed(before: set<int>, cells: seq<byte>, a: int, o: nat, image: seq<byte>)
    requires o <= |cells|
    ensures NewlyProgrammed(before, before, a, a) && Spliced(cells, cells, o, image, 0)
  {
  }

  lemma ProgrammingStopped(before: set<int>, now: set<int>, cells: seq<byte>, cells': seq<byte>, a: int, o: nat,
                           image: seq<byte>, n: nat)
    requires n < |image| && n % WSIZE == 0 && o + n <= |cells|
    requires a + n in before && NewlyProgrammed(before, now, a, a + n) && Spliced(cells, cells', o, image, n)
    ensures StoppedSomewhere(before, now, cells, cells', a, o, image)
  {
    assert Stopped(before, now, cells, cells', a, o, image, n);
  }

  lemma AllProgrammed(before: set<int>, now: set<int>, a: int, p: int)
    requires NewlyProgrammed(before, now, a, p)
    ensures Free(before, a, p) && now == before + Dwords(a, p)
  {
  }

  // ---------- the partition ----------

  class Partition {
    const start: uint32          // FLASH_USER_START_ADDR
    const end: uint32            // FLASH_USER_END_ADDR
    const nTypes: nat            // EEPROM_STRUCT_LAST_ITEM
    const cells: array<byte>     // flash contents, cells[i] at address start + i
    var programmed: set<int>     // addresses of double words programmed since the last erase
    ghost var log: seq<Entry>
    ghost var rams: seq<uint32>

    ghost predicate Flash()
      reads this, cells
    {
      && 0 < start && start + WSIZE <= end < 0x8000_0000
      && start % WSIZE == 0 && end % WSIZE == 0
      && nTypes < ERASED_WORD
      && cells.Length == end - start
    }

    ghost predicate Valid()
      reads this, cells
    {
      && Flash()
      && ValidLog(end - start, nTypes, log)
      && Holds(cells[..], start, log, rams)
      && programmed == Dwords(start, start + Size(log))
    }

    /** A fresh part, completely erased. */
    constructor (start: uint32, end: uint32, nTypes: nat)
      requires 0 < start && start + WSIZE <= end < 0x8000_0000
      requires start % WSIZE == 0 && end % WSIZE == 0 && nTypes < ERASED_WORD
      ensures Valid() && fresh(cells)
      ensures this.start == start && this.end == end && this.nTypes == nTypes
      ensures log == []
    {
      this.start, this.end, this.nTypes := start, end, nTypes;
      cells := new byte[end - start](i => ERASED);
      programmed := {};
      log, rams := [], [];
    }

    // ----- flash controller -----

    function LoadWord(addr: int): uint32
      requires Flash() && start <= addr && addr + 4 <= end
      reads this, cells
    {
      WordAt(cells[..], addr - start)
    }

    /** HAL_FLASH_Program of one double word: refused if it was programmed since the last erase. */
    method ProgramDword(addr: uint32, dword: seq<byte>) returns (ok: bool)
      requires Flash() && |dword| == WSIZE
      requires start <= addr && addr + WSIZE <= end && addr % WSIZE == 0
      modifies this`programmed, cells
      ensures Flash()
      ensures ok <==> addr !in old(programmed)
      ensures programmed == if ok then old(programmed) + {addr as int} else old(programmed)
      ensures cells[..] == if ok then Splice(old(cells[..]), addr - start, dword) else old(cells[..])
    {
      ok := addr !in programmed;
      if ok {
        forall i | 0 <= i < WSIZE {
          cells[addr - start + i] := dword[i];
        }
        programmed := programmed + {addr as int};
      }
    }

    /** eepromErase */
    method EraseCells()
      requires Flash()
      modifies this`programmed, cells
      ensures Flash() && programmed == {} && cells[..] == AllErased(cells.Length)
    {
      forall i | 0 <= i < cells.Length {
        cells[i] := ERASED;
      }
      programmed := {};
    }

    method EepromErase() returns (r: ErrorCond)
      requires Valid()
      modifies this, cells
      ensures Valid()
      ensures (log, r) == Step(end - start, nTypes, old(log), Erase)
    {
      EraseCells();
      log, rams := [], [];
      r := PROG_OK;
    }

    /** The last, incomplete double word, built byte by byte and padded with zeros. */
    method LastDword(from: seq<byte>, ramPtr: nat) returns (lastword: seq<byte>)
      requires ramPtr < |from| < ramPtr + WSIZE
      ensures |lastword| == WSIZE
      ensures forall i :: 0 <= i < WSIZE ==> lastword[i] == if ramPtr + i < |from| then from[ramPtr + i] else 0
    {
      lastword := [0, 0, 0, 0, 0, 0, 0, 0];
      var rptr := ramPtr;
      while rptr < |from|
        invariant ramPtr <= rptr <= |from| && |lastword| == WSIZE
        invariant forall i :: 0 <= i < WSIZE ==> lastword[i] == if ramPtr + i < rptr then from[ramPtr + i] else 0
      {
        lastword := lastword[rptr - ramPtr := from[rptr]];
        rptr := rptr + 1;
      }
    }

    /** The double word to program next: eight RAM bytes, or the padded rest. */
    method NextDword(from: seq<byte>, ramPtr: nat) returns (dword: seq<byte>, ramPtr': nat)
      requires ramPtr % WSIZE == 0 && ramPtr < |Padded(from)|
      ensures ramPtr + WSIZE <= |Padded(from)| && dword == Padded(from)[ramPtr..ramPtr + WSIZE]
      ensures ramPtr + WSIZE < |Padded(from)| ==> ramPtr' == ramPtr + WSIZE
    {
      AlignedStep(ramPtr, |Padded(from)|);
      if |from| - ramPtr < WSIZE {
        dword := LastDword(from, ramPtr);
        ramPtr' := ramPtr;
      } else {
        dword := from[ramPtr..ramPtr + WSIZE];
        ramPtr' := ramPtr + WSIZE;
      }
    }

    /** First loop of memcopyToFlash: program `from`, padded, at flashStart. */
    method ProgramAll(from: seq<byte>, flashStart: uint32, flashEnd: uint32) returns (ok: bool)
      requires Flash() && flashStart % WSIZE == 0
      requires start <= flashStart && flashEnd < end && flashEnd == flashStart + |Padded(from)|
      modifies this`programmed, cells
      ensures Flash()
      ensures ok <==> Free(old(programmed), flashStart, flashEnd)
      ensures ok ==> programmed == old(programmed) + Dwords(flashStart, flashEnd)
      ensures ok ==> Spliced(old(cells[..]), cells[..], flashStart - start, Padded(from), |Padded(from)|)
      ensures !ok ==>
        StoppedSomewhere(old(programmed), programmed, old(cells[..]), cells[..], flashStart, flashStart - start, Padded(from))
    {
      hide AlignOffset, Padded, Splice, Spliced, NewlyProgrammed, Free, Dwords, Stopped, StoppedSomewhere;
      ghost var o, i, image := flashStart - start, 0, Padded(from);
      ghost var flash0, flash, programmed0 := cells[..], cells[..], programmed;
      NothingProgrammed(programmed, flash0, flashStart, o, image);
      var flashPtr: int, ramPtr := flashStart, 0;
      while flashPtr < flashEnd
        invariant Flash()
        invariant 0 <= i <= |image| && i % WSIZE == 0 && flashPtr == flashStart + i
        invariant i < |image| ==> ramPtr == i
        invariant NewlyProgrammed(programmed0, programmed, flashStart, flashPtr)
        invariant cells[..] == flash && Spliced(flash0, flash, o, image, i)
      {
        var dword;
        dword, ramPtr := NextDword(from, ramPtr);
        AlignedStep(i, |image|);
        NewlyProgrammedStep(programmed0, programmed, flashStart, flashPtr, flashEnd);
        ok := ProgramDword(flashPtr, dword);
        if !ok {
          ProgrammingStopped(programmed0, programmed, flash0, flash, flashStart, o, image, i);
          return;
        }
        SplicedStep(flash0, flash, o, image, i);
        flash := Splice(flash, o + i, dword);
        flashPtr, i := flashPtr + WSIZE, i + WSIZE;
      }
      AllProgrammed(programmed0, programmed, flashStart, flashEnd);
      ok := true;
    }

    /** Reads a double word of flash. */
    method LoadDword(addr: int) returns (dword: seq<byte>)
      requires Flash() && start <= addr && addr + WSIZE <= end
      ensures dword == cells[..][addr - start..addr - start + WSIZE]
    {
      dword := cells[addr - start..addr - start + WSIZE];
    }

    /** Second loop of memcopyToFlash: compare the cells with `from`, padded. */
    method VerifyAll(from: seq<byte>, flashStart: uint32, flashEnd: uint32) returns (same: bool)
      requires Flash() && flashStart % WSIZE == 0
      requires start <= flashStart && flashEnd < end && flashEnd == flashStart + |Padded(from)|
      ensures same <==> cells[..][flashStart - start..flashEnd - start] == Padded(from)
    {
      hide AlignOffset;
      ghost var i, image := 0, Padded(from);
      ghost var stored := cells[..][flashStart - start..flashEnd - start];
      var flashPtr: int, ramPtr := flashStart, 0;
      while flashPtr < flashEnd
        invariant 0 <= i <= |image| && i % WSIZE == 0 && flashPtr == flashStart + i
        invariant i < |image| ==> ramPtr == i
        invariant stored[..i] == image[..i]
      {
        var expected;
        expected, ramPtr := NextDword(from, ramPtr);
        AlignedStep(i, |image|);
        var data64 := LoadDword(flashPtr);
        SliceOfSlice(cells[..], flashStart - start, flashEnd - start, i);
        if data64 != expected {
          return false;
        }
        PrefixStep(stored, image, i, i + WSIZE);
        flashPtr, i := flashPtr + WSIZE, i + WSIZE;
      }
      same := true;
    }

    /** memcopyToFlash: program `from`, padded, at flashAddr (0 means the start), then read it back. */
    method MemcopyToFlash(from: seq<byte>, flashAddr: uint32, eraseBefore: bool) returns (r: ErrorCond)
      requires Flash() && |from| <= HEADER + MAX_LEN
      requires flashAddr % WSIZE == 0 && (flashAddr == 0 || start <= flashAddr < end)
      modifies this`programmed, cells
      ensures Flash()
      ensures var a := if flashAddr == 0 then start else flashAddr;
        var b := a + |Padded(from)|;
        && (r == SECTOR_FULL_ERR <==> b >= end)
        && (r == SECTOR_FULL_ERR ==> cells[..] == old(cells[..]) && programmed == old(programmed))
        && (r != SECTOR_FULL_ERR ==> (r == PROG_OK <==> eraseBefore || Free(old(programmed), a, b)))
        && (r == PROG_OK || r == SECTOR_FULL_ERR || r == PROGRAM_ERR)
        && (r == PROG_OK ==>
              && programmed == (if eraseBefore then {} else old(programmed)) + Dwords(a, b)
              && Spliced(if eraseBefore then AllErased(cells.Length) else old(cells[..]),
                         cells[..], a - start, Padded(from), |Padded(from)|))
        && (r == PROGRAM_ERR ==>
              && !eraseBefore
              && StoppedSomewhere(old(programmed), programmed, old(cells[..]), cells[..], a, a - start, Padded(from)))
    {
      hide Dwords, StoppedSomewhere, Spliced, Padded, Free;
      var flashStart: uint32 := if flashAddr != 0 then flashAddr else start;
      var alignOffset := (WSIZE - |from| % WSIZE) % WSIZE;
      var flashEnd: uint32 := flashStart + |from| + alignOffset;
      if flashEnd >= end {
        return SECTOR_FULL_ERR;
      }
      if eraseBefore {
        EraseCells();
      }
      ErasedIsFree(flashStart, flashEnd);
      ghost var before := cells[..];
      var ok := ProgramAll(from, flashStart, flashEnd);
      if !ok {
        return PROGRAM_ERR;
      }
      SplicedHolds(before, cells[..], flashStart - start, Padded(from));
      ok := VerifyAll(from, flashStart, flashEnd);
      if !ok {
        return VERIFY_READ_ERROR;
      }
      return PROG_OK;
    }

    // ----- chain walks -----

    /** The walk never leaves the partition. */
    lemma InBounds(k: nat)
      requires Valid() && k <= |log|
      ensures Off(log, k) <= Size(log) && Size(log) + WSIZE <= cells.Length
    {
      OffMonotone(log, k, |log|);
    }

    lemma RecordIsAt(k: nat)
      requires Valid() && k < |log|
      ensures RecordAt(cells[..], start, log, rams, k)
    {
    }

    /** Behind the last record the walk meets an erased header. */
    lemma ErasedTail()
      requires Valid()
      ensures Size(log) + WSIZE <= cells.Length
      ensures WordAt(cells[..], Size(log)) == ERASED_WORD && WordAt(cells[..], Size(log) + 4) == ERASED_WORD
    {
    }

    /** nextObjPtr of the k-th header. */
    method NextObj(obj: int, ghost k: nat) returns (next: uint32)
      requires Valid() && k <= |log| && obj == start + Off(log, k)
      ensures k < |log| ==> next == start + Off(log, k + 1) && next != ERASED_WORD
      ensures k == |log| ==> next == ERASED_WORD
    {
      hide Word, WordAt, RecSize, Off;
      InBounds(k);
      if k < |log| {
        RecordIsAt(k);
        HeaderAt(cells[..], start, log, rams, k);
      } else {
        ErasedTail();
      }
      next := LoadWord(obj);
    }

    /** eepromStructType of the k-th header. */
    method TypeOf(obj: int, ghost k: nat) returns (t: uint32)
      requires Valid() && k <= |log| && obj == start + Off(log, k)
      ensures t == if k < |log| then log[k].typ else ERASED_WORD
    {
      hide Word, WordAt, RecSize, Off;
      InBounds(k);
      if k < |log| {
        RecordIsAt(k);
        HeaderAt(cells[..], start, log, rams, k);
      } else {
        ErasedTail();
      }
      t := LoadWord(obj + 4);
    }

    /** dataLen and ramAdress of the k-th record. */
    method LenAndRamOf(obj: int, ghost k: nat) returns (len: uint32, ram: uint32)
      requires Valid() && k < |log| && obj == start + Off(log, k)
      ensures len == |log[k].data| && ram == rams[k]
    {
      hide Word, WordAt, RecSize, Off;
      RecordIsAt(k);
      HeaderAt(cells[..], start, log, rams, k);
      len, ram := LoadWord(obj + 8), LoadWord(obj + 12);
    }

    /** The memcpy of eepromLoad: the data of the k-th record. */
    method CopyData(obj: int, ghost k: nat, data: array<byte>, len: nat)
      requires Valid() && k < |log| && obj == start + Off(log, k)
      requires len == |log[k].data| <= data.Length && data != cells
      modifies data
      ensures data[..len] == log[k].data && data[len..] == old(data[len..])
    {
      hide Word, WordAt, RecSize, Off;
      RecordIsAt(k);
      HeaderAt(cells[..], start, log, rams, k);
      ghost var stored := cells[..][Off(log, k) + HEADER..Off(log, k) + HEADER + len];
      forall i | 0 <= i < len {
        data[i] := cells[obj - start + HEADER + i];
      }
      assert forall i :: 0 <= i < len ==> data[i] == stored[i];
      assert forall i :: len <= i < data.Length ==> data[i] == old(data[i]);
      assert data[len..] == old(data[len..]);
    }

    /** eepromStatus: free bytes behind the last record. */
    method EepromStatus() returns (free: nat)
      requires Valid()
      ensures free == end - start - Size(log)
    {
      var obj := FindTail();
      free := end - obj;
    }

    /** The walk that eepromStatus and eepromStore share: address of the first free header. */
    method FindTail() returns (obj: int)
      requires Valid()
      ensures obj == start + Size(log)
    {
      hide RecSize, Holds;
      obj := start;
      ghost var k := 0;
      var next := NextObj(obj, k);
      while next != ERASED_WORD
        invariant k <= |log| && obj == start + Off(log, k)
        invariant k < |log| ==> next == start + Off(log, k + 1)
        invariant next == ERASED_WORD <==> k == |log|
        decreases |log| - k
      {
        obj, k := next, k + 1;
        next := NextObj(obj, k);
      }
    }

    /** The walk that eepromLoad and eepromGetLenOfType share: the last record of type t, 0 if none. */
    method FindLast(t: nat) returns (last: int)
      requires Valid() && t < nTypes
      ensures last == RecordAddress(LastIndex(log, t))
    {
      hide RecSize, Holds, LastIndex;
      var obj: int := start;
      ghost var k := 0;
      var typ := TypeOf(obj, k);
      last := if typ == t then obj else 0;
      LastIndexStep(log, 0, t);
      var next := NextObj(obj, k);
      while next != ERASED_WORD
        invariant k <= |log| && obj == start + Off(log, k)
        invariant k < |log| ==> next == start + Off(log, k + 1)
        invariant next == ERASED_WORD <==> k == |log|
        invariant last == RecordAddress(LastIndex(Scanned(log, k), t))
        decreases |log| - k
      {
        obj, k := next, k + 1;
        next := NextObj(obj, k);
        typ := TypeOf(obj, k);
        LastIndexStep(log, k, t);
        if typ == t {
          last := obj;
        }
      }
    }

    ghost function RecordAddress(i: int): int
      requires i < |log|
      reads this
    {
      if i < 0 then 0 else start + Off(log, i)
    }

    method EepromGetLenOfType(t: nat) returns (len: nat)
      requires Valid() && t < nTypes
      ensures len == if t in Contents(log) then |Contents(log)[t]| else 0
    {
      var last := FindLast(t);
      ContentsIsLast(log, t);
      if last == 0 {
        return 0;
      }
      var length, _ := LenAndRamOf(last, LastIndex(log, t));
      len := length;
    }

    /** eepromLoad into a buffer of at least len bytes that lies at RAM address ram. */
    method EepromLoad(t: nat, data: array<byte>, ram: uint32, len: nat) returns (r: ErrorCond)
      requires Valid() && t < nTypes
      requires len <= data.Length && data != cells
      modifies data
      ensures Valid()
      ensures r == NOT_FOUND <==> t !in Contents(log)
      ensures r == SIZES_DIFFER <==> t in Contents(log) && |Contents(log)[t]| != len
      ensures r == PROG_OK || r == OK_RAM_ADDR_DIFFER || r == NOT_FOUND || r == SIZES_DIFFER
      ensures r == PROG_OK || r == OK_RAM_ADDR_DIFFER ==>
        && data[..len] == Contents(log)[t] && data[len..] == old(data[len..])
        && (r == PROG_OK <==> ram == StoredFrom(t))
      ensures r == NOT_FOUND || r == SIZES_DIFFER ==> data[..] == old(data[..])
    {
      var last := FindLast(t);
      ContentsIsLast(log, t);
      if last == 0 {
        return NOT_FOUND;
      }
      ghost var k := LastIndex(log, t);
      var dataLen, ramAddress := LenAndRamOf(last, k);
      if len != dataLen {
        return SIZES_DIFFER;
      }
      r := PROG_OK;
      if ram != ramAddress {
        r := OK_RAM_ADDR_DIFFER;
      }
      CopyData(last, k, data, len);
    }

    /** RAM address the current record of type t was stored from. */
    ghost function StoredFrom(t: nat): uint32
      requires Valid() && t in Contents(log)
      reads this, cells
    {
      ContentsIsLast(log, t);
      rams[LastIndex(log, t)]
    }

    // ----- store and wipe -----

    /** The end of eepromStore: append a record behind the last one, if it fits. */
    method AppendRecord(t: nat, data: seq<byte>, ram: uint32) returns (r: ErrorCond)
      requires Valid() && t < nTypes && |data| <= MAX_LEN
      modifies this, cells
      ensures Valid()
      ensures (log, r) == if Fits(end - start, old(log), |data|) then (old(log) + [Entry(t, data)], PROG_OK)
                          else (old(log), SECTOR_FULL_ERR)
      ensures rams == if r == PROG_OK then old(rams) + [ram] else old(rams)
    {
      hide Word, WordAt, Off, Holds, Spliced, Free, Dwords, WellTyped, StoppedSomewhere;
      ghost var e := Entry(t, data);
      ghost var before := cells[..];
      var obj := FindTail();
      var objSize := HEADER + |data|;
      var next: uint32 := obj + AlignOffset(objSize) + objSize;
      var record := Record(next, Entry(t, data), ram);
      OffAligned(log, |log|);
      BehindIsFree(start, obj, next);
      r := MemcopyToFlash(record, obj, false);
      if r == PROG_OK {
        HoldsAfterAppend(before, cells[..], start, log, rams, e, ram);
        AppendKeepsValid(end - start, nTypes, log, e);
        log, rams := log + [e], rams + [ram];
      }
    }

    /** eepromStore.  It may wipe, and a wipe stores: the recursion ends because a store made by a wipe
        never needs to wipe. */
    method EepromStore(t: nat, data: seq<byte>, ram: uint32) returns (r: ErrorCond)
      requires Valid() && t < nTypes && |data| <= MAX_LEN
      modifies this, cells
      ensures Valid()
      ensures (log, r) == StoreLog(end - start, nTypes, old(log), Entry(t, data))
      ensures r == PROG_OK ==> rams[|log| - 1] == ram
      decreases if WipesFirst(end - start, log, |data|) then 3 else 0
    {
      var status := EepromStatus();
      if status - |data| < WSIZE {
        var _ := EepromWipe();
      }
      r := AppendRecord(t, data, ram);
    }

    /** First phase of eepromWipe: a RAM copy of the last record of every type. */
    method LoadLive() returns (r: ErrorCond, saved: seq<seq<byte>>, ptrs: seq<uint32>)
      requires Valid()
      ensures r == PROG_OK && |saved| == |ptrs| == nTypes
      ensures forall t :: 0 <= t < nTypes ==> saved[t] == if t in Contents(log) then Contents(log)[t] else []
    {
      saved, ptrs, r := [], [], PROG_OK;
      var t := 0;
      while t < nTypes
        invariant Valid() && t <= nTypes && r == PROG_OK
        invariant |saved| == |ptrs| == t
        invariant forall u :: 0 <= u < t ==> saved[u] == if u in Contents(log) then Contents(log)[u] else []
      {
        var len := EepromGetLenOfType(t);
        var dataPtr := MallocAddress();
        var buffer := new byte[len];
        if len != 0 {
          r := EepromLoad(t, buffer, dataPtr, len);
          if r == OK_RAM_ADDR_DIFFER {
            r := PROG_OK;
          }
          if r != PROG_OK {
            return;
          }
          assert buffer[..] == buffer[..len];
        }
        saved, ptrs := saved + [buffer[..]], ptrs + [dataPtr];
        t := t + 1;
      }
    }

    /** Last phase of eepromWipe: store the RAM copies of the live records of log0. */
    method StoreLive(saved: seq<seq<byte>>, ptrs: seq<uint32>, ghost log0: seq<Entry>) returns (r: ErrorCond)
      requires Valid() && log == [] && ValidLog(end - start, nTypes, log0)
      requires |saved| == |ptrs| == nTypes
      requires forall t :: 0 <= t < nTypes ==> saved[t] == if t in Contents(log0) then Contents(log0)[t] else []
      modifies this, cells
      ensures Valid()
      ensures (log, r) == (Live(Contents(log0), nTypes), PROG_OK)
      decreases 1
    {
      hide Holds, RecSize, Contents, Live, StoreLog, WellTyped;
      ContentsKeys(log0, nTypes);
      NothingLive(Contents(log0));
      r := PROG_OK;
      var t := 0;
      while t < nTypes
        invariant Valid() && t <= nTypes && r == PROG_OK
        invariant log == Live(Contents(log0), t)
      {
        if |saved[t]| != 0 {
          RestoreFits(end - start, nTypes, log0, t);
          r := EepromStore(t, saved[t], ptrs[t]);
          if r != PROG_OK {
            return;
          }
        } else {
          LiveSkips(Contents(log0), t);
        }
        t := t + 1;
      }
    }

    /** eepromWipe: load the live records, erase, store them back. */
    method EepromWipe() returns (r: ErrorCond)
      requires Valid()
      modifies this, cells
      ensures Valid()
      ensures (log, r) == Step(end - start, nTypes, old(log), Wipe)
      decreases 2
    {
      ghost var log0 := log;
      var saved, ptrs;
      r, saved, ptrs := LoadLive();
      if r != PROG_OK {
        return;
      }
      var _ := EepromErase();
      r := StoreLive(saved, ptrs, log0);
    }

    // ----- whole runs -----

    /** Operations one after the other; addrs[i] is the RAM address that the i-th one, if it is a store, stores
        from. */
    method RunOps(ops: seq<Op>, addrs: seq<uint32>) returns (results: seq<ErrorCond>)
      requires Valid() && log == [] && ValidOps(nTypes, ops) && |addrs| == |ops|
      modifies this, cells
      ensures Valid() && (log, results) == Run(end - start, nTypes, ops)
    {
      hide Holds, ValidLog, Step;
      results := [];
      EmptyRun(end - start, nTypes);
      for i := 0 to |ops|
        invariant Valid() && (log, results) == Run(end - start, nTypes, ops[..i])
      {
        RunSnoc(end - start, nTypes, ops[..i], ops[i]);
        assert ops[..i] + [ops[i]] == ops[..i + 1];
        var r := Perform(ops[i], addrs[i]);
        results := results + [r];
      }
      assert ops[..|ops|] == ops;
    }

    method Perform(op: Op, addr: uint32) returns (r: ErrorCond)
      requires Valid() && ValidOps(nTypes, [op])
      modifies this, cells
      ensures Valid() && (log, r) == Step(end - start, nTypes, old(log), op)
    {
      hide Holds, ValidLog, StoreLog;
      assert [op][0] == op;
      match op {
        case Store(e) => r := EepromStore(e.typ, e.data, addr);
        case Wipe => r := EepromWipe();
        case Erase => r := EepromErase();
      }
    }

    /** The i-th operation is the store that a load of type t must return. */
    ghost predicate Counts(ops: seq<Op>, t: nat, i: nat) {
      Kept(Capacity(), nTypes, ops, t, i)
    }

    function Capacity(): nat {
      if start <= end then end - start else 0
    }

    /** What a load yields after any run on an erased part: the bytes of the store of its type that counts, or
        SIZES_DIFFER if they are not len, or NOT_FOUND if there is no such store. */
    method RunAndLoad(ops: seq<Op>, addrs: seq<uint32>, t: nat, data: array<byte>, ram: uint32, len: nat)
      returns (r: ErrorCond)
      requires Valid() && log == [] && ValidOps(nTypes, ops) && |addrs| == |ops|
      requires t < nTypes && len <= data.Length && data != cells
      modifies this, cells, data
      ensures Valid()
      ensures r == NOT_FOUND <==> forall i: nat :: !Counts(ops, t, i)
      ensures forall i: nat :: Counts(ops, t, i) ==>
                (r == SIZES_DIFFER <==> |ops[i].e.data| != len)
                && (r != SIZES_DIFFER ==> (r == PROG_OK || r == OK_RAM_ADDR_DIFFER) && data[..len] == ops[i].e.data)
    {
      hide Holds, Kept, Run;
      RunRefinesMap(Capacity(), nTypes, ops, t);
      var _ := RunOps(ops, addrs);
      if t in Contents(log) {
        ghost var i: nat :| Kept(Capacity(), nTypes, ops, t, i);
        assert Counts(ops, t, i);
      }
      r := EepromLoad(t, data, ram, len);
    }

    /** The address malloc_m happens to return. */
    method MallocAddress() returns (address: uint32) {
      address := *;
    }
  }

  /** The records a walk has seen when it stands at the k-th header. */
  function Scanned(log: seq<Entry>, k: nat): (seen: seq<Entry>)
    requires k <= |log|
    ensures |seen| <= |log|
  {
    if k < |log| then log[..k + 1] else log
  }

  lemma LastIndexStep(log: seq<Entry>, k: nat, t: nat)
    requires k <= |log|
    ensures k < |log| && log[k].typ == t ==> LastIndex(Scanned(log, k), t) == k
    ensures k > 0 && !(k < |log| && log[k].typ == t) ==>
              LastIndex(Scanned(log, k), t) == LastIndex(Scanned(log, k - 1), t)
    ensures k == 0 && !(k < |log| && log[k].typ == t) ==> LastIndex(Scanned(log, k), t) == -1
  {
    if k < |log| {
      assert log[..k + 1][..k] == log[..k];
    } else {
      assert log[..k] == log;
    }
  }
}
