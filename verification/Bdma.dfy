/** hal_stm32_bdma.h and hal_stm32_bdma.c with STM32_BDMA_USE_ASYNC_TIMOUT: one circular buffer, three
    interrupt sources.

    The controller fills the buffer round and round.  Half-buffer, full-buffer and timeout interrupts
    each hand the elements written since the last hand-over to end_cb.  Pieces are counted here from the
    start of the transfer: element i of lap n is number n * size + i. */
module Bdma {
  import opened Division

  /** Who calls; a timeout reads the controller's down counter. */
  datatype Context = FromTimeout(cnt: nat) | FromHalf | FromFull

  /** One call of end_cb: n elements, the first one being element number start. */
  datatype Piece = Piece(start: nat, n: nat)

  /** The reading side: full interrupts served, current index, pieces handed out. */
  datatype Reader = Reader(lap: nat, index: nat, out: seq<Piece>)

  function Consumed(size: nat, r: Reader): nat {
    r.lap * size + r.index
  }

  /** Elements handed out by one call. */
  function Rem(size: nat, index: nat, context: Context): nat
    requires index <= size
  {
    match context
    case FromHalf => if size / 2 > index then size / 2 - index else 0
    case FromFull => size - index
    case FromTimeout(cnt) => if size >= cnt + index then size - cnt - index else 0
  }

  function Serve(size: nat, r: Reader, context: Context): Reader
    requires r.index <= size
  {
    var rem := Rem(size, r.index, context);
    var out := if rem > 0 then r.out + [Piece(Consumed(size, r), rem)] else r.out;
    if context.FromFull? then Reader(r.lap + 1, 0, out) else Reader(r.lap, r.index + rem, out)
  }

  // ---------- every interleaving hands out every element once ----------

  /** The pieces are non-empty, follow each other without gap or overlap from element 0 up to the reading
      position, and none crosses the end of the buffer. */
  ghost predicate ExactlyOnce(size: nat, r: Reader) {
    && r.index <= size
    && (forall k :: 0 <= k < |r.out| ==> GoodPiece(size, r.out, k))
    && Consumed(size, r) == EndOf(r.out)
  }

  function EndOf(out: seq<Piece>): nat {
    if out == [] then 0 else out[|out| - 1].start + out[|out| - 1].n
  }

  ghost predicate GoodPiece(size: nat, out: seq<Piece>, k: nat)
    requires k < |out|
  {
    && out[k].n > 0
    && out[k].start == EndOf(out[..k])
    && exists lap: nat :: lap * size <= out[k].start && out[k].start + out[k].n <= lap * size + size
  }

  lemma ServeKeepsExactlyOnce(size: nat, r: Reader, context: Context)
    requires ExactlyOnce(size, r)
    ensures ExactlyOnce(size, Serve(size, r, context))
  {
    var r' := Serve(size, r, context);
    var rem := Rem(size, r.index, context);
    LapStep(size, r.lap);
    forall k | 0 <= k < |r'.out|
      ensures GoodPiece(size, r'.out, k)
    {
      if k < |r.out| {
        assert GoodPiece(size, r.out, k);
        assert r'.out[..k] == r.out[..k];
      } else {
        assert r'.out[..k] == r.out;
        assert r.lap * size <= r'.out[k].start && r'.out[k].start + r'.out[k].n <= r.lap * size + size;
      }
    }
  }

  lemma LapStep(size: nat, lap: nat)
    ensures (lap + 1) * size == lap * size + size
  {
  }

  /** A lap that ends has been handed out from its first to its last element. */
  lemma FullEndsLap(size: nat, r: Reader)
    requires ExactlyOnce(size, r)
    ensures EndOf(Serve(size, r, FromFull).out) == (r.lap + 1) * size
  {
    LapStep(size, r.lap);
    ServeKeepsExactlyOnce(size, r, FromFull);
  }

  function ServeAll(size: nat, contexts: seq<Context>): (r: Reader)
    ensures r.index <= size
  {
    if contexts == [] then Reader(0, 0, [])
    else Serve(size, ServeAll(size, contexts[..|contexts| - 1]), contexts[|contexts| - 1])
  }

  /** Any sequence of interrupts, whatever the counter reads, hands out every element exactly once. */
  lemma {:induction false} AnyInterleavingExactlyOnce(size: nat, contexts: seq<Context>)
    ensures ExactlyOnce(size, ServeAll(size, contexts))
  {
    if contexts != [] {
      var front := contexts[..|contexts| - 1];
      AnyInterleavingExactlyOnce(size, front);
      ServeKeepsExactlyOnce(size, ServeAll(size, front), contexts[|contexts| - 1]);
    }
  }

  // ---------- with the controller: what is handed out is what was written ----------

  /** Controller and driver: elements written so far, pending flags, reader. */
  datatype Sys = Sys(written: nat, half: bool, full: bool, r: Reader)

  datatype Event = Write | Interrupt | Timeout

  /** Counter register: it counts down from size and reloads. */
  function Counter(size: nat, s: Sys): nat
    requires size > 0
  {
    size - s.written % size
  }

  /** What the stream interrupt serves: full before half, and both flags are cleared. */
  function Step(size: nat, s: Sys, e: Event): Sys
    requires size > 0 && s.r.index <= size
  {
    match e
    case Write =>
      var w := s.written + 1;
      s.(written := w, half := s.half || w % size == size / 2, full := s.full || w % size == 0)
    case Interrupt =>
      if s.full then Sys(s.written, false, false, Serve(size, s.r, FromFull))
      else if s.half then Sys(s.written, false, false, Serve(size, s.r, FromHalf))
      else s
    case Timeout => s.(r := Serve(size, s.r, FromTimeout(Counter(size, s))))
  }

  /** The controller is at most one buffer ahead of the reader. */
  predicate NoOverrun(size: nat, s: Sys) {
    s.written <= Consumed(size, s.r) + size
  }

  ghost predicate Inv(size: nat, s: Sys) {
    && size > 0 && ExactlyOnce(size, s.r) && s.r.index < size
    && Consumed(size, s.r) <= s.written && NoOverrun(size, s)
    && (s.full <==> s.written >= (s.r.lap + 1) * size)
    && (s.half && !s.full ==> s.written >= s.r.lap * size + size / 2)
  }

  /** Elements start .. start+n-1 are in the buffer when written elements have gone in. */
  predicate Intact(size: nat, written: nat, p: Piece) {
    p.start + p.n <= written <= p.start + size
  }

  /** A step that respects the controller keeps the invariant, and whatever it hands out is intact. */
  lemma StepIsSound(size: nat, s: Sys, e: Event)
    requires Inv(size, s) && (e == Write ==> s.written < Consumed(size, s.r) + size)
    ensures Inv(size, Step(size, s, e))
    ensures var s' := Step(size, s, e);
            s'.r.out == s.r.out
            || (s'.r.out == s.r.out + [s'.r.out[|s.r.out|]] && Intact(size, s.written, s'.r.out[|s.r.out|]))
  {
    var s' := Step(size, s, e);
    var lap, w := s.r.lap, s.written;
    LapStep(size, lap);
    LapStep(size, lap + 1);
    match e
    case Write =>
      var w' := w + 1;
      if w' < (lap + 1) * size {
        Remainder(w', size, lap);
      } else if w' < (lap + 2) * size {
        Remainder(w', size, lap + 1);
      }
    case Interrupt =>
      ServeKeepsExactlyOnce(size, s.r, if s.full then FromFull else FromHalf);
    case Timeout =>
      ServeKeepsExactlyOnce(size, s.r, FromTimeout(Counter(size, s)));
      if s.full {
        Remainder(w, size, lap + 1);
      } else {
        Remainder(w, size, lap);
      }
  }

  /** Which element the i-th cell holds after w elements: the last one written there. */
  function LastWrite(size: nat, w: nat, i: nat): nat
    requires 0 < size && i < size && i < w
  {
    (w - 1 - i) / size * size + i
  }

  /** A cell still holds element t exactly when the controller is not more than a buffer past it. */
  lemma CellHoldsIff(size: nat, w: nat, t: nat)
    requires size > 0 && t < w
    ensures t % size <= t && (LastWrite(size, w, t % size) == t <==> w <= t + size)
  {
    var i, lap := t % size, t / size;
    assert t == lap * size + i;
    var x := w - 1 - i;
    if w <= t + size {
      DivUnique(x, size, lap);
    } else {
      var q := x / size;
      assert x == q * size + x % size;
      assert x >= lap * size + size;
    }
  }

  /** Every element of an intact piece is where end_cb reads it. */
  lemma IntactPieceReadsBack(size: nat, w: nat, p: Piece, t: nat)
    requires size > 0 && Intact(size, w, p) && p.start <= t < p.start + p.n
    ensures t % size <= t && LastWrite(size, w, t % size) == t
  {
    CellHoldsIff(size, w, t);
  }

  // ---------- whole runs ----------

  function Run(size: nat, events: seq<Event>): (s: Sys)
    requires size > 0
    ensures s.r.index <= size
  {
    if events == [] then Sys(0, false, false, Reader(0, 0, []))
    else Step(size, Run(size, events[..|events| - 1]), events[|events| - 1])
  }

  /** The controller never overwrites an element that has not been handed out. */
  ghost predicate NeverOverruns(size: nat, events: seq<Event>)
    requires size > 0
  {
    forall k :: 0 <= k <= |events| ==> NoOverrun(size, Run(size, events[..k]))
  }

  /** In every run without overrun, at every point: interrupts and timeouts hand out every element exactly
      once, in order, and each piece is read before the controller reuses its cells. */
  lemma {:induction false} EveryRunIsSound(size: nat, events: seq<Event>)
    requires size > 0 && NeverOverruns(size, events)
    ensures Inv(size, Run(size, events))
    ensures forall k :: 0 <= k < |events| ==> HandsOutIntact(size, Run(size, events[..k]), Run(size, events[..k + 1]))
  {
    hide Run, Step, NoOverrun, Inv, HandsOutIntact, Intact;
    if events == [] {
      NothingRun(size);
    } else {
      var front, e := events[..|events| - 1], events[|events| - 1];
      NeverOverrunsBefore(size, events);
      EveryRunIsSound(size, front);
      assert front + [e] == events;
      RunSnoc(size, front, e);
      SoundStepHandsOut(size, Run(size, front), e);
      forall k | 0 <= k < |events|
        ensures HandsOutIntact(size, Run(size, events[..k]), Run(size, events[..k + 1]))
      {
        if k < |front| {
          assert events[..k] == front[..k] && events[..k + 1] == front[..k + 1];
        } else {
          assert events[..k] == front && events[..k + 1] == events;
        }
      }
    }
  }

  lemma NothingRun(size: nat)
    requires size > 0
    ensures Inv(size, Run(size, []))
  {
  }

  lemma SoundStepHandsOut(size: nat, s: Sys, e: Event)
    requires Inv(size, s) && (e == Write ==> s.written < Consumed(size, s.r) + size)
    ensures Inv(size, Step(size, s, e)) && HandsOutIntact(size, s, Step(size, s, e))
  {
    StepIsSound(size, s, e);
    hide Inv, Step, Intact;
  }

  /** s' has handed out at most one more piece than s, and that piece is intact. */
  predicate HandsOutIntact(size: nat, s: Sys, s': Sys) {
    || s'.r.out == s.r.out
    || (|s'.r.out| == |s.r.out| + 1 && s'.r.out[..|s.r.out|] == s.r.out
        && Intact(size, s.written, s'.r.out[|s.r.out|]))
  }

  /** A timeout with no full interrupt pending hands out everything written so far. */
  lemma TimeoutCatchesUp(size: nat, s: Sys)
    requires Inv(size, s) && !s.full
    ensures Consumed(size, Step(size, s, Timeout).r) == s.written
  {
    LapStep(size, s.r.lap);
    Remainder(s.written, size, s.r.lap);
  }

  /** A half interrupt with no full one pending hands out everything up to the middle of the buffer. */
  lemma HalfReachesMiddle(size: nat, s: Sys)
    requires size > 0 && s.r.index <= size && s.half && !s.full
    ensures var r := Step(size, s, Interrupt).r;
            && r.lap == s.r.lap && r.index == (if s.r.index < size / 2 then size / 2 else s.r.index)
            && (s.r.index < size / 2 ==> r.out == s.r.out + [Piece(s.r.lap * size + s.r.index, size / 2 - s.r.index)])
            && (s.r.index >= size / 2 ==> r.out == s.r.out)
    ensures var s' := Step(size, s, Interrupt); s'.written == s.written && !s'.half && !s'.full
  {
  }

  /** A full one, half pending or not, hands out the rest of the buffer and starts again at its beginning. */
  lemma FullReachesEnd(size: nat, s: Sys)
    requires size > 0 && s.r.index < size && s.full
    ensures var s' := Step(size, s, Interrupt);
            && s'.r == Reader(s.r.lap + 1, 0, s.r.out + [Piece(s.r.lap * size + s.r.index, size - s.r.index)])
            && s'.written == s.written && !s'.half && !s'.full
  {
  }

  /** A timeout served while a full interrupt is pending, however many laps that is late, is ignored exactly when
      the controller's place in the buffer is not past the reader's; otherwise it hands out cells that already hold
      a later lap.  With less than two laps pending, not past the reader's place means that the controller has not
      overtaken the reader. */
  lemma LateTimeoutIgnoredIff(size: nat, s: Sys)
    requires size > 0 && s.r.index < size && (s.r.lap + 1) * size <= s.written
    ensures var s' := Step(size, s, Timeout);
            && (s'.r == s.r <==> s.written % size <= s.r.index)
            && (s'.r != s.r ==> |s'.r.out| > 0 && !Intact(size, s.written, s'.r.out[|s'.r.out| - 1]))
    ensures s.written < (s.r.lap + 2) * size ==> (s.written % size <= s.r.index <==> NoOverrun(size, s))
  {
    LapStep(size, s.r.lap);
    LapStep(size, s.r.lap + 1);
    if s.written < (s.r.lap + 2) * size {
      Remainder(s.written, size, s.r.lap + 1);
    }
  }

  lemma RunSnoc(size: nat, events: seq<Event>, e: Event)
    requires size > 0
    ensures Run(size, events + [e]) == Step(size, Run(size, events), e)
  {
    assert (events + [e])[..|events|] == events;
  }

  function Writes(n: nat): seq<Event> {
    seq(n, _ => Write)
  }

  lemma {:induction false} RunOfWrites(size: nat, n: nat)
    requires size > 0
    ensures var s := Run(size, Writes(n)); s.written == n && s.r == Reader(0, 0, [])
  {
    if n > 0 {
      RunOfWrites(size, n - 1);
      RunSnoc(size, Writes(n - 1), Write);
      assert Writes(n - 1) + [Write] == Writes(n);
    }
  }

  /** When the interrupts become pending: the half one once half of the buffer is written, the full one once all of
      it is. */
  lemma {:induction false} InterruptsRaised(size: nat, n: nat)
    requires size > 0
    ensures var s := Run(size, Writes(n));
            && (s.half <==> n > 0 && n >= size / 2)
            && (s.full <==> n >= size)
  {
    if n > 0 {
      InterruptsRaised(size, n - 1);
      RunOfWrites(size, n - 1);
      RunSnoc(size, Writes(n - 1), Write);
      assert Writes(n - 1) + [Write] == Writes(n);
      if n < size {
        Remainder(n, size, 0);
      } else if n == size {
        Remainder(n, size, 1);
      }
    }
  }

  /** It does happen, for every size: a timeout that comes when one element more than the buffer holds has been
      written, and neither interrupt was served, hands out a cell that holds the next lap. */
  lemma LateTimeoutHandsOutOverwritten(size: nat)
    requires size > 1
    ensures var s := Run(size, Writes(size + 1) + [Timeout]);
            && s.written == size + 1 && s.r.out == [Piece(0, 1)]
            && !Intact(size, size + 1, Piece(0, 1)) && LastWrite(size, size + 1, 0) == size
  {
    hide Run, LastWrite;
    RunOfWrites(size, size + 1);
    RunSnoc(size, Writes(size + 1), Timeout);
    Remainder(size + 1, size, 1);
    LastWriteOfFirst(size);
  }

  lemma LastWriteOfFirst(size: nat)
    requires size > 0
    ensures LastWrite(size, size + 1, 0) == size
  {
    assert size / size == 1 by { DivUnique(size, size, 1); }
  }

  // ---------- contents ----------

  /** The buffer after w elements of stream, the controller going round in it. */
  function Cells<T>(buffer: seq<T>, stream: nat -> T, w: nat): (cells: seq<T>)
    requires |buffer| > 0
    ensures |cells| == |buffer|
  {
    if w == 0 then buffer else Cells(buffer, stream, w - 1)[(w - 1) % |buffer| := stream(w - 1)]
  }

  /** While it has not been overwritten, element t is in its cell. */
  lemma {:induction false} CellHolds<T>(buffer: seq<T>, stream: nat -> T, w: nat, t: nat)
    requires |buffer| > 0 && t < w <= t + |buffer|
    ensures Cells(buffer, stream, w)[t % |buffer|] == stream(t)
  {
    if t < w - 1 {
      CellHolds(buffer, stream, w - 1, t);
      if (w - 1) % |buffer| == t % |buffer| {
        SameResidue(w - 1, t, |buffer|);
      }
    }
  }

  /** The number of elements a step hands out. */
  function Handed(size: nat, s: Sys, e: Event): (n: nat)
    requires size > 0 && s.r.index <= size
    ensures s.r.index + n <= size
  {
    match e
    case Write => 0
    case Interrupt =>
      if s.full then Rem(size, s.r.index, FromFull)
      else if s.half then Rem(size, s.r.index, FromHalf)
      else 0
    case Timeout => Rem(size, s.r.index, FromTimeout(Counter(size, s)))
  }

  /** What the step passes to end_cb: the cells it hands out, from the place of the reader on, as they are then. */
  function Passed<T>(buffer: seq<T>, stream: nat -> T, s: Sys, e: Event): seq<T>
    requires |buffer| > 0 && s.r.index <= |buffer|
  {
    Cells(buffer, stream, s.written)[s.r.index..s.r.index + Handed(|buffer|, s, e)]
  }

  /** Everything passed to end_cb during a run, one piece behind the other. */
  function AllPassed<T>(buffer: seq<T>, stream: nat -> T, events: seq<Event>): seq<T>
    requires |buffer| > 0
  {
    if events == [] then []
    else
      var front, e := events[..|events| - 1], events[|events| - 1];
      AllPassed(buffer, stream, front) + Passed(buffer, stream, Run(|buffer|, front), e)
  }

  function Elements<T>(stream: nat -> T, from: nat, n: nat): seq<T> {
    seq(n, i requires 0 <= i < n => stream(from + i))
  }

  lemma ElementsInTwo<T>(stream: nat -> T, m: nat, n: nat)
    ensures Elements(stream, 0, m) + Elements(stream, m, n) == Elements(stream, 0, m + n)
  {
  }

  /** The cells of a piece that has been written and not overwritten. */
  lemma CellsOfPiece<T>(buffer: seq<T>, stream: nat -> T, w: nat, lap: nat, index: nat, n: nat)
    requires |buffer| > 0 && index + n <= |buffer|
    requires n > 0 ==> lap * |buffer| + index + n <= w <= lap * |buffer| + index + |buffer|
    ensures Cells(buffer, stream, w)[index..index + n] == Elements(stream, lap * |buffer| + index, n)
  {
    hide Cells;
    var cells, elements := Cells(buffer, stream, w)[index..index + n], Elements(stream, lap * |buffer| + index, n);
    forall i | 0 <= i < n
      ensures cells[i] == elements[i]
    {
      CellOfLap(buffer, stream, w, lap, index + i);
    }
  }

  lemma CellOfLap<T>(buffer: seq<T>, stream: nat -> T, w: nat, lap: nat, i: nat)
    requires |buffer| > 0 && i < |buffer| && lap * |buffer| + i < w <= lap * |buffer| + i + |buffer|
    ensures Cells(buffer, stream, w)[i] == stream(lap * |buffer| + i)
  {
    hide Cells;
    Remainder(lap * |buffer| + i, |buffer|, lap);
    CellHolds(buffer, stream, w, lap * |buffer| + i);
  }

  /** What a step hands out is one piece, which joins those before and, if the step is sound, is intact. */
  lemma StepHandsOut(size: nat, s: Sys, e: Event)
    requires Inv(size, s) && (e == Write ==> s.written < Consumed(size, s.r) + size)
    ensures var s', n := Step(size, s, e), Handed(size, s, e);
            && Consumed(size, s'.r) == Consumed(size, s.r) + n
            && s'.r.out == (if n > 0 then s.r.out + [Piece(Consumed(size, s.r), n)] else s.r.out)
            && (n > 0 ==> Consumed(size, s.r) + n <= s.written <= Consumed(size, s.r) + size)
  {
    StepIsSound(size, s, e);
    LapStep(size, s.r.lap);
    hide ExactlyOnce;
  }

  /** So a step passes on the elements that follow those consumed. */
  lemma StepPassesStream<T>(buffer: seq<T>, stream: nat -> T, s: Sys, e: Event)
    requires |buffer| > 0 && Inv(|buffer|, s) && (e == Write ==> s.written < Consumed(|buffer|, s.r) + |buffer|)
    ensures Elements(stream, 0, Consumed(|buffer|, s.r)) + Passed(buffer, stream, s, e)
         == Elements(stream, 0, Consumed(|buffer|, Step(|buffer|, s, e).r))
  {
    hide Step, Cells, Elements, Handed, ExactlyOnce;
    var n := Handed(|buffer|, s, e);
    StepHandsOut(|buffer|, s, e);
    CellsOfPiece(buffer, stream, s.written, s.r.lap, s.r.index, n);
    ElementsInTwo(stream, Consumed(|buffer|, s.r), n);
  }

  /** The cells passed are those the callback is told of: they start where the reader stands and are as many as it
      hands out. */
  lemma PassedIsAnnounced<T>(buffer: seq<T>, stream: nat -> T, s: Sys, e: Event)
    requires |buffer| > 0 && s.r.index <= |buffer|
    ensures var n := Handed(|buffer|, s, e);
            && |Passed(buffer, stream, s, e)| == n
            && (forall i :: 0 <= i < n ==> Passed(buffer, stream, s, e)[i] == Cells(buffer, stream, s.written)[s.r.index + i])
            && Step(|buffer|, s, e).r.out == (if n > 0 then s.r.out + [Piece(Consumed(|buffer|, s.r), n)] else s.r.out)
  {
    hide Cells;
  }

  /** In every run in which the controller never overtakes the reader, what the callback has been given, put
      together, is what was written, up to the reading position. */
  lemma {:induction false} EveryRunPassesStream<T>(buffer: seq<T>, stream: nat -> T, events: seq<Event>)
    requires |buffer| > 0 && NeverOverruns(|buffer|, events)
    ensures AllPassed(buffer, stream, events) == Elements(stream, 0, Consumed(|buffer|, Run(|buffer|, events).r))
  {
    if events != [] {
      var size, front, e := |buffer|, events[..|events| - 1], events[|events| - 1];
      NeverOverrunsBefore(size, events);
      EveryRunIsSound(size, front);
      EveryRunPassesStream(buffer, stream, front);
      StepPassesStream(buffer, stream, Run(size, front), e);
    }
  }

  lemma NeverOverrunsBefore(size: nat, events: seq<Event>)
    requires size > 0 && events != [] && NeverOverruns(size, events)
    ensures var front, e := events[..|events| - 1], events[|events| - 1];
            var s := Run(size, front);
            NeverOverruns(size, front) && (e == Write ==> s.written < Consumed(size, s.r) + size)
  {
    var front := events[..|events| - 1];
    forall k | 0 <= k <= |front|
      ensures NoOverrun(size, Run(size, front[..k]))
    {
      assert events[..k] == front[..k];
    }
    assert events[..|events|] == events;
    assert NoOverrun(size, Run(size, events[..|events|]));
  }

  // ---------- the driver ----------

  /** Byte address of element i. */
  function Ptr(base: nat, msize: nat, i: nat): nat {
    base + msize * i
  }

  datatype State = READY | ACTIVE | ERROR

  /** BDMADriver in circular mode.  Pointers are byte addresses. */
  class BdmaDriver {
    const msize: nat
    const hasEndCb: bool
    const hasErrorCb: bool
    var mem0p: nat
    var size: nat
    var currPtr: nat
    var state: State
    var streamEnabled: bool
    ghost var reader: Reader

    /** currPtr points at the reader's element. */
    ghost predicate Valid()
      reads this
    {
      && (msize == 1 || msize == 2 || msize == 4)
      && size > 0 && ExactlyOnce(size, reader)
      && currPtr == Ptr(mem0p, msize, reader.index)
    }

    constructor (msize: nat, hasEndCb: bool, hasErrorCb: bool)
      ensures this.msize == msize && this.hasEndCb == hasEndCb && this.hasErrorCb == hasErrorCb && state == READY
    {
      this.msize, this.hasEndCb, this.hasErrorCb := msize, hasEndCb, hasErrorCb;
      state, streamEnabled := READY, false;
    }

    /** bdmaStartTransfertI */
    method StartTransfer(mem0p: nat, size: nat)
      requires (msize == 1 || msize == 2 || msize == 4) && size > 0
      modifies this
      ensures Valid() && state == ACTIVE && streamEnabled && this.mem0p == mem0p && this.size == size
      ensures reader == ServeAll(size, [])
    {
      state, streamEnabled := ACTIVE, true;
      currPtr := mem0p;
      this.mem0p, this.size := mem0p, size;
      reader := Reader(0, 0, []);
    }

    /** The call of end_cb, (address, count), made for rem elements; none if rem is 0. */
    function Calls(address: nat, rem: nat): seq<(nat, nat)> {
      if hasEndCb && rem > 0 then [(address, rem)] else []
    }

    /** A piece of n elements from element i of the buffer on is announced by its address and count; nothing is if n
        is 0. */
    lemma CallsMean(i: nat, n: nat)
      ensures hasEndCb && n > 0 ==> Calls(Ptr(mem0p, msize, i), n) == [(mem0p + msize * i, n)]
      ensures !hasEndCb || n == 0 ==> Calls(Ptr(mem0p, msize, i), n) == []
    {
    }

    /** async_timout_enabled_call_end_cb */
    method CallEndCb(context: Context) returns (call: seq<(nat, nat)>)
      requires Valid()
      modifies this`currPtr, this`reader
      ensures Valid() && reader == Serve(size, old(reader), context)
      ensures call == Calls(old(currPtr), Rem(size, old(reader.index), context))
    {
      ServeKeepsExactlyOnce(size, reader, context);
      hide ExactlyOnce;
      var baseAddr := currPtr;
      var rem := MovePointer(context);
      reader := Serve(size, reader, context);
      call := Calls(baseAddr, rem);
    }

    /** The switch of async_timout_enabled_call_end_cb: where the three callers leave currPtr. */
    method MovePointer(context: Context) returns (rem: nat)
      requires (msize == 1 || msize == 2 || msize == 4) && reader.index <= size
      requires currPtr == Ptr(mem0p, msize, reader.index)
      modifies this`currPtr
      ensures rem == Rem(size, reader.index, context)
      ensures currPtr == Ptr(mem0p, msize, if context.FromFull? then 0 else reader.index + rem)
    {
      hide Ptr;
      var baseAddr, halfSize := currPtr, size / 2;
      var basePtr, midPtr, endPtr := Ptr(mem0p, msize, 0), Ptr(mem0p, msize, halfSize), Ptr(mem0p, msize, size);
      rem := 0;
      match context {
        case FromHalf =>
          PtrDifference(mem0p, msize, reader.index, halfSize);
          if midPtr > baseAddr {
            rem := (midPtr - baseAddr) / msize;
            currPtr := midPtr;
          }
        case FromFull =>
          PtrDifference(mem0p, msize, reader.index, size);
          rem := (endPtr - baseAddr) / msize;
          currPtr := basePtr;
        case FromTimeout(cnt) =>
          PtrDifference(mem0p, msize, 0, reader.index);
          var index := (baseAddr - basePtr) / msize;
          if size >= cnt + index {
            rem := size - cnt - index;
            currPtr := baseAddr + rem * msize;
            PtrDifference(mem0p, msize, reader.index, reader.index + rem);
          }
      }
    }

    /** bdma_lld_serve_interrupt, with the error, full and half flags it was given.  left is the state in which
        the error callback, if there is one, leaves the driver. */
    method ServeInterrupt(error: bool, full: bool, half: bool, left: State) returns (call: seq<(nat, nat)>)
      requires Valid()
      modifies this`currPtr, this`reader, this`state, this`streamEnabled
      ensures Valid()
      ensures state == if !error then old(state) else if hasErrorCb && left != ERROR then left else READY
      ensures streamEnabled == (old(streamEnabled) && !error)
      ensures reader == if error || old(state) != ACTIVE then old(reader)
                        else if full then Serve(size, old(reader), FromFull)
                        else if half then Serve(size, old(reader), FromHalf)
                        else old(reader)
      ensures call == if error || old(state) != ACTIVE then []
                      else if full then Calls(old(currPtr), Rem(size, old(reader.index), FromFull))
                      else if half then Calls(old(currPtr), Rem(size, old(reader.index), FromHalf))
                      else []
      ensures !error && old(state) == ACTIVE && full ==>
                currPtr == mem0p
                && (hasEndCb && old(reader.index) < size ==>
                      call == [(mem0p + msize * old(reader.index), size - old(reader.index))])
      ensures !error && old(state) == ACTIVE && !full && half && old(reader.index) < size / 2 ==>
                currPtr == mem0p + msize * (size / 2)
                && (hasEndCb ==> call == [(mem0p + msize * old(reader.index), size / 2 - old(reader.index))])
      ensures !error && old(state) == ACTIVE && !full && half && old(reader.index) >= size / 2 ==>
                currPtr == old(currPtr) && call == []
    {
      call := [];
      if error {
        ServeError(left);
      } else if state == ACTIVE {
        if full {
          call := CallEndCb(FromFull);
        } else if half {
          call := CallEndCb(FromHalf);
        }
      }
    }

    /** _bdma_isr_error_code for a transfer error */
    method ServeError(left: State)
      modifies this`state, this`streamEnabled
      ensures !streamEnabled && state == if hasErrorCb && left != ERROR then left else READY
    {
      streamEnabled := false;
      if hasErrorCb {
        state := ERROR;
        state := left;
        if state == ERROR {
          state := READY;
        }
      } else {
        state := READY;
      }
    }

    /** bdma_lld_serve_timeout_interrupt, with the counter it reads. */
    method ServeTimeout(cnt: nat) returns (call: seq<(nat, nat)>)
      requires Valid()
      modifies this`currPtr, this`reader
      ensures Valid() && reader == Serve(size, old(reader), FromTimeout(cnt))
      ensures call == Calls(old(currPtr), Rem(size, old(reader.index), FromTimeout(cnt)))
      ensures old(reader.index) + cnt < size ==>
                currPtr == mem0p + msize * (size - cnt)
                && (hasEndCb ==> call == [(mem0p + msize * old(reader.index), size - cnt - old(reader.index))])
      ensures old(reader.index) + cnt >= size ==> currPtr == old(currPtr) && call == []
    {
      call := CallEndCb(FromTimeout(cnt));
    }
  }

  lemma PtrDifference(base: nat, msize: nat, i: nat, j: nat)
    requires msize == 1 || msize == 2 || msize == 4
    ensures Ptr(base, msize, j) > Ptr(base, msize, i) <==> j > i
    ensures j >= i ==> (Ptr(base, msize, j) - Ptr(base, msize, i)) / msize == j - i >= 0
    ensures j >= i ==> Ptr(base, msize, j) == Ptr(base, msize, i) + (j - i) * msize
  {
  }
}
