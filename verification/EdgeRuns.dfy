/** The telemetry line of dshot_rpmCapture.c, on levels and times.

    A frame is 21 levels.  The line idles high before and after it, and the first level is low.  The
    timer captures the time of every level change modulo 65536. */
module EdgeRuns {
  import opened DshotErps

  const FRAME_LEN: nat := 20

  type uint16 = x: int | 0 <= x < 65536

  // ---------- runs ----------

  function Sum(runs: seq<nat>): nat {
    if runs == [] then 0 else Sum(runs[..|runs| - 1]) + runs[|runs| - 1]
  }

  function Repeat(b: bool, n: nat): (ls: seq<bool>)
    ensures |ls| == n && forall i :: 0 <= i < n ==> ls[i] == b
  {
    seq(n, _ => b)
  }

  /** Level of the i-th run; the first run is low. */
  predicate High(i: nat) {
    i % 2 == 1
  }

  lemma HighAlternates(i: nat)
    ensures High(i + 1) == !High(i) && !High(0)
  {
  }

  /** Levels of alternating runs, the first one low. */
  function Expand(runs: seq<nat>): (ls: seq<bool>)
    ensures |ls| == Sum(runs)
  {
    if runs == [] then []
    else Expand(runs[..|runs| - 1]) + Repeat(High(|runs| - 1), runs[|runs| - 1])
  }

  predicate GoodRuns(runs: seq<nat>) {
    Sum(runs) <= FRAME_LEN + 1 && forall i :: 0 <= i < |runs| ==> 1 <= runs[i] <= 3
  }

  lemma {:induction false} SumOfPrefix(runs: seq<nat>, i: nat)
    requires i <= |runs|
    ensures Sum(runs[..i]) <= Sum(runs)
    decreases |runs|
  {
    if i == |runs| {
      assert runs[..i] == runs;
    } else {
      SumOfPrefix(runs[..|runs| - 1], i);
      assert runs[..|runs| - 1][..i] == runs[..i];
    }
  }

  lemma RunsStep(runs: seq<nat>, i: nat)
    requires 1 <= i <= |runs|
    ensures Expand(runs[..i]) == Expand(runs[..i - 1]) + Repeat(High(i - 1), runs[i - 1])
    ensures Sum(runs[..i]) == Sum(runs[..i - 1]) + runs[i - 1] <= Sum(runs)
  {
    hide Repeat;
    assert runs[..i][..i - 1] == runs[..i - 1];
    SumOfPrefix(runs, i);
  }

  // ---------- intervals ----------

  /** Number of bit times between two captures, rounded. */
  function BitTimes(prec: uint16, cur: uint16, duty: nat): nat
    requires duty > 0
  {
    ((cur - prec) % 65536 + duty / 2) / duty
  }

  function Runs(capture: seq<uint16>, duty: nat): (runs: seq<nat>)
    requires duty > 0 && |capture| > 0
    ensures |runs| == |capture| - 1
  {
    seq(|capture| - 1, i requires 0 <= i < |capture| - 1 => BitTimes(capture[i], capture[i + 1], duty))
  }

  lemma RunAt(capture: seq<uint16>, duty: nat, i: nat)
    requires duty > 0 && i + 1 < |capture|
    ensures Runs(capture, duty)[i] == BitTimes(capture[i], capture[i + 1], duty)
  {
  }

  lemma RoundedQuotient(x: nat, duty: nat, k: nat)
    requires duty > 0 && k * duty <= x < k * duty + duty
    ensures x / duty == k
  {
    assert k * duty + duty == (k + 1) * duty;
    AtMostQuotient(x, duty, k);
    AboveQuotient(x, duty, k + 1);
  }

  /** An interval of k bit times, 1 to 3, off by at most half a bit time, is read as k. */
  lemma IntervalRecovered(prec: uint16, cur: uint16, duty: nat, k: nat, jitter: int)
    requires 0 < duty && 4 * duty <= 65536 && 1 <= k <= 3
    requires -(duty / 2) <= jitter <= duty - 1 - duty / 2
    requires cur == (prec + k * duty + jitter) % 65536
    ensures BitTimes(prec, cur, duty) == k
  {
    var len := k * duty + jitter;
    assert 0 <= len < 65536 by {
      if k == 1 {
      } else if k == 2 {
      } else {
      }
    }
    assert (cur - prec) % 65536 == len;
    RoundedQuotient(len + duty / 2, duty, k);
  }

  // ---------- levels and edges ----------

  /** Level in the p-th bit time; outside the frame the line is high. */
  function Line(ls: seq<bool>, p: int): bool {
    if 0 <= p < |ls| then ls[p] else true
  }

  predicate Edge(ls: seq<bool>, p: int) {
    Line(ls, p - 1) != Line(ls, p)
  }

  /** The bit times, from p on, at which the level changes. */
  function Edges(ls: seq<bool>, p: nat): (es: seq<nat>)
    decreases |ls| + 1 - p
  {
    if p > |ls| then [] else (if Edge(ls, p) then [p] else []) + Edges(ls, p + 1)
  }

  ghost predicate NoEdgeBetween(ls: seq<bool>, es: seq<nat>, i: nat)
    requires i + 1 < |es|
  {
    forall q :: es[i] < q < es[i + 1] ==> !Edge(ls, q)
  }

  /** es lists, in order, exactly the edges from p on. */
  ghost predicate ListsEdges(ls: seq<bool>, p: nat, es: seq<nat>) {
    && (forall i :: 0 <= i < |es| ==> p <= es[i] <= |ls| && Edge(ls, es[i]))
    && (forall i, j :: 0 <= i < j < |es| ==> es[i] < es[j])
    && (forall i :: 0 <= i < |es| - 1 ==> NoEdgeBetween(ls, es, i))
    && (forall q :: p <= q <= |ls| && (|es| == 0 || q < es[0] || es[|es| - 1] < q) ==> !Edge(ls, q))
  }

  lemma ListsEdgesStep(ls: seq<bool>, p: nat, rest: seq<nat>)
    requires p <= |ls| && ListsEdges(ls, p + 1, rest)
    ensures if Edge(ls, p) then ListsEdges(ls, p, [p] + rest) else ListsEdges(ls, p, rest)
  {
    hide Edge;
    if Edge(ls, p) {
      var es := [p] + rest;
      assert forall i :: 1 <= i < |es| ==> es[i] == rest[i - 1];
      forall i | 0 <= i < |es| - 1
        ensures NoEdgeBetween(ls, es, i)
      {
        if i > 0 {
          assert NoEdgeBetween(ls, rest, i - 1);
        }
      }
    }
  }

  lemma {:induction false} EdgesListed(ls: seq<bool>, p: nat)
    ensures ListsEdges(ls, p, Edges(ls, p))
    decreases |ls| + 1 - p
  {
    hide ListsEdges, Edge;
    if p <= |ls| {
      EdgesListed(ls, p + 1);
      ListsEdgesStep(ls, p, Edges(ls, p + 1));
      assert [] + Edges(ls, p + 1) == Edges(ls, p + 1);
    } else {
      NoneBehind(ls, p);
    }
  }

  lemma NoneBehind(ls: seq<bool>, p: nat)
    requires p > |ls|
    ensures ListsEdges(ls, p, [])
  {
  }

  lemma {:induction false} LineConstant(ls: seq<bool>, a: nat, b: nat)
    requires a <= b && forall q :: a < q <= b ==> !Edge(ls, q)
    ensures Line(ls, b) == Line(ls, a)
  {
    if a < b {
      LineConstant(ls, a, b - 1);
      assert !Edge(ls, b);
    }
  }

  /** Levels alternate: the i-th run is high when i is odd. */
  lemma {:induction false} RunLevel(ls: seq<bool>, es: seq<nat>, i: nat, q: nat)
    requires ListsEdges(ls, 0, es) && |ls| > 0 && !ls[0]
    requires i < |es| && es[i] <= q && (if i + 1 < |es| then q < es[i + 1] else q <= |ls|)
    ensures Line(ls, q) == High(i)
  {
    assert Edge(ls, 0);
    HighAlternates(i);
    if i > 0 {
      HighAlternates(i - 1);
      RunLevel(ls, es, i - 1, es[i] - 1);
      assert Edge(ls, es[i]);
    }
    if i + 1 < |es| {
      assert NoEdgeBetween(ls, es, i);
    }
    hide Line, Edge;
    LineConstant(ls, es[i], q);
  }

  /** Distance between edge i and the next one. */
  function Distance(es: seq<nat>, i: nat): nat
    requires i + 1 < |es|
  {
    if es[i] < es[i + 1] then es[i + 1] - es[i] else 0
  }

  function Distances(es: seq<nat>): (runs: seq<nat>)
    requires |es| > 0
    ensures |runs| == |es| - 1 && forall i :: 0 <= i < |runs| ==> runs[i] == Distance(es, i)
  {
    seq(|es| - 1, i requires 0 <= i < |es| - 1 => Distance(es, i))
  }

  lemma FirstEdge(ls: seq<bool>, es: seq<nat>)
    requires ListsEdges(ls, 0, es) && |ls| > 0 && !ls[0]
    ensures |es| > 0 && es[0] == 0
  {
    assert Edge(ls, 0);
  }

  lemma NoLevels()
    ensures Sum([]) == 0 && Expand([]) == []
  {
  }

  lemma {:induction false} LevelsOfPrefix(ls: seq<bool>, es: seq<nat>, i: nat)
    requires ListsEdges(ls, 0, es) && |ls| > 0 && !ls[0] && i < |es|
    ensures Sum(Distances(es)[..i]) == es[i] <= |ls| && Expand(Distances(es)[..i]) == ls[..es[i]]
  {
    hide ListsEdges, Sum, Expand, Repeat, High, Distances;
    FirstEdge(ls, es);
    var runs := Distances(es);
    if i == 0 {
      NoLevels();
      assert runs[..0] == [] && ls[..0] == [];
    } else {
      LevelsOfPrefix(ls, es, i - 1);
      RunsStep(runs, i);
      RunSlice(ls, es, i - 1);
      assert runs[i - 1] == es[i] - es[i - 1];
      assert ls[..es[i]] == ls[..es[i - 1]] + ls[es[i - 1]..es[i]];
    }
  }

  lemma RunSlice(ls: seq<bool>, es: seq<nat>, i: nat)
    requires ListsEdges(ls, 0, es) && |ls| > 0 && !ls[0] && i + 1 < |es|
    ensures es[i] < es[i + 1] <= |ls| && ls[es[i]..es[i + 1]] == Repeat(High(i), es[i + 1] - es[i])
  {
    forall q: nat | es[i] <= q < es[i + 1]
      ensures ls[q] == High(i)
    {
      RunLevel(ls, es, i, q);
    }
  }

  /** The distances between the edges, and idle high behind the last one, give the levels back. */
  lemma LevelsFromEdges(ls: seq<bool>, es: seq<nat>)
    requires ListsEdges(ls, 0, es) && |ls| > 0 && !ls[0]
    ensures |es| > 0 && Sum(Distances(es)) <= |ls|
    ensures Expand(Distances(es)) + Repeat(true, |ls| - Sum(Distances(es))) == ls
  {
    FirstEdge(ls, es);
    var runs, n := Distances(es), |es| - 1;
    LevelsOfPrefix(ls, es, n);
    assert runs[..n] == runs;
    RunLevel(ls, es, n, |ls|);
    forall q: nat | es[n] <= q < |ls|
      ensures ls[q]
    {
      RunLevel(ls, es, n, q);
    }
  }

  // ---------- clean captures ----------

  /** Interval i is off by at most half a bit time, and the counter wraps. */
  ghost predicate CleanInterval(capture: seq<uint16>, es: seq<nat>, jitter: seq<int>, duty: nat, i: nat)
    requires |capture| == |es| == |jitter| && i + 1 < |es|
  {
    && -(duty / 2) <= jitter[i] <= duty - 1 - duty / 2
    && capture[i + 1] == (capture[i] + Distance(es, i) * duty + jitter[i]) % 65536
  }

  /** Timestamps of the edges es. */
  ghost predicate Captures(capture: seq<uint16>, es: seq<nat>, jitter: seq<int>, duty: nat) {
    && |capture| == |es| == |jitter|
    && forall i :: 0 <= i < |es| - 1 ==> CleanInterval(capture, es, jitter, duty, i)
  }

  predicate SmallJitter(jitter: seq<int>, duty: nat) {
    forall i :: 0 <= i < |jitter| ==> -(duty / 2) <= jitter[i] <= duty - 1 - duty / 2
  }

  /** The captured time of edge i, the first edge being captured at first. */
  function TimeAt(es: seq<nat>, first: uint16, jitter: seq<int>, duty: nat, i: nat): uint16
    requires i < |es| <= |jitter|
  {
    if i == 0 then first
    else (TimeAt(es, first, jitter, duty, i - 1) + Distance(es, i - 1) * duty + jitter[i - 1]) % 65536
  }

  function Times(es: seq<nat>, first: uint16, jitter: seq<int>, duty: nat): (capture: seq<uint16>)
    requires |es| <= |jitter|
    ensures |capture| == |es|
  {
    seq(|es|, i requires 0 <= i < |es| => TimeAt(es, first, jitter, duty, i))
  }

  lemma TimesAreCaptured(es: seq<nat>, first: uint16, jitter: seq<int>, duty: nat)
    requires |es| <= |jitter| && SmallJitter(jitter, duty)
    ensures Captures(Times(es, first, jitter, duty), es, jitter[..|es|], duty)
  {
    var capture := Times(es, first, jitter, duty);
    forall i | 0 <= i < |es| - 1
      ensures CleanInterval(capture, es, jitter[..|es|], duty, i)
    {
      assert capture[i + 1] == TimeAt(es, first, jitter, duty, i + 1);
    }
  }

  lemma RunsRecovered(capture: seq<uint16>, es: seq<nat>, jitter: seq<int>, duty: nat)
    requires 0 < duty && 4 * duty <= 65536 && |es| > 0
    requires forall i :: 0 <= i < |es| - 1 ==> 1 <= Distance(es, i) <= 3
    requires Captures(capture, es, jitter, duty)
    ensures Runs(capture, duty) == Distances(es)
  {
    hide BitTimes, Distance;
    forall i | 0 <= i < |es| - 1
      ensures BitTimes(capture[i], capture[i + 1], duty) == Distance(es, i)
    {
      assert CleanInterval(capture, es, jitter, duty, i);
      IntervalRecovered(capture[i], capture[i + 1], duty, Distance(es, i), jitter[i]);
    }
  }
}
