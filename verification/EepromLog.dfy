/** The record log kept by eeprom.c and eeprom_l4.c, on values.

    The partition holds a chain of records.  This module says what a log of records means (the map
    from record type to latest bytes), what storing, wiping and erasing do to it, and how a log is
    laid out in memory.  EepromFlash proves that the driver's methods do exactly this to the cells. */
module EepromLog {

  type byte = x: int | 0 <= x < 256
  type uint32 = x: int | 0 <= x < 0x1_0000_0000

  const WSIZE: nat := 8             // bytes in a flash double word
  const HEADER: nat := 16           // sizeof(objInEeprom)
  const ERASED: byte := 0xff
  const ERASED_WORD: uint32 := 0xffff_ffff
  const MAX_LEN: nat := 0x7fff_ff00 // header and data fit a signed 32-bit length

  datatype ErrorCond = OK_RAM_ADDR_DIFFER | PROG_OK | ERASE_ERR | PROGRAM_ERR
                     | VERIFY_READ_ERROR | SECTOR_FULL_ERR | NOT_FOUND | SIZES_DIFFER | MALLOC_ERR

  /** One stored record: its type and its bytes. */
  datatype Entry = Entry(typ: nat, data: seq<byte>)

  // ---------- sizes ----------

  function AlignOffset(length: nat): nat {
    if length % WSIZE == 0 then 0 else WSIZE - length % WSIZE
  }

  /** Bytes of flash a record of `len` data bytes takes. */
  function RecSize(len: nat): (size: nat)
    ensures HEADER + len <= size < HEADER + len + WSIZE
  {
    HEADER + len + AlignOffset(HEADER + len)
  }

  /** Offset of the k-th record from the start of the partition. */
  function Off(log: seq<Entry>, k: nat): nat
    requires k <= |log|
  {
    if k == 0 then 0 else Off(log, k - 1) + RecSize(|log[k - 1].data|)
  }

  function Size(log: seq<Entry>): nat {
    Off(log, |log|)
  }

  lemma AlignedStep(p: int, q: int)
    requires p % WSIZE == 0 && q % WSIZE == 0 && p < q
    ensures p + WSIZE <= q && (p + WSIZE) % WSIZE == 0
  {
  }

  lemma RecSizeAligned(len: nat)
    ensures RecSize(len) % WSIZE == 0
  {
  }

  lemma {:induction false} OffAligned(log: seq<Entry>, k: nat)
    requires k <= |log|
    ensures Off(log, k) % WSIZE == 0
  {
    hide RecSize;
    if k > 0 {
      OffAligned(log, k - 1);
      RecSizeAligned(|log[k - 1].data|);
    }
  }

  lemma {:induction false} OffOfPrefix(log: seq<Entry>, more: seq<Entry>, k: nat)
    requires k <= |log|
    ensures Off(log + more, k) == Off(log, k)
  {
    if k > 0 {
      OffOfPrefix(log, more, k - 1);
    }
  }

  lemma {:induction false} OffMonotone(log: seq<Entry>, j: nat, k: nat)
    requires j <= k <= |log|
    ensures Off(log, j) <= Off(log, k)
  {
    if j < k {
      OffMonotone(log, j, k - 1);
    }
  }

  lemma SizeOfSnoc(log: seq<Entry>, e: Entry)
    ensures Size(log + [e]) == Size(log) + RecSize(|e.data|)
  {
    OffOfPrefix(log, [e], |log|);
  }

  // ---------- meaning ----------

  /** The map a log stands for: the last record of a type wins. */
  function Contents(log: seq<Entry>): map<nat, seq<byte>> {
    if log == [] then map[]
    else Contents(log[..|log| - 1])[log[|log| - 1].typ := log[|log| - 1].data]
  }

  /** Index of the last record of type t, or -1. */
  function LastIndex(log: seq<Entry>, t: nat): (i: int)
    ensures -1 <= i < |log|
    ensures i >= 0 ==> log[i].typ == t
    ensures forall j :: i < j < |log| ==> log[j].typ != t
  {
    if log == [] then -1
    else if log[|log| - 1].typ == t then |log| - 1
    else LastIndex(log[..|log| - 1], t)
  }

  lemma {:induction false} ContentsIsLast(log: seq<Entry>, t: nat)
    ensures t in Contents(log) <==> LastIndex(log, t) >= 0
    ensures t in Contents(log) ==> Contents(log)[t] == log[LastIndex(log, t)].data
  {
    if log != [] {
      ContentsIsLast(log[..|log| - 1], t);
    }
  }

  lemma ContentsOfSnoc(log: seq<Entry>, e: Entry)
    ensures Contents(log + [e]) == Contents(log)[e.typ := e.data]
  {
    assert (log + [e])[..|log|] == log;
  }

  predicate WellTyped(log: seq<Entry>, nTypes: nat) {
    forall k :: 0 <= k < |log| ==> log[k].typ < nTypes && |log[k].data| <= MAX_LEN
  }

  // ---------- wiping ----------

  /** What a wipe writes back: the latest non-empty record of each type below n, in type order. */
  function Live(m: map<nat, seq<byte>>, n: nat): (log: seq<Entry>)
    ensures forall k :: 0 <= k < |log| ==> log[k].typ < n && log[k].typ in m && log[k].data == m[log[k].typ]
  {
    if n == 0 then []
    else if n - 1 in m && m[n - 1] != [] then Live(m, n - 1) + [Entry(n - 1, m[n - 1])]
    else Live(m, n - 1)
  }

  /** Each live type once, in the order of the types. */
  lemma {:induction false} LiveInOrder(m: map<nat, seq<byte>>, n: nat)
    ensures forall i, j :: 0 <= i < j < |Live(m, n)| ==> Live(m, n)[i].typ < Live(m, n)[j].typ
    ensures forall t :: t in m && t < n && m[t] != [] ==> Entry(t, m[t]) in Live(m, n)
  {
    if n > 0 {
      LiveInOrder(m, n - 1);
    }
  }

  lemma NothingLive(m: map<nat, seq<byte>>)
    ensures Live(m, 0) == []
  {
  }

  lemma LiveSkips(m: map<nat, seq<byte>>, t: nat)
    requires !(t in m && m[t] != [])
    ensures Live(m, t + 1) == Live(m, t)
  {
  }

  function DropEmpty(m: map<nat, seq<byte>>): map<nat, seq<byte>> {
    map t | t in m && m[t] != [] :: m[t]
  }

  ghost predicate NoEmptyRecord(m: map<nat, seq<byte>>) {
    forall u :: u in m ==> m[u] != []
  }

  function Below(m: map<nat, seq<byte>>, n: nat): map<nat, seq<byte>> {
    map t | t in m && t < n && m[t] != [] :: m[t]
  }

  lemma BelowStep(m: map<nat, seq<byte>>, n: nat)
    ensures Below(m, n + 1) == if n in m && m[n] != [] then Below(m, n)[n := m[n]] else Below(m, n)
  {
  }

  lemma NoneLive(m: map<nat, seq<byte>>)
    ensures Contents(Live(m, 0)) == Below(m, 0)
  {
  }

  lemma {:induction false} ContentsOfLive(m: map<nat, seq<byte>>, n: nat)
    ensures Contents(Live(m, n)) == Below(m, n)
  {
    hide Contents, Below;
    if n == 0 {
      NoneLive(m);
    } else {
      ContentsOfLive(m, n - 1);
      BelowStep(m, n - 1);
      if n - 1 in m && m[n - 1] != [] {
        ContentsOfSnoc(Live(m, n - 1), Entry(n - 1, m[n - 1]));
      }
    }
  }

  lemma ContentsKeys(log: seq<Entry>, nTypes: nat)
    requires WellTyped(log, nTypes)
    ensures forall t :: t in Contents(log) ==> t < nTypes && |Contents(log)[t]| <= MAX_LEN
  {
    forall t | t in Contents(log)
      ensures t < nTypes && |Contents(log)[t]| <= MAX_LEN
    {
      ContentsIsLast(log, t);
    }
  }

  /** Compaction keeps the meaning of the log, except that a record stored with length 0 is lost. */
  lemma WipeContents(log: seq<Entry>, nTypes: nat)
    requires WellTyped(log, nTypes)
    ensures Contents(Live(Contents(log), nTypes)) == DropEmpty(Contents(log))
  {
    ContentsOfLive(Contents(log), nTypes);
    ContentsKeys(log, nTypes);
  }

  /** A wipe leaves the meaning unchanged exactly when no current record has length 0. */
  lemma WipePreservesIff(log: seq<Entry>, nTypes: nat)
    requires WellTyped(log, nTypes)
    ensures Contents(Live(Contents(log), nTypes)) == Contents(log)
       <==> NoEmptyRecord(Contents(log))
  {
    WipeContents(log, nTypes);
    var m := Contents(log);
    if DropEmpty(m) == m {
      forall t | t in m ensures m[t] != [] {
        assert t in DropEmpty(m);
      }
    }
  }

  function LiveSize(m: map<nat, seq<byte>>, n: nat): nat {
    Size(Live(m, n))
  }

  lemma {:induction false} LiveSizeAfterStore(m: map<nat, seq<byte>>, e: Entry, n: nat)
    ensures LiveSize(m[e.typ := e.data], n) <= LiveSize(m, n) + (if e.typ < n then RecSize(|e.data|) else 0)
  {
    if n > 0 {
      LiveSizeAfterStore(m, e, n - 1);
      var m' := m[e.typ := e.data];
      if n - 1 in m' && m'[n - 1] != [] {
        SizeOfSnoc(Live(m', n - 1), Entry(n - 1, m'[n - 1]));
      }
      if n - 1 in m && m[n - 1] != [] {
        SizeOfSnoc(Live(m, n - 1), Entry(n - 1, m[n - 1]));
      }
    }
  }

  lemma {:induction false} LiveOfEmpty(n: nat)
    ensures Live(map[], n) == []
  {
    if n > 0 {
      LiveOfEmpty(n - 1);
    }
  }

  /** The live records never take more room than the log they come from. */
  lemma {:induction false} WipeNeverGrows(log: seq<Entry>, n: nat)
    ensures LiveSize(Contents(log), n) <= Size(log)
  {
    if log == [] {
      LiveOfEmpty(n);
    } else {
      var front, e := log[..|log| - 1], log[|log| - 1];
      assert log == front + [e];
      WipeNeverGrows(front, n);
      LiveSizeAfterStore(Contents(front), e, n);
      SizeOfSnoc(front, e);
    }
  }

  lemma {:induction false} LiveSizeMonotone(m: map<nat, seq<byte>>, j: nat, n: nat)
    requires j <= n
    ensures LiveSize(m, j) <= LiveSize(m, n)
  {
    if j < n {
      LiveSizeMonotone(m, j, n - 1);
      if n - 1 in m && m[n - 1] != [] {
        SizeOfSnoc(Live(m, n - 1), Entry(n - 1, m[n - 1]));
      }
    }
  }

  // ---------- storing, wiping, erasing ----------

  /** eepromStore wipes first when the free space minus the data length is below one double word. */
  predicate WipesFirst(cap: nat, log: seq<Entry>, len: nat) {
    cap - Size(log) - len < WSIZE
  }

  /** A record is programmed only if it ends strictly below the end of the partition. */
  predicate Fits(cap: nat, log: seq<Entry>, len: nat) {
    Size(log) + RecSize(len) < cap
  }

  function BeforeAppend(cap: nat, nTypes: nat, log: seq<Entry>, len: nat): seq<Entry> {
    if WipesFirst(cap, log, len) then Live(Contents(log), nTypes) else log
  }

  function StoreLog(cap: nat, nTypes: nat, log: seq<Entry>, e: Entry): (seq<Entry>, ErrorCond) {
    var base := BeforeAppend(cap, nTypes, log, |e.data|);
    if Fits(cap, base, |e.data|) then (base + [e], PROG_OK) else (base, SECTOR_FULL_ERR)
  }

  /** cap % WSIZE == 0 leaves room for the erased header that ends the chain. */
  predicate ValidLog(cap: nat, nTypes: nat, log: seq<Entry>) {
    && cap % WSIZE == 0
    && Size(log) + WSIZE <= cap
    && WellTyped(log, nTypes)
  }

  lemma AppendKeepsValid(cap: nat, nTypes: nat, log: seq<Entry>, e: Entry)
    requires ValidLog(cap, nTypes, log) && e.typ < nTypes && |e.data| <= MAX_LEN
    requires Fits(cap, log, |e.data|)
    ensures ValidLog(cap, nTypes, log + [e]) && Size(log + [e]) == Size(log) + RecSize(|e.data|)
  {
    SizeOfSnoc(log, e);
    OffAligned(log + [e], |log| + 1);
    AlignedStep(Size(log + [e]), cap);
  }

  lemma WipeKeepsValid(cap: nat, nTypes: nat, log: seq<Entry>)
    requires ValidLog(cap, nTypes, log)
    ensures ValidLog(cap, nTypes, Live(Contents(log), nTypes))
  {
    WipeNeverGrows(log, nTypes);
    ContentsKeys(log, nTypes);
  }

  lemma StoreKeepsValid(cap: nat, nTypes: nat, log: seq<Entry>, e: Entry)
    requires ValidLog(cap, nTypes, log) && e.typ < nTypes && |e.data| <= MAX_LEN
    ensures ValidLog(cap, nTypes, BeforeAppend(cap, nTypes, log, |e.data|))
    ensures ValidLog(cap, nTypes, StoreLog(cap, nTypes, log, e).0)
  {
    WipeKeepsValid(cap, nTypes, log);
    var base := BeforeAppend(cap, nTypes, log, |e.data|);
    if Fits(cap, base, |e.data|) {
      AppendKeepsValid(cap, nTypes, base, e);
    }
  }

  /** While a wipe writes the live records back, neither test in eepromStore can fail. */
  lemma RestoreFits(cap: nat, nTypes: nat, log: seq<Entry>, t: nat)
    requires ValidLog(cap, nTypes, log) && t < nTypes
    requires t in Contents(log) && Contents(log)[t] != []
    ensures !WipesFirst(cap, Live(Contents(log), t), |Contents(log)[t]|)
    ensures Fits(cap, Live(Contents(log), t), |Contents(log)[t]|)
    ensures StoreLog(cap, nTypes, Live(Contents(log), t), Entry(t, Contents(log)[t]))
         == (Live(Contents(log), t + 1), PROG_OK)
  {
    var m := Contents(log);
    WipeNeverGrows(log, nTypes);
    LiveSizeMonotone(m, t + 1, nTypes);
    SizeOfSnoc(Live(m, t), Entry(t, m[t]));
  }

  /** A store fails exactly when the record does not fit the log as it stands after the first test. */
  lemma StoreMeaning(cap: nat, nTypes: nat, log: seq<Entry>, e: Entry)
    requires ValidLog(cap, nTypes, log) && e.typ < nTypes && |e.data| <= MAX_LEN
    ensures var kept := if WipesFirst(cap, log, |e.data|) then DropEmpty(Contents(log)) else Contents(log);
            var (log', r) := StoreLog(cap, nTypes, log, e);
            && (r == PROG_OK || r == SECTOR_FULL_ERR)
            && Contents(log') == if r == PROG_OK then kept[e.typ := e.data] else kept
  {
    WipeContents(log, nTypes);
    ContentsOfSnoc(BeforeAppend(cap, nTypes, log, |e.data|), e);
  }

  /** The first test ignores the 16-byte header, so a store may be refused although a wipe would have
      made room.  It happens exactly when the record misses the end by less than the header and padding. */
  predicate RefusedWithoutWipe(cap: nat, log: seq<Entry>, len: nat) {
    !WipesFirst(cap, log, len) && !Fits(cap, log, len)
  }

  lemma StoreSucceedsIff(cap: nat, nTypes: nat, log: seq<Entry>, e: Entry)
    requires ValidLog(cap, nTypes, log) && e.typ < nTypes && |e.data| <= MAX_LEN
    requires Fits(cap, Live(Contents(log), nTypes), |e.data|)
    ensures StoreLog(cap, nTypes, log, e).1 == PROG_OK <==> !RefusedWithoutWipe(cap, log, |e.data|)
    ensures RefusedWithoutWipe(cap, log, |e.data|)
       <==> |e.data| + WSIZE <= cap - Size(log) <= RecSize(|e.data|)
  {
  }

  lemma RefusedWithoutWipeExample()
    ensures var d := seq(24, i => 0 as byte);
            var log := [Entry(0, d), Entry(0, d)];
            && ValidLog(120, 1, log)
            && Fits(120, Live(Contents(log), 1), 24)
            && StoreLog(120, 1, log, Entry(0, d)) == (log, SECTOR_FULL_ERR)
  {
    var d := seq(24, i => 0 as byte);
    var log := [Entry(0, d), Entry(0, d)];
    assert RecSize(24) == 40;
    assert Off(log, 0) == 0 && Off(log, 1) == Off(log, 0) + RecSize(|log[0].data|);
    assert Off(log, 2) == Off(log, 1) + RecSize(|log[1].data|);
    ContentsIsLast(log, 0);
    assert LastIndex(log, 0) == 1;
    assert Live(Contents(log), 0) == [];
    assert Live(Contents(log), 1) == [Entry(0, d)];
    assert Off([Entry(0, d)], 1) == 40;
  }

  // ---------- whole runs ----------

  datatype Op = Store(e: Entry) | Wipe | Erase

  function Step(cap: nat, nTypes: nat, log: seq<Entry>, op: Op): (seq<Entry>, ErrorCond) {
    match op
    case Store(e) => StoreLog(cap, nTypes, log, e)
    case Wipe => (Live(Contents(log), nTypes), PROG_OK)
    case Erase => ([], PROG_OK)
  }

  /** The log and the results after running ops on an erased partition. */
  function Run(cap: nat, nTypes: nat, ops: seq<Op>): (r: (seq<Entry>, seq<ErrorCond>))
    ensures |r.1| == |ops|
  {
    if ops == [] then ([], [])
    else
      var (log, results) := Run(cap, nTypes, ops[..|ops| - 1]);
      var (log', result) := Step(cap, nTypes, log, ops[|ops| - 1]);
      (log', results + [result])
  }

  predicate ValidOps(nTypes: nat, ops: seq<Op>) {
    forall i :: 0 <= i < |ops| && ops[i].Store? ==> ops[i].e.typ < nTypes && |ops[i].e.data| <= MAX_LEN
  }

  /** The i-th operation is the store that a load of type t must return: it succeeded, and no later
      successful store of t and no later erase hides it. */
  ghost predicate Current(ops: seq<Op>, results: seq<ErrorCond>, t: nat, i: nat) {
    && |results| == |ops|
    && i < |ops| && ops[i].Store? && ops[i].e.typ == t && results[i] == PROG_OK
    && forall j :: i < j < |ops| ==> ops[j] != Erase && !(ops[j].Store? && ops[j].e.typ == t && results[j] == PROG_OK)
  }

  lemma {:induction false} RunIsValid(cap: nat, nTypes: nat, ops: seq<Op>)
    requires cap % WSIZE == 0 && cap >= WSIZE && ValidOps(nTypes, ops)
    ensures ValidLog(cap, nTypes, Run(cap, nTypes, ops).0)
  {
    if ops != [] {
      var front, op := ops[..|ops| - 1], ops[|ops| - 1];
      RunIsValid(cap, nTypes, front);
      var log := Run(cap, nTypes, front).0;
      if op.Store? {
        StoreKeepsValid(cap, nTypes, log, op.e);
      } else {
        WipeKeepsValid(cap, nTypes, log);
      }
    }
  }

  ghost predicate NonEmptyOps(ops: seq<Op>) {
    forall i :: 0 <= i < |ops| && ops[i].Store? ==> ops[i].e.data != []
  }

  /** The operation wipes, explicitly or inside a store. */
  predicate Wipes(cap: nat, log: seq<Entry>, op: Op) {
    op.Wipe? || (op.Store? && WipesFirst(cap, log, |op.e.data|))
  }

  lemma StepMeaning(cap: nat, nTypes: nat, log: seq<Entry>, op: Op)
    requires ValidLog(cap, nTypes, log) && ValidOps(nTypes, [op])
    ensures var (log', r) := Step(cap, nTypes, log, op);
            var kept := if Wipes(cap, log, op) then DropEmpty(Contents(log)) else Contents(log);
            Contents(log') == if op.Store? && r == PROG_OK then kept[op.e.typ := op.e.data]
                              else if op.Erase? then map[]
                              else kept
  {
    assert [op][0] == op;
    if op.Store? {
      StoreMeaning(cap, nTypes, log, op.e);
    } else {
      WipeContents(log, nTypes);
    }
  }

  ghost predicate WipedAt(cap: nat, nTypes: nat, ops: seq<Op>, j: nat)
    requires j < |ops|
  {
    Wipes(cap, Run(cap, nTypes, ops[..j]).0, ops[j])
  }

  /** The i-th operation is the current store of t, and if its record is empty, no wipe has dropped it. */
  ghost predicate Kept(cap: nat, nTypes: nat, ops: seq<Op>, t: nat, i: nat) {
    && Current(ops, Run(cap, nTypes, ops).1, t, i)
    && (ops[i].e.data != [] || forall j :: i < j < |ops| ==> !WipedAt(cap, nTypes, ops, j))
  }

  /** After any run from an erased partition, a type has contents exactly when some store of it is current and
      either not empty or not followed by a wipe, and the contents are the bytes of that store.  Refused stores
      have no effect, and wipes no other than this. */
  lemma {:induction false} RunRefinesMap(cap: nat, nTypes: nat, ops: seq<Op>, t: nat)
    requires cap % WSIZE == 0 && cap >= WSIZE && ValidOps(nTypes, ops)
    ensures var log := Run(cap, nTypes, ops).0;
            && (t in Contents(log) <==> exists i: nat :: Kept(cap, nTypes, ops, t, i))
            && (forall i: nat :: Kept(cap, nTypes, ops, t, i) ==> t in Contents(log) && Contents(log)[t] == ops[i].e.data)
  {
    hide Run, Kept, Wipes, Step, ValidLog, Contents;
    if ops == [] {
      NothingKept(cap, nTypes, t);
    } else {
      var n := |ops| - 1;
      var front, op := ops[..n], ops[n];
      var log := Run(cap, nTypes, front).0;
      var (log', result) := Step(cap, nTypes, log, op);
      RunIsValid(cap, nTypes, front);
      RunRefinesMap(cap, nTypes, front, t);
      StepMeaning(cap, nTypes, log, op);
      assert front + [op] == ops;
      RunSnoc(cap, nTypes, front, op);
      KeptAfter(cap, nTypes, front, op, t);
      if op.Store? && op.e.typ == t && result == PROG_OK {
        assert Kept(cap, nTypes, ops, t, n);
      } else if op != Erase && t in Contents(log) {
        var i: nat :| Kept(cap, nTypes, front, t, i);
        assert Kept(cap, nTypes, ops, t, i) <==> front[i].e.data != [] || !Wipes(cap, log, op);
      }
    }
  }

  lemma NothingKept(cap: nat, nTypes: nat, t: nat)
    ensures t !in Contents(Run(cap, nTypes, []).0) && forall i: nat :: !Kept(cap, nTypes, [], t, i)
  {
  }

  lemma KeptAfter(cap: nat, nTypes: nat, ops: seq<Op>, op: Op, t: nat)
    ensures var log := Run(cap, nTypes, ops).0;
            var result := Step(cap, nTypes, log, op).1;
            forall i: nat :: Kept(cap, nTypes, ops + [op], t, i) <==>
                        if op.Store? && op.e.typ == t && result == PROG_OK then i == |ops|
                        else op != Erase && Kept(cap, nTypes, ops, t, i) && (ops[i].e.data != [] || !Wipes(cap, log, op))
    ensures forall i: nat :: Kept(cap, nTypes, ops, t, i) ==> i < |ops| && (ops + [op])[i] == ops[i] && ops[i].Store?
  {
    var ops' := ops + [op];
    assert ops'[..|ops|] == ops;
    CurrentAfter(ops, Run(cap, nTypes, ops).1, op, Step(cap, nTypes, Run(cap, nTypes, ops).0, op).1, t);
    assert Run(cap, nTypes, ops').1 == Run(cap, nTypes, ops).1 + [Step(cap, nTypes, Run(cap, nTypes, ops).0, op).1];
    hide Step, Wipes, Run;
    forall j | 0 <= j < |ops|
      ensures WipedAt(cap, nTypes, ops', j) <==> WipedAt(cap, nTypes, ops, j)
    {
      assert ops'[..j] == ops[..j];
    }
    assert WipedAt(cap, nTypes, ops', |ops|) <==> Wipes(cap, Run(cap, nTypes, ops).0, op);
    hide WipedAt;
  }

  /** If no record is stored empty, a type has contents exactly when a store of it is current: wipes, explicit
      or inside a store, have no effect. */
  lemma RunWithoutEmptyRecords(cap: nat, nTypes: nat, ops: seq<Op>, t: nat)
    requires cap % WSIZE == 0 && cap >= WSIZE && ValidOps(nTypes, ops) && NonEmptyOps(ops)
    ensures var (log, results) := Run(cap, nTypes, ops);
            && (t in Contents(log) <==> exists i: nat :: Current(ops, results, t, i))
            && (forall i: nat :: Current(ops, results, t, i) ==> t in Contents(log) && Contents(log)[t] == ops[i].e.data)
  {
    RunRefinesMap(cap, nTypes, ops, t);
    var results := Run(cap, nTypes, ops).1;
    assert forall i: nat :: Kept(cap, nTypes, ops, t, i) <==> Current(ops, results, t, i);
  }

  lemma RunNonEmpty(cap: nat, nTypes: nat, ops: seq<Op>)
    requires cap % WSIZE == 0 && cap >= WSIZE && ValidOps(nTypes, ops) && NonEmptyOps(ops)
    ensures NoEmptyRecord(Contents(Run(cap, nTypes, ops).0))
  {
    var m := Contents(Run(cap, nTypes, ops).0);
    forall t | t in m
      ensures m[t] != []
    {
      RunRefinesMap(cap, nTypes, ops, t);
    }
  }

  lemma EmptyRun(cap: nat, nTypes: nat)
    ensures Run(cap, nTypes, []) == ([], []) && Contents([]) == map[]
  {
  }

  lemma RunSnoc(cap: nat, nTypes: nat, ops: seq<Op>, op: Op)
    ensures var (log, results) := Run(cap, nTypes, ops);
            var (log', result) := Step(cap, nTypes, log, op);
            Run(cap, nTypes, ops + [op]) == (log', results + [result])
  {
    hide Step;
    assert (ops + [op])[..|ops|] == ops;
  }

  /** A record of length 0 is stored, and gone after a wipe. */
  lemma WipeLosesEmptyRecord()
    ensures var stored, wiped := Run(64, 1, [Store(Entry(0, []))]), Run(64, 1, [Store(Entry(0, [])), Wipe]);
            && stored == ([Entry(0, [])], [PROG_OK]) && 0 in Contents(stored.0)
            && wiped == ([], [PROG_OK, PROG_OK]) && 0 !in Contents(wiped.0)
  {
    hide Step, Run, Contents;
    var e := Entry(0, []);
    EmptyRecordSteps(e);
    EmptyRun(64, 1);
    RunSnoc(64, 1, [], Store(e));
    RunSnoc(64, 1, [Store(e)], Wipe);
    assert [] + [Store(e)] == [Store(e)] && [Store(e)] + [Wipe] == [Store(e), Wipe];
    assert [] + [PROG_OK] == [PROG_OK] && [PROG_OK] + [PROG_OK] == [PROG_OK, PROG_OK];
  }

  lemma EmptyRecordSteps(e: Entry)
    requires e == Entry(0, [])
    ensures Step(64, 1, [], Store(e)) == ([e], PROG_OK) && Step(64, 1, [e], Wipe) == ([], PROG_OK)
    ensures 0 in Contents([e])
  {
    assert RecSize(0) == 16 && Size([]) == 0;
    assert [] + [e] == [e];
    ContentsIsLast([e], 0);
    assert LastIndex([e], 0) == 0;
    assert Live(Contents([e]), 0) == [];
    hide Off, RecSize, Contents, LastIndex;
  }

  lemma CurrentAfter(ops: seq<Op>, results: seq<ErrorCond>, op: Op, result: ErrorCond, t: nat)
    requires |ops| == |results|
    ensures forall i: nat :: Current(ops + [op], results + [result], t, i) <==>
                        if op.Store? && op.e.typ == t && result == PROG_OK then i == |ops|
                        else op != Erase && Current(ops, results, t, i)
  {
    var ops', results' := ops + [op], results + [result];
    forall i: nat
      ensures Current(ops', results', t, i) <==>
              if op.Store? && op.e.typ == t && result == PROG_OK then i == |ops|
              else op != Erase && Current(ops, results, t, i)
    {
      assert ops'[|ops|] == op && results'[|ops|] == result;
      assert forall j :: 0 <= j < |ops| ==> ops'[j] == ops[j] && results'[j] == results[j];
      if Current(ops', results', t, i) && i < |ops| {
        assert Current(ops, results, t, i);
      }
    }
  }
}
