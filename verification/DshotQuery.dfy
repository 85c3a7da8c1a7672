/** esc_dshot.c: the thread that sends frames asks one motor after the other for telemetry, the thread
    dshotTlmRec waits for the replies.

    The two threads share the flag onGoingQry and a mailbox of one slot.  Every access to what they share is
    a step of its own, so that a run is any interleaving of the two. */
module DshotQuery {
  import opened Division

  datatype Packet = Packet(throttle: nat, tlm: bool)

  type Sample = seq<bv8>

  /** A read on the serial line: nothing usable (time-out or wrong check sum), or a sample. */
  datatype Reply = NoReply | Good(sample: Sample)

  /** Where dshotSendFrame stands. */
  datatype Sender = Ready | Test | Claim | Pick | Mark(index: nat) | Post(index: nat) | Build

  /** Where dshotTlmRec stands. */
  datatype Receiver = Waiting | Reading(idx: nat) | Writing(idx: nat, sample: Sample) | Clearing

  /** n is the number of channels, tlmSd tells that a telemetry line is configured.  queries, answers and sent
      record what was posted, what each query led to, and the packets of each frame; refused counts posts the
      mailbox did not take. */
  datatype State = State(
    n: nat, tlmSd: bool,
    sender: Sender, receiver: Receiver,
    onGoingQry: bool, currentTlmQry: nat, mailbox: seq<nat>,
    dp: seq<Packet>, dt: seq<Reply>,
    queries: seq<nat>, answers: seq<Reply>, sent: seq<seq<Packet>>, refused: nat)

  /** SetPacket and SendFrame are calls made by the sending thread while it is Ready. */
  datatype Event = SetPacket(k: nat, p: Packet) | SendFrame(dmaReady: bool) | SenderStep | ReceiverStep(reply: Reply)

  function Init(n: nat, tlmSd: bool): State {
    State(n, tlmSd, Ready, Waiting, false, 0, [],
          seq(n, _ => Packet(0, false)), seq(n, _ => NoReply), [], [], [], 0)
  }

  function Marked(dp: seq<Packet>, i: nat): seq<Packet>
    requires i < |dp|
  {
    dp[i := dp[i].(tlm := true)]
  }

  /** The channel behind index, in turn. */
  function Following(index: nat, n: nat): (next: nat)
    requires n > 0
    ensures next < n
  {
    (index + 1) % n
  }

  function StepSender(s: State): State
    requires Inv(s)
  {
    match s.sender
    case Ready => s
    case Test => s.(sender := if s.tlmSd && !s.onGoingQry then Claim else Build)
    case Claim => s.(sender := Pick, onGoingQry := true)
    case Pick =>
      var index := Following(s.currentTlmQry, s.n);
      s.(sender := Mark(index), currentTlmQry := index)
    case Mark(index) => s.(sender := Post(index), dp := Marked(s.dp, index))
    case Post(index) =>
      if s.mailbox == [] then s.(sender := Build, mailbox := [index], queries := s.queries + [index])
      else s.(sender := Build, refused := s.refused + 1)
    case Build => s.(sender := Ready, sent := s.sent + [s.dp])
  }

  function StepReceiver(s: State, reply: Reply): State
    requires Inv(s)
  {
    match s.receiver
    case Waiting =>
      if s.mailbox == [] then s
      else s.(receiver := Reading(s.mailbox[0]), mailbox := [])
    case Reading(idx) =>
      if reply.NoReply? then s.(receiver := Clearing, answers := s.answers + [NoReply])
      else s.(receiver := Writing(idx, reply.sample))
    case Writing(idx, sample) =>
      s.(receiver := Clearing, dt := s.dt[idx := Good(sample)], answers := s.answers + [Good(sample)])
    case Clearing => s.(receiver := Waiting, onGoingQry := false)
  }

  function Step(s: State, e: Event): State
    requires Inv(s)
  {
    match e
    case SetPacket(k, p) => if s.sender == Ready && k < s.n then s.(dp := s.dp[k := p]) else s
    case SendFrame(dmaReady) => if s.sender == Ready && dmaReady then s.(sender := Test) else s
    case SenderStep => StepSender(s)
    case ReceiverStep(reply) => StepReceiver(s, reply)
  }

  // ---------- what holds between any two steps ----------

  /** The channel of the k-th query; the first one goes to channel 1. */
  function Channel(n: nat, k: nat): nat
    requires n > 0
  {
    (k + 1) % n
  }

  /** The turn begins with channel 1, if there is one, and goes round. */
  lemma TurnOrder(n: nat, k: nat)
    requires n > 0
    ensures Channel(n, 0) == if n > 1 then 1 else 0
    ensures Channel(n, k) < n && Channel(n, k + 1) == if Channel(n, k) + 1 < n then Channel(n, k) + 1 else 0
  {
    var q := (k + 1) / n;
    var c := (k + 1) % n;
    assert k + 1 == q * n + c;
    if c + 1 < n {
      Remainder(k + 2, n, q);
    } else {
      assert (q + 1) * n == q * n + n;
      Remainder(k + 2, n, q + 1);
    }
    if n > 1 {
      Remainder(1, n, 0);
    }
  }

  /** The last good reply of every channel. */
  function Cache(n: nat, answers: seq<Reply>): (dt: seq<Reply>)
    requires n > 0
    ensures |dt| == n
  {
    if answers == [] then seq(n, _ => NoReply)
    else
      var k := |answers| - 1;
      var before := Cache(n, answers[..k]);
      if answers[k].NoReply? then before else before[Channel(n, k) := answers[k]]
  }

  predicate SenderClaims(s: State) {
    s.sender.Pick? || s.sender.Mark? || s.sender.Post?
  }

  predicate SenderChose(s: State) {
    s.sender.Mark? || s.sender.Post?
  }

  predicate AwaitsReply(s: State) {
    s.mailbox != [] || s.receiver.Reading? || s.receiver.Writing?
  }

  /** onGoingQry is a token: it is set exactly while one of the sender, the mailbox and the receiver has it. */
  predicate OneOwner(s: State) {
    && |s.mailbox| <= 1
    && (s.onGoingQry <==> SenderClaims(s) || s.mailbox != [] || s.receiver != Waiting)
    && !(SenderClaims(s) && s.mailbox != [])
    && !(SenderClaims(s) && s.receiver != Waiting)
    && !(s.mailbox != [] && s.receiver != Waiting)
    && (s.sender.Claim? ==> !s.onGoingQry)
    && s.refused == 0
  }

  predicate InTurn(s: State)
    requires s.n > 0
  {
    && (forall k :: 0 <= k < |s.queries| ==> s.queries[k] == Channel(s.n, k))
    && s.currentTlmQry == (if SenderChose(s) then Channel(s.n, |s.queries|) else |s.queries| % s.n)
    && (s.sender.Mark? || s.sender.Post? ==> s.sender.index == s.currentTlmQry)
  }

  /** A reply is only awaited from the channel asked last. */
  predicate LastQueried(s: State) {
    && (AwaitsReply(s) ==> s.queries != [])
    && (s.mailbox != [] ==> s.mailbox[0] == s.queries[|s.queries| - 1])
    && (s.receiver.Reading? || s.receiver.Writing? ==> s.receiver.idx == s.queries[|s.queries| - 1])
    && |s.queries| == |s.answers| + (if AwaitsReply(s) then 1 else 0)
  }

  predicate Inv(s: State) {
    && s.n > 0 && |s.dp| == s.n
    && OneOwner(s) && InTurn(s) && LastQueried(s)
    && s.dt == Cache(s.n, s.answers)
  }

  lemma NextChannel(n: nat, k: nat)
    requires n > 0
    ensures (k % n + 1) % n == Channel(n, k)
  {
    NextRemainder(k, n);
  }

  lemma CacheGrows(n: nat, answers: seq<Reply>, reply: Reply)
    requires n > 0
    ensures Cache(n, answers + [reply]) ==
            if reply.NoReply? then Cache(n, answers) else Cache(n, answers)[Channel(n, |answers|) := reply]
  {
    assert (answers + [reply])[..|answers|] == answers;
  }

  lemma SenderKeepsInv(s: State)
    requires Inv(s)
    ensures Inv(StepSender(s))
  {
    hide Cache, Channel;
    NextChannel(s.n, |s.queries|);
    ChannelIs(s.n, |s.queries|);
  }

  lemma ChannelIs(n: nat, k: nat)
    requires n > 0
    ensures Channel(n, k) == (k + 1) % n < n
  {
  }

  lemma ReceiverKeepsInv(s: State, reply: Reply)
    requires Inv(s)
    ensures Inv(StepReceiver(s, reply))
  {
    if s.receiver.Reading? {
      CacheGrows(s.n, s.answers, NoReply);
    } else if s.receiver.Writing? {
      CacheGrows(s.n, s.answers, Good(s.receiver.sample));
    }
    hide Cache, Channel;
  }

  lemma StepKeepsInv(s: State, e: Event)
    requires Inv(s)
    ensures Inv(Step(s, e))
  {
    match e {
      case SenderStep => SenderKeepsInv(s);
      case ReceiverStep(reply) => ReceiverKeepsInv(s, reply);
      case _ => hide Cache, Channel;
    }
  }

  /** A reply is written only to the channel of the last query, which has had no other answer. */
  lemma WriteGoesToLastQueried(s: State, e: Event, c: nat)
    requires Inv(s) && c < s.n && Step(s, e).dt[c] != s.dt[c]
    ensures s.queries != [] && c == s.queries[|s.queries| - 1] == Channel(s.n, |s.answers|)
    ensures |s.queries| == |s.answers| + 1
  {
    hide Cache, Channel;
  }

  function Run(s: State, events: seq<Event>): (s': State)
    requires Inv(s)
    ensures Inv(s')
    decreases |events|
  {
    if events == [] then s
    else
      StepKeepsInv(s, events[0]);
      Run(Step(s, events[0]), events[1..])
  }

  /** Under any interleaving of the two threads: between steps the flag is up exactly while a query is being
      made, is in the mailbox or is held by the receiver, and the mailbox never refuses a query; query k, the
      first being query 0, goes to channel k + 1 modulo n; and the telemetry of every channel is its last good reply. */
  lemma EveryRunIsSound(n: nat, tlmSd: bool, events: seq<Event>)
    requires n > 0
    ensures Inv(Init(n, tlmSd)) && Run(Init(n, tlmSd), events).n == n
    ensures var s := Run(Init(n, tlmSd), events);
            && OneOwner(s) && LastQueried(s)
            && (forall k :: 0 <= k < |s.queries| ==> s.queries[k] == Channel(n, k))
            && s.dt == Cache(n, s.answers)
  {
    InitIsSound(n, tlmSd);
    RunKeepsSize(Init(n, tlmSd), events);
    hide Run, Cache;
  }

  lemma InitIsSound(n: nat, tlmSd: bool)
    requires n > 0
    ensures Inv(Init(n, tlmSd))
  {
    assert 0 % n == 0;
  }

  lemma {:induction false} RunKeepsSize(s: State, events: seq<Event>)
    requires Inv(s)
    ensures Run(s, events).n == s.n && Run(s, events).tlmSd == s.tlmSd
    decreases |events|
  {
    if events != [] {
      StepKeepsInv(s, events[0]);
      StepKeepsSize(s, events[0]);
      hide Step, Inv;
      RunKeepsSize(Step(s, events[0]), events[1..]);
    }
  }

  lemma StepKeepsSize(s: State, e: Event)
    requires Inv(s)
    ensures Step(s, e).n == s.n && Step(s, e).tlmSd == s.tlmSd
  {
    hide Inv, Channel, Marked;
  }

  /** Any n consecutive queries ask every channel once. */
  lemma EveryChannelOnce(n: nat, first: nat, c: nat) returns (k: nat)
    requires c < n
    ensures first <= k < first + n && Channel(n, k) == c
    ensures forall j :: first <= j < first + n && Channel(n, j) == c ==> j == k
  {
    var r := (first + 1) % n;
    k := if c >= r then first + c - r else first + n + c - r;
    ReplacedRemainder(first + 1, n, c);
    assert Channel(n, k) == c;
    forall j | first <= j < first + n && Channel(n, j) == c
      ensures j == k
    {
      SameResidue(j + 1, k + 1, n);
    }
  }

  predicate LastGood(n: nat, answers: seq<Reply>, c: nat, k: nat)
    requires n > 0
  {
    && k < |answers| && Channel(n, k) == c && answers[k].Good?
    && forall j :: k < j < |answers| && Channel(n, j) == c ==> answers[j].NoReply?
  }

  /** A failed query leaves the sample of its channel, and no query touches another channel: the cache holds
      what the last answered query of the channel brought. */
  lemma {:induction false} CacheHoldsLastGood(n: nat, answers: seq<Reply>, c: nat)
    requires c < n
    ensures Cache(n, answers)[c].Good? ==> exists k: nat :: LastGood(n, answers, c, k)
    ensures forall k: nat :: LastGood(n, answers, c, k) ==> Cache(n, answers)[c] == answers[k]
    decreases |answers|
  {
    if answers != [] {
      var last := |answers| - 1;
      var before := answers[..last];
      CacheHoldsLastGood(n, before, c);
      if Channel(n, last) == c && answers[last].Good? {
        assert LastGood(n, answers, c, last);
      } else {
        forall k: nat
          ensures LastGood(n, answers, c, k) <==> LastGood(n, before, c, k)
        {
          LastGoodBefore(n, answers, c, k);
        }
        assert Cache(n, answers)[c] == Cache(n, before)[c];
        hide Cache, Channel;
      }
    }
  }

  lemma LastGoodBefore(n: nat, answers: seq<Reply>, c: nat, k: nat)
    requires c < n && answers != []
    requires Channel(n, |answers| - 1) != c || answers[|answers| - 1].NoReply?
    ensures LastGood(n, answers, c, k) <==> LastGood(n, answers[..|answers| - 1], c, k)
  {
    hide Channel;
    var before := answers[..|answers| - 1];
    if LastGood(n, before, c, k) {
      forall j | k < j < |answers| && Channel(n, j) == c
        ensures answers[j].NoReply?
      {
        if j < |before| {
          assert before[j] == answers[j];
        }
      }
    }
  }

  // ---------- telemetry bits of a frame ----------

  /** How far a call of dshotSendFrame that found s0 has come in s. */
  predicate Progress(s0: State, s: State)
    requires Inv(s0)
  {
    var channel := Channel(s0.n, |s0.queries|);
    && s.n == s0.n && s.tlmSd == s0.tlmSd
    && |s.sent| >= |s0.sent|
    && (|s.sent| > |s0.sent| ==> Frame(s0, s.sent[|s0.sent|]))
    && (|s.sent| == |s0.sent| ==>
          match s.sender
          case Ready => false
          case Test => s.dp == s0.dp && s.queries == s0.queries && (!s0.onGoingQry ==> !s.onGoingQry)
          case Claim => s.dp == s0.dp && s.queries == s0.queries
          case Pick => s.dp == s0.dp && s.queries == s0.queries
          case Mark(_) => s.dp == s0.dp && s.queries == s0.queries
          case Post(_) => s.dp == Marked(s0.dp, channel) && s.queries == s0.queries
          case Build => Frame(s0, s.dp))
  }

  /** The packets of the frame: those that were set, with the bit of the next channel if it is asked. */
  predicate Frame(s0: State, packets: seq<Packet>)
    requires Inv(s0)
  {
    || packets == Marked(s0.dp, Channel(s0.n, |s0.queries|))
    || (packets == s0.dp && !(s0.tlmSd && !s0.onGoingQry))
  }

  lemma StepProgresses(s0: State, s: State, e: Event)
    requires Inv(s0) && Inv(s) && Progress(s0, s)
    ensures Progress(s0, Step(s, e))
  {
    hide Cache, Channel, Following;
    if |s.sent| > |s0.sent| {
      SentIsKept(s, e);
      StepKeepsSize(s, e);
      hide Step, Frame, Inv;
    } else {
      match e {
        case SenderStep =>
        case ReceiverStep(reply) => hide Marked, Frame;
        case _ => hide Marked, Frame;
      }
    }
  }

  lemma SentIsKept(s: State, e: Event)
    requires Inv(s)
    ensures |Step(s, e).sent| >= |s.sent| && forall k :: 0 <= k < |s.sent| ==> Step(s, e).sent[k] == s.sent[k]
  {
    hide Cache, Channel, Marked;
  }

  lemma {:induction false} RunProgresses(s0: State, s: State, events: seq<Event>)
    requires Inv(s0) && Inv(s) && Progress(s0, s)
    ensures Progress(s0, Run(s, events))
    decreases |events|
  {
    if events != [] {
      StepKeepsInv(s, events[0]);
      StepProgresses(s0, s, events[0]);
      hide Step, Inv, Progress;
      RunProgresses(s0, Step(s, events[0]), events[1..]);
    }
  }

  function Asking(dp: seq<Packet>): set<nat> {
    set c: nat | c < |dp| && dp[c].tlm
  }

  lemma MarkedAsks(dp: seq<Packet>, i: nat)
    requires i < |dp| && Asking(dp) == {}
    ensures Asking(Marked(dp, i)) == {i}
  {
    forall c: nat
      ensures c in Asking(Marked(dp, i)) <==> c == i
    {
      assert c !in Asking(dp);
    }
  }

  /** Whatever the receiver does meanwhile, a frame sent after all telemetry bits were cleared, as
      dshotSendThrottles does, asks at most one channel: the next one in turn.  It asks it whenever no query was
      going on when the call began. */
  lemma FrameAsksAtMostOne(s: State, events: seq<Event>)
    requires Inv(s) && s.sender == Test && Asking(s.dp) == {}
    requires |Run(s, events).sent| > |s.sent|
    ensures var asking := Asking(Run(s, events).sent[|s.sent|]);
            && (asking == {} || asking == {Channel(s.n, |s.queries|)})
            && (s.tlmSd && !s.onGoingQry ==> asking != {})
  {
    var channel := Channel(s.n, |s.queries|);
    assert Progress(s, s);
    RunProgresses(s, s, events);
    var packets := Run(s, events).sent[|s.sent|];
    assert channel < |s.dp|;
    hide Run, Cache, Inv, Channel;
    if packets == Marked(s.dp, channel) {
      MarkedAsks(s.dp, channel);
    }
  }

  // ---------- the driver ----------

  /** The driver as one thread sees it while the other stands still. */
  class DshotDriver {
    const tlmSd: bool
    const dp: array<Packet>
    const dt: array<Reply>
    var onGoingQry: bool
    var currentTlmQry: nat
    var mailbox: seq<nat>
    ghost var receiver: Receiver
    ghost var queries: seq<nat>
    ghost var answers: seq<Reply>
    ghost var sent: seq<seq<Packet>>

    ghost function Snapshot(): State
      reads this, dp, dt
    {
      State(dp.Length, tlmSd, Ready, receiver, onGoingQry, currentTlmQry, mailbox,
                       dp[..], dt[..], queries, answers, sent, 0)
    }

    ghost predicate Valid()
      reads this, dp, dt
    {
      Inv(Snapshot())
    }

    /** dshotStart */
    constructor (channels: nat, tlmSd: bool)
      requires channels > 0
      ensures Valid() && Snapshot() == Init(channels, tlmSd) && fresh(dp) && fresh(dt)
    {
      this.tlmSd := tlmSd;
      dp := new Packet[channels](_ => Packet(0, false));
      dt := new Reply[channels](_ => NoReply);
      onGoingQry, currentTlmQry, mailbox := false, 0, [];
      receiver, queries, answers, sent := Waiting, [], [], [];
      new;
      InitIsSound(channels, tlmSd);
      assert dp[..] == seq(channels, _ => Packet(0, false));
      assert dt[..] == seq(channels, _ => NoReply);
    }

    /** dshotSendFrame; dmaReady tells that the previous frame is out. */
    method SendFrame(dmaReady: bool)
      requires Valid()
      modifies this`onGoingQry, this`currentTlmQry, this`mailbox, this`queries, this`sent, dp
      ensures Valid()
      ensures Snapshot() == Run(old(Snapshot()), FrameEvents(dmaReady))
    {
      FrameEffect(Snapshot(), dmaReady);
      hide Run, Inv, FrameEvents, Marked;
      if dmaReady {
        if tlmSd && !onGoingQry {
          AskNext();
        }
        sent := sent + [dp[..]];
      }
    }

    /** The next channel is asked. */
    method AskNext()
      requires dp.Length > 0 && mailbox == []
      modifies this`onGoingQry, this`currentTlmQry, this`mailbox, this`queries, dp
      ensures onGoingQry && currentTlmQry == Following(old(currentTlmQry), dp.Length)
      ensures mailbox == [currentTlmQry] && queries == old(queries) + [currentTlmQry]
      ensures dp[..] == Marked(old(dp[..]), currentTlmQry)
    {
      onGoingQry := true;
      var index := (currentTlmQry + 1) % dp.Length;
      currentTlmQry := index;
      dp[index] := dp[index].(tlm := true);
      mailbox := [index];
      queries := queries + [index];
    }

    /** dshotSendThrottles: all bits down, the throttles set, and a frame sent. */
    method SendThrottles(throttles: seq<nat>, dmaReady: bool)
      requires Valid() && |throttles| == dp.Length
      modifies this`onGoingQry, this`currentTlmQry, this`mailbox, this`queries, this`sent, dp
      ensures Valid()
      ensures Snapshot() == Run(old(Snapshot()).(dp := Plain(throttles)), FrameEvents(dmaReady))
    {
      PacketsAreFree(Snapshot(), Plain(throttles));
      hide Inv, Run, FrameEvents, Plain;
      SetThrottles(throttles);
      SendFrame(dmaReady);
    }

    method SetThrottles(throttles: seq<nat>)
      requires |throttles| == dp.Length
      modifies dp
      ensures dp[..] == Plain(throttles)
    {
      for index := 0 to dp.Length
        invariant dp[..index] == Plain(throttles)[..index]
      {
        dp[index] := Packet(throttles[index] % 2048, false);
      }
    }

    /** dshotTlmRec: a query is taken from the mailbox. */
    method Fetch() returns (idx: nat)
      requires Valid() && receiver == Waiting && mailbox != []
      modifies this`mailbox, this`receiver
      ensures Valid() && receiver == Reading(idx) && idx < dt.Length
      ensures Snapshot() == Run(old(Snapshot()), [ReceiverStep(NoReply)])
    {
      ghost var s := Snapshot();
      ReceiverAlone(s, NoReply);
      hide Run, Cache;
      idx := mailbox[0];
      assert idx == Channel(dp.Length, |queries| - 1);
      mailbox := [];
      receiver := Reading(idx);
    }

    /** dshotTlmRec: what follows the read on the serial line. */
    method Finish(idx: nat, reply: Reply)
      requires Valid() && receiver == Reading(idx)
      modifies this`onGoingQry, this`receiver, this`answers, dt
      ensures Valid() && receiver == Waiting
      ensures Snapshot() == Run(old(Snapshot()), ReplyEvents(reply))
    {
      ghost var s := Snapshot();
      assert idx == Channel(dp.Length, |queries| - 1);
      ReceiverAlone(s, reply);
      hide Run, Cache, ReplyEvents;
      if reply.Good? {
        dt[idx] := reply;
      }
      answers := answers + [reply];
      receiver := Waiting;
      onGoingQry := false;
    }
  }

  lemma PacketsAreFree(s: State, dp: seq<Packet>)
    requires Inv(s) && |dp| == s.n
    ensures Inv(s.(dp := dp))
  {
  }

  /** The packets set: a throttle has eleven bits, and the telemetry bit is down. */
  function Plain(throttles: seq<nat>): seq<Packet> {
    seq(|throttles|, i requires 0 <= i < |throttles| => Packet(throttles[i] % 2048, false))
  }

  /** dshotSendThrottles puts all telemetry bits down and keeps the throttles, up to 2047 as they are and in eleven
      bits otherwise. */
  lemma PlainAsksNobody(throttles: seq<nat>)
    ensures |Plain(throttles)| == |throttles| && Asking(Plain(throttles)) == {}
    ensures forall i :: 0 <= i < |throttles| && throttles[i] < 2048 ==> Plain(throttles)[i].throttle == throttles[i]
    ensures forall i :: 0 <= i < |throttles| ==>
              Plain(throttles)[i].throttle < 2048 && (throttles[i] - Plain(throttles)[i].throttle) % 2048 == 0
  {
  }

  /** So after dshotSendThrottles, whatever the receiver does meanwhile, at most one packet of the frame asks for
      telemetry, the next in turn, and it does if no query was going on; and each packet has its throttle. */
  lemma ThrottlesFrame(s: State, throttles: seq<nat>, events: seq<Event>)
    requires Inv(s) && s.sender == Test && s.dp == Plain(throttles)
    requires |Run(s, events).sent| > |s.sent|
    ensures var packets := Run(s, events).sent[|s.sent|];
            && |packets| == |throttles|
            && (Asking(packets) == {} || Asking(packets) == {Channel(s.n, |s.queries|)})
            && (s.tlmSd && !s.onGoingQry ==> Asking(packets) != {})
            && forall i :: 0 <= i < |throttles| && throttles[i] < 2048 ==> packets[i].throttle == throttles[i]
  {
    PlainAsksNobody(throttles);
    FrameAsksAtMostOne(s, events);
    FrameKeepsThrottles(s, events);
    hide Run, Plain, Inv, Channel, Asking;
  }

  lemma FrameKeepsThrottles(s: State, events: seq<Event>)
    requires Inv(s) && s.sender == Test && |Run(s, events).sent| > |s.sent|
    ensures var packets := Run(s, events).sent[|s.sent|];
            |packets| == |s.dp| && forall i :: 0 <= i < |s.dp| ==> packets[i].throttle == s.dp[i].throttle
  {
    assert Progress(s, s);
    RunProgresses(s, s, events);
    assert Channel(s.n, |s.queries|) < |s.dp|;
    hide Run, Cache, Inv, Channel;
  }

  /** A whole call of dshotSendFrame: at most six steps, and none when the sender is Ready. */
  function FrameEvents(dmaReady: bool): seq<Event> {
    [SendFrame(dmaReady)] + SenderSteps(6)
  }

  /** The call in one piece: a frame that asks. */
  lemma AskingFrame(s: State)
    requires Inv(s) && s.sender == Ready && s.tlmSd && !s.onGoingQry
    ensures s.n > 0 && AskedFrom(s, Run(s, FrameEvents(true)), Following(s.currentTlmQry, s.n))
  {
    assert s.mailbox == [] && s.n > 0;
    hide Run, SenderSteps, Inv, Channel, Following, AskedFrom;
    var s0 := RunNext(s, SendFrame(true), 6);
    var s1 := RunNext(s0, SenderStep, 5);
    ClaimedFrame(s1);
    AskedFromAnywhere(s, s1, Run(s1, SenderSteps(5)), Following(s.currentTlmQry, s.n));
  }

  /** s' is the state after a frame that asked the channel index; where in the call s stood does not matter. */
  predicate AskedFrom(s: State, s': State, index: nat) {
    && index < |s.dp|
    && s' == s.(sender := Ready, onGoingQry := true, currentTlmQry := index, mailbox := [index],
                dp := Marked(s.dp, index), queries := s.queries + [index], sent := s.sent + [Marked(s.dp, index)])
  }

  lemma AskedFromAnywhere(s: State, t: State, s': State, index: nat)
    requires t == s.(sender := t.sender, onGoingQry := t.onGoingQry, currentTlmQry := t.currentTlmQry)
    ensures AskedFrom(t, s', index) <==> AskedFrom(s, s', index)
  {
  }

  lemma TwoSteps(s: State)
    requires Inv(s)
    ensures s.sender == Claim ==> Step(s, SenderStep) == s.(sender := Pick, onGoingQry := true)
    ensures s.sender == Pick ==>
              var index := Following(s.currentTlmQry, s.n);
              Step(s, SenderStep) == s.(sender := Mark(index), currentTlmQry := index)
  {
    assert s.n > 0;
    hide OneOwner, InTurn, LastQueried, Cache, Following;
  }

  /** From the claim on. */
  lemma ClaimedFrame(s: State)
    requires Inv(s) && s.sender == Claim && s.mailbox == []
    ensures s.n > 0 && AskedFrom(s, Run(s, SenderSteps(5)), Following(s.currentTlmQry, s.n))
  {
    assert s.n > 0;
    hide Run, SenderSteps, Inv, Following, AskedFrom, Step;
    TwoSteps(s);
    var s2 := RunNext(s, SenderStep, 4);
    PickedFrame(s2);
    AskedFromAnywhere(s, s2, Run(s2, SenderSteps(4)), Following(s.currentTlmQry, s.n));
  }

  /** From the choice of the channel on. */
  lemma PickedFrame(s: State)
    requires Inv(s) && s.sender == Pick && s.mailbox == []
    ensures s.n > 0 && AskedFrom(s, Run(s, SenderSteps(4)), Following(s.currentTlmQry, s.n))
  {
    assert s.n == |s.dp| > 0;
    hide Run, SenderSteps, Inv, Following, AskedFrom, Step;
    TwoSteps(s);
    var s3 := RunNext(s, SenderStep, 3);
    MarkedFrame(s3);
    AskedFromAnywhere(s, s3, Run(s3, SenderSteps(3)), Following(s.currentTlmQry, s.n));
  }

  /** From the marking on. */
  lemma MarkedFrame(s: State)
    requires Inv(s) && s.sender.Mark? && s.sender.index < |s.dp| && s.mailbox == []
    ensures AskedFrom(s, Run(s, SenderSteps(3)), s.sender.index)
  {
    assert s.onGoingQry && s.currentTlmQry == s.sender.index;
    hide Run, SenderSteps, Inv, Channel, Marked, Following;
    var s4 := RunNext(s, SenderStep, 2);
    PostedFrame(s4);
  }

  /** From the post on. */
  lemma PostedFrame(s: State)
    requires Inv(s) && s.sender.Post? && s.mailbox == []
    ensures Run(s, SenderSteps(2)) ==
            s.(sender := Ready, mailbox := [s.sender.index], queries := s.queries + [s.sender.index], sent := s.sent + [s.dp])
  {
    hide Run, SenderSteps, Inv, Channel, Marked, Following;
    var s5 := RunNext(s, SenderStep, 1);
    var s6 := RunNext(s5, SenderStep, 0);
  }

  /** A call of dshotSendFrame in one piece. */
  lemma FrameEffect(s: State, dmaReady: bool)
    requires Inv(s) && s.sender == Ready
    ensures s.n > 0 && |s.dp| == s.n && (!s.onGoingQry ==> s.mailbox == [])
    ensures var index := Following(s.currentTlmQry, s.n);
            Run(s, FrameEvents(dmaReady)) ==
            if !dmaReady then s
            else if s.tlmSd && !s.onGoingQry then
              s.(onGoingQry := true, currentTlmQry := index, mailbox := [index], dp := Marked(s.dp, index),
                 queries := s.queries + [index], sent := s.sent + [Marked(s.dp, index)])
            else s.(sent := s.sent + [s.dp])
  {
    if !dmaReady {
      FrameRefused(s);
    } else if s.tlmSd && !s.onGoingQry {
      AskingFrame(s);
    } else {
      PlainFrame(s);
    }
    hide Run, FrameEvents, Marked, Channel, Cache, Following;
  }

  /** A frame that does not ask. */
  lemma PlainFrame(s: State)
    requires Inv(s) && s.sender == Ready && !(s.tlmSd && !s.onGoingQry)
    ensures Run(s, FrameEvents(true)) == s.(sent := s.sent + [s.dp])
  {
    hide Run, SenderSteps, Inv, Channel, Marked, Following;
    var s0 := RunNext(s, SendFrame(true), 6);
    var s1 := RunNext(s0, SenderStep, 5);
    var s2 := RunNext(s1, SenderStep, 4);
    NothingToSend(s2, 4);
  }

  lemma {:induction false} NothingToSend(s: State, k: nat)
    requires Inv(s) && s.sender == Ready
    ensures Run(s, SenderSteps(k)) == s
  {
    if k > 0 {
      var next := RunNext(s, SenderStep, k - 1);
      NothingToSend(s, k - 1);
      hide Run, SenderSteps, Inv;
    }
  }

  lemma FrameRefused(s: State)
    requires Inv(s) && s.sender == Ready
    ensures Run(s, FrameEvents(false)) == s
  {
    var next := RunNext(s, SendFrame(false), 6);
    NothingToSend(s, 6);
    hide Run, SenderSteps, Inv;
  }

  function SenderSteps(k: nat): seq<Event> {
    seq(k, _ => SenderStep)
  }

  lemma RunNext(s: State, e: Event, k: nat) returns (next: State)
    requires Inv(s)
    ensures next == Step(s, e) && Inv(next)
    ensures Run(s, [e] + SenderSteps(k)) == Run(next, SenderSteps(k))
    ensures [SenderStep] + SenderSteps(k) == SenderSteps(k + 1)
    ensures Run(next, SenderSteps(0)) == next
  {
    next := RunFirst(s, e, SenderSteps(k));
    assert SenderSteps(0) == [];
    hide Run, Step, Inv;
  }

  lemma RunFirst(s: State, e: Event, rest: seq<Event>) returns (next: State)
    requires Inv(s)
    ensures next == Step(s, e) && Inv(next) && Run(s, [e] + rest) == Run(next, rest)
    ensures Run(next, []) == next
  {
    StepKeepsInv(s, e);
    next := Step(s, e);
    hide Step, Inv;
    assert ([e] + rest)[1..] == rest;
  }

  /** Receiver steps with the same reply, in one piece. */
  lemma ReceiverAlone(s: State, reply: Reply)
    requires Inv(s)
    ensures Run(s, [ReceiverStep(reply)]) == StepReceiver(s, reply)
    ensures s.receiver.Reading? ==>
              Run(s, ReplyEvents(reply)) ==
              s.(receiver := Waiting, onGoingQry := false, answers := s.answers + [reply],
                 dt := if reply.Good? then s.dt[s.receiver.idx := reply] else s.dt)
  {
    hide Run, Cache, Channel, ReplyEvents, OneOwner, InTurn, LastQueried;
    var step := ReceiverStep(reply);
    var s1 := RunFirst(s, step, []);
    assert [step] + [] == [step];
    if s.receiver.Reading? {
      var s2 := RunFirst(s1, step, []);
      RunTwice(s, step);
      RunTwice(s1, step);
      s1 := RunFirst(s, step, [step, step]);
      assert [step] + [step, step] == [step, step, step];
      RepliesAre(reply);
    }
  }

  lemma RunTwice(s: State, e: Event)
    requires Inv(s) && Inv(Step(s, e))
    ensures Run(s, [e, e]) == Step(Step(s, e), e)
  {
    hide Run, Step, Inv;
    var s1 := RunFirst(s, e, [e]);
    var s2 := RunFirst(s1, e, []);
    assert [e] + [e] == [e, e] && [e] + [] == [e];
  }

  lemma RepliesAre(reply: Reply)
    ensures var e := ReceiverStep(reply);
            ReplyEvents(reply) == if reply.Good? then [e, e, e] else [e, e]
  {
  }

  /** What dshotTlmRec does with the outcome of a read. */
  function ReplyEvents(reply: Reply): seq<Event> {
    seq(if reply.Good? then 3 else 2, _ => ReceiverStep(reply))
  }
}
