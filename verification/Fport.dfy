/** frskyFport_fsm.c, receiving side: control messages out of a byte-stuffed stream.

    A message is its length byte 0x19, 25 bytes and a check byte, between two 0x7E.  Inside it 0x7E and
    0x7D are sent as 0x7D followed by the byte with bit 5 flipped. */
module Fport {
  import opened ChannelBits
  import opened ChannelPacking

  const START_STOP: bv8 := 0x7E
  const ESCAPE: bv8 := 0x7D
  const CONTROL_LEN: bv8 := 0x19
  const DOWNLINK_LEN: bv8 := 0x08
  const MSG_SIZE := 27          // sizeof msgBuf

  function Flip(b: bv8): bv8 { b ^ 0x20 }

  // ---------- check sum ----------

  function Sum(buffer: seq<bv8>): nat {
    if buffer == [] then 0 else Sum(buffer[..|buffer| - 1]) + (buffer[|buffer| - 1] as nat)
  }

  /** The carry is folded back once, and the result complemented. */
  function Complement(checksum: nat): int {
    255 - (checksum + checksum / 256) % 256
  }

  lemma {:induction false} SumBound(buffer: seq<bv8>)
    ensures Sum(buffer) <= 255 * |buffer|
  {
    if buffer != [] {
      SumBound(buffer[..|buffer| - 1]);
      assert buffer[|buffer| - 1] as nat <= 255;
    }
  }

  lemma SumStep(buffer: seq<bv8>, i: nat)
    requires i < |buffer|
    ensures Sum(buffer[..i + 1]) % 65536 == (Sum(buffer[..i]) % 65536 + buffer[i] as nat) % 65536
  {
    assert buffer[..i + 1][..i] == buffer[..i];
    assert Sum(buffer[..i + 1]) == Sum(buffer[..i]) + (buffer[i] as nat);
  }

  method CalcChecksum8(buffer: seq<bv8>) returns (r: int)
    ensures r == Complement(Sum(buffer) % 65536)
  {
    var checksum: nat := 0;
    assert Sum(buffer[..0]) == 0;
    hide Sum;
    for i := 0 to |buffer|
      invariant checksum == Sum(buffer[..i]) % 65536
    {
      SumStep(buffer, i);
      checksum := (checksum + buffer[i] as nat) % 65536;
    }
    assert buffer[..|buffer|] == buffer;
    r := 255 - (checksum + checksum / 256) % 256;
  }

  predicate ChecksumOk(buffer: seq<bv8>) {
    Complement(Sum(buffer) % 65536) == 0
  }

  /** Folding once is enough up to 255 bytes: the test accepts exactly the positive multiples of 255. */
  lemma ChecksumMeaning(buffer: seq<bv8>)
    requires |buffer| <= 255
    ensures ChecksumOk(buffer) <==> Sum(buffer) > 0 && Sum(buffer) % 255 == 0
  {
    hide Sum, Complement;
    SumBound(buffer);
    SmallSum(Sum(buffer));
    FoldOnce(Sum(buffer));
  }

  lemma SmallSum(s: nat)
    requires s <= 65025
    ensures s % 65536 == s
  {
  }

  lemma FoldOnce(s: nat)
    requires s <= 65025
    ensures Complement(s) == 0 <==> s > 0 && s % 255 == 0
  {
    var a, b := s / 256, s % 256;
    assert s == 255 * a + (a + b);
    if a + b < 255 {
      assert s % 255 == a + b;
    } else {
      assert s % 255 == a + b - 255;
    }
  }

  // ---------- frames ----------

  datatype ControlFrame = ControlFrame(typ: bv8, channel: seq<bv16>, flags: bv8, rssi: bv8)

  /** decodeFportControlMsg; src starts behind the length byte. */
  function DecodeControl(src: seq<bv8>): ControlFrame
    requires |src| >= 25
  {
    ControlFrame(src[0], DecodeHalf(src[1..12]) + DecodeHalf(src[12..23]), src[23], src[24])
  }

  /** Nothing is lost: the frame holds the type, sixteen 11-bit channels that pack into the 22 bytes of the
      message, the flags and the signal strength. */
  lemma ControlIsPacked(src: seq<bv8>)
    requires |src| >= 25
    ensures var f := DecodeControl(src);
            && |f.channel| == 16 && (forall k :: 0 <= k < 16 ==> f.channel[k] < 2048)
            && [f.typ] + EncodeHalf(f.channel[..8]) + EncodeHalf(f.channel[8..]) + [f.flags, f.rssi] == src[..25]
  {
    var c := DecodeControl(src).channel;
    ChannelsBelow2048(src[1..12]);
    ChannelsBelow2048(src[12..23]);
    EncodeDecodeHalf(src[1..12]);
    EncodeDecodeHalf(src[12..23]);
    hide DecodeHalf, EncodeHalf;
    assert c[..8] == DecodeHalf(src[1..12]) && c[8..] == DecodeHalf(src[12..23]);
    assert [src[0]] + src[1..12] + src[12..23] + [src[23], src[24]] == src[..25];
  }

  lemma ChannelsBelow2048(b: seq<bv8>)
    requires |b| == 11
    ensures forall k :: 0 <= k < 8 ==> DecodeHalf(b)[k] < 2048
  {
  }

  /** Which bits of the message, behind its length byte, a channel is made of, and where the other fields are. */
  lemma ControlLayout(src: seq<bv8>, k: nat, i: nat)
    requires |src| >= 25 && k < 16 && i < 11
    ensures var f := DecodeControl(src);
            && |f.channel| == 16 && f.channel[k] < 2048
            && (BitOf(f.channel[k], i) <==> BitOfRow(src[1..23], 11 * k + i))
            && f.typ == src[0] && f.flags == src[23] && f.rssi == src[24]
  {
    hide DecodeHalf, BitOf, BitOfRow;
    SixteenChannelsLayout(src[1..23], k, i);
    assert src[1..23][..11] == src[1..12] && src[1..23][11..] == src[12..23];
  }

  // ---------- the state machine ----------

  datatype FsmStep = WAIT_HEADER | WAIT_LEN | WAIT_MESSAGE

  datatype FportError = MALFORMED_FRAME | CRC_ERROR | FAILSAFE | RADIO_LINK_LOST

  /** Context of the machine.  errors is the error mask that fportFeedFsm collects; out lists the frames passed
      to ctrlReceiveCb. */
  datatype Fsm = Fsm(step: FsmStep, writeIdx: nat, escaped: bool, lastLen: bv8, msgBuf: seq<bv8>,
                     errors: set<FportError>, out: seq<ControlFrame>)

  /** A byte goes where writeIdx points, and writeIdx, which has five bits, moves on.  A byte behind the buffer
      does not land in it. */
  function Store(st: Fsm, b: bv8): Fsm {
    st.(msgBuf := if st.writeIdx < |st.msgBuf| then st.msgBuf[st.writeIdx := b] else st.msgBuf,
        writeIdx := (st.writeIdx + 1) % 32)
  }

  function Feed(st: Fsm, b: bv8): (st': Fsm)
    requires |st.msgBuf| == MSG_SIZE
    ensures |st'.msgBuf| == MSG_SIZE
  {
    match st.step
    case WAIT_HEADER =>
      if b == START_STOP then st.(step := WAIT_LEN, writeIdx := 0, escaped := false) else st
    case WAIT_LEN =>
      if b == START_STOP then Store(st, b).(lastLen := b)
      else if b == CONTROL_LEN || b == DOWNLINK_LEN then Store(st, b).(lastLen := b, step := WAIT_MESSAGE)
      else Malformed(st)
    case WAIT_MESSAGE =>
      if st.escaped then
        if Flip(b) != START_STOP && Flip(b) != ESCAPE then Malformed(st.(escaped := false))
        else Store(st, Flip(b)).(escaped := false)
      else if b == ESCAPE then st.(escaped := true)
      else if b == START_STOP then Finish(st.(step := WAIT_HEADER))
      else
        var st' := Store(st, b);
        if st'.writeIdx > MSG_SIZE then Malformed(st') else st'
  }

  function Malformed(st: Fsm): Fsm {
    st.(step := WAIT_HEADER, errors := st.errors + {MALFORMED_FRAME})
  }

  function RadioErrors(flags: bv8): set<FportError> {
    (if flags & 4 != 0 then {RADIO_LINK_LOST} else {}) + (if flags & 8 != 0 then {FAILSAFE} else {})
  }

  /** The mask after a control message that checks: a frame without error flags clears it. */
  function ErrorsAfter(errors: set<FportError>, flags: bv8): set<FportError> {
    if RadioErrors(flags) != {} then errors + RadioErrors(flags) else {}
  }

  /** The closing 0x7E: a control message is checked over the whole buffer, any other over its first ten bytes. */
  function Finish(st: Fsm): Fsm
    requires |st.msgBuf| == MSG_SIZE
  {
    if st.lastLen == CONTROL_LEN then
      if ChecksumOk(st.msgBuf) then
        var frame := DecodeControl(st.msgBuf[1..]);
        st.(out := st.out + [frame], errors := ErrorsAfter(st.errors, frame.flags))
      else st.(errors := st.errors + {CRC_ERROR})
    else if ChecksumOk(st.msgBuf[..10]) then st
    else st.(errors := st.errors + {CRC_ERROR})
  }

  /** Which bits of the flags tell what: the one worth 4 that the radio link is lost, the one worth 8 the failsafe. */
  lemma RadioErrorBits(flags: bv8)
    ensures RADIO_LINK_LOST in RadioErrors(flags) <==> flags & 4 != 0
    ensures FAILSAFE in RadioErrors(flags) <==> flags & 8 != 0
    ensures RadioErrors(flags) <= {RADIO_LINK_LOST, FAILSAFE}
  {
  }

  /** What the closing flag makes of the buffer. */
  lemma FinishMeaning(st: Fsm)
    requires |st.msgBuf| == MSG_SIZE
    ensures var st' := Finish(st);
            var whole, ten := Sum(st.msgBuf), Sum(st.msgBuf[..10]);
            var flags := st.msgBuf[24];
            && st'.(out := st.out, errors := st.errors) == st
            && (st.lastLen == 0x19 && whole > 0 && whole % 255 == 0 ==>
                  && st'.out == st.out + [DecodeControl(st.msgBuf[1..])]
                  && (flags & 12 == 0 ==> st'.errors == {})
                  && (flags & 12 != 0 ==> st'.errors == st.errors + RadioErrors(flags)))
            && (st.lastLen == 0x19 && !(whole > 0 && whole % 255 == 0) ==>
                  st'.out == st.out && st'.errors == st.errors + {CRC_ERROR})
            && (st.lastLen != 0x19 ==>
                  st'.out == st.out
                  && st'.errors == if ten > 0 && ten % 255 == 0 then st.errors else st.errors + {CRC_ERROR})
  {
    ChecksumMeaning(st.msgBuf);
    ChecksumMeaning(st.msgBuf[..10]);
    NoRadioErrors(st.msgBuf[24]);
    assert DecodeControl(st.msgBuf[1..]).flags == st.msgBuf[24];
    hide Sum, ChecksumOk, RadioErrors, DecodeControl;
  }

  lemma NoRadioErrors(flags: bv8)
    ensures RadioErrors(flags) == {} <==> flags & 12 == 0
  {
    RadioErrorBits(flags);
    TwoBits(flags);
  }

  lemma TwoBits(flags: bv8)
    ensures flags & 12 == 0 <==> flags & 4 == 0 && flags & 8 == 0
  {
  }

  function FeedAll(st: Fsm, bytes: seq<bv8>): (st': Fsm)
    requires |st.msgBuf| == MSG_SIZE
    ensures |st'.msgBuf| == MSG_SIZE
    decreases |bytes|
  {
    if bytes == [] then st else FeedAll(Feed(st, bytes[0]), bytes[1..])
  }

  /** Feeding in two chunks is feeding at once. */
  lemma {:induction false} FeedInChunks(st: Fsm, a: seq<bv8>, b: seq<bv8>)
    requires |st.msgBuf| == MSG_SIZE
    ensures FeedAll(st, a + b) == FeedAll(FeedAll(st, a), b)
    decreases |a|
  {
    hide Feed;
    if a == [] {
      assert a + b == b;
    } else {
      assert (a + b)[1..] == a[1..] + b;
      FeedInChunks(Feed(st, a[0]), a[1..], b);
    }
  }

  // ---------- sending ----------

  function StuffByte(b: bv8): seq<bv8> {
    if b == START_STOP || b == ESCAPE then [ESCAPE, Flip(b)] else [b]
  }

  function Stuff(msg: seq<bv8>): seq<bv8> {
    if msg == [] then [] else StuffByte(msg[0]) + Stuff(msg[1..])
  }

  function Delimited(msg: seq<bv8>): seq<bv8> {
    [START_STOP] + Stuff(msg) + [START_STOP]
  }

  /** What is on the wire: 0x7E as 0x7D 0x5E, 0x7D as 0x7D 0x5D, and every other byte as it is. */
  lemma WireFormat(b: bv8)
    ensures b == 0x7E ==> StuffByte(b) == [0x7D, 0x5E]
    ensures b == 0x7D ==> StuffByte(b) == [0x7D, 0x5D]
    ensures b != 0x7E && b != 0x7D ==> StuffByte(b) == [b]
  {
  }

  /** What the wire format says about whole messages: each byte is sent by itself, and between two bytes 0x7E. */
  lemma WireMessage(msg: seq<bv8>, b: bv8)
    ensures Stuff([]) == [] && Stuff([b] + msg) == StuffByte(b) + Stuff(msg)
    ensures Delimited(msg) == [0x7E] + Stuff(msg) + [0x7E]
  {
    hide StuffByte;
    assert ([b] + msg)[1..] == msg;
  }

  /** Inside a message an escape and 0x5E or 0x5D store 0x7E or 0x7D, and with anything else end it. */
  lemma EscapeFed(st: Fsm, b: bv8)
    requires |st.msgBuf| == MSG_SIZE && st.step == WAIT_MESSAGE && !st.escaped && st.writeIdx < MSG_SIZE
    ensures var st' := Feed(Feed(st, 0x7D), b);
            && (b == 0x5E ==> st' == st.(msgBuf := st.msgBuf[st.writeIdx := 0x7E], writeIdx := st.writeIdx + 1))
            && (b == 0x5D ==> st' == st.(msgBuf := st.msgBuf[st.writeIdx := 0x7D], writeIdx := st.writeIdx + 1))
            && (b != 0x5E && b != 0x5D ==> st' == st.(step := WAIT_HEADER, errors := st.errors + {MALFORMED_FRAME}))
  {
    Escapes(b);
    hide Flip;
  }

  /** Outside messages only 0x7E is heard, and behind it more of them, or a length byte, 0x19 or 0x08. */
  lemma OutsideMessage(st: Fsm, b: bv8)
    requires |st.msgBuf| == MSG_SIZE
    ensures st.step == WAIT_HEADER ==>
              Feed(st, b) == if b == 0x7E then st.(step := WAIT_LEN, writeIdx := 0, escaped := false) else st
    ensures st.step == WAIT_LEN && st.writeIdx < 27 ==>
              var stored := st.(msgBuf := st.msgBuf[st.writeIdx := b], writeIdx := st.writeIdx + 1, lastLen := b);
              && (b == 0x7E ==> Feed(st, b) == stored)
              && (b == 0x19 || b == 0x08 ==> Feed(st, b) == stored.(step := WAIT_MESSAGE))
              && (b != 0x7E && b != 0x19 && b != 0x08 ==>
                    Feed(st, b) == st.(step := WAIT_HEADER, errors := st.errors + {MALFORMED_FRAME}))
  {
  }

  /** Inside, any byte but 0x7D and 0x7E is stored; behind 27 bytes it lands outside the buffer and ends the
      message. */
  lemma PlainFed(st: Fsm, b: bv8)
    requires |st.msgBuf| == MSG_SIZE && st.step == WAIT_MESSAGE && !st.escaped && b != 0x7D && b != 0x7E
    ensures st.writeIdx < 27 ==>
              Feed(st, b) == st.(msgBuf := st.msgBuf[st.writeIdx := b], writeIdx := st.writeIdx + 1)
    ensures 27 <= st.writeIdx < 31 ==>
              Feed(st, b) == st.(writeIdx := st.writeIdx + 1, step := WAIT_HEADER, errors := st.errors + {MALFORMED_FRAME})
  {
  }

  lemma Escapes(b: bv8)
    ensures Flip(0x5E) == 0x7E && Flip(0x5D) == 0x7D
    ensures b != 0x5E && b != 0x5D ==> Flip(b) != 0x7E && Flip(b) != 0x7D
  {
  }

  predicate ControlMessage(msg: seq<bv8>) {
    |msg| == MSG_SIZE && msg[0] == CONTROL_LEN && Sum(msg) > 0 && Sum(msg) % 255 == 0
  }

  lemma FlipTwice(b: bv8)
    ensures Flip(Flip(b)) == b && Flip(START_STOP) != START_STOP
  {
  }

  lemma PlainByteStored(st: Fsm, b: bv8)
    requires |st.msgBuf| == MSG_SIZE && st.step == WAIT_MESSAGE && !st.escaped && st.writeIdx < MSG_SIZE
    requires b != START_STOP && b != ESCAPE
    ensures Feed(st, b) == st.(msgBuf := st.msgBuf[st.writeIdx := b], writeIdx := st.writeIdx + 1)
  {
    hide Flip;
  }

  lemma EscapedByteStored(st: Fsm, b: bv8)
    requires |st.msgBuf| == MSG_SIZE && st.step == WAIT_MESSAGE && !st.escaped && st.writeIdx < MSG_SIZE
    requires b == START_STOP || b == ESCAPE
    ensures Feed(Feed(st, ESCAPE), Flip(b)) == st.(msgBuf := st.msgBuf[st.writeIdx := b], writeIdx := st.writeIdx + 1)
  {
    FlipTwice(b);
    hide Flip;
    assert Feed(st, ESCAPE) == st.(escaped := true);
  }

  /** A stuffed byte is stored as the byte it stands for. */
  lemma StuffedByteStored(st: Fsm, b: bv8)
    requires |st.msgBuf| == MSG_SIZE && st.step == WAIT_MESSAGE && !st.escaped && st.writeIdx < MSG_SIZE
    ensures FeedAll(st, StuffByte(b)) == st.(msgBuf := st.msgBuf[st.writeIdx := b], writeIdx := st.writeIdx + 1)
  {
    hide Feed, Flip;
    if b == START_STOP || b == ESCAPE {
      EscapedByteStored(st, b);
      FeedFirst(st, ESCAPE, [Flip(b)]);
      assert [ESCAPE, Flip(b)] == [ESCAPE] + [Flip(b)];
      FeedFirst(Feed(st, ESCAPE), Flip(b), []);
      assert [Flip(b)] + [] == [Flip(b)];
    } else {
      PlainByteStored(st, b);
      FeedFirst(st, b, []);
      assert [b] + [] == [b];
    }
  }

  lemma StoredPiece(buf: seq<bv8>, i: nat, msg: seq<bv8>)
    requires msg != [] && i + |msg| <= |buf|
    ensures buf[i := msg[0]][..i + 1] + msg[1..] + buf[i := msg[0]][i + 1 + |msg[1..]|..] == buf[..i] + msg + buf[i + |msg|..]
  {
    assert buf[i := msg[0]][..i + 1] == buf[..i] + [msg[0]];
    assert [msg[0]] + msg[1..] == msg;
    assert buf[i := msg[0]][i + 1 + |msg[1..]|..] == buf[i + |msg|..];
  }

  lemma {:induction false} StuffedStored(st: Fsm, msg: seq<bv8>)
    requires |st.msgBuf| == MSG_SIZE && st.step == WAIT_MESSAGE && !st.escaped && st.writeIdx + |msg| <= MSG_SIZE
    ensures FeedAll(st, Stuff(msg)) ==
            st.(msgBuf := st.msgBuf[..st.writeIdx] + msg + st.msgBuf[st.writeIdx + |msg|..], writeIdx := st.writeIdx + |msg|)
    decreases |msg|
  {
    hide Feed, StuffByte;
    if msg == [] {
      assert st.msgBuf[..st.writeIdx] + msg + st.msgBuf[st.writeIdx + |msg|..] == st.msgBuf;
    } else {
      var next := st.(msgBuf := st.msgBuf[st.writeIdx := msg[0]], writeIdx := st.writeIdx + 1);
      FeedInChunks(st, StuffByte(msg[0]), Stuff(msg[1..]));
      StuffedByteStored(st, msg[0]);
      StuffedStored(next, msg[1..]);
      hide FeedAll;
      StoredPiece(st.msgBuf, st.writeIdx, msg);
    }
  }

  // ---------- what comes between flags ----------

  predicate Special(b: bv8) {
    b == START_STOP || b == ESCAPE
  }

  predicate IsLength(b: bv8) {
    b == CONTROL_LEN || b == DOWNLINK_LEN
  }

  /** How bytes without a flag end: properly, with an escape before a byte that needs none, or with an escape. */
  datatype End = Fine | Bad | Dangling

  datatype Parsed = Parsed(bytes: seq<bv8>, end: End)

  /** The bytes that any flagless bytes stand for, up to the first bad escape. */
  function Unstuff(body: seq<bv8>): Parsed
    decreases |body|
  {
    if body == [] then Parsed([], Fine)
    else if body[0] != ESCAPE then Before(body[0], Unstuff(body[1..]))
    else if |body| == 1 then Parsed([], Dangling)
    else if Special(Flip(body[1])) then Before(Flip(body[1]), Unstuff(body[2..]))
    else Parsed([], Bad)
  }

  function Before(b: bv8, p: Parsed): Parsed {
    Parsed([b] + p.bytes, p.end)
  }

  lemma {:induction false} UnstuffStuff(msg: seq<bv8>)
    ensures Unstuff(Stuff(msg)) == Parsed(msg, Fine) && START_STOP !in Stuff(msg)
  {
    if msg != [] {
      var b, rest := msg[0], Stuff(msg[1..]);
      UnstuffStuff(msg[1..]);
      FlipTwice(b);
      assert Special(b) ==> b == START_STOP || b == ESCAPE;
      EscapedIsNoFlag(b);
      hide Flip, Unstuff;
      UnstuffFirst(b, rest);
      assert [b] + msg[1..] == msg;
    }
  }

  lemma EscapedIsNoFlag(b: bv8)
    requires Special(b)  || b != START_STOP
    ensures Special(b) ==> Flip(b) != START_STOP
  {
  }

  lemma UnstuffFirst(b: bv8, rest: seq<bv8>)
    ensures Unstuff(StuffByte(b) + rest) == Before(b, Unstuff(rest))
  {
    FlipTwice(b);
    hide Flip;
    if Special(b) {
      assert (StuffByte(b) + rest)[2..] == rest;
    } else {
      assert (StuffByte(b) + rest)[1..] == rest;
    }
  }

  /** The buffer after bytes have been stored one after the other, the first one being the i-th since the flag:
      the index counts to 32 and starts again. */
  function Landed(buf: seq<bv8>, i: nat, bytes: seq<bv8>): (buf': seq<bv8>)
    requires |buf| == MSG_SIZE
    ensures |buf'| == MSG_SIZE
    decreases |bytes|
  {
    if bytes == [] then buf
    else Landed(if i % 32 < MSG_SIZE then buf[i % 32 := bytes[0]] else buf, i + 1, bytes[1..])
  }

  lemma {:induction false} LandedInTwo(buf: seq<bv8>, i: nat, a: seq<bv8>, b: seq<bv8>)
    requires |buf| == MSG_SIZE
    ensures Landed(buf, i, a + b) == Landed(Landed(buf, i, a), i + |a|, b)
    decreases |a|
  {
    if a == [] {
      assert a + b == b;
    } else {
      assert (a + b)[1..] == a[1..] + b;
      LandedInTwo(if i % 32 < MSG_SIZE then buf[i % 32 := a[0]] else buf, i + 1, a[1..], b);
    }
  }

  /** Up to 32 bytes: as far as they go they are in front, and behind them is what was there. */
  lemma {:induction false} LandedIs(buf: seq<bv8>, bytes: seq<bv8>)
    requires |buf| == MSG_SIZE && |bytes| <= 32
    ensures Landed(buf, 0, bytes) == if |bytes| <= MSG_SIZE then bytes + buf[|bytes|..] else bytes[..MSG_SIZE]
    decreases |bytes|
  {
    if bytes == [] {
      assert [] + buf[0..] == buf;
    } else {
      var n := |bytes| - 1;
      LandedIs(buf, bytes[..n]);
      LandedInTwo(buf, 0, bytes[..n], bytes[n..]);
      assert bytes[..n] + bytes[n..] == bytes;
      LandedOne(Landed(buf, 0, bytes[..n]), n, bytes[n]);
      assert bytes[n..] == [bytes[n]];
    }
  }

  lemma LandedOne(buf: seq<bv8>, i: nat, b: bv8)
    requires |buf| == MSG_SIZE
    ensures Landed(buf, i, [b]) == if i % 32 < MSG_SIZE then buf[i % 32 := b] else buf
  {
    assert [b][1..] == [];
  }

  /** A byte that was not escaped and is stored behind the buffer ends the message, unless the index starts again
      with it. */
  predicate Survives(i: nat, bytes: seq<bv8>) {
    forall p :: 0 <= p < |bytes| && MSG_SIZE <= (i + p) % 32 <= 30 ==> Special(bytes[p])
  }

  lemma SurvivesFirst(i: nat, b: bv8, rest: seq<bv8>)
    ensures Survives(i, [b] + rest) <==> (MSG_SIZE <= i % 32 <= 30 ==> Special(b)) && Survives(i + 1, rest)
  {
    var all := [b] + rest;
    hide Special;
    if Survives(i, all) {
      forall p | 0 <= p < |rest| && MSG_SIZE <= (i + 1 + p) % 32 <= 30
        ensures Special(rest[p])
      {
        assert (i + (p + 1)) % 32 == (i + 1 + p) % 32 && all[p + 1] == rest[p];
      }
      assert all[0] == b && (i + 0) % 32 == i % 32;
    }
    if (MSG_SIZE <= i % 32 <= 30 ==> Special(b)) && Survives(i + 1, rest) {
      forall p | 0 <= p < |all| && MSG_SIZE <= (i + p) % 32 <= 30
        ensures Special(all[p])
      {
        if p > 0 {
          assert (i + 1 + (p - 1)) % 32 == (i + p) % 32 && all[p] == rest[p - 1];
        }
      }
    }
  }

  /** The machine, inside a message, has stored i bytes since the flag. */
  predicate Inside(st: Fsm, i: nat) {
    |st.msgBuf| == MSG_SIZE && st.step == WAIT_MESSAGE && !st.escaped && st.writeIdx == i % 32
  }

  predicate Dropped(st: Fsm, st': Fsm) {
    st'.step == WAIT_HEADER && |st'.msgBuf| == MSG_SIZE && st'.out == st.out && st'.errors == st.errors + {MALFORMED_FRAME}
  }

  function Stored(st: Fsm, i: nat, bytes: seq<bv8>): (st': Fsm)
    requires |st.msgBuf| == MSG_SIZE
    ensures st'.out == st.out && st'.errors == st.errors
  {
    st.(msgBuf := Landed(st.msgBuf, i, bytes), writeIdx := (i + |bytes|) % 32)
  }

  lemma {:induction false} IgnoredBody(st: Fsm, body: seq<bv8>)
    requires |st.msgBuf| == MSG_SIZE && st.step == WAIT_HEADER && START_STOP !in body
    ensures FeedAll(st, body) == st
    decreases |body|
  {
    if body != [] {
      IgnoredBody(st, body[1..]);
    }
  }

  lemma PlainByteFed(st: Fsm, i: nat, b: bv8)
    requires Inside(st, i) && !Special(b)
    ensures MSG_SIZE <= i % 32 <= 30 ==> Dropped(st, Feed(st, b))
    ensures !(MSG_SIZE <= i % 32 <= 30) ==> Feed(st, b) == Stored(st, i, [b]) && Inside(Feed(st, b), i + 1)
  {
    hide Landed, Flip;
    LandedOne(st.msgBuf, i, b);
    NextIndex(i);
  }

  lemma EscapedByteFed(st: Fsm, i: nat, b: bv8)
    requires Inside(st, i)
    ensures Feed(st, ESCAPE) == st.(escaped := true)
    ensures !Special(Flip(b)) ==> Dropped(st, Feed(st.(escaped := true), b))
    ensures Special(Flip(b)) ==>
              var st' := Feed(st.(escaped := true), b);
              st' == Stored(st, i, [Flip(b)]) && Inside(st', i + 1)
  {
    hide Landed, Flip;
    LandedOne(st.msgBuf, i, Flip(b));
    NextIndex(i);
  }

  lemma StoredFirst(st: Fsm, i: nat, b: bv8, rest: seq<bv8>)
    requires |st.msgBuf| == MSG_SIZE
    ensures Stored(Stored(st, i, [b]), i + 1, rest) == Stored(st, i, [b] + rest)
  {
    LandedInTwo(st.msgBuf, i, [b], rest);
    hide Landed;
  }

  /** What any flagless bytes do to the machine inside a message. */
  lemma {:induction false} BodyFed(st: Fsm, i: nat, body: seq<bv8>)
    requires Inside(st, i) && START_STOP !in body
    ensures var p := Unstuff(body);
            if p.end != Bad && Survives(i, p.bytes) then FeedAll(st, body) == Stored(st, i, p.bytes).(escaped := p.end == Dangling)
            else Dropped(st, FeedAll(st, body))
    decreases |body|
  {
    hide Feed, Flip, Special, Survives, Stored, Landed;
    if body == [] {
      NothingStored(st, i);
    } else if body[0] != ESCAPE {
      PlainBodyFed(st, i, body[0], body[1..]);
      if !(MSG_SIZE <= i % 32 <= 30) {
        BodyFed(Feed(st, body[0]), i + 1, body[1..]);
        StoredFirst(st, i, body[0], Unstuff(body[1..]).bytes);
      }
    } else if |body| == 1 {
      NothingStored(st, i);
      EscapedByteFed(st, i, 0);
    } else {
      var st1 := Feed(st, ESCAPE);
      var b := Flip(body[1]);
      EscapedByteFed(st, i, body[1]);
      assert body[1..][0] == body[1] && body[1..][1..] == body[2..];
      assert FeedAll(st, body) == FeedAll(Feed(st1, body[1]), body[2..]);
      if Special(b) {
        SurvivesFirst(i, b, Unstuff(body[2..]).bytes);
        BodyFed(Feed(st1, body[1]), i + 1, body[2..]);
        StoredFirst(st, i, b, Unstuff(body[2..]).bytes);
      } else {
        IgnoredBody(Feed(st1, body[1]), body[2..]);
      }
    }
  }

  lemma NothingStored(st: Fsm, i: nat)
    requires Inside(st, i)
    ensures Stored(st, i, []) == st && Survives(i, [])
  {
  }

  lemma PlainBodyFed(st: Fsm, i: nat, b: bv8, rest: seq<bv8>)
    requires Inside(st, i) && b != START_STOP && b != ESCAPE && START_STOP !in rest
    ensures var p := Unstuff(rest);
            Survives(i, [b] + p.bytes) <==> !(MSG_SIZE <= i % 32 <= 30) && Survives(i + 1, p.bytes)
    ensures MSG_SIZE <= i % 32 <= 30 ==> Dropped(st, FeedAll(Feed(st, b), rest))
    ensures !(MSG_SIZE <= i % 32 <= 30) ==> Feed(st, b) == Stored(st, i, [b]) && Inside(Feed(st, b), i + 1)
  {
    assert !Special(b);
    SurvivesFirst(i, b, Unstuff(rest).bytes);
    PlainByteFed(st, i, b);
    hide Feed, Special, Survives, Stored;
    if MSG_SIZE <= i % 32 <= 30 {
      IgnoredBody(Feed(st, b), rest);
    }
  }

  function Flags(k: nat): seq<bv8> {
    seq(k, _ => START_STOP)
  }

  /** While the machine waits for a length it stores every flag. */
  lemma {:induction false} FlagsFed(st: Fsm, i: nat, k: nat)
    requires |st.msgBuf| == MSG_SIZE && st.step == WAIT_LEN && st.writeIdx == i % 32
    ensures FeedAll(st, Flags(k)) == Stored(st, i, Flags(k)).(lastLen := if k > 0 then START_STOP else st.lastLen)
    decreases k
  {
    hide Landed, Feed;
    if k == 0 {
      assert Flags(0) == [];
      NothingLanded(st.msgBuf, i);
    } else {
      assert Flags(k) == [START_STOP] + Flags(k - 1);
      FeedFirst(st, START_STOP, Flags(k - 1));
      FlagFed(st, i);
      FlagsFed(Feed(st, START_STOP), i + 1, k - 1);
      StoredFirst(st, i, START_STOP, Flags(k - 1));
    }
  }

  lemma NothingLanded(buf: seq<bv8>, i: nat)
    requires |buf| == MSG_SIZE
    ensures Landed(buf, i, []) == buf
  {
  }

  lemma FlagFed(st: Fsm, i: nat)
    requires |st.msgBuf| == MSG_SIZE && st.step == WAIT_LEN && st.writeIdx == i % 32
    ensures Feed(st, START_STOP) == Stored(st, i, [START_STOP]).(lastLen := START_STOP)
  {
    hide Landed;
    LandedOne(st.msgBuf, i, START_STOP);
    NextIndex(i);
  }

  lemma NextIndex(i: nat)
    ensures (i % 32 + 1) % 32 == (i + 1) % 32
  {
  }

  lemma HeaderFed(st: Fsm)
    requires |st.msgBuf| == MSG_SIZE && st.step == WAIT_HEADER
    ensures Feed(st, START_STOP) == st.(step := WAIT_LEN, writeIdx := 0, escaped := false)
  {
  }

  lemma LengthByteFed(st: Fsm, i: nat, len: bv8)
    requires |st.msgBuf| == MSG_SIZE && st.step == WAIT_LEN && st.writeIdx == i % 32 && !st.escaped && IsLength(len)
    ensures Feed(st, len) == Stored(st, i, [len]).(lastLen := len, step := WAIT_MESSAGE) && Inside(Feed(st, len), i + 1)
    ensures StoresBehind(st, len) <==> i % 32 >= MSG_SIZE
  {
    hide Landed;
    LandedOne(st.msgBuf, i, len);
    NextIndex(i);
  }

  /** Flags, a length byte and any flagless bytes behind it. */
  function Segment(k: nat, len: bv8, body: seq<bv8>): seq<bv8> {
    Flags(k) + ([len] + body)
  }

  /** What a segment has the machine store. */
  function Contents(k: nat, len: bv8, body: seq<bv8>): seq<bv8>
    requires k > 0
  {
    Flags(k - 1) + [len] + Unstuff(body).bytes
  }

  /** The segment is still a message when the next flag comes. */
  predicate Completes(k: nat, body: seq<bv8>) {
    Unstuff(body).end == Fine && Survives(k, Unstuff(body).bytes)
  }

  lemma LengthFed(st: Fsm, k: nat, len: bv8) returns (st': Fsm)
    requires |st.msgBuf| == MSG_SIZE && st.step == WAIT_HEADER && k > 0 && IsLength(len)
    ensures st' == FeedAll(st, Flags(k) + [len]) && Inside(st', k)
    ensures st' == Fsm(WAIT_MESSAGE, k % 32, false, len, Landed(st.msgBuf, 0, Flags(k - 1) + [len]), st.errors, st.out)
  {
    hide FeedAll, Feed, Landed, Flags;
    HeaderFed(st);
    var st1 := Feed(st, START_STOP);
    FirstFlag(k, [len]);
    FeedFirst(st, START_STOP, Flags(k - 1) + [len]);
    FeedInChunks(st1, Flags(k - 1), [len]);
    FlagsFed(st1, 0, k - 1);
    FlagCount(k - 1);
    var st2 := FeedAll(st1, Flags(k - 1));
    FeedFirst(st2, len, []);
    assert [len] + [] == [len];
    LengthByteFed(st2, k - 1, len);
    st' := Feed(st2, len);
    NothingToFeed(st');
    LandedInTwo(st.msgBuf, 0, Flags(k - 1), [len]);
  }

  lemma FlagCount(k: nat)
    ensures |Flags(k)| == k
  {
  }

  lemma FirstFlag(k: nat, rest: seq<bv8>)
    requires k > 0
    ensures Flags(k) + rest == [START_STOP] + (Flags(k - 1) + rest)
  {
  }

  /** A segment and the flag behind it: either everything was stored and the message is checked, or nothing comes
      of it. */
  lemma SegmentFed(st: Fsm, k: nat, len: bv8, body: seq<bv8>)
    requires |st.msgBuf| == MSG_SIZE && st.step == WAIT_HEADER && k > 0 && IsLength(len) && START_STOP !in body
    ensures var x := Contents(k, len, body);
            var st' := FeedAll(st, Segment(k, len, body) + [START_STOP]);
            && (Completes(k, body) ==>
                  st' == Finish(Fsm(WAIT_HEADER, |x| % 32, false, len, Landed(st.msgBuf, 0, x), st.errors, st.out)))
            && (!Completes(k, body) ==>
                  st'.out == st.out && st'.errors == st.errors + {MALFORMED_FRAME}
                  && (if Unstuff(body).end == Dangling && Survives(k, Unstuff(body).bytes) then st'.step == WAIT_HEADER
                      else st'.step == WAIT_LEN && st'.writeIdx == 0 && !st'.escaped))
  {
    hide FeedAll, Feed, Landed, Unstuff, Survives, Finish, Special;
    var bytes := Unstuff(body).bytes;
    var st1 := LengthFed(st, k, len);
    assert Segment(k, len, body) + [START_STOP] == (Flags(k) + [len]) + (body + [START_STOP]);
    FeedInChunks(st, Flags(k) + [len], body + [START_STOP]);
    FeedInChunks(st1, body, [START_STOP]);
    BodyFed(st1, k, body);
    var st2 := FeedAll(st1, body);
    FeedFirst(st2, START_STOP, []);
    assert [START_STOP] + [] == [START_STOP];
    NothingToFeed(Feed(st2, START_STOP));
    LandedInTwo(st.msgBuf, 0, Flags(k - 1) + [len], bytes);
    ClosingFlag(st2);
  }

  lemma ClosingFlag(st: Fsm)
    requires |st.msgBuf| == MSG_SIZE
    ensures st.step == WAIT_MESSAGE && !st.escaped ==> Feed(st, START_STOP) == Finish(st.(step := WAIT_HEADER))
    ensures st.step == WAIT_MESSAGE && st.escaped ==> Dropped(st, Feed(st, START_STOP))
    ensures st.step == WAIT_HEADER ==> Feed(st, START_STOP) == st.(step := WAIT_LEN, writeIdx := 0, escaped := false)
  {
    assert !Special(Flip(START_STOP));
  }

  /** When a frame is delivered, for any number of flags and any bytes between them and the next flag.  It is if
      and only if nothing unescaped was stored behind the buffer, no escape was bad, the length byte is that of a
      control message and the whole buffer checks, be it with bytes that came now or with bytes left there.  So
      frames come only of one flag and 27 bytes exactly when this is so, or when there is none. */
  lemma DeliveredIff(st: Fsm, k: nat, len: bv8, body: seq<bv8>)
    requires |st.msgBuf| == MSG_SIZE && st.step == WAIT_HEADER && k > 0 && IsLength(len) && START_STOP !in body
    ensures var x := Contents(k, len, body);
            var buffer := Landed(st.msgBuf, 0, x);
            var delivered := Completes(k, body) && len == CONTROL_LEN && ChecksumOk(buffer);
            var out := FeedAll(st, Segment(k, len, body) + [START_STOP]).out;
            && out == (if delivered then st.out + [DecodeControl(buffer[1..])] else st.out)
            && (|x| <= MSG_SIZE ==> buffer == x + st.msgBuf[|x|..])
            && (MSG_SIZE <= |x| <= 32 ==> buffer == x[..MSG_SIZE])
            && ((out != st.out ==> k == 1 && |x| == MSG_SIZE) <==> (k == 1 && |x| == MSG_SIZE) || !delivered)
  {
    hide ChecksumOk, DecodeControl, FeedAll, ErrorsAfter, Landed, Completes, Contents, Segment;
    SegmentFed(st, k, len, body);
    if |Contents(k, len, body)| <= 32 {
      LandedIs(st.msgBuf, Contents(k, len, body));
    }
  }

  /** Anything but a length byte behind the flags delivers nothing. */
  lemma WrongLengthDelivers(st: Fsm, k: nat, b: bv8, body: seq<bv8>)
    requires |st.msgBuf| == MSG_SIZE && st.step == WAIT_HEADER && k > 0
    requires b != START_STOP && !IsLength(b) && START_STOP !in body
    ensures FeedAll(st, Segment(k, b, body)).out == st.out && FeedAll(st, Segment(k, b, body)).step == WAIT_HEADER
  {
    var st1 := Feed(st, START_STOP);
    assert Segment(k, b, body) == [START_STOP] + (Flags(k - 1) + ([b] + body));
    FeedFirst(st, START_STOP, Flags(k - 1) + ([b] + body));
    FeedInChunks(st1, Flags(k - 1), [b] + body);
    FlagsFed(st1, 0, k - 1);
    var st2 := FeedAll(st1, Flags(k - 1));
    FeedFirst(st2, b, body);
    IgnoredBody(Feed(st2, b), body);
    hide FeedAll, Landed, Flags;
  }

  /** For stuffed bytes, few enough for the index not to start again: what is stored behind the buffer must have
      been escaped. */
  lemma StuffedDeliveredIff(st: Fsm, k: nat, msg: seq<bv8>)
    requires |st.msgBuf| == MSG_SIZE && st.step == WAIT_HEADER
    requires k > 0 && msg != [] && IsLength(msg[0]) && k - 1 + |msg| <= 32
    ensures var x := Flags(k - 1) + msg;
            var buffer := if |x| <= MSG_SIZE then x + st.msgBuf[|x|..] else x[..MSG_SIZE];
            var delivered := msg[0] == CONTROL_LEN && ChecksumOk(buffer) && Survives(k, msg[1..]);
            var out := FeedAll(st, Flags(k) + Stuff(msg) + [START_STOP]).out;
            && out == (if delivered then st.out + [DecodeControl(buffer[1..])] else st.out)
            && ((out != st.out ==> k == 1 && |msg| == MSG_SIZE) <==> (k == 1 && |msg| == MSG_SIZE) || !delivered)
    ensures k - 1 + |msg| <= MSG_SIZE ==> Survives(k, msg[1..])
  {
    hide ChecksumOk, DecodeControl, FeedAll, Landed, Segment, Stuff, Special, Completes, Contents, Unstuff;
    StuffedSegment(k, msg);
    DeliveredIff(st, k, msg[0], Stuff(msg[1..]));
    if k - 1 + |msg| <= MSG_SIZE {
      FewStored(k, msg[1..]);
    }
  }

  lemma FewStored(i: nat, bytes: seq<bv8>)
    requires i + |bytes| <= MSG_SIZE
    ensures Survives(i, bytes)
  {
  }

  lemma StuffedSegment(k: nat, msg: seq<bv8>)
    requires k > 0 && msg != [] && IsLength(msg[0])
    ensures Flags(k) + Stuff(msg) == Segment(k, msg[0], Stuff(msg[1..]))
    ensures Contents(k, msg[0], Stuff(msg[1..])) == Flags(k - 1) + msg
    ensures START_STOP !in Stuff(msg[1..]) && Unstuff(Stuff(msg[1..])) == Parsed(msg[1..], Fine)
    ensures Completes(k, Stuff(msg[1..])) <==> Survives(k, msg[1..])
  {
    hide Unstuff, Survives, Stuff, StuffByte;
    UnstuffStuff(msg[1..]);
    LengthIsPlain(msg);
    assert [msg[0]] + msg[1..] == msg;
    assert Flags(k - 1) + [msg[0]] + msg[1..] == Flags(k - 1) + msg by { hide Flags; }
  }

  lemma LengthIsPlain(msg: seq<bv8>)
    requires msg != [] && IsLength(msg[0])
    ensures Stuff(msg) == [msg[0]] + Stuff(msg[1..])
  {
  }

  /** Up to 27 bytes between two flags, the first one 0x19, are stored at the start of the buffer, and the rest
      of the buffer is what it was. */
  lemma BytesFed(st: Fsm, msg: seq<bv8>)
    requires |st.msgBuf| == MSG_SIZE && st.step == WAIT_HEADER
    requires 1 <= |msg| <= MSG_SIZE && msg[0] == CONTROL_LEN
    ensures FeedAll(st, Delimited(msg)) ==
            Finish(Fsm(WAIT_HEADER, |msg|, false, CONTROL_LEN, msg + st.msgBuf[|msg|..], st.errors, st.out))
  {
    hide FeedAll, Landed, Finish, Special, Segment, Unstuff, Survives, Contents, Completes, Stuff;
    StuffedSegment(1, msg);
    SegmentFed(st, 1, msg[0], Stuff(msg[1..]));
    LandedIs(st.msgBuf, msg);
    FewStored(1, msg[1..]);
    assert Flags(0) + msg == msg && Flags(1) == [START_STOP];
  }

  /** A control message is accepted once, and the buffer then holds its bytes. */
  lemma MessageAccepted(st: Fsm, msg: seq<bv8>)
    requires |st.msgBuf| == MSG_SIZE && st.step == WAIT_HEADER && ControlMessage(msg)
    ensures var frame := DecodeControl(msg[1..]);
            FeedAll(st, Delimited(msg)) ==
              Fsm(WAIT_HEADER, MSG_SIZE, false, CONTROL_LEN, msg, ErrorsAfter(st.errors, frame.flags), st.out + [frame])
  {
    BytesFed(st, msg);
    ChecksumMeaning(msg);
    hide ChecksumOk, DecodeControl, Delimited, FeedAll, ErrorsAfter, Sum;
    assert msg + st.msgBuf[|msg|..] == msg;
  }

  lemma NothingToFeed(st: Fsm)
    requires |st.msgBuf| == MSG_SIZE
    ensures FeedAll(st, []) == st
  {
  }

  lemma FeedFirst(st: Fsm, b: bv8, rest: seq<bv8>)
    requires |st.msgBuf| == MSG_SIZE
    ensures FeedAll(st, [b] + rest) == FeedAll(Feed(st, b), rest)
  {
    hide Feed;
    assert ([b] + rest)[1..] == rest;
  }

  function DelimitedAll(msgs: seq<seq<bv8>>): seq<bv8> {
    if msgs == [] then [] else Delimited(msgs[0]) + DelimitedAll(msgs[1..])
  }

  function Decoded(msgs: seq<seq<bv8>>): seq<ControlFrame>
    requires forall k :: 0 <= k < |msgs| ==> ControlMessage(msgs[k])
  {
    if msgs == [] then []
    else
      assert ControlMessage(msgs[0]);
      [DecodeControl(msgs[0][1..])] + Decoded(msgs[1..])
  }

  lemma NoMessages(st: Fsm)
    requires |st.msgBuf| == MSG_SIZE
    ensures FeedAll(st, DelimitedAll([])) == st && Decoded([]) == []
  {
  }

  lemma FirstMessage(st: Fsm, msgs: seq<seq<bv8>>)
    requires |st.msgBuf| == MSG_SIZE && msgs != [] && forall k :: 0 <= k < |msgs| ==> ControlMessage(msgs[k])
    ensures ControlMessage(msgs[0]) && Decoded(msgs) == [DecodeControl(msgs[0][1..])] + Decoded(msgs[1..])
    ensures FeedAll(st, DelimitedAll(msgs)) == FeedAll(FeedAll(st, Delimited(msgs[0])), DelimitedAll(msgs[1..]))
  {
    hide Feed, FeedAll, Delimited;
    assert ControlMessage(msgs[0]);
    FeedInChunks(st, Delimited(msgs[0]), DelimitedAll(msgs[1..]));
  }

  /** Any sequence of control messages is accepted, each one once and in order. */
  lemma {:induction false} StreamAccepted(st: Fsm, msgs: seq<seq<bv8>>)
    requires |st.msgBuf| == MSG_SIZE && st.step == WAIT_HEADER
    requires forall k :: 0 <= k < |msgs| ==> ControlMessage(msgs[k])
    ensures var st' := FeedAll(st, DelimitedAll(msgs));
            && st'.step == WAIT_HEADER && st'.out == st.out + Decoded(msgs)
            && (msgs != [] ==> st'.msgBuf == msgs[|msgs| - 1])
    decreases |msgs|
  {
    hide Delimited, DelimitedAll, Decoded, DecodeControl, ControlMessage, FeedAll;
    NoMessages(st);
    if msgs != [] {
      FirstMessage(st, msgs);
      MessageAccepted(st, msgs[0]);
      var next := FeedAll(st, Delimited(msgs[0]));
      NoMessages(next);
      StreamAccepted(next, msgs[1..]);
    }
  }

  /** In particular a bare length byte between flags, right after a message, delivers that message once more. */
  lemma BareLengthRepeatsMessage(st: Fsm, msg: seq<bv8>)
    requires |st.msgBuf| == MSG_SIZE && st.step == WAIT_HEADER && ControlMessage(msg) && st.msgBuf == msg
    ensures FeedAll(st, Delimited([CONTROL_LEN])).out == st.out + [DecodeControl(msg[1..])]
  {
    ChecksumMeaning(msg);
    BytesFed(st, [CONTROL_LEN]);
    assert [CONTROL_LEN] + msg[1..] == msg;
    hide ChecksumOk, DecodeControl, Delimited, FeedAll, ErrorsAfter, Sum;
  }

  // ---------- out of step ----------

  /** Behind two flags a control message is one byte too long.  If its last byte is escaped it is checked all the
      same, one byte late, which succeeds exactly if that byte is a flag; otherwise it is dropped, and its closing
      flag is taken for an opening one. */
  lemma ShiftedMessage(st: Fsm, msg: seq<bv8>)
    requires |st.msgBuf| == MSG_SIZE && st.step == WAIT_HEADER && ControlMessage(msg)
    ensures var st' := FeedAll(st, Flags(2) + Stuff(msg) + [START_STOP]);
            && st'.out == (if msg[26] == START_STOP then st.out + [DecodeControl(msg[..26])] else st.out)
            && (Special(msg[26]) ==> st'.step == WAIT_HEADER)
            && (!Special(msg[26]) ==> OutOfStep(st'))
            && |st'.msgBuf| == MSG_SIZE
  {
    hide FeedAll, Landed, DecodeControl, ChecksumOk, Sum, Segment, Stuff, Survives, ErrorsAfter, Unstuff, Contents, Special;
    var x, buffer := Flags(1) + msg, [START_STOP] + msg[..26];
    StuffedSegment(2, msg);
    SegmentFed(st, 2, msg[0], Stuff(msg[1..]));
    LandedIs(st.msgBuf, x);
    assert x[..MSG_SIZE] == buffer && buffer[1..] == msg[..26];
    LastOfMessage(msg);
    if !Special(msg[26]) {
      EscapeIsNoFlag(msg[26]);
    }
    ShiftedSum(msg);
    ChecksumMeaning(buffer);
  }

  lemma LastOfMessage(msg: seq<bv8>)
    requires |msg| == MSG_SIZE
    ensures Survives(2, msg[1..]) <==> Special(msg[26])
  {
    hide Special;
    var rest := msg[1..];
    assert rest[25] == msg[26];
    assert Survives(2, rest) ==> Special(rest[25]);
  }

  lemma {:induction false} SumFirst(b: bv8, bytes: seq<bv8>)
    ensures Sum([b] + bytes) == (b as nat) + Sum(bytes)
    decreases |bytes|
  {
    if bytes == [] {
      assert [b] + bytes == [b] && [b][..0] == [];
    } else {
      var n := |bytes| - 1;
      SumFirst(b, bytes[..n]);
      assert ([b] + bytes)[..n + 1] == [b] + bytes[..n];
    }
  }

  lemma ByteValues()
    ensures CONTROL_LEN as nat == 25 && (104 as bv8) as nat == 104 && START_STOP as nat == 126 && ESCAPE as nat == 125
  {
  }

  lemma ShiftedSum(msg: seq<bv8>)
    requires ControlMessage(msg)
    ensures var s := Sum([START_STOP] + msg[..26]); s > 0 && (Special(msg[26]) ==> (s % 255 == 0 <==> msg[26] == START_STOP))
  {
    SumFirst(START_STOP, msg[..26]);
    assert Sum(msg) == Sum(msg[..26]) + (msg[26] as nat);
    ByteValues();
    hide Sum;
  }

  /** The machine has taken a closing flag for an opening one. */
  predicate OutOfStep(st: Fsm) {
    |st.msgBuf| == MSG_SIZE && st.step == WAIT_LEN && st.writeIdx == 0 && !st.escaped
  }

  /** A machine that is out of step stays so over a control message, and delivers nothing, unless the last byte of
      the message had to be escaped. */
  lemma OutOfStepMessage(st: Fsm, msg: seq<bv8>)
    requires OutOfStep(st) && ControlMessage(msg)
    ensures var st' := FeedAll(st, Delimited(msg));
            && st'.out == (if msg[26] == START_STOP then st.out + [DecodeControl(msg[..26])] else st.out)
            && (Special(msg[26]) ==> st'.step == WAIT_HEADER)
            && (!Special(msg[26]) ==> OutOfStep(st'))
            && |st'.msgBuf| == MSG_SIZE
  {
    assert |msg| == MSG_SIZE;
    hide FeedAll, Feed, Special, DecodeControl, Delimited, Flags, ControlMessage;
    var st0 := st.(step := WAIT_HEADER);
    HeaderFed(st0);
    ShiftedMessage(st0, msg);
    FeedFirst(st0, START_STOP, Delimited(msg));
    TwoFlags(msg);
  }

  lemma TwoFlags(msg: seq<bv8>)
    ensures [START_STOP] + Delimited(msg) == Flags(2) + Stuff(msg) + [START_STOP]
  {
  }

  predicate EndsEscaped(msg: seq<bv8>) {
    |msg| == MSG_SIZE && Special(msg[26])
  }

  /** On a stream of control messages it never gets back into step, and delivers nothing, until one comes whose
      last byte had to be escaped; from then on it is in step. */
  lemma {:induction false} BackInStepIff(st: Fsm, msgs: seq<seq<bv8>>)
    requires OutOfStep(st) && forall k :: 0 <= k < |msgs| ==> ControlMessage(msgs[k])
    ensures var st' := FeedAll(st, DelimitedAll(msgs));
            && (st'.step == WAIT_HEADER <==> exists k :: 0 <= k < |msgs| && EndsEscaped(msgs[k]))
            && (st'.step != WAIT_HEADER ==> OutOfStep(st') && st'.out == st.out)
    decreases |msgs|
  {
    hide Delimited, DelimitedAll, Decoded, DecodeControl, FeedAll, Special, Sum;
    NoMessages(st);
    if msgs != [] {
      FirstMessage(st, msgs);
      OutOfStepMessage(st, msgs[0]);
      var next := FeedAll(st, Delimited(msgs[0]));
      if EndsEscaped(msgs[0]) {
        StreamAccepted(next, msgs[1..]);
      } else {
        BackInStepIff(next, msgs[1..]);
        assert forall k :: 1 <= k < |msgs| ==> msgs[k] == msgs[1..][k - 1];
        EscapeIsNoFlag(msgs[0][26]);
      }
    }
  }

  lemma EscapeIsNoFlag(b: bv8)
    requires !Special(b)
    ensures b != START_STOP
  {
  }

  /** A message that, behind two flags, is delivered as a frame that was never sent. */
  lemma NeverSentFrame(st: Fsm)
    requires |st.msgBuf| == MSG_SIZE && st.step == WAIT_HEADER
    ensures var msg := [CONTROL_LEN, 104] + seq(24, _ => 0) + [START_STOP];
            && ControlMessage(msg)
            && FeedAll(st, Flags(2) + Stuff(msg) + [START_STOP]).out == st.out + [DecodeControl(msg[..26])]
            && DecodeControl(msg[..26]) != DecodeControl(msg[1..])
  {
    var zeros: seq<bv8> := seq(24, _ => 0);
    var msg := [CONTROL_LEN, 104] + zeros + [START_STOP];
    var front := [CONTROL_LEN, 104];
    SumOfZeros(24);
    SumFirst(CONTROL_LEN, [104] + zeros);
    SumFirst(104, zeros);
    assert [CONTROL_LEN] + ([104] + zeros) == front + zeros == msg[..26];
    assert Sum(msg) == Sum(msg[..26]) + (msg[26] as nat);
    ByteValues();
    hide Sum, Stuff, FeedAll;
    ShiftedMessage(st, msg);
    assert DecodeControl(msg[..26]).typ == CONTROL_LEN && DecodeControl(msg[1..]).typ == 104;
  }

  lemma {:induction false} SumOfZeros(n: nat)
    ensures Sum(seq(n, _ => 0)) == 0
  {
    if n > 0 {
      SumOfZeros(n - 1);
      var zeros: seq<bv8> := seq(n, _ => 0);
      assert zeros[..n - 1] == seq(n - 1, _ => 0);
    }
  }

  // ---------- stores behind the buffer ----------

  /** The byte b is stored, and not inside the buffer. */
  predicate StoresBehind(st: Fsm, b: bv8) {
    st.writeIdx >= MSG_SIZE &&
    match st.step
    case WAIT_HEADER => false
    case WAIT_LEN => b == START_STOP || b == CONTROL_LEN || b == DOWNLINK_LEN
    case WAIT_MESSAGE =>
      if st.escaped then Flip(b) == START_STOP || Flip(b) == ESCAPE
      else b != START_STOP && b != ESCAPE
  }

  predicate EverStoresBehind(st: Fsm, bytes: seq<bv8>)
    requires |st.msgBuf| == MSG_SIZE
    decreases |bytes|
  {
    bytes != [] && (StoresBehind(st, bytes[0]) || EverStoresBehind(Feed(st, bytes[0]), bytes[1..]))
  }

  lemma EverFirst(st: Fsm, b: bv8, rest: seq<bv8>)
    requires |st.msgBuf| == MSG_SIZE
    ensures EverStoresBehind(st, [b] + rest) <==> StoresBehind(st, b) || EverStoresBehind(Feed(st, b), rest)
  {
    hide Feed, StoresBehind;
    assert ([b] + rest)[1..] == rest;
  }

  lemma {:induction false} EverInTwo(st: Fsm, a: seq<bv8>, b: seq<bv8>)
    requires |st.msgBuf| == MSG_SIZE
    ensures EverStoresBehind(st, a + b) <==> EverStoresBehind(st, a) || EverStoresBehind(FeedAll(st, a), b)
    decreases |a|
  {
    hide Feed, StoresBehind;
    if a == [] {
      assert a + b == b;
    } else {
      assert (a + b)[1..] == a[1..] + b;
      EverInTwo(Feed(st, a[0]), a[1..], b);
    }
  }

  lemma {:induction false} FlagsOverrun(st: Fsm, k: nat)
    requires |st.msgBuf| == MSG_SIZE && st.step == WAIT_LEN && st.writeIdx <= MSG_SIZE
    ensures EverStoresBehind(st, Flags(k)) <==> st.writeIdx + k > MSG_SIZE
    decreases k
  {
    if k > 0 {
      EverFirst(st, START_STOP, Flags(k - 1));
      assert Flags(k) == [START_STOP] + Flags(k - 1);
      if st.writeIdx < MSG_SIZE {
        FlagsOverrun(Feed(st, START_STOP), k - 1);
      }
      hide EverStoresBehind, Flags;
    }
  }

  lemma PlainStoresBehind(st: Fsm, i: nat, b: bv8)
    requires Inside(st, i) && i <= MSG_SIZE && b != START_STOP && b != ESCAPE
    ensures StoresBehind(st, b) <==> i == MSG_SIZE
    ensures i < MSG_SIZE ==> Inside(Feed(st, b), i + 1)
  {
    hide Flip;
  }

  lemma EscapedStoresBehind(st: Fsm, i: nat, b: bv8)
    requires Inside(st, i) && i <= MSG_SIZE
    ensures !StoresBehind(st, ESCAPE)
    ensures var st1 := Feed(st, ESCAPE);
            && (StoresBehind(st1, b) <==> i == MSG_SIZE && Special(Flip(b)))
            && (i < MSG_SIZE && Special(Flip(b)) ==> Inside(Feed(st1, b), i + 1))
            && (!Special(Flip(b)) ==> Feed(st1, b).step == WAIT_HEADER)
  {
    hide Flip;
  }

  lemma {:induction false} NeverOutside(st: Fsm, body: seq<bv8>)
    requires |st.msgBuf| == MSG_SIZE && st.step == WAIT_HEADER && START_STOP !in body
    ensures !EverStoresBehind(st, body)
    decreases |body|
  {
    if body != [] {
      NeverOutside(st, body[1..]);
    }
  }

  lemma {:induction false} BodyOverruns(st: Fsm, i: nat, body: seq<bv8>)
    requires Inside(st, i) && i <= MSG_SIZE && START_STOP !in body
    ensures EverStoresBehind(st, body) <==> i + |Unstuff(body).bytes| > MSG_SIZE
    decreases |body|
  {
    hide Feed, Flip, StoresBehind, Special;
    if body == [] {
    } else if body[0] != ESCAPE {
      PlainStoresBehind(st, i, body[0]);
      if i < MSG_SIZE {
        BodyOverruns(Feed(st, body[0]), i + 1, body[1..]);
      }
    } else if |body| == 1 {
      EscapedStoresBehind(st, i, 0);
      assert body[1..] == [];
    } else {
      var st1 := Feed(st, ESCAPE);
      EscapedStoresBehind(st, i, body[1]);
      assert body[1..][0] == body[1] && body[1..][1..] == body[2..];
      assert EverStoresBehind(st, body) <==> StoresBehind(st1, body[1]) || EverStoresBehind(Feed(st1, body[1]), body[2..]);
      if !Special(Flip(body[1])) {
        NeverOutside(Feed(st1, body[1]), body[2..]);
      } else if i < MSG_SIZE {
        BodyOverruns(Feed(st1, body[1]), i + 1, body[2..]);
      }
    }
  }

  /** Flags, a length byte and any flagless bytes: the machine stores behind its buffer exactly if the flags but
      the first, the length byte and the bytes that the others stand for are more than the buffer holds. */
  lemma SegmentOverrunsIff(st: Fsm, k: nat, len: bv8, body: seq<bv8>)
    requires |st.msgBuf| == MSG_SIZE && st.step == WAIT_HEADER && k > 0 && IsLength(len) && START_STOP !in body
    ensures EverStoresBehind(st, Segment(k, len, body)) <==> |Contents(k, len, body)| > MSG_SIZE
  {
    hide EverStoresBehind, Feed, FeedAll, Flags, Landed, StoresBehind;
    HeaderFed(st);
    var st1 := Feed(st, START_STOP);
    FirstFlag(k, [len] + body);
    FlagCount(k - 1);
    EverFirst(st, START_STOP, Flags(k - 1) + ([len] + body));
    NotBehind(st);
    EverInTwo(st1, Flags(k - 1), [len] + body);
    FlagsOverrun(st1, k - 1);
    if k - 1 <= MSG_SIZE {
      FlagsFed(st1, 0, k - 1);
      var st2 := FeedAll(st1, Flags(k - 1));
      EverFirst(st2, len, body);
      LengthByteFed(st2, k - 1, len);
      if k - 1 < MSG_SIZE {
        BodyOverruns(Feed(st2, len), k, body);
      }
    }
  }

  lemma NotBehind(st: Fsm)
    requires st.step == WAIT_HEADER
    ensures !StoresBehind(st, START_STOP)
  {
  }

  /** The same for stuffed bytes: a whole message behind two flags is already too much. */
  lemma MessageOverrunsIff(st: Fsm, k: nat, msg: seq<bv8>)
    requires |st.msgBuf| == MSG_SIZE && st.step == WAIT_HEADER && k > 0 && msg != [] && IsLength(msg[0])
    ensures EverStoresBehind(st, Flags(k) + Stuff(msg)) <==> k - 1 + |msg| > MSG_SIZE
  {
    StuffedSegment(k, msg);
    SegmentOverrunsIff(st, k, msg[0], Stuff(msg[1..]));
    hide EverStoresBehind, Stuff, Segment;
  }

  /** Flags alone: more than 28 are too many. */
  lemma FlagsOverrunIff(st: Fsm, k: nat)
    requires |st.msgBuf| == MSG_SIZE && st.step == WAIT_HEADER
    ensures EverStoresBehind(st, Flags(k)) <==> k > MSG_SIZE + 1
  {
    if k > 0 {
      HeaderFed(st);
      NotBehind(st);
      FirstFlag(k, []);
      assert Flags(k) + [] == Flags(k) && Flags(k - 1) + [] == Flags(k - 1);
      EverFirst(st, START_STOP, Flags(k - 1));
      FlagsOverrun(Feed(st, START_STOP), k - 1);
      hide EverStoresBehind, Flags, StoresBehind;
    }
  }

  /** What follows them without a length byte stores nothing. */
  lemma WrongLengthOverrunsIff(st: Fsm, k: nat, b: bv8, body: seq<bv8>)
    requires |st.msgBuf| == MSG_SIZE && st.step == WAIT_HEADER
    requires b != START_STOP && !IsLength(b) && START_STOP !in body
    ensures EverStoresBehind(st, Segment(k, b, body)) <==> k > MSG_SIZE + 1
  {
    FlagsOverrunIff(st, k);
    EverInTwo(st, Flags(k), [b] + body);
    if k == 0 {
      assert Flags(0) == [];
      NothingToFeed(st);
      NeverOutside(st, [b] + body);
    } else {
      HeaderFed(st);
      FirstFlag(k, []);
      assert Flags(k) + [] == Flags(k) && Flags(k - 1) + [] == Flags(k - 1);
      FeedFirst(st, START_STOP, Flags(k - 1));
      FlagsFed(Feed(st, START_STOP), 0, k - 1);
      var st2 := FeedAll(st, Flags(k));
      EverFirst(st2, b, body);
      NeverOutside(Feed(st2, b), body);
    }
    hide EverStoresBehind, Flags, FeedAll, Landed;
  }

  // ---------- the context ----------

  class Context {
    const msgBuf: array<bv8>
    var step: FsmStep
    var writeIdx: nat
    var escaped: bool
    var lastLen: bv8
    var lastFrame: ControlFrame
    var errorMsk: set<FportError>
    ghost var out: seq<ControlFrame>

    ghost predicate Valid()
      reads this
    {
      msgBuf.Length == MSG_SIZE && (out != [] ==> lastFrame == out[|out| - 1])
    }

    ghost function State(): Fsm
      reads this, msgBuf
    {
      Fsm(step, writeIdx, escaped, lastLen, msgBuf[..], errorMsk, out)
    }

    constructor ()
      ensures Valid() && fresh(msgBuf) && step == WAIT_HEADER && out == [] && errorMsk == {}
    {
      msgBuf := new bv8[MSG_SIZE](_ => 0);
      step, writeIdx, escaped, lastLen, errorMsk, out := WAIT_HEADER, 0, false, 0, {}, [];
    }

    method Put(b: bv8)
      requires Valid()
      modifies this`writeIdx, msgBuf
      ensures Valid() && State() == Store(old(State()), b)
    {
      if writeIdx < msgBuf.Length {
        msgBuf[writeIdx] := b;
      }
      writeIdx := (writeIdx + 1) % 32;
    }

    /** The state when fportFeedFsm has added the errors returned to the mask. */
    ghost function With(errors: set<FportError>): Fsm
      reads this, msgBuf
    {
      State().(errors := errorMsk + errors)
    }

    /** fportFeedFsmManageReceivedMsg and the two methods it calls */
    method ManageReceivedMsg() returns (errors: set<FportError>)
      requires Valid()
      modifies this`lastFrame, this`out, this`errorMsk
      ensures Valid() && With(errors) == Finish(old(State()))
    {
      hide Sum, Complement;
      if lastLen == CONTROL_LEN {
        errors := ManageControlMsg();
      } else {
        var check := CalcChecksum8(msgBuf[..10]);
        errors := if check == 0 then errorMsk else {CRC_ERROR};
      }
    }

    /** fportFeedFsmManageReceivedControlMsg */
    method ManageControlMsg() returns (errors: set<FportError>)
      requires Valid() && lastLen == CONTROL_LEN
      modifies this`lastFrame, this`out, this`errorMsk
      ensures Valid() && errors == errorMsk && State() == Finish(old(State()))
    {
      hide Sum, Complement;
      var check := CalcChecksum8(msgBuf[..]);
      if check == 0 {
        lastFrame := DecodeControl(msgBuf[1..]);
        out := out + [lastFrame];
        if RadioErrors(lastFrame.flags) != {} {
          errorMsk := errorMsk + RadioErrors(lastFrame.flags);
        } else {
          errorMsk := {};
        }
      } else {
        errorMsk := errorMsk + {CRC_ERROR};
      }
      errors := errorMsk;
    }

    /** fportFeedFsmOneByte */
    method FeedOneByte(b: bv8) returns (errors: set<FportError>)
      requires Valid()
      modifies this, msgBuf
      ensures Valid() && With(errors) == Feed(old(State()), b)
    {
      hide Finish, Flip;
      errors := errorMsk;
      match step {
        case WAIT_HEADER =>
          if b == START_STOP {
            step, writeIdx, escaped := WAIT_LEN, 0, false;
          }
        case WAIT_LEN =>
          if b != START_STOP {
            if b == CONTROL_LEN || b == DOWNLINK_LEN {
              step := WAIT_MESSAGE;
            } else {
              step := WAIT_HEADER;
              return {MALFORMED_FRAME};
            }
          }
          Put(b);
          lastLen := b;
        case WAIT_MESSAGE =>
          errors := FeedMessageByte(b);
      }
    }

    method FeedMessageByte(b: bv8) returns (errors: set<FportError>)
      requires Valid() && step == WAIT_MESSAGE
      modifies this, msgBuf
      ensures Valid() && With(errors) == Feed(old(State()), b)
    {
      hide Finish, Flip;
      errors := errorMsk;
      if escaped {
        escaped := false;
        var unescaped := Flip(b);
        if unescaped != START_STOP && unescaped != ESCAPE {
          step := WAIT_HEADER;
          return {MALFORMED_FRAME};
        }
        Put(unescaped);
      } else if b == ESCAPE {
        escaped := true;
      } else if b == START_STOP {
        step := WAIT_HEADER;
        errors := ManageReceivedMsg();
      } else {
        Put(b);
        if writeIdx > msgBuf.Length {
          step := WAIT_HEADER;
          return {MALFORMED_FRAME};
        }
      }
    }

    /** fportFeedFsm */
    method FeedFsm(buffer: seq<bv8>) returns (errors: set<FportError>)
      requires Valid()
      modifies this, msgBuf
      ensures Valid() && errors == errorMsk && State() == FeedAll(old(State()), buffer)
    {
      ghost var start := State();
      assert FeedAll(start, buffer[..0]) == start;
      hide FeedAll, Feed;
      for i := 0 to |buffer|
        invariant Valid() && State() == FeedAll(start, buffer[..i])
      {
        errors := FeedOneByte(buffer[i]);
        errorMsk := errorMsk + errors;
        FeedLast(start, buffer, i);
      }
      assert buffer[..|buffer|] == buffer;
      errors := errorMsk;
    }
  }

  lemma FeedLast(st: Fsm, buffer: seq<bv8>, i: nat)
    requires |st.msgBuf| == MSG_SIZE && i < |buffer|
    ensures FeedAll(st, buffer[..i + 1]) == Feed(FeedAll(st, buffer[..i]), buffer[i])
  {
    hide Feed;
    var bytes, b := buffer[..i], buffer[i];
    assert buffer[..i + 1] == bytes + [b];
    FeedInChunks(st, bytes, [b]);
    FeedFirst(FeedAll(st, bytes), b, []);
    assert [b] + [] == [b];
  }
}
