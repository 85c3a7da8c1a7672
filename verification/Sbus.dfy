/** futabaSbusSio.cpp: finding S.Bus frames in a byte stream.

    A frame is 25 bytes: 0x0F, 22 bytes of channels, flags, 0x00.  The receiver keeps a window over the
    stream; sbusRxCb gets the stream in slices of any size. */
module Sbus {
  import opened ChannelBits
  import opened ChannelPacking

  const START: bv8 := 0x0f
  const END: bv8 := 0x00
  const FLAGS_BYTE := 23
  const BUFFLEN := 25

  datatype Error = LOST_FRAME | FAILSAFE | MALFORMED_FRAME
  datatype Frame = Frame(channel: seq<bv16>, flags: bv8)

  /** A call of one of the two user callbacks. */
  datatype Call = FrameCb(frame: Frame) | ErrorCb(err: Error)

  datatype Config = Config(hasFrameCb: bool, hasErrorCb: bool)

  function Lost(flags: bv8): bool { (flags >> 2) & 1 == 1 }
  function Failsafe(flags: bv8): bool { (flags >> 3) & 1 == 1 }

  // ---------- encoding and decoding ----------

  function Decode(src: seq<bv8>): (f: Frame)
    requires |src| >= BUFFLEN
    ensures |f.channel| == 16
  {
    Frame(DecodeHalf(src[1..12]) + DecodeHalf(src[12..23]), src[FLAGS_BYTE])
  }

  function Encode(f: Frame): (dest: seq<bv8>)
    requires |f.channel| == 16
    ensures |dest| == BUFFLEN && dest[0] == START && dest[24] == END && dest[FLAGS_BYTE] == f.flags
  {
    [START] + EncodeHalf(f.channel[..8]) + EncodeHalf(f.channel[8..]) + [f.flags, END]
  }

  /** Which bits of the 25 bytes a channel is made of, and which byte holds the flags. */
  lemma FrameLayout(src: seq<bv8>, k: nat, i: nat)
    requires |src| == BUFFLEN && k < 16 && i < 11
    ensures BitOf(Decode(src).channel[k], i) <==> BitOfRow(src[1..23], 11 * k + i)
    ensures Decode(src).channel[k] < 2048 && Decode(src).flags == src[23]
  {
    hide DecodeHalf, BitOf, BitOfRow;
    SixteenChannelsLayout(src[1..23], k, i);
    assert src[1..23][..11] == src[1..12] && src[1..23][11..] == src[12..23];
  }

  /** Which bits of the flags tell what: the one worth 4 that a frame was lost, the one worth 8 the failsafe. */
  lemma FlagBits(flags: bv8)
    ensures Lost(flags) <==> flags & 4 != 0
    ensures Failsafe(flags) <==> flags & 8 != 0
  {
  }

  /** What is reported for 25 bytes taken for a frame. */
  lemma DeliverMeaning(cfg: Config, w: seq<bv8>)
    requires |w| >= BUFFLEN
    ensures w[23] & 4 != 0 ==> Deliver(cfg, w) == if cfg.hasErrorCb then [ErrorCb(LOST_FRAME)] else []
    ensures w[23] & 4 == 0 && w[23] & 8 != 0 ==> Deliver(cfg, w) == if cfg.hasErrorCb then [ErrorCb(FAILSAFE)] else []
    ensures w[23] & 4 == 0 && w[23] & 8 == 0 ==> Deliver(cfg, w) == if cfg.hasFrameCb then [FrameCb(Decode(w))] else []
    ensures LooksLikeFrame(w) <==> w[0] == 0x0F && w[24] == 0
  {
    FlagBits(w[23]);
    hide Lost, Failsafe, Decode;
  }

  /** The frame with its channels cut to 11 bits. */
  function Cut(f: Frame): Frame {
    Frame(seq(|f.channel|, k requires 0 <= k < |f.channel| => Low11(f.channel[k])), f.flags)
  }

  /** Decoding gives back what was encoded; channels below 2048 are unchanged. */
  lemma DecodeEncode(f: Frame)
    requires |f.channel| == 16
    ensures Decode(Encode(f)) == Cut(f)
  {
    hide DecodeHalf, EncodeHalf, Low11;
    var e := Encode(f);
    assert e[1..12] == EncodeHalf(f.channel[..8]) && e[12..23] == EncodeHalf(f.channel[8..]);
    DecodeEncodeHalf(f.channel[..8]);
    DecodeEncodeHalf(f.channel[8..]);
    var d := Decode(e);
    forall k | 0 <= k < 16
      ensures d.channel[k] == Low11(f.channel[k])
    {
      if k < 8 {
        assert d.channel[k] == DecodeHalf(e[1..12])[k];
      } else {
        assert d.channel[k] == DecodeHalf(e[12..23])[k - 8];
      }
    }
  }

  /** And every 25 bytes with the right first and last byte are the code of what they decode to. */
  lemma EncodeDecode(src: seq<bv8>)
    requires |src| == BUFFLEN && src[0] == START && src[24] == END
    ensures Encode(Decode(src)) == src
  {
    hide DecodeHalf, EncodeHalf;
    var f := Decode(src);
    assert f.channel[..8] == DecodeHalf(src[1..12]) && f.channel[8..] == DecodeHalf(src[12..23]);
    EncodeDecodeHalf(src[1..12]);
    EncodeDecodeHalf(src[12..23]);
    assert src == [START] + src[1..12] + src[12..23] + [src[23], END];
  }

  lemma CutIsIdentity(f: Frame)
    requires forall k :: 0 <= k < |f.channel| ==> f.channel[k] < 2048
    ensures Cut(f) == f
  {
    forall k | 0 <= k < |f.channel|
      ensures Low11(f.channel[k]) == f.channel[k]
    {
      Below2048(f.channel[k]);
    }
  }

  lemma Below2048(x: bv16)
    requires x < 2048
    ensures Low11(x) == x
  {
  }

  // ---------- the scan of a whole stream ----------

  /** Outcome of a scan: the calls made, the bytes still waiting, frames consumed and bytes skipped. */
  datatype Scanned = Scanned(calls: seq<Call>, pending: seq<bv8>, frames: nat, skipped: nat)

  function Report(cfg: Config, err: Error): seq<Call> {
    if cfg.hasErrorCb then [ErrorCb(err)] else []
  }

  /** The call made for the 25 bytes at the start of w. */
  function Deliver(cfg: Config, w: seq<bv8>): seq<Call>
    requires |w| >= BUFFLEN
  {
    if Lost(w[FLAGS_BYTE]) then Report(cfg, LOST_FRAME)
    else if Failsafe(w[FLAGS_BYTE]) then Report(cfg, FAILSAFE)
    else if cfg.hasFrameCb then [FrameCb(Decode(w))] else []
  }

  /** 0x0F and, 24 bytes further, 0x00: taken for a frame. */
  predicate LooksLikeFrame(w: seq<bv8>)
    requires |w| >= BUFFLEN
  {
    w[0] == START && w[24] == END
  }

  function Skip(cfg: Config, b: bv8): seq<Call> {
    if b == START then Report(cfg, MALFORMED_FRAME) else []
  }

  function Scan(cfg: Config, s: seq<bv8>): Scanned {
    if |s| < BUFFLEN then Scanned([], s, 0, 0)
    else if LooksLikeFrame(s) then
      var rest := Scan(cfg, s[BUFFLEN..]);
      Scanned(Deliver(cfg, s) + rest.calls, rest.pending, rest.frames + 1, rest.skipped)
    else
      var rest := Scan(cfg, s[1..]);
      Scanned(Skip(cfg, s[0]) + rest.calls, rest.pending, rest.frames, rest.skipped + 1)
  }

  /** Bytes in are bytes in frames, bytes skipped and bytes pending; at most 24 are pending. */
  lemma {:induction false} ScanConserves(cfg: Config, s: seq<bv8>)
    ensures var r := Scan(cfg, s); |s| == BUFFLEN * r.frames + r.skipped + |r.pending| && |r.pending| < BUFFLEN
    ensures var r := Scan(cfg, s); r.pending == s[|s| - |r.pending|..]
    decreases |s|
  {
    if |s| >= BUFFLEN {
      ScanConserves(cfg, if LooksLikeFrame(s) then s[BUFFLEN..] else s[1..]);
    }
  }

  /** Scanning in two slices is scanning at once. */
  lemma {:induction false} ScanInSlices(cfg: Config, a: seq<bv8>, b: seq<bv8>)
    ensures var first, all := Scan(cfg, a), Scan(cfg, a + b);
            var second := Scan(cfg, first.pending + b);
            all == Scanned(first.calls + second.calls, second.pending,
                           first.frames + second.frames, first.skipped + second.skipped)
    decreases |a|
  {
    hide Scan, Due, Advance;
    if |a| >= BUFFLEN {
      var n := Advance(a);
      DueIsLocal(cfg, a, b);
      ScanStep(cfg, a);
      ScanStep(cfg, a + b);
      assert (a + b)[n..] == a[n..] + b;
      ScanInSlices(cfg, a[n..], b);
    } else {
      ScanPending(cfg, a);
    }
  }

  lemma DueIsLocal(cfg: Config, a: seq<bv8>, b: seq<bv8>)
    requires |a| >= BUFFLEN
    ensures Due(cfg, a + b) == Due(cfg, a) && Advance(a + b) == Advance(a)
  {
    DeliverLocal(cfg, a, b);
    hide Deliver, Skip;
  }

  lemma DeliverLocal(cfg: Config, a: seq<bv8>, b: seq<bv8>)
    requires |a| >= BUFFLEN
    ensures Deliver(cfg, a + b) == Deliver(cfg, a)
  {
    hide DecodeHalf;
    assert (a + b)[1..12] == a[1..12] && (a + b)[12..23] == a[12..23];
  }

  // ---------- sent frames are received ----------

  function EncodeAll(frames: seq<Frame>): seq<bv8>
    requires forall k :: 0 <= k < |frames| ==> |frames[k].channel| == 16
  {
    if frames == [] then [] else Encode(frames[0]) + EncodeAll(frames[1..])
  }

  /** What the receiver owes its user for a frame that was sent. */
  function Expected(cfg: Config, f: Frame): seq<Call> {
    if Lost(f.flags) then Report(cfg, LOST_FRAME)
    else if Failsafe(f.flags) then Report(cfg, FAILSAFE)
    else if cfg.hasFrameCb then [FrameCb(Cut(f))] else []
  }

  function ExpectedAll(cfg: Config, frames: seq<Frame>): seq<Call> {
    if frames == [] then [] else Expected(cfg, frames[0]) + ExpectedAll(cfg, frames[1..])
  }

  lemma {:induction false} FramesReceived(cfg: Config, frames: seq<Frame>)
    requires forall k :: 0 <= k < |frames| ==> |frames[k].channel| == 16
    ensures Scan(cfg, EncodeAll(frames)) == Scanned(ExpectedAll(cfg, frames), [], |frames|, 0)
  {
    if frames != [] {
      hide Encode, Lost, Failsafe, Decode;
      var e, rest := Encode(frames[0]), EncodeAll(frames[1..]);
      FramesReceived(cfg, frames[1..]);
      DecodeEncode(frames[0]);
      DeliverLocal(cfg, e, rest);
      assert (e + rest)[BUFFLEN..] == rest;
    }
  }

  /** One report for every stray start byte. */
  function Strays(cfg: Config, noise: seq<bv8>): seq<Call> {
    if noise == [] then [] else Skip(cfg, noise[0]) + Strays(cfg, noise[1..])
  }

  /** No byte of the noise looks like the start of a frame. */
  ghost predicate NoFalseFrame(noise: seq<bv8>, sent: seq<bv8>) {
    forall i :: 0 <= i < |noise| && i + 24 < |noise + sent| ==> !((noise + sent)[i] == START && (noise + sent)[i + 24] == END)
  }

  lemma NoiseSkipped(cfg: Config, noise: seq<bv8>, sent: seq<bv8>)
    requires noise != [] && |sent| >= BUFFLEN && NoFalseFrame(noise, sent)
    ensures NoFalseFrame(noise[1..], sent)
    ensures var r := Scan(cfg, noise[1..] + sent);
            Scan(cfg, noise + sent) == Scanned(Skip(cfg, noise[0]) + r.calls, r.pending, r.frames, r.skipped + 1)
  {
    var s, rest := noise + sent, noise[1..] + sent;
    assert s[1..] == rest;
    ScanSkips(cfg, s);
    hide Scan, Skip;
    forall i | 0 <= i < |noise[1..]| && i + 24 < |rest|
      ensures !(rest[i] == START && rest[i + 24] == END)
    {
      assert s[i + 1] == rest[i] && s[i + 1 + 24] == rest[i + 24];
    }
  }

  /** Bytes before the first frame are skipped as long as none of them, with the byte 24 further on, looks
      like a frame; then every frame sent is received, in order, and nothing is left over. */
  lemma {:induction false} StreamReceived(cfg: Config, noise: seq<bv8>, frames: seq<Frame>)
    requires frames != [] && forall k :: 0 <= k < |frames| ==> |frames[k].channel| == 16
    requires NoFalseFrame(noise, EncodeAll(frames))
    ensures Scan(cfg, noise + EncodeAll(frames))
         == Scanned(Strays(cfg, noise) + ExpectedAll(cfg, frames), [], |frames|, |noise|)
  {
    var sent := EncodeAll(frames);
    hide Encode, Skip, ExpectedAll, Deliver, Scan, NoFalseFrame, EncodeAll, Strays;
    AtLeastOneFrame(frames);
    if noise == [] {
      assert noise + sent == sent;
      FramesReceived(cfg, frames);
      NoStrays(cfg, noise);
      assert [] + ExpectedAll(cfg, frames) == ExpectedAll(cfg, frames);
    } else {
      NoiseSkipped(cfg, noise, sent);
      StreamReceived(cfg, noise[1..], frames);
      FirstStray(cfg, noise, ExpectedAll(cfg, frames));
    }
  }

  lemma FirstStray(cfg: Config, noise: seq<bv8>, calls: seq<Call>)
    requires noise != []
    ensures Strays(cfg, noise) + calls == Skip(cfg, noise[0]) + (Strays(cfg, noise[1..]) + calls)
  {
    hide Skip;
  }

  lemma AtLeastOneFrame(frames: seq<Frame>)
    requires frames != [] && forall k :: 0 <= k < |frames| ==> |frames[k].channel| == 16
    ensures |EncodeAll(frames)| >= BUFFLEN
  {
  }

  /** A clean stream: frames of 11-bit channels with the two error flags clear, after any bytes other than
      0x0F, reach the frame callback unchanged, in order, with no error reported. */
  lemma CleanStreamReceived(cfg: Config, noise: seq<bv8>, frames: seq<Frame>)
    requires frames != [] && forall k :: 0 <= k < |frames| ==> |frames[k].channel| == 16
    requires cfg.hasFrameCb && START !in noise
    requires forall k, i :: 0 <= k < |frames| && 0 <= i < 16 ==> frames[k].channel[i] < 2048
    requires forall k :: 0 <= k < |frames| ==> !Lost(frames[k].flags) && !Failsafe(frames[k].flags)
    ensures Scan(cfg, noise + EncodeAll(frames)).calls == seq(|frames|, k requires 0 <= k < |frames| => FrameCb(frames[k]))
  {
    StreamReceived(cfg, noise, frames);
    NoStrays(cfg, noise);
    AllDelivered(cfg, frames);
  }

  function Concat(slices: seq<seq<bv8>>): seq<bv8> {
    if slices == [] then [] else slices[0] + Concat(slices[1..])
  }

  /** Slices fed one after the other, pending being the bytes that wait at the start: what every call of sbusRxCb
      does with its slice. */
  function ScanSlices(cfg: Config, pending: seq<bv8>, slices: seq<seq<bv8>>): Scanned
    decreases |slices|
  {
    if slices == [] then Scanned([], pending, 0, 0)
    else
      var first := Scan(cfg, pending + slices[0]);
      var later := ScanSlices(cfg, first.pending, slices[1..]);
      Scanned(first.calls + later.calls, later.pending, first.frames + later.frames, first.skipped + later.skipped)
  }

  lemma {:induction false} SlicesAreOneStream(cfg: Config, pending: seq<bv8>, slices: seq<seq<bv8>>)
    requires |pending| < BUFFLEN
    ensures ScanSlices(cfg, pending, slices) == Scan(cfg, pending + Concat(slices))
    decreases |slices|
  {
    hide Scan;
    if slices == [] {
      ScanPending(cfg, pending);
      assert pending + [] == pending;
    } else {
      var a, b := pending + slices[0], Concat(slices[1..]);
      assert pending + Concat(slices) == a + b;
      ScanInSlices(cfg, a, b);
      ScanConserves(cfg, a);
      SlicesAreOneStream(cfg, Scan(cfg, a).pending, slices[1..]);
    }
  }

  /** However a clean stream is cut into slices, the calls made are one for each frame, in order, and nothing is
      left waiting. */
  lemma CleanSlicesReceived(cfg: Config, slices: seq<seq<bv8>>, noise: seq<bv8>, frames: seq<Frame>)
    requires frames != [] && forall k :: 0 <= k < |frames| ==> |frames[k].channel| == 16
    requires cfg.hasFrameCb && START !in noise
    requires forall k, i :: 0 <= k < |frames| && 0 <= i < 16 ==> frames[k].channel[i] < 2048
    requires forall k :: 0 <= k < |frames| ==> !Lost(frames[k].flags) && !Failsafe(frames[k].flags)
    requires Concat(slices) == noise + EncodeAll(frames)
    ensures ScanSlices(cfg, [], slices) ==
            Scanned(seq(|frames|, k requires 0 <= k < |frames| => FrameCb(frames[k])), [], |frames|, |noise|)
  {
    SlicesAreOneStream(cfg, [], slices);
    assert [] + Concat(slices) == Concat(slices);
    CleanStreamReceived(cfg, noise, frames);
    NoFalseStart(noise, EncodeAll(frames));
    StreamReceived(cfg, noise, frames);
    hide Scan, ScanSlices, EncodeAll, Strays, ExpectedAll, Lost, Failsafe;
  }

  lemma NoFalseStart(noise: seq<bv8>, sent: seq<bv8>)
    requires START !in noise
    ensures NoFalseFrame(noise, sent)
  {
  }

  lemma {:induction false} NoStrays(cfg: Config, noise: seq<bv8>)
    requires START !in noise
    ensures Strays(cfg, noise) == []
  {
    if noise != [] {
      NoStrays(cfg, noise[1..]);
    }
  }

  lemma {:induction false} AllDelivered(cfg: Config, frames: seq<Frame>)
    requires cfg.hasFrameCb && forall k :: 0 <= k < |frames| ==> |frames[k].channel| == 16
    requires forall k, i :: 0 <= k < |frames| && 0 <= i < 16 ==> frames[k].channel[i] < 2048
    requires forall k :: 0 <= k < |frames| ==> !Lost(frames[k].flags) && !Failsafe(frames[k].flags)
    ensures ExpectedAll(cfg, frames) == seq(|frames|, k requires 0 <= k < |frames| => FrameCb(frames[k]))
  {
    if frames != [] {
      hide Lost, Failsafe, Cut;
      CutIsIdentity(frames[0]);
      AllDelivered(cfg, frames[1..]);
    }
  }

  // ---------- the receiver ----------

  class Receiver {
    const cfg: Config
    const sync_buf: array<bv8>
    var sync_idx: nat
    var calls: seq<Call>        // every callback made so far

    ghost predicate Valid()
      reads this
    {
      sync_buf.Length == BUFFLEN * 2 && sync_idx < BUFFLEN
    }

    ghost function Pending(): seq<bv8>
      requires Valid()
      reads this, sync_buf
    {
      sync_buf[..sync_idx]
    }

    constructor (cfg: Config)
      ensures Valid() && fresh(sync_buf) && this.cfg == cfg
      ensures Pending() == [] && calls == []
    {
      this.cfg := cfg;
      sync_buf := new bv8[BUFFLEN * 2](_ => 0);
      sync_idx := 0;
      calls := [];
    }

    /** The first n bytes leave the buffer, and the others move to its start. */
    method Consume(n: nat)
      requires sync_buf.Length == BUFFLEN * 2 && n <= sync_idx <= sync_buf.Length
      modifies this`sync_idx, sync_buf
      ensures sync_idx == old(sync_idx) - n && sync_buf[..sync_idx] == old(sync_buf[n..sync_idx])
    {
      forall i | 0 <= i < sync_idx - n {
        sync_buf[i] := sync_buf[n + i];
      }
      sync_idx := sync_idx - n;
    }

    /** Callbacks and waiting bytes still ahead when w is in the window. */
    ghost predicate Leads(made: seq<Call>, w: seq<bv8>, total: seq<Call>, rest: seq<bv8>) {
      Scan(cfg, w).pending == rest && made + Scan(cfg, w).calls == total
    }

    lemma LeadsOn(made: seq<Call>, w: seq<bv8>, total: seq<Call>, rest: seq<bv8>)
      requires |w| >= BUFFLEN && Leads(made, w, total, rest)
      ensures Leads(made + Due(cfg, w), w[Advance(w)..], total, rest)
    {
      hide Scan, Due, Advance;
      ScanStep(cfg, w);
      assert made + (Due(cfg, w) + Scan(cfg, w[Advance(w)..]).calls)
          == made + Due(cfg, w) + Scan(cfg, w[Advance(w)..]).calls;
    }

    /** One turn of the inner loop of sbusRxCb. */
    method Turn(ghost total: seq<Call>, ghost rest: seq<bv8>)
      requires sync_buf.Length == BUFFLEN * 2 && BUFFLEN <= sync_idx <= sync_buf.Length
      requires Leads(calls, sync_buf[..sync_idx], total, rest)
      modifies this`sync_idx, this`calls, sync_buf
      ensures sync_idx < old(sync_idx)
      ensures Leads(calls, sync_buf[..sync_idx], total, rest)
    {
      hide Scan, Leads, Due, Advance;
      ghost var window := sync_buf[..sync_idx];
      LeadsOn(calls, window, total, rest);
      var n := Dispatch();
      Consume(n);
      assert sync_buf[..sync_idx] == window[n..];
    }

    /** The callback due for the window, and how many bytes leave it. */
    method Dispatch() returns (n: nat)
      requires sync_buf.Length == BUFFLEN * 2 && BUFFLEN <= sync_idx <= sync_buf.Length
      modifies this`calls
      ensures calls == old(calls) + Due(cfg, sync_buf[..sync_idx])
      ensures n == Advance(sync_buf[..sync_idx]) && n > 0
    {
      LooksAt(sync_buf[..sync_idx]);
      hide Deliver, LooksLikeFrame;
      n := 1;
      if sync_buf[0] == START {
        if sync_buf[BUFFLEN - 1] == END {
          calls := calls + Deliver(cfg, sync_buf[..sync_idx]);
          n := BUFFLEN;
        } else {
          calls := calls + Report(cfg, MALFORMED_FRAME);
        }
      }
    }

    /** The inner loop of sbusRxCb. */
    method Drain()
      requires sync_buf.Length == BUFFLEN * 2 && sync_idx <= sync_buf.Length
      modifies this`sync_idx, this`calls, sync_buf
      ensures Valid()
      ensures var r := Scan(cfg, old(sync_buf[..sync_idx])); Pending() == r.pending && calls == old(calls) + r.calls
    {
      ghost var r := Scan(cfg, sync_buf[..sync_idx]);
      while sync_idx >= BUFFLEN
        invariant sync_idx <= sync_buf.Length
        invariant Leads(calls, sync_buf[..sync_idx], old(calls) + r.calls, r.pending)
        decreases sync_idx
      {
        Turn(old(calls) + r.calls, r.pending);
      }
      ScanPending(cfg, Pending());
      assert calls + [] == calls;
    }

    /** Appends one byte, or empties a full buffer.  Since the inner loop runs after every byte, sbusRxCb
        always finds room. */
    method Push(byte: bv8)
      requires sync_idx <= sync_buf.Length
      modifies this`sync_idx, sync_buf
      ensures if old(sync_idx) < sync_buf.Length
              then sync_idx == old(sync_idx) + 1 && sync_buf[..sync_idx] == old(sync_buf[..sync_idx]) + [byte]
              else sync_idx == 0
    {
      if sync_idx < sync_buf.Length {
        sync_buf[sync_idx] := byte;
        sync_idx := sync_idx + 1;
      } else {
        sync_idx := 0;
      }
    }

    /** The body of the outer loop of sbusRxCb. */
    method Receive(byte: bv8, ghost stream: seq<bv8>, ghost made: seq<Call>)
      requires Received(stream, made)
      modifies this`sync_idx, this`calls, sync_buf
      ensures Received(stream + [byte], made)
    {
      hide Scan;
      Push(byte);
      Drain();
      ScanInSlices(cfg, stream, [byte]);
    }

    /** sbusRxCb */
    method RxCb(slice: seq<bv8>)
      requires Valid()
      modifies this`sync_idx, this`calls, sync_buf
      ensures Valid()
      ensures var r := Scan(cfg, old(Pending()) + slice); Pending() == r.pending && calls == old(calls) + r.calls
    {
      hide Scan;
      ghost var before, made := Pending(), calls;
      Started(made);
      for k := 0 to |slice|
        invariant Received(before + slice[..k], made)
      {
        Receive(slice[k], before + slice[..k], made);
        assert before + slice[..k] + [slice[k]] == before + slice[..k + 1];
      }
      assert slice[..|slice|] == slice;
    }

    /** The thread that receives: sbusRxCb is called for one slice after the other. */
    method ReceiveSlices(slices: seq<seq<bv8>>)
      requires Valid()
      modifies this`sync_idx, this`calls, sync_buf
      ensures Valid()
      ensures var r := ScanSlices(cfg, old(Pending()), slices); Pending() == r.pending && calls == old(calls) + r.calls
    {
      hide Scan;
      ghost var r := ScanSlices(cfg, Pending(), slices);
      ghost var calls0 := calls;
      for i := 0 to |slices|
        invariant Valid()
        invariant ScanSlices(cfg, Pending(), slices[i..]).pending == r.pending
        invariant calls + ScanSlices(cfg, Pending(), slices[i..]).calls == calls0 + r.calls
      {
        assert slices[i..][1..] == slices[i + 1..];
        RxCb(slices[i]);
      }
    }

    /** State after the bytes of stream, with the callbacks made before it. */
    ghost predicate Received(stream: seq<bv8>, made: seq<Call>)
      reads this, sync_buf
    {
      Valid() && Pending() == Scan(cfg, stream).pending && calls == made + Scan(cfg, stream).calls
    }

    lemma Started(made: seq<Call>)
      requires Valid() && made == calls
      ensures Received(Pending() + [], made)
    {
      assert Pending() + [] == Pending();
      ScanPending(cfg, Pending());
    }
  }

  lemma ScanPending(cfg: Config, s: seq<bv8>)
    requires |s| < BUFFLEN
    ensures Scan(cfg, s) == Scanned([], s, 0, 0)
  {
  }

  lemma LooksAt(w: seq<bv8>)
    requires |w| >= BUFFLEN
    ensures LooksLikeFrame(w) <==> w[0] == START && w[24] == END
  {
  }

  /** The call due for the window, and how far it moves. */
  function Due(cfg: Config, w: seq<bv8>): seq<Call>
    requires |w| >= BUFFLEN
  {
    if LooksLikeFrame(w) then Deliver(cfg, w) else Skip(cfg, w[0])
  }

  function Advance(w: seq<bv8>): (n: nat)
    requires |w| >= BUFFLEN
    ensures 0 < n <= |w|
  {
    if LooksLikeFrame(w) then BUFFLEN else 1
  }

  lemma ScanStep(cfg: Config, s: seq<bv8>)
    requires |s| >= BUFFLEN
    ensures var r := Scan(cfg, s[Advance(s)..]);
            Scan(cfg, s) == if Advance(s) == BUFFLEN then Scanned(Due(cfg, s) + r.calls, r.pending, r.frames + 1, r.skipped)
                            else Scanned(Due(cfg, s) + r.calls, r.pending, r.frames, r.skipped + 1)
  {
    hide Deliver, Skip;
  }

  lemma ScanSkips(cfg: Config, s: seq<bv8>)
    requires |s| >= BUFFLEN && !(s[0] == START && s[24] == END)
    ensures var r := Scan(cfg, s[1..]);
            Scan(cfg, s) == Scanned(Skip(cfg, s[0]) + r.calls, r.pending, r.frames, r.skipped + 1)
  {
    LooksAt(s);
    hide Deliver, Skip, LooksLikeFrame;
  }
}
