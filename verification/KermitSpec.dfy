/**
  The Kermit receiver of `cmd_load.c` over whole frames: a checkpoint taken at
  each new sequence number, restored on a repeated one or on an error, and
  payload written to memory as it arrives.

  The reference for what a trace of frames means does not mention checkpoints:
  it groups the trace into maximal runs of equal sequence numbers and takes
  the last frame of each run.
 */
module KermitSpec {
  import opened KermitData

  const DATA_TYPE: Byte := 0x44
  const SEND_TYPE: Byte := 0x53
  const BREAK_TYPE: Byte := 0x42
  const K_ESCAPE: Byte := 0x23

  /** A frame whose length and sequence characters arrived: sequence number, type, payload characters
      seen, and whether the rest of the frame (checksum and end character) was right. */
  datatype Frame = Frame(n: nat, kind: Byte, payload: seq<Byte>, good: bool)

  predicate CarriesData(f: Frame) {
    f.good && f.kind == DATA_TYPE
  }

  // ---- reference: runs of equal sequence numbers ----

  /** Start of the last maximal run. */
  function RunStart(fs: seq<Frame>): (i: nat)
    requires fs != []
    ensures i < |fs|
  {
    if |fs| == 1 || fs[|fs| - 2].n != fs[|fs| - 1].n then |fs| - 1
    else RunStart(fs[..|fs| - 1])
  }

  /** The run really is maximal. */
  lemma {:induction false} RunStartIsMaximal(fs: seq<Frame>)
    requires fs != []
    ensures forall j :: RunStart(fs) <= j < |fs| ==> fs[j].n == fs[|fs| - 1].n
    ensures RunStart(fs) > 0 ==> fs[RunStart(fs) - 1].n != fs[|fs| - 1].n
  {
    if !(|fs| == 1 || fs[|fs| - 2].n != fs[|fs| - 1].n) {
      RunStartIsMaximal(fs[..|fs| - 1]);
    }
  }

  /** Prefix character negotiated by a send-initiate frame. */
  function QuoteOf(parms: seq<Byte>): Byte {
    if |parms| >= 6 then parms[5] else K_ESCAPE
  }

  /** Prefix character in force after the frames. */
  function QuoteAfter(fs: seq<Frame>): Byte {
    if fs == [] then K_ESCAPE
    else
      var last := fs[|fs| - 1];
      if last.good && last.kind == SEND_TYPE then QuoteOf(last.payload)
      else QuoteAfter(fs[..|fs| - 1])
  }

  /** What the trace delivers: run by run, the decoded payload of the run's last frame when that is a good
      data frame, and nothing otherwise. */
  function Delivered(fs: seq<Frame>): Decoded {
    if fs == [] then START
    else
      var done := Delivered(fs[..RunStart(fs)]);
      var last := fs[|fs| - 1];
      if CarriesData(last) then Feed(done, QuoteAfter(fs[..|fs| - 1]), last.payload) else done
  }

  // ---- the receiver ----

  datatype Rx = Rx(
    mem: seq<Byte>,          // memory from the load address up
    addr: nat,               // next byte to write
    escape: bool,
    savedAddr: nat,
    savedEscape: bool,
    quote: Byte,
    lastN: int,
    done: bool)

  const INIT := Rx([], 0, false, 0, false, K_ESCAPE, -1, false)

  ghost predicate Inv(s: Rx) {
    s.savedAddr <= s.addr <= |s.mem|
  }

  function Store(mem: seq<Byte>, addr: nat, c: Byte): seq<Byte>
    requires addr <= |mem|
  {
    if addr < |mem| then mem[addr := c] else mem + [c]
  }

  function Restore(s: Rx): Rx {
    s.(addr := s.savedAddr, escape := s.savedEscape)
  }

  function Checkpoint(s: Rx, n: nat): Rx {
    if n == s.lastN then Restore(s)
    else s.(lastN := n, savedAddr := s.addr, savedEscape := s.escape)
  }

  /** One payload character, written to memory in real time. */
  function PutChar(s: Rx, c: Byte): (r: Rx)
    requires Inv(s)
    ensures Inv(r)
  {
    if s.escape then s.(mem := Store(s.mem, s.addr, KTrans(c)), addr := s.addr + 1, escape := false)
    else if c == s.quote then s.(escape := true)
    else s.(mem := Store(s.mem, s.addr, c), addr := s.addr + 1)
  }

  function PutText(s: Rx, text: seq<Byte>): (r: Rx)
    requires Inv(s)
    ensures Inv(r)
  {
    if text == [] then s else PutChar(PutText(s, text[..|text| - 1]), text[|text| - 1])
  }

  function Receive(s: Rx, f: Frame): (r: Rx)
    requires Inv(s)
    ensures Inv(r)
  {
    var s1 := Checkpoint(s, f.n);
    var s2 := if f.kind == DATA_TYPE then PutText(s1, f.payload) else s1;
    if !f.good then PutTextFrame(s1, f.payload); Restore(s2)
    else if f.kind == SEND_TYPE then s2.(quote := QuoteOf(f.payload))
    else if f.kind == BREAK_TYPE then s2.(done := true)
    else s2
  }

  function ReceiveAll(fs: seq<Frame>): (r: Rx)
    ensures Inv(r)
  {
    if fs == [] then INIT else Receive(ReceiveAll(fs[..|fs| - 1]), fs[|fs| - 1])
  }

  /** Decoder state read back from memory. */
  function View(s: Rx): Decoded
    requires Inv(s)
  {
    Decoded(s.escape, s.mem[..s.addr])
  }

  function SavedView(s: Rx): Decoded
    requires Inv(s)
  {
    Decoded(s.savedEscape, s.mem[..s.savedAddr])
  }

  lemma PutCharView(s: Rx, c: Byte)
    requires Inv(s)
    ensures View(PutChar(s, c)) == DataChar(View(s), s.quote, c)
    ensures SavedView(PutChar(s, c)) == SavedView(s)
  {
    var r := PutChar(s, c);
    if r.addr > s.addr {
      assert r.mem[..r.addr] == s.mem[..s.addr] + [r.mem[s.addr]];
      assert r.mem[..s.savedAddr] == s.mem[..s.savedAddr];
    }
  }

  /** Receiving payload decodes it behind the current image and leaves the checkpoint alone. */
  lemma {:induction false} PutTextFrame(s: Rx, text: seq<Byte>)
    requires Inv(s)
    ensures var r := PutText(s, text);
            && View(r) == Feed(View(s), s.quote, text)
            && SavedView(r) == SavedView(s)
            && r.savedAddr == s.savedAddr && r.savedEscape == s.savedEscape
            && r.quote == s.quote && r.lastN == s.lastN && r.done == s.done
  {
    if text != [] {
      var init := text[..|text| - 1];
      PutTextFrame(s, init);
      PutCharView(PutText(s, init), text[|text| - 1]);
    }
  }

  /** Bytes below the checkpoint in force during a frame are never rewritten, and checkpoints only advance. */
  lemma BelowCheckpointKept(s: Rx, f: Frame)
    requires Inv(s)
    ensures var cp := Checkpoint(s, f.n).savedAddr;
            && s.savedAddr <= cp <= |s.mem| && cp <= |Receive(s, f).mem|
            && Receive(s, f).mem[..cp] == s.mem[..cp]
            && Receive(s, f).savedAddr == cp
  {
    var s1 := Checkpoint(s, f.n);
    ReceiveMem(s, f);
    if f.kind == DATA_TYPE {
      SavedKept(s1, f.payload);
    }
  }

  lemma ReceiveMem(s: Rx, f: Frame)
    requires Inv(s)
    ensures var s1 := Checkpoint(s, f.n);
            var s2 := if f.kind == DATA_TYPE then PutText(s1, f.payload) else s1;
            Receive(s, f).mem == s2.mem && Receive(s, f).savedAddr == s2.savedAddr
  {
  }

  lemma SavedKept(s: Rx, text: seq<Byte>)
    requires Inv(s)
    ensures var r := PutText(s, text);
            r.savedAddr == s.savedAddr <= |r.mem| && r.mem[..s.savedAddr] == s.mem[..s.savedAddr]
  {
    PutTextFrame(s, text);
    assert SavedView(PutText(s, text)).out == SavedView(s).out;
  }

  // ---- the receiver meets the reference ----

  lemma RunStartSnoc(fs: seq<Frame>, f: Frame)
    requires fs != []
    ensures RunStart(fs + [f]) == if fs[|fs| - 1].n == f.n then RunStart(fs) else |fs|
  {
    assert (fs + [f])[..|fs|] == fs;
  }

  /** State after a trace: the image is what the trace delivers, the checkpoint what its completed runs deliver. */
  lemma {:induction false} ReceiverCorrect(fs: seq<Frame>)
    ensures var s := ReceiveAll(fs);
            && View(s) == Delivered(fs)
            && s.quote == QuoteAfter(fs)
            && s.lastN == (if fs == [] then -1 else fs[|fs| - 1].n)
            && (fs != [] ==> SavedView(s) == Delivered(fs[..RunStart(fs)]))
  {
    if fs != [] {
      var init, f := fs[..|fs| - 1], fs[|fs| - 1];
      var s := ReceiveAll(init);
      ReceiverCorrect(init);
      assert ReceiveAll(fs) == Receive(s, f);
      assert fs == init + [f];
      CompletedRuns(init, f);
      CheckpointView(init, f, s);
      ReceiveView(s, f);
      hide Receive, ReceiveAll, RunStart, Feed, View, SavedView, Checkpoint;
    }
  }

  /** The frames of the completed runs, one frame further. */
  lemma CompletedRuns(init: seq<Frame>, f: Frame)
    ensures (init + [f])[..RunStart(init + [f])] == Completed(init, f)
  {
    if init == [] {
      assert init + [f] == [f] && RunStart([f]) == 0;
    } else {
      RunStartSnoc(init, f);
      hide RunStart;
      PrefixOfInit(init, f, RunStart(init));
      PrefixOfInit(init, f, |init|);
    }
  }

  lemma PrefixOfInit(init: seq<Frame>, f: Frame, k: nat)
    requires k <= |init|
    ensures (init + [f])[..k] == init[..k] && init[..|init|] == init
  {
  }

  function Completed(init: seq<Frame>, f: Frame): seq<Frame> {
    if init == [] then [] else if init[|init| - 1].n == f.n then init[..RunStart(init)] else init
  }

  /** The checkpoint taken or restored for a frame holds what the completed runs deliver. */
  lemma CheckpointView(init: seq<Frame>, f: Frame, s: Rx)
    requires Inv(s) && View(s) == Delivered(init) && s.lastN == (if init == [] then -1 else init[|init| - 1].n)
    requires init != [] ==> SavedView(s) == Delivered(init[..RunStart(init)])
    ensures var s1 := Checkpoint(s, f.n); Inv(s1) && View(s1) == SavedView(s1) == Delivered(Completed(init, f))
  {
    hide Delivered, RunStart;
  }

  /** What a frame adds to the image that its checkpoint holds. */
  lemma ReceiveView(s: Rx, f: Frame)
    requires Inv(s) && View(Checkpoint(s, f.n)) == SavedView(Checkpoint(s, f.n))
    ensures var r, before := Receive(s, f), View(Checkpoint(s, f.n));
            && View(r) == (if CarriesData(f) then Feed(before, s.quote, f.payload) else before)
            && SavedView(r) == before
            && r.quote == (if f.good && f.kind == SEND_TYPE then QuoteOf(f.payload) else s.quote)
            && r.lastN == f.n
  {
    hide Feed, PutText, QuoteOf, View, SavedView, Checkpoint;
    var s1 := Checkpoint(s, f.n);
    CheckpointFields(s, f.n);
    PutTextFrame(s1, f.payload);
    var s2 := if f.kind == DATA_TYPE then PutText(s1, f.payload) else s1;
    RestoreView(s2);
    SameView(s2, Receive(s, f));
  }

  lemma CheckpointFields(s: Rx, n: nat)
    requires Inv(s)
    ensures Inv(Checkpoint(s, n)) && Checkpoint(s, n).quote == s.quote && Checkpoint(s, n).lastN == n
  {
  }

  lemma RestoreView(s: Rx)
    requires Inv(s)
    ensures View(Restore(s)) == SavedView(s) && SavedView(Restore(s)) == SavedView(s)
  {
  }

  /** The views depend on memory, addresses and prefix states alone. */
  lemma SameView(s: Rx, r: Rx)
    requires Inv(s) && Inv(r)
    ensures r.mem == s.mem && r.addr == s.addr && r.escape == s.escape ==> View(r) == View(s)
    ensures r.mem == s.mem && r.savedAddr == s.savedAddr && r.savedEscape == s.savedEscape ==> SavedView(r) == SavedView(s)
  {
  }

  // ---- header errors ----

  /** A length or sequence character that is a control character: the code restores the checkpoint before
      it has looked at the sequence number. */
  function HeaderError(s: Rx): (r: Rx)
    requires Inv(s)
    ensures Inv(r)
  {
    Restore(s)
  }

  /** The image survives a header error exactly when the trace does not end in a non-empty good data frame. */
  lemma HeaderErrorExact(fs: seq<Frame>)
    requires fs != []
    ensures View(HeaderError(ReceiveAll(fs))) == Delivered(fs) <==>
            !(CarriesData(fs[|fs| - 1]) && fs[|fs| - 1].payload != [])
  {
    ReceiverCorrect(fs);
    var s, last := ReceiveAll(fs), fs[|fs| - 1];
    assert View(HeaderError(s)) == SavedView(s);
    FeedChanges(Delivered(fs[..RunStart(fs)]), QuoteAfter(fs[..|fs| - 1]), last.payload);
  }

  /** Concretely: one data frame, a broken header, then the next frame; the first byte is lost although it
      was acknowledged. */
  lemma HeaderErrorLosesData()
    ensures var s := ReceiveAll([Frame(1, DATA_TYPE, [0x61], true)]);
            View(s).out == [0x61] &&
            View(Receive(HeaderError(s), Frame(2, DATA_TYPE, [0x62], true))).out == [0x62]
  {
    var f, g := Frame(1, DATA_TYPE, [0x61], true), Frame(2, DATA_TYPE, [0x62], true);
    assert [f][..0] == [];
    assert ReceiveAll([f]) == Receive(INIT, f);
    OneByte(Checkpoint(INIT, 1), 0x61);
    var t := HeaderError(ReceiveAll([f]));
    OneByte(Checkpoint(t, 2), 0x62);
  }

  lemma OneByte(s: Rx, c: Byte)
    requires Inv(s) && !s.escape && c != s.quote
    ensures PutText(s, [c]) == PutChar(s, c)
    ensures View(PutText(s, [c])) == Decoded(false, s.mem[..s.addr] + [c])
  {
    assert [c][..0] == [];
    assert PutText(s, [c]) == PutChar(PutText(s, []), c);
    PutCharView(s, c);
  }

  /** What can arrive: a frame, or a packet whose length or sequence character is a control character. */
  datatype Event = Got(frame: Frame) | BadHeader

  function ReceiveEvents(es: seq<Event>): (r: Rx)
    ensures Inv(r)
  {
    if es == [] then INIT
    else
      var s, e := ReceiveEvents(es[..|es| - 1]), es[|es| - 1];
      if e.Got? then Receive(s, e.frame) else HeaderError(s)
  }

  /** The frames that the events amount to: a bad header is a corrupt frame with the number of the frame before it, and
      nothing when there was none. */
  function AsFrames(es: seq<Event>): seq<Frame> {
    if es == [] then []
    else
      var fs, e := AsFrames(es[..|es| - 1]), es[|es| - 1];
      if e.Got? then fs + [e.frame]
      else if fs == [] then []
      else fs + [Frame(fs[|fs| - 1].n, BREAK_TYPE, [], false)]
  }

  lemma HeaderErrorIsCorrupt(s: Rx)
    requires Inv(s) && s.lastN >= 0
    ensures HeaderError(s) == Receive(s, Frame(s.lastN, BREAK_TYPE, [], false))
  {
  }

  lemma {:induction false} EventsAreFrames(es: seq<Event>)
    ensures ReceiveEvents(es) == ReceiveAll(AsFrames(es))
  {
    if es != [] {
      var init, e := es[..|es| - 1], es[|es| - 1];
      EventsAreFrames(init);
      var fs := AsFrames(init);
      ReceiverCorrect(fs);
      if e.Got? {
        LastFrame(fs, e.frame);
      } else if fs != [] {
        HeaderErrorIsCorrupt(ReceiveAll(fs));
        LastFrame(fs, Frame(fs[|fs| - 1].n, BREAK_TYPE, [], false));
      }
    }
  }

  lemma LastFrame(fs: seq<Frame>, f: Frame)
    ensures ReceiveAll(fs + [f]) == Receive(ReceiveAll(fs), f)
  {
    hide Receive;
    assert (fs + [f])[..|fs|] == fs;
  }

  /** For every mixture of frames and bad headers, the image is what the events deliver when each bad header counts as a
      corrupt frame of the number before it. */
  lemma EventsDelivered(es: seq<Event>)
    ensures View(ReceiveEvents(es)) == Delivered(AsFrames(es))
    ensures ReceiveEvents(es).quote == QuoteAfter(AsFrames(es))
  {
    hide ReceiveEvents, ReceiveAll, AsFrames, Delivered;
    EventsAreFrames(es);
    ReceiverCorrect(AsFrames(es));
  }

  // ---- the end of a transfer ----

  /** A good frame of type 'B'. */
  predicate IsBreak(e: Event) {
    e.Got? && e.frame.good && e.frame.kind == 0x42
  }

  lemma ReceiveDone(s: Rx, f: Frame)
    requires Inv(s)
    ensures Receive(s, f).done <==> s.done || (f.good && f.kind == 0x42)
  {
    hide PutText;
    PutTextFrame(Checkpoint(s, f.n), f.payload);
  }

  /** The receiver is done exactly when a good frame of type 'B' has arrived. */
  lemma {:induction false} DoneExact(es: seq<Event>)
    ensures ReceiveEvents(es).done <==> exists i :: 0 <= i < |es| && IsBreak(es[i])
  {
    if es != [] {
      hide Receive, IsBreak;
      var init, e := es[..|es| - 1], es[|es| - 1];
      var s := ReceiveEvents(init);
      DoneExact(init);
      assert forall i :: 0 <= i < |init| ==> init[i] == es[i];
      LastEvent(s, e);
      if IsBreak(e) {
        assert IsBreak(es[|es| - 1]);
      }
    }
  }

  lemma LastEvent(s: Rx, e: Event)
    requires Inv(s)
    ensures (if e.Got? then Receive(s, e.frame) else HeaderError(s)).done <==> s.done || IsBreak(e)
  {
    hide Receive;
    if e.Got? {
      ReceiveDone(s, e.frame);
    }
  }

  // ---- types and prefix, in their own letters ----

  /** Data, send-initiate and break frames carry the letters D, S and B; the prefix is '#' by default. */
  lemma Letters()
    ensures DATA_TYPE as int == 'D' as int && SEND_TYPE as int == 'S' as int && BREAK_TYPE as int == 'B' as int
    ensures K_ESCAPE as int == '#' as int
  {
  }

  /** The prefix in force is the sixth parameter of the last good send-initiate frame, or '#' when there is none. */
  lemma {:induction false} PrefixExact(fs: seq<Frame>, later: seq<Frame>)
    requires forall f :: f in later ==> !(f.good && f.kind == 0x53)
    ensures fs == [] ==> QuoteAfter(fs + later) == 0x23
    ensures fs != [] && fs[|fs| - 1].good && fs[|fs| - 1].kind == 0x53 ==>
              var parms := fs[|fs| - 1].payload;
              QuoteAfter(fs + later) == if |parms| >= 6 then parms[5] else 0x23
  {
    if later == [] {
      assert fs + later == fs;
    } else {
      var n := |later| - 1;
      PrefixExact(fs, later[..n]);
      assert (fs + later)[..|fs + later| - 1] == fs + later[..n];
      assert later[n] in later;
    }
  }

  // ---- a stop-and-wait transfer ----

  /** One data packet: its number and the attempts made for it before the next number is used. */
  datatype Packet = Packet(n: nat, payload: seq<Byte>, attempts: seq<Frame>)

  /** Attempts share the sequence number; corrupt ones may look like anything, good ones are the packet
      itself (a repeat after a lost acknowledgement); the last one is good. */
  ghost predicate Sends(p: Packet) {
    && p.attempts != []
    && (forall i :: 0 <= i < |p.attempts| ==> p.attempts[i].n == p.n)
    && (forall i :: 0 <= i < |p.attempts| && p.attempts[i].good ==>
          p.attempts[i] == Frame(p.n, DATA_TYPE, p.payload, true))
    && p.attempts[|p.attempts| - 1].good
  }

  /** A transfer continuing after `fs`: neighbouring packets carry different numbers, as numbers counted
      modulo 64 do. */
  ghost predicate Transfer(fs: seq<Frame>, ps: seq<Packet>)
    decreases |ps|
  {
    ps != [] ==>
      && Sends(ps[0])
      && (fs != [] ==> fs[|fs| - 1].n != ps[0].n)
      && Transfer(fs + ps[0].attempts, ps[1..])
  }

  function Trace(ps: seq<Packet>): seq<Frame> {
    if ps == [] then [] else ps[0].attempts + Trace(ps[1..])
  }

  function Text(ps: seq<Packet>): seq<Byte> {
    if ps == [] then [] else ps[0].payload + Text(ps[1..])
  }

  /** Appending a run of one sequence number makes it the last run. */
  lemma {:induction false} RunAppended(fs: seq<Frame>, run: seq<Frame>, n: nat)
    requires run != [] && forall i :: 0 <= i < |run| ==> run[i].n == n
    requires fs != [] ==> fs[|fs| - 1].n != n
    ensures RunStart(fs + run) == |fs|
  {
    var all := fs + run;
    if |run| > 1 {
      var shorter := run[..|run| - 1];
      RunAppended(fs, shorter, n);
      assert all[..|all| - 1] == fs + shorter;
      assert all[|all| - 2] == run[|run| - 2];
    }
  }

  lemma {:induction false} QuoteKept(fs: seq<Frame>, run: seq<Frame>)
    requires forall i :: 0 <= i < |run| && run[i].good ==> run[i].kind != SEND_TYPE
    ensures QuoteAfter(fs + run) == QuoteAfter(fs)
  {
    if run == [] {
      assert fs + run == fs;
    } else {
      QuoteKept(fs, run[..|run| - 1]);
      assert (fs + run)[..|fs + run| - 1] == fs + run[..|run| - 1];
    }
  }

  /** However often a packet was repeated, it is delivered once. */
  lemma PacketDelivered(fs: seq<Frame>, p: Packet)
    requires Sends(p) && (fs != [] ==> fs[|fs| - 1].n != p.n)
    ensures Delivered(fs + p.attempts) == Feed(Delivered(fs), QuoteAfter(fs), p.payload)
    ensures QuoteAfter(fs + p.attempts) == QuoteAfter(fs)
    ensures (fs + p.attempts)[|fs + p.attempts| - 1].n == p.n
  {
    var run := p.attempts;
    var all := fs + run;
    RunAppended(fs, run, p.n);
    QuoteKept(fs, run);
    QuoteKept(fs, run[..|run| - 1]);
    assert all[..|all| - 1] == fs + run[..|run| - 1];
    assert all[..|fs|] == fs;
    assert all[|all| - 1] == run[|run| - 1];
  }

  lemma FirstPacket(fs: seq<Frame>, p: Packet, later: seq<Frame>, text: seq<Byte>)
    requires Sends(p) && (fs != [] ==> fs[|fs| - 1].n != p.n)
    requires Delivered(fs + p.attempts + later) == Feed(Delivered(fs + p.attempts), QuoteAfter(fs + p.attempts), text)
    ensures Delivered(fs + (p.attempts + later)) == Feed(Delivered(fs), QuoteAfter(fs), p.payload + text)
  {
    hide *;
    PacketDelivered(fs, p);
    FramesAssoc(fs, p.attempts, later);
    FeedConcat(Delivered(fs), QuoteAfter(fs), p.payload, text);
  }

  lemma FramesAssoc(a: seq<Frame>, b: seq<Frame>, c: seq<Frame>)
    ensures a + (b + c) == a + b + c
  {
  }

  lemma {:induction false} TransferDelivered(fs: seq<Frame>, ps: seq<Packet>)
    requires Transfer(fs, ps)
    ensures Delivered(fs + Trace(ps)) == Feed(Delivered(fs), QuoteAfter(fs), Text(ps))
    decreases |ps|
  {
    if ps == [] {
      assert fs + Trace(ps) == fs;
    } else {
      TransferDelivered(fs + ps[0].attempts, ps[1..]);
      FirstPacket(fs, ps[0], Trace(ps[1..]), Text(ps[1..]));
    }
  }

  /** End to end: after a handshake that carried no data, a file sent in any number of packets, with any
      repetition and corruption on the way, lies in memory byte for byte. */
  lemma FileArrives(fs: seq<Frame>, ps: seq<Packet>, file: seq<Byte>)
    requires Delivered(fs) == START && LegalQuote(QuoteAfter(fs))
    requires Transfer(fs, ps) && Text(ps) == Encode(QuoteAfter(fs), file)
    ensures View(ReceiveAll(fs + Trace(ps))) == Decoded(false, file)
  {
    TransferDelivered(fs, ps);
    DecodeEncode(QuoteAfter(fs), file);
    ReceiverCorrect(fs + Trace(ps));
  }

  /** A session: a good send-initiate frame names the prefix, and the file sent with it, in any packets and with any
      repetition and corruption, lies in memory byte for byte. */
  lemma SessionDelivers(n: nat, parms: seq<Byte>, ps: seq<Packet>, file: seq<Byte>)
    requires |parms| >= 6 && LegalQuote(parms[5])
    requires Transfer([Frame(n, 0x53, parms, true)], ps) && Text(ps) == Encode(parms[5], file)
    ensures View(ReceiveAll([Frame(n, 0x53, parms, true)] + Trace(ps))) == Decoded(false, file)
  {
    var fs := [Frame(n, 0x53, parms, true)];
    assert fs[..0] == [];
    assert RunStart(fs) == 0;
    assert Delivered(fs) == START;
    PrefixExact(fs, []);
    assert fs + [] == fs;
    hide *;
    FileArrives(fs, ps, file);
  }
}
