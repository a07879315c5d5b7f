/** The state machine's loop rounds and the loops proved in place are the same: whatever the host
    sends and however the tasks interleave, whenever mux_rx_task is idle its buffers and packets are
    those of FwDemux and H4 fed with the chunks it received. */
module RxLoops {
  import opened Bytes
  import opened MuxWire
  import opened FwDemux
  import opened H4
  import opened HostToController

  /** Every packet that has come out of the reassembler. */
  function Total(s: State): seq<Packet> {
    s.sent + Held(s.ctrl) + s.queue
  }

  /** The reassembler once it is through with what it has accumulated. */
  function Reassembling(s: State): Bt {
    if s.rx.Feeding? then Bt(Reassemble(s.h4).rest, Total(s) + Reassemble(s.h4).packets)
    else Bt(s.h4, Total(s))
  }

  /** The frame parser once it is through with what it has staged. */
  function Parsing(s: State): Demuxed {
    if s.rx.Idle? then Demuxed([], s.staging) else Demux(s.staging)
  }

  /** What mux_rx_task will have staged and reassembled when it is idle again. */
  function Settled(s: State): (seq<Byte>, Bt) {
    (Parsing(s).rest, Feeds(Reassembling(s), Payloads(Parsing(s).frames, BT)))
  }

  // ---- one round ----------------------------------------------------------------------------

  /** One round of the frame loop: the end of Demux, or its next frame. */
  lemma DemuxRound(s: State)
    requires s.rx.Demuxing?
    ensures var s' := DemuxNext(s);
            && s' == s.(rx := s'.rx, staging := s'.staging, h4 := s'.h4)
            && (s'.rx.Idle? ==> Demux(s.staging) == Demuxed([], s'.staging) && s'.h4 == s.h4)
            && (!s'.rx.Idle? ==> exists f ::
                  && Demux(s.staging) == Demux(s'.staging).After(f)
                  && (s'.rx.Feeding? <==> f.kind == BT)
                  && s'.h4 == if f.kind == BT then Accumulate(s.h4, f.payload) else s.h4)
  {
    hide Accumulate;
    var b, s' := s.staging, DemuxNext(s);
    if !s'.rx.Idle? {
      var size := HDR_LEN + U16(b[1], b[2]) + TAIL_LEN;
      var f := Frame(b[0], b[HDR_LEN..size - TAIL_LEN]);
      assert Demux(b) == Demux(s'.staging).After(f);
    }
  }

  /** One round of the packet loop: the end of Reassemble, or its next packet. */
  lemma FeedRound(s: State)
    ensures var s' := FeedNext(s);
            && s' == s.(rx := s'.rx, h4 := s'.h4, queue := s'.queue)
            && (s'.rx.Demuxing? || s'.rx == s.rx)
            && (s'.rx.Demuxing? && s.rx.Feeding? ==> Reassemble(s.h4) == Reassembled([], s'.h4) && s'.queue == s.queue)
            && (s'.rx.Feeding? ==> exists p ::
                  Reassemble(s.h4) == Reassemble(s'.h4).After(p) && s'.queue == s.queue + [p])
  {
    hide PktLen;
    var n, s' := PktLen(s.h4), FeedNext(s);
    if s'.rx.Feeding? {
      assert Reassemble(s.h4) == Reassemble(s'.h4).After(s.h4[..n]);
    }
  }

  /** The overflow rule and the packet loop together are one call of the reassembler. */
  lemma AccumulateFeeds(b: Bt, data: seq<Byte>)
    ensures var r := Reassemble(Accumulate(b.acc, data));
            b.Feed(data) == Bt(r.rest, b.queued + r.packets)
  {
    assert Reassemble([]) == Reassembled([], []);
    assert [] + data == data && b.queued + [] == b.queued;
    hide Reassemble;
  }

  lemma SettledByDemux(s: State)
    requires s.rx.Demuxing?
    ensures Settled(DemuxNext(s)) == Settled(s)
  {
    hide DemuxNext;
    hide Demux;
    hide Reassemble;
    hide Accumulate;
    DemuxRound(s);
    var s' := DemuxNext(s);
    if !s'.rx.Idle? {
      var f :| Demux(s.staging) == Demux(s'.staging).After(f) && (s'.rx.Feeding? <==> f.kind == BT)
             && s'.h4 == if f.kind == BT then Accumulate(s.h4, f.payload) else s.h4;
      var fs := Demux(s'.staging).frames;
      NextPayload(f, fs);
      if f.kind == BT {
        AccumulateFeeds(Bt(s.h4, Total(s)), f.payload);
        FeedsNext(Bt(s.h4, Total(s)), f.payload, Payloads(fs, BT));
      }
    }
    hide Feeds;
    hide Payloads;
  }

  lemma NextPayload(f: Frame, fs: seq<Frame>)
    ensures Payloads([f] + fs, BT) == if f.kind == BT then [f.payload] + Payloads(fs, BT) else Payloads(fs, BT)
  {
    PayloadsFirst([f] + fs, BT);
    assert ([f] + fs)[1..] == fs;
    hide Payloads;
  }

  lemma FeedsNext(b: Bt, data: seq<Byte>, later: seq<seq<Byte>>)
    ensures Feeds(b, [data] + later) == Feeds(b.Feed(data), later)
  {
    assert ([data] + later)[1..] == later;
    hide Reassemble;
  }

  lemma SettledByFeed(s: State)
    requires s.rx.Feeding?
    ensures Settled(FeedNext(s)) == Settled(s)
  {
    hide FeedNext;
    hide Reassemble;
    hide Demux;
    hide Feeds;
    hide Payloads;
    FeedRound(s);
    var s' := FeedNext(s);
    if s'.rx.Feeding? {
      var p :| Reassemble(s.h4) == Reassemble(s'.h4).After(p) && s'.queue == s.queue + [p];
      Assoc(s.sent + Held(s.ctrl), s.queue, [p]);
      Assoc(Total(s), [p], Reassemble(s'.h4).packets);
    } else {
      assert Total(s) + [] == Total(s);
    }
  }

  lemma TotalKept(s: State, st: Step)
    requires Enabled(s, st) && !st.DemuxOne? && !st.FeedOne?
    ensures Total(Next(s, st)) == Total(s)
  {
    hide PktLen;
    if st.Fetch? {
      assert s.queue == [s.queue[0]] + s.queue[1..];
    }
  }

  /** No step of any task but a receive changes what mux_rx_task will have. */
  lemma SettledKept(s: State, st: Step)
    requires Enabled(s, st) && !st.RingReceive?
    ensures Settled(Next(s, st)) == Settled(s)
  {
    hide Feeds;
    hide Demux;
    hide Reassemble;
    hide Payloads;
    hide DemuxNext;
    hide FeedNext;
    match st
    case DemuxOne => SettledByDemux(s);
    case FeedOne => SettledByFeed(s);
    case _ =>
      TotalKept(s, st);
      hide Total;
  }

  /** A receive is one step of FwDemux and, for its BT payloads, as many of H4. */
  lemma SettledByReceive(s: State, n: nat)
    requires Enabled(s, RingReceive(n))
    ensures var (staging, b) := Settled(s);
            var d := Demux(staging + s.ring[..n]);
            Settled(Next(s, RingReceive(n))) == (d.rest, Feeds(b, Payloads(d.frames, BT)))
  {
    assert Payloads([], BT) == [] && Feeds(Reassembling(s), []) == Reassembling(s);
    hide Demux;
    hide Reassemble;
    hide Feeds;
    hide Payloads;
  }

  // ---- whole runs ---------------------------------------------------------------------------

  /** The chunks received in a run. */
  function Chunks(s: State, steps: seq<Step>): seq<seq<Byte>>
    requires Possible(s, steps)
    decreases |steps|
  {
    if steps == [] then []
    else (if steps[0].RingReceive? then [s.ring[..steps[0].n]] else []) + Chunks(Next(s, steps[0]), steps[1..])
  }

  /** What FwDemux and H4 make of some more chunks. */
  function AfterChunks(m: (seq<Byte>, Bt), chunks: seq<seq<Byte>>): (seq<Byte>, Bt) {
    var r := Receives(Rx(m.0, []), chunks);
    (r.staging, Feeds(m.1, Payloads(r.frames, BT)))
  }

  lemma {:induction false} ReceivesAfter(staging: seq<Byte>, fs: seq<Frame>, chunks: seq<seq<Byte>>)
    ensures var r := Receives(Rx(staging, []), chunks);
            Receives(Rx(staging, fs), chunks) == Rx(r.staging, fs + r.frames)
    decreases |chunks|
  {
    hide Demux;
    if chunks != [] {
      var d := Demux(staging + chunks[0]);
      ReceivesAfter(d.rest, fs + d.frames, chunks[1..]);
      ReceivesAfter(d.rest, [] + d.frames, chunks[1..]);
      Assoc(fs, d.frames, Receives(Rx(d.rest, []), chunks[1..]).frames);
      assert [] + d.frames == d.frames;
    }
  }

  lemma {:induction false} FeedsAppend(b: Bt, x: seq<seq<Byte>>, y: seq<seq<Byte>>)
    ensures Feeds(b, x + y) == Feeds(Feeds(b, x), y)
    decreases |x|
  {
    hide Reassemble;
    if x == [] {
      assert x + y == y;
    } else {
      assert (x + y)[1..] == x[1..] + y;
      FeedsAppend(b.Feed(x[0]), x[1..], y);
    }
  }

  lemma AfterOneMore(m: (seq<Byte>, Bt), chunk: seq<Byte>, later: seq<seq<Byte>>)
    ensures var d := Demux(m.0 + chunk);
            AfterChunks(m, [chunk] + later) == AfterChunks((d.rest, Feeds(m.1, Payloads(d.frames, BT))), later)
  {
    hide Demux;
    hide Feeds;
    hide Payloads;
    var d := Demux(m.0 + chunk);
    var chunks := [chunk] + later;
    assert chunks[0] == chunk && chunks[1..] == later;
    assert [] + d.frames == d.frames;
    assert Receives(Rx(m.0, []), chunks) == Receives(Rx(d.rest, d.frames), later);
    hide Receives;
    ReceivesAfter(d.rest, d.frames, later);
    var fs := Receives(Rx(d.rest, []), later).frames;
    PayloadsAppend(d.frames, fs, BT);
    FeedsAppend(m.1, Payloads(d.frames, BT), Payloads(fs, BT));
  }

  lemma {:induction false} SettledAfterRun(s: State, steps: seq<Step>)
    requires Possible(s, steps)
    ensures Settled(Run(s, steps)) == AfterChunks(Settled(s), Chunks(s, steps))
    decreases |steps|
  {
    hide Demux;
    hide Reassemble;
    hide Settled;
    if steps == [] {
      assert Payloads([], BT) == [];
    } else {
      hide AfterChunks;
      var st, s' := steps[0], Next(s, steps[0]);
      SettledAfterRun(s', steps[1..]);
      hide Next;
      hide Enabled;
      if st.RingReceive? {
        SettledByReceive(s, st.n);
        AfterOneMore(Settled(s), s.ring[..st.n], Chunks(s', steps[1..]));
      } else {
        SettledKept(s, st);
        assert [] + Chunks(s', steps[1..]) == Chunks(s', steps[1..]);
      }
    }
  }

  /** Main theorem: on every stream, well-formed or not, and in every interleaving, mux_rx_task is to
      the chunks it received what the two reassemblers, proved in place, are. */
  lemma RunRefines(wire: seq<Byte>, available: bool, steps: seq<Step>)
    requires Possible(Start(wire, available), steps)
    ensures var s, chunks := Run(Start(wire, available), steps), Chunks(Start(wire, available), steps);
            var r := Receives(Rx([], []), chunks);
            var b := Feeds(Bt([], []), Payloads(r.frames, BT));
            s.rx.Idle? ==> s.staging == r.staging && s.h4 == b.acc && s.sent + Held(s.ctrl) + s.queue == b.queued
  {
    var s0 := Start(wire, available);
    SettledAfterRun(s0, steps);
    SettledIdle(s0);
    assert Total(s0) == [];
    var s := Run(s0, steps);
    if s.rx.Idle? {
      SettledIdle(s);
    }
    hide Run;
    hide Settled;
    hide Chunks;
    hide Receives;
    hide Feeds;
    hide Payloads;
  }

  lemma SettledIdle(s: State)
    requires s.rx.Idle?
    ensures Settled(s) == (s.staging, Bt(s.h4, Total(s)))
  {
    assert Payloads([], BT) == [];
    hide Total;
  }
}
