/** Firmware -> host, end to end: any interleaving of the writers, then any cutting into reads. */
module ToHost {
  import opened Bytes
  import opened MuxWire
  import opened MuxTx
  import opened FwDemux
  import opened HostRoundTrip
  import opened HostResync
  import HP = HostParser

  /** The frames of all finished writes, in wire order. */
  function FramesOf(log: seq<Segment>): seq<Frame> {
    if log == [] then [] else FramesOf(log[..|log| - 1]) + [log[|log| - 1].f]
  }

  function Current(s: State): seq<Frame> {
    if s.mutex.None? || s.jobs.Of(s.mutex.value).Idle? then [] else [s.jobs.Of(s.mutex.value).f]
  }

  function AllFrames(s: State): seq<Frame> {
    FramesOf(s.log) + Current(s)
  }

  ghost predicate NoFailedWrite(s: State) {
    forall e :: e in s.log ==> Whole(e)
  }

  ghost predicate TailFreePayloads(s: State) {
    forall f :: f in AllFrames(s) ==> TailFree(f.payload)
  }

  lemma {:induction false} LogIsStream(log: seq<Segment>)
    requires forall e :: e in log ==> Whole(e)
    ensures LogBytes(log) == Stream(FramesOf(log))
  {
    hide Serialise;
    if log != [] {
      var e, before := log[|log| - 1], log[..|log| - 1];
      LogIsStream(before);
      StreamAppend(FramesOf(before), [e.f]);
      assert Stream([e.f]) == Serialise(e.f) + [] == Serialise(e.f);
      assert Whole(e) && Serialise(e.f)[..e.n] == Serialise(e.f);
    }
  }

  /** Without failed writes the wire is a prefix of a clean stream of whole frames. */
  lemma WireIsStream(s: State)
    requires Serialised(s) && NoFailedWrite(s)
    ensures s.wire <= Stream(AllFrames(s))
    ensures s.mutex.None? ==> s.wire == Stream(FramesOf(s.log))
  {
    hide Serialise;
    LogIsStream(s.log);
    StreamAppend(FramesOf(s.log), Current(s));
    if s.mutex.Some? {
      var f := s.jobs.Of(s.mutex.value).f;
      assert Stream([f]) == Serialise(f) + [] == Serialise(f);
      CancelPrefix(Stream(FramesOf(s.log)), Prefix(s), Serialise(f));
    }
  }

  lemma {:induction false} FramesTyped(log: seq<Segment>, f: Frame) returns (w: Writer)
    requires (forall e :: e in log ==> WellTyped(e.who, e.f)) && f in FramesOf(log)
    ensures WellTyped(w, f)
  {
    var e := log[|log| - 1];
    if f == e.f {
      assert e in log;
      w := e.who;
    } else {
      w := FramesTyped(log[..|log| - 1], f);
    }
  }

  lemma FramesClean(s: State)
    requires Typed(s) && TailFreePayloads(s)
    ensures AllClean(AllFrames(s))
  {
    forall f | f in AllFrames(s) ensures Clean(f) {
      if f in FramesOf(s.log) {
        var w := FramesTyped(s.log, f);
      } else {
        assert WellTyped(s.mutex.value, f);
      }
    }
  }

  /** Among all frames on the wire, a channel's payloads are those of its sender. */
  lemma {:induction false} ChannelOf(log: seq<Segment>, w: Writer)
    requires !w.Drainer? && forall e :: e in log ==> WellTyped(e.who, e.f)
    ensures Payloads(FramesOf(log), Kind(w)) == Payloads(By(log, w), Kind(w))
  {
    if log != [] {
      var e, before := log[|log| - 1], log[..|log| - 1];
      ChannelOf(before, w);
      assert e in log && WellTyped(e.who, e.f);
      PayloadsAppend(FramesOf(before), [e.f], Kind(w));
      if e.who == w {
        PayloadsAppend(By(before, w), [e.f], Kind(w));
      } else {
        assert Payloads([e.f], Kind(w)) == [];
        assert By(log, w) == By(before, w);
      }
    }
  }

  lemma ChannelPrefix(s: State, w: Writer)
    requires Inv(s) && !w.Drainer?
    ensures Payloads(AllFrames(s), Kind(w)) <= Payloads(s.submitted.Of(w), Kind(w))
    ensures s.jobs.Of(w).Idle? ==> Payloads(AllFrames(s), Kind(w)) == Payloads(s.submitted.Of(w), Kind(w))
  {
    ChannelOf(s.log, w);
    PayloadsAppend(FramesOf(s.log), Current(s), Kind(w));
    PayloadsAppend(By(s.log, w), Pending(s.jobs.Of(w)), Kind(w));
    if s.mutex.Some? {
      assert WellTyped(s.mutex.value, s.jobs.Of(s.mutex.value).f);
    }
  }

  lemma {:induction false} DispatchedFrames(fs: seq<Frame>)
    ensures HP.Frames(HP.Dispatches(fs)) == fs
  {
    if fs != [] {
      assert HP.Dispatches(fs)[1..] == HP.Dispatches(fs[1..]);
      DispatchedFrames(fs[1..]);
    }
  }

  lemma HostSeesSender(steps: seq<Step>, chunks: seq<seq<Byte>>, w: Writer)
    requires Possible(START, steps) && !w.Drainer?
    requires var s := Run(START, steps);
             NoFailedWrite(s) && TailFreePayloads(s) && Flatten(chunks) <= s.wire
    ensures var s, h := Run(START, steps), HP.Reads(HP.START, chunks);
            var k := WholeFrames(AllFrames(s), |Flatten(chunks)|);
            && h.events == HP.Dispatches(AllFrames(s)[..k])
            && Payloads(HP.Frames(h.events), Kind(w)) <= Payloads(s.submitted.Of(w), Kind(w))
            && (Flatten(chunks) == s.wire && s.mutex.None? && s.jobs.Of(w).Idle? ==>
                Payloads(HP.Frames(h.events), Kind(w)) == Payloads(s.submitted.Of(w), Kind(w)))
  {
    hide Serialise;
    hide HP.Reads;
    hide Serialised;
    hide InOrder;
    hide Typed;
    var s := Run(START, steps);
    WireSafety(steps);
    hide Run;
    hide Possible;
    FramesClean(s);
    WireIsStream(s);
    PrefixOfPrefix(Flatten(chunks), s.wire[|Flatten(chunks)|..], Stream(AllFrames(s)));
    RoundTrip(AllFrames(s), chunks);
    var fs, k := AllFrames(s), WholeFrames(AllFrames(s), |Flatten(chunks)|);
    DispatchedFrames(fs[..k]);
    assert fs == fs[..k] + fs[k..];
    PayloadsAppend(fs[..k], fs[k..], Kind(w));
    ChannelPrefix(s, w);
    if Flatten(chunks) == s.wire && s.mutex.None? {
      assert fs == FramesOf(s.log) && fs[..|fs|] == fs && fs[|fs|..] == [];
      assert Stream(fs) + [] == Stream(fs);
      SplitUnique(fs, |fs|, []);
    }
  }

  lemma {:induction false} PayloadsFramed(kind: Byte, payloads: seq<seq<Byte>>)
    ensures Payloads(Framed(kind, payloads), kind) == payloads
  {
    if payloads != [] {
      assert Framed(kind, payloads)[1..] == Framed(kind, payloads[1..]);
      PayloadsFramed(kind, payloads[1..]);
    } else {
      assert Framed(kind, payloads) == [];
    }
  }

  /** Main theorem: whatever the interleaving of the writers and however the wire is cut into reads,
      as long as no write was cut short and no payload holds the sync word, the host dispatches
      exactly the frames on the wire, and on each reliable channel, BT (7) and Spinel (8), exactly the
      payloads its sender was called with, in order, up to where the bytes have arrived. */
  lemma HostSeesSenders(steps: seq<Step>, chunks: seq<seq<Byte>>)
    requires Possible(START, steps)
    requires var s := Run(START, steps);
             NoFailedWrite(s) && TailFreePayloads(s) && Flatten(chunks) <= s.wire
    ensures var s, h := Run(START, steps), HP.Reads(HP.START, chunks);
            var seen, through := HP.Frames(h.events), Flatten(chunks) == s.wire && s.mutex.None?;
            && h.events == HP.Dispatches(AllFrames(s)[..WholeFrames(AllFrames(s), |Flatten(chunks)|)])
            && Payloads(seen, 7) <= Calls(steps, BtSender)
            && Payloads(seen, 8) <= Calls(steps, SpinelSender)
            && (through && s.jobs.bt.Idle? ==> Payloads(seen, 7) == Calls(steps, BtSender))
            && (through && s.jobs.spinel.Idle? ==> Payloads(seen, 8) == Calls(steps, SpinelSender))
  {
    TakenAsPassed(steps);
    PayloadsFramed(7, Calls(steps, BtSender));
    PayloadsFramed(8, Calls(steps, SpinelSender));
    hide Run;
    hide Possible;
    hide Serialise;
    hide Calls;
    hide Framed;
    hide Payloads;
    hide HP.Reads;
    hide AllFrames;
    HostSeesSender(steps, chunks, BtSender);
    HostSeesSender(steps, chunks, SpinelSender);
  }

  /** The bytes written to the PTY are a prefix of those the Spinel sender was called with, and all of
      them once everything is through: how they were chunked does not show. */
  lemma SpinelToPty(steps: seq<Step>, chunks: seq<seq<Byte>>)
    requires Possible(START, steps)
    requires var s := Run(START, steps);
             NoFailedWrite(s) && TailFreePayloads(s) && Flatten(chunks) <= s.wire
    ensures var s, h := Run(START, steps), HP.Reads(HP.START, chunks);
            var pty := Flatten(Payloads(HP.Frames(h.events), 8));
            && pty <= Flatten(Calls(steps, SpinelSender))
            && (Flatten(chunks) == s.wire && s.mutex.None? && s.jobs.spinel.Idle? ==>
                pty == Flatten(Calls(steps, SpinelSender)))
  {
    hide *;
    HostSeesSenders(steps, chunks);
    var a, b := Payloads(HP.Frames(HP.Reads(HP.START, chunks).events), 8), Calls(steps, SpinelSender);
    assert b == a + b[|a|..];
    FlattenAppend(a, b[|a|..]);
  }

  // ---- after a write that was cut short -----------------------------------------------------

  lemma {:induction false} LogSplit(log: seq<Segment>, m: nat)
    requires m <= |log|
    ensures LogBytes(log) == LogBytes(log[..m]) + LogBytes(log[m..])
  {
    hide Serialise;
    if m == |log| {
      assert log[..m] == log && LogBytes(log[m..]) == [];
    } else {
      var n := |log| - 1;
      LogSplit(log[..n], m);
      assert log[..n][..m] == log[..m] && log[..n][m..] == log[m..][..n - m];
    }
  }

  /** What the wire would be had the first m writes not happened. */
  function Since(s: State, m: nat): State
    requires m <= |s.log|
  {
    s.(log := s.log[m..], wire := LogBytes(s.log[m..]) + Prefix(s))
  }

  lemma SinceHolds(s: State, m: nat)
    requires Serialised(s) && Typed(s) && m <= |s.log|
    ensures Serialised(Since(s, m)) && Typed(Since(s, m))
    ensures s.wire == LogBytes(s.log[..m]) + Since(s, m).wire
  {
    hide Serialise;
    LogSplit(s.log, m);
    Assoc(LogBytes(s.log[..m]), LogBytes(s.log[m..]), Prefix(s));
    assert forall e :: e in s.log[m..] ==> e in s.log;
  }

  /** Main theorem: if none of the writes after the first m was cut short, the host recovers at the
      first read that ends with a whole later frame and all the bytes since those m writes (p, behind
      older bytes x), whatever its buffer holds. Of the later frames it loses the first j, at most one
      unless a frame it takes out of the older bytes reaches further; every other frame is delivered
      exactly, those that came with that read at once. */
  lemma RecoversAfterShortWrites(steps: seq<Step>, m: nat, h: HP.Host,
                                 x: seq<Byte>, p: seq<Byte>, later: seq<seq<Byte>>)
      returns (j: nat, junk: seq<HP.Event>)
    requires Possible(START, steps)
    requires var s := Run(START, steps);
             && m <= |s.log| && NoFailedWrite(Since(s, m)) && TailFreePayloads(Since(s, m))
             && p + Flatten(later) <= Since(s, m).wire
             && AllFrames(Since(s, m)) != [] && |Serialise(AllFrames(Since(s, m))[0])| <= |p|
    ensures var fs, h1, h' := AllFrames(Since(Run(START, steps), m)), h.Read(x + p), HP.Reads(h.Read(x + p), later);
            var now, k := WholeFrames(fs, |p|), WholeFrames(fs, |p + Flatten(later)|);
            && Lost(junk, j, h.AfterReset().buf + x, fs) && j <= now <= k
            && h1.events == h.AfterReset().events + junk + HP.Dispatches(fs[j..now])
            && h'.events == h1.events + HP.Dispatches(fs[now..k])
            && OnBoundary(h', fs[k..])
  {
    hide Serialise;
    var s := Run(START, steps);
    WireSafety(steps);
    SinceHolds(s, m);
    var s' := Since(s, m);
    WireIsStream(s');
    FramesClean(s');
    var fs, q := AllFrames(s'), p + Flatten(later);
    PrefixOfPrefix(q, s'.wire[|q|..], Stream(fs));
    Assoc(h.AfterReset().buf, x, p);
    j, junk := ResyncRun(h, x + p, later, h.AfterReset().buf + x, p, fs);
  }

  lemma {:induction false} AllWhole(fs: seq<Frame>)
    ensures WholeFrames(fs, |Stream(fs)|) == |fs|
  {
    hide Serialise;
    if fs != [] {
      AllWhole(fs[1..]);
    }
  }

  /** The other way: bytes read from the PTY, framed, mixed with any other frames that fit the
      firmware's buffer, and cut in any way, reach the NCP unchanged; and the BT payloads, theirs. At
      every moment the NCP holds the payloads of the frames that have arrived whole, a prefix of the
      bytes on their way to it, and in the end all of them. */
  lemma HostToNcp(fs: seq<Frame>, chunks: seq<seq<Byte>>)
    requires AllFit(fs) && Flatten(chunks) <= Stream(fs)
    ensures var k := DispatchAll(Sinks([], [], []), Receives(Rx([], []), chunks).frames);
            var whole := fs[..WholeFrames(fs, |Flatten(chunks)|)];
            && k.ncp == Flatten(Payloads(whole, SPINEL)) <= Flatten(Payloads(fs, SPINEL))
            && k.bt == Payloads(whole, BT) <= Payloads(fs, BT)
            && Answer(Requests(whole), k.replies)
            && (Flatten(chunks) == Stream(fs) ==> whole == fs)
  {
    hide Serialise;
    hide Receives;
    hide DispatchAll;
    hide Payloads;
    hide Answer;
    hide Requests;
    hide Flatten;
    hide AllFit;
    hide Stream;
    DemuxExact(fs, chunks);
    var n := WholeFrames(fs, |Flatten(chunks)|);
    var replies := ChannelsSeparate(Sinks([], [], []), fs[..n]);
    assert [] + replies == replies;
    assert fs[..n] + fs[n..] == fs;
    if Flatten(chunks) == Stream(fs) {
      AllWhole(fs);
    }
    hide WholeFrames;
    PayloadsAppend(fs[..n], fs[n..], BT);
    PayloadsAppend(fs[..n], fs[n..], SPINEL);
    FlattenAppend(Payloads(fs[..n], SPINEL), Payloads(fs[n..], SPINEL));
  }
}
