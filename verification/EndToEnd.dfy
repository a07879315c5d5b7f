/** The channels end to end: Spinel buffers of the network co-processor to the PTY, bytes of the PTY to
    the co-processor, and packets of the kernel to the Bluetooth controller. */
module EndToEnd {
  import opened Bytes
  import opened MuxWire
  import opened FwDemux
  import opened FrameOut
  import opened HostMain
  import opened ToHost
  import HP = HostParser
  import H4
  import HC = Hci
  import Tx = MuxTx
  import Ctrl = HostToController

  // ---- co-processor to PTY ------------------------------------------------------------------

  ghost predicate AreCuts(cuts: seq<seq<seq<Byte>>>, bufs: seq<seq<Byte>>) {
    |cuts| == |bufs| && forall i :: 0 <= i < |bufs| ==> IsCut(cuts[i], bufs[i])
  }

  lemma {:induction false} CutsFlatten(cuts: seq<seq<seq<Byte>>>, bufs: seq<seq<Byte>>)
    requires AreCuts(cuts, bufs)
    ensures Flatten(Flatten(cuts)) == Flatten(bufs)
  {
    if cuts != [] {
      assert IsCut(cuts[0], bufs[0]);
      CutsFlatten(cuts[1..], bufs[1..]);
      FlattenAppend(cuts[0], Flatten(cuts[1..]));
    }
  }

  /** Main theorem: however the buffers given to spinel_ncp_send are cut into the sender's calls, whoever else
      writes in between, and however the wire is cut into reads: as long as no write is cut short and
      no payload holds the sync word, the PTY has received a prefix of those buffers, back to back,
      and all of them once everything is through. */
  lemma BuffersToPty(steps: seq<Tx.Step>, chunks: seq<seq<Byte>>, bufs: seq<seq<Byte>>, cuts: seq<seq<seq<Byte>>>)
    requires Tx.Possible(Tx.START, steps) && AreCuts(cuts, bufs)
    requires var s := Tx.Run(Tx.START, steps);
             && NoFailedWrite(s) && TailFreePayloads(s) && Flatten(chunks) <= s.wire
             && Tx.Calls(steps, Tx.SpinelSender) <= Flatten(cuts)
    ensures var s, h := Tx.Run(Tx.START, steps), HP.Reads(HP.START, chunks);
            var pty := Flatten(Payloads(HP.Frames(h.events), 8));
            && pty <= Flatten(bufs)
            && ((Flatten(chunks) == s.wire && s.mutex.None? && s.jobs.spinel.Idle?
                 && Tx.Calls(steps, Tx.SpinelSender) == Flatten(cuts)) ==>
                pty == Flatten(bufs))
  {
    hide *;
    SpinelToPty(steps, chunks);
    CutsFlatten(cuts, bufs);
    PrefixFlattens(Tx.Calls(steps, Tx.SpinelSender), Flatten(cuts));
  }

  lemma PrefixFlattens(a: seq<seq<Byte>>, b: seq<seq<Byte>>)
    requires a <= b
    ensures Flatten(a) <= Flatten(b)
  {
    assert b == a + b[|a|..];
    FlattenAppend(a, b[|a|..]);
    hide Flatten;
  }

  // ---- host to firmware ---------------------------------------------------------------------

  ghost predicate AllValid(inputs: seq<Input>) {
    forall input :: input in inputs ==> input.Valid()
  }

  /** What was read from the PTY, and from the kernel, in order. */
  function PtyReads(inputs: seq<Input>): seq<seq<Byte>> {
    if inputs == [] then []
    else
      var input := inputs[|inputs| - 1];
      PtyReads(inputs[..|inputs| - 1]) + if input.Pty? then [input.chunk] else []
  }

  function KernelReads(inputs: seq<Input>): seq<seq<Byte>> {
    if inputs == [] then []
    else
      var input := inputs[|inputs| - 1];
      KernelReads(inputs[..|inputs| - 1]) + if input.Kernel? then [input.pkt] else []
  }

  function Pings(inputs: seq<Input>): nat {
    if inputs == [] then 0
    else Pings(inputs[..|inputs| - 1]) + if inputs[|inputs| - 1].Ping? then 1 else 0
  }

  /** Without the kernel's own acks, which begin with 0xff. */
  function WithoutAcks(ps: seq<seq<Byte>>): (r: seq<seq<Byte>>)
    ensures forall p :: p in r <==> p in ps && !(p != [] && p[0] == 0xff)
    ensures (forall p :: p in ps ==> p != [] && 1 <= p[0] <= 4) ==> r == ps
  {
    if ps == [] then []
    else
      var p := ps[|ps| - 1];
      assert ps == ps[..|ps| - 1] + [p];
      WithoutAcks(ps[..|ps| - 1]) + if p != [] && p[0] == 0xff then [] else [p]
  }

  lemma WithoutAcksAppend(ps: seq<seq<Byte>>, p: seq<Byte>)
    ensures WithoutAcks(ps + [p]) == WithoutAcks(ps) + if p != [] && p[0] == 0xff then [] else [p]
  {
    assert (ps + [p])[..|ps|] == ps;
  }

  lemma OneInput(input: Input)
    requires input.Valid()
    ensures Payloads(input.Frames(), 8) == if input.Pty? then [input.chunk] else []
    ensures Payloads(input.Frames(), 7) == if input.Kernel? && input.pkt[0] != 0xff then [input.pkt] else []
    ensures Requests(input.Frames()) == if input.Ping? then [Frame(5, CString("PING"))] else []
  {
    InputFrames(input);
    hide CString;
  }

  /** Each channel's frames carry what was read for it. */
  lemma {:induction false} ChannelsOf(inputs: seq<Input>)
    requires AllValid(inputs)
    ensures Payloads(FramesFrom(inputs), 8) == PtyReads(inputs)
    ensures Payloads(FramesFrom(inputs), 7) == WithoutAcks(KernelReads(inputs))
  {
    if inputs == [] {
      assert FramesFrom(inputs) == [] && Payloads([], 7) == [] && Payloads([], 8) == [];
    } else {
      hide Payloads;
      hide WithoutAcks;
      var before, input := inputs[..|inputs| - 1], inputs[|inputs| - 1];
      assert input in inputs;
      ChannelsOf(before);
      PayloadsAppend(FramesFrom(before), input.Frames(), 8);
      PayloadsAppend(FramesFrom(before), input.Frames(), 7);
      OneInput(input);
      if input.Kernel? {
        WithoutAcksAppend(KernelReads(before), input.pkt);
      } else {
        assert KernelReads(inputs) == KernelReads(before);
      }
    }
  }

  lemma {:induction false} RequestsAppend(a: seq<Frame>, b: seq<Frame>)
    ensures Requests(a + b) == Requests(a) + Requests(b)
  {
    if a == [] {
      assert a + b == b;
    } else {
      assert (a + b)[1..] == a[1..] + b;
      RequestsAppend(a[1..], b);
    }
  }

  lemma {:induction false} PingsOf(inputs: seq<Input>)
    requires AllValid(inputs)
    ensures |Requests(FramesFrom(inputs))| == Pings(inputs)
    ensures forall f :: f in Requests(FramesFrom(inputs)) ==> f.kind == 5
  {
    if inputs != [] {
      var before, input := inputs[..|inputs| - 1], inputs[|inputs| - 1];
      assert input in inputs;
      PingsOf(before);
      RequestsAppend(FramesFrom(before), input.Frames());
      OneInput(input);
      hide Requests;
    }
  }

  /** Every PTY read fits the firmware's buffer; so every frame does if the kernel's packets do. */
  lemma {:induction false} FramesFit(inputs: seq<Input>)
    requires AllValid(inputs)
    requires forall p :: p in WithoutAcks(KernelReads(inputs)) ==> 3 + |p| + 9 <= 1024
    ensures AllFit(FramesFrom(inputs))
  {
    if inputs != [] {
      var before, input := inputs[..|inputs| - 1], inputs[|inputs| - 1];
      assert input in inputs;
      FramesFit(before);
      InputFrames(input);
      assert forall f :: f in input.Frames() ==> FitsStaging(f);
    }
  }

  /** Main theorem: whatever the driver serves in between, and however what it has written so far is
      cut into receives, the co-processor has received a prefix of the bytes read from the PTY, and
      the reassembler a prefix of the kernel's packets; once everything has arrived, all of them, and
      every ping has been answered by one PONG. */
  lemma PtyToNcp(inputs: seq<Input>, room: nat, chunks: seq<seq<Byte>>)
    requires AllValid(inputs)
    requires forall p :: p in WithoutAcks(KernelReads(inputs)) ==> 3 + |p| + 9 <= 1024
    requires Flatten(chunks) <= Written(Stream(FramesFrom(inputs)), room)
    ensures var k := DispatchAll(Sinks([], [], []), Receives(Rx([], []), chunks).frames);
            && k.ncp <= Flatten(PtyReads(inputs)) && k.bt <= WithoutAcks(KernelReads(inputs))
            && (Flatten(chunks) == Stream(FramesFrom(inputs)) ==>
                && k.ncp == Flatten(PtyReads(inputs)) && k.bt == WithoutAcks(KernelReads(inputs))
                && |k.replies| == Pings(inputs) && forall f :: f in k.replies ==> f == Pong())
  {
    hide Stream;
    hide Payloads;
    hide Receives;
    hide DispatchAll;
    hide FramesFrom;
    hide Requests;
    hide Pong;
    hide Sync;
    var fs := FramesFrom(inputs);
    FramesFit(inputs);
    ChannelsOf(inputs);
    PingsOf(inputs);
    HostToNcp(fs, chunks);
    hide PtyReads;
    hide KernelReads;
    hide WithoutAcks;
    hide Flatten;
    hide WholeFrames;
  }

  /** Main theorem: the packets the kernel sends, acks of its own among them or not, each in one frame
      and mixed with the driver's other frames, all reach the controller, in order, in every
      interleaving of the firmware's tasks. */
  lemma KernelToController(inputs: seq<Input>, hs: seq<HC.Hci>, available: bool, steps: seq<Ctrl.Step>)
    requires AllValid(inputs) && HC.AllValid(hs) && WithoutAcks(KernelReads(inputs)) == HC.Encodings(hs)
    requires forall h :: h in hs ==> |h.Encode()| <= 522
    requires Ctrl.Possible(Ctrl.Start(Stream(FramesFrom(inputs)), available), steps)
    ensures var s := Ctrl.Run(Ctrl.Start(Stream(FramesFrom(inputs)), available), steps);
            && s.sent <= HC.Encodings(hs)
            && ((forall st :: !Ctrl.Enabled(s, st)) ==> s.sent == HC.Encodings(hs))
  {
    H4.EncodedWellFormed(hs);
    var ps := HC.Encodings(hs);
    forall p | p in ps ensures 3 + |p| + 9 <= 1024 {
      assert H4.WellFormed(p);
    }
    FramesFit(inputs);
    ChannelsOf(inputs);
    hide *;
    Ctrl.Lossless(FramesFrom(inputs), available, ps, steps);
    Ctrl.EveryRunDelivers(FramesFrom(inputs), available, ps, steps);
    var s := Ctrl.Run(Ctrl.Start(Stream(FramesFrom(inputs)), available), steps);
    Assoc(s.sent, Ctrl.Held(s.ctrl), s.queue);
    Assoc(s.sent, Ctrl.Held(s.ctrl) + s.queue, Ctrl.InFlight(s));
  }

  /** What the kernel sends begins with an indicator from 1 to 4, so if that is all it sends, all it
      sends reaches the controller. */
  lemma AllKernelReads(inputs: seq<Input>, hs: seq<HC.Hci>, available: bool, steps: seq<Ctrl.Step>)
    requires AllValid(inputs) && HC.AllValid(hs) && KernelReads(inputs) == HC.Encodings(hs)
    requires forall h :: h in hs ==> |h.Encode()| <= 522
    requires var s0 := Ctrl.Start(Stream(FramesFrom(inputs)), available);
             Ctrl.Possible(s0, steps) && forall st :: !Ctrl.Enabled(Ctrl.Run(s0, steps), st)
    ensures Ctrl.Run(Ctrl.Start(Stream(FramesFrom(inputs)), available), steps).sent == KernelReads(inputs)
  {
    forall p | p in HC.Encodings(hs) ensures p != [] && 1 <= p[0] <= 4 {
      var i :| 0 <= i < |hs| && HC.Encodings(hs)[i] == p;
      HC.EncodeShape(hs[i]);
    }
    assert WithoutAcks(KernelReads(inputs)) == KernelReads(inputs);
    hide *;
    KernelToController(inputs, hs, available, steps);
  }
}
