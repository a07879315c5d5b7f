/** Host -> controller, end to end: the USB read loop, mux_rx_task and bt_to_ctrl_task as one state
    machine whose steps interleave in any order. Blocking calls are guards. */
module HostToController {
  import opened Bytes
  import opened MuxWire
  import opened FwDemux
  import opened H4

  const USB_READ_SZ: nat := 512
  const MUX_RB_SZ: nat := 2048
  const BT_TO_CTRL_DEPTH: nat := 16

  /** mux_rx_task: blocked in the receive, in the frame loop, or in the packet loop of
      bt_rx_from_host (where it may be blocked on a full queue). */
  datatype RxTask = Idle | Demuxing | Feeding

  /** bt_to_ctrl_task: waiting for a packet, about to ask the controller, waiting for its callback,
      or about to send. */
  datatype CtrlTask = Fetching | Asking(p: Packet) | Waiting(p: Packet) | Sending(p: Packet)

  datatype State = State(
    wire: seq<Byte>,        // written by the host, not read yet
    usb: seq<Byte>,         // in the read loop's own buffer
    ring: seq<Byte>,        // the stream buffer
    staging: seq<Byte>,     // staged and not consumed by mux_rx_task
    rx: RxTask,
    h4: seq<Byte>,          // accumulated and not consumed by bt_rx_from_host
    queue: seq<Packet>,
    ctrl: CtrlTask,
    available: bool,        // esp_vhci_host_check_send_available()
    notify: bool,           // the controller has yet to call bt_controller_tx_ready
    ready: bool,            // the binary semaphore
    sent: seq<Packet>)

  datatype Step =
    | UsbRead(n: nat)       // usb_serial_jtag_read_bytes
    | RingSend(n: nat)      // xStreamBufferSend, as far as there is room
    | RingReceive(n: nat)   // xStreamBufferReceive
    | DemuxOne              // one round of the frame loop
    | FeedOne               // one round of the packet loop
    | Fetch                 // xQueueReceive
    | Ask                   // esp_vhci_host_check_send_available
    | TakeReady             // xSemaphoreTake
    | SendOne(more: bool)   // esp_vhci_host_send_packet; more: the controller can take another
    | Free                  // the controller gets room again ...
    | Callback              // ... and calls bt_controller_tx_ready

  /** The bytes of the frame at the head of the staging buffer, if its header is there. */
  function FrameSize(s: seq<Byte>): Option<nat> {
    if |s| < HDR_LEN then None else Some(HDR_LEN + U16(s[1], s[2]) + TAIL_LEN)
  }

  /** The accumulator after a BT payload, with its overflow rule. */
  function Accumulate(acc: seq<Byte>, data: seq<Byte>): seq<Byte> {
    if |data| > BT_ACC_SZ then []
    else if |data| > BT_ACC_SZ - |acc| then data
    else acc + data
  }

  predicate Enabled(s: State, st: Step) {
    match st
    case UsbRead(n) => s.usb == [] && 0 < n <= USB_READ_SZ && n <= |s.wire|
    case RingSend(n) => 0 < n <= |s.usb| && |s.ring| + n <= MUX_RB_SZ
    case RingReceive(n) => s.rx.Idle? && 0 < n <= |s.ring| && |s.staging| + n <= MUX_STAGING_SZ
    case DemuxOne => s.rx.Demuxing?
    case FeedOne =>
      s.rx.Feeding? && (0 < PktLen(s.h4) <= |s.h4| && PktLen(s.h4) <= BT_PKT_MAX ==> |s.queue| < BT_TO_CTRL_DEPTH)
    case Fetch => s.ctrl.Fetching? && s.queue != []
    case Ask => s.ctrl.Asking?
    case TakeReady => s.ctrl.Waiting? && s.ready
    case SendOne(_) => s.ctrl.Sending?
    case Free => !s.available
    case Callback => s.notify
  }

  function DemuxNext(s: State): State {
    match FrameSize(s.staging)
    case None => s.(rx := Idle)
    case Some(size) =>
      if size > MUX_STAGING_SZ then s.(rx := Idle, staging := [])
      else if |s.staging| < size then s.(rx := Idle)
      else
        var s' := s.(staging := s.staging[size..]);
        if s.staging[0] == BT
        then s'.(rx := Feeding, h4 := Accumulate(s.h4, s.staging[HDR_LEN..size - TAIL_LEN]))
        else s'
  }

  function FeedNext(s: State): State {
    var n := PktLen(s.h4);
    if n == 0 then s.(rx := Demuxing)
    else if n < 0 || n > BT_PKT_MAX then s.(rx := Demuxing, h4 := [])
    else if |s.h4| < n then s.(rx := Demuxing)
    else s.(h4 := s.h4[n..], queue := s.queue + [s.h4[..n]])
  }

  function Next(s: State, st: Step): State
    requires Enabled(s, st)
  {
    match st
    case UsbRead(n) => s.(wire := s.wire[n..], usb := s.wire[..n])
    case RingSend(n) => s.(usb := s.usb[n..], ring := s.ring + s.usb[..n])
    case RingReceive(n) => s.(rx := Demuxing, ring := s.ring[n..], staging := s.staging + s.ring[..n])
    case DemuxOne => DemuxNext(s)
    case FeedOne => FeedNext(s)
    case Fetch => s.(queue := s.queue[1..], ctrl := Asking(s.queue[0]))
    case Ask => s.(ctrl := if s.available then Sending(s.ctrl.p) else Waiting(s.ctrl.p))
    case TakeReady => s.(ready := false, ctrl := Asking(s.ctrl.p))
    case SendOne(more) => s.(sent := s.sent + [s.ctrl.p], ctrl := Fetching, available := more)
    case Free => s.(available := true, notify := true)
    case Callback => s.(notify := false, ready := true)
  }

  function Start(wire: seq<Byte>, available: bool): State {
    State(wire, [], [], [], Idle, [], [], Fetching, available, false, false, [])
  }

  /** steps can be taken one after the other from s. */
  predicate Possible(s: State, steps: seq<Step>)
    decreases |steps|
  {
    steps == [] || (Enabled(s, steps[0]) && Possible(Next(s, steps[0]), steps[1..]))
  }

  function Run(s: State, steps: seq<Step>): State
    requires Possible(s, steps)
    decreases |steps|
  {
    if steps == [] then s else Run(Next(s, steps[0]), steps[1..])
  }

  // ---- bounds, on every stream --------------------------------------------------------------

  ghost predicate Bounded(s: State) {
    && |s.usb| <= USB_READ_SZ && |s.ring| <= MUX_RB_SZ && |s.queue| <= BT_TO_CTRL_DEPTH
    && |s.staging| <= MUX_STAGING_SZ && (s.rx.Idle? ==> |s.staging| < MUX_STAGING_SZ)
    && (if s.rx.Feeding? then |s.h4| <= BT_PKT_MAX - 1 + MUX_STAGING_SZ else |s.h4| < BT_PKT_MAX)
  }

  lemma PktLenFacts(s: seq<Byte>)
    ensures PktLen(s) == 0 ==> |s| < 5
    ensures PktLen(s) > 0 ==> PktLen(s) >= 3
  {
  }

  /** Every buffer keeps its bound whatever the host sends: the receive always has room, and the
      accumulator's overflow rule is never used. */
  lemma BoundsKept(s: State, st: Step)
    requires Bounded(s) && Enabled(s, st)
    ensures Bounded(Next(s, st))
    ensures st.DemuxOne? && Next(s, st).rx.Feeding? ==> s.h4 <= Next(s, st).h4
  {
    hide DemuxNext;
    hide FeedNext;
    if st.DemuxOne? {
      DemuxBounded(s);
    } else if st.FeedOne? {
      FeedBounded(s);
    }
  }

  lemma DemuxBounded(s: State)
    requires Bounded(s) && s.rx.Demuxing?
    ensures Bounded(DemuxNext(s))
    ensures DemuxNext(s).rx.Feeding? ==> s.h4 <= DemuxNext(s).h4
  {
  }

  lemma FeedBounded(s: State)
    requires Bounded(s) && Enabled(s, FeedOne)
    ensures Bounded(FeedNext(s))
  {
    hide PktLen;
    PktLenFacts(s.h4);
  }

  // ---- conservation -------------------------------------------------------------------------

  /** What bt_to_ctrl_task has taken off the queue. */
  function Held(c: CtrlTask): seq<Packet> {
    if c.Fetching? then [] else [c.p]
  }

  function Upstream(s: State): seq<Byte> {
    s.staging + (s.ring + (s.usb + s.wire))
  }

  /** The packets the bytes on their way still spell out. */
  function InFlight(s: State): seq<Packet> {
    Reassemble(s.h4 + Flatten(Payloads(Demux(Upstream(s)).frames, BT))).packets
  }

  /** s is explained by the frames fs and the packets todo that its bytes will turn into. */
  ghost predicate Explains(s: State, fs: seq<Frame>, todo: seq<Packet>, ps: seq<Packet>) {
    && AllFit(fs) && AllWellFormed(todo)
    && Upstream(s) == Stream(fs)
    && s.h4 + Flatten(Payloads(fs, BT)) == Flatten(todo)
    && s.sent + Held(s.ctrl) + s.queue + todo == ps
    && (s.rx.Idle? ==> Partial(s.staging, fs))
    && (!s.rx.Feeding? ==> PartialPacket(s.h4, todo))
  }

  /** No wake-up is lost: bt_to_ctrl_task never waits for a callback that has come and gone. */
  ghost predicate WakeUp(s: State) {
    && (s.ctrl.Sending? ==> s.available)
    && (s.ctrl.Waiting? && s.available ==> s.ready || s.notify)
  }

  ghost predicate Inv(s: State, ps: seq<Packet>) {
    Bounded(s) && WakeUp(s) && exists fs, todo :: Explains(s, fs, todo, ps)
  }

  lemma UpstreamMoves(s: State, st: Step)
    requires Enabled(s, st) && (st.UsbRead? || st.RingSend? || st.RingReceive?)
    ensures Upstream(Next(s, st)) == Upstream(s)
  {
    match st
    case UsbRead(n) =>
      assert s.wire[..n] + s.wire[n..] == [] + s.wire;
    case RingSend(n) => Shift(s.ring, s.usb, n, s.wire);
    case RingReceive(n) => Shift(s.staging, s.ring, n, s.usb + s.wire);
  }

  /** Once its header is there, the size of the frame at the head of a clean stream is known. */
  lemma HeadSize(s: seq<Byte>, more: seq<Byte>, fs: seq<Frame>)
    requires AllFit(fs) && s + more == Stream(fs) && FrameSize(s).Some?
    ensures fs != [] && FrameSize(s) == Some(|Serialise(fs[0])|) && |Serialise(fs[0])| <= MUX_STAGING_SZ
  {
    assert FitsStaging(fs[0]);
    HeaderOf(fs[0], Stream(fs[1..]));
    assert s[1] == (s + more)[1] && s[2] == (s + more)[2];
  }

  lemma HeadFrame(s: seq<Byte>, more: seq<Byte>, fs: seq<Frame>)
    requires AllFit(fs) && s + more == Stream(fs) && fs != [] && |Serialise(fs[0])| <= |s|
    ensures var n := |Serialise(fs[0])|;
            && s[0] == fs[0].kind && s[HDR_LEN..n - TAIL_LEN] == fs[0].payload
            && s[n..] + more == Stream(fs[1..])
  {
    assert FitsStaging(fs[0]);
    HeaderOf(fs[0], []);
    var f, n := Serialise(fs[0]), |Serialise(fs[0])|;
    assert f + [] == f;
    hide Serialise;
    assert s[..n] == (s + more)[..n] == f;
    assert s == f + s[n..];
    Assoc(f, s[n..], more);
    CancelPrefix(f, s[n..] + more, Stream(fs[1..]));
    assert s[HDR_LEN..n - TAIL_LEN] == s[..n][HDR_LEN..n - TAIL_LEN];
  }

  /** What one round of the frame loop does to a clean stream: nothing, or take the frame at the
      head. */
  lemma DemuxCases(s: State, fs: seq<Frame>)
    requires |s.h4| < BT_PKT_MAX && AllFit(fs) && Upstream(s) == Stream(fs)
    ensures var s' := DemuxNext(s);
            if fs != [] && |Serialise(fs[0])| <= |s.staging| then
              && s' == s.(staging := s'.staging, rx := s'.rx, h4 := s'.h4)
              && Upstream(s') == Stream(fs[1..])
              && s'.rx == (if fs[0].kind == BT then Feeding else s.rx)
              && s'.h4 == (if fs[0].kind == BT then s.h4 + fs[0].payload else s.h4)
            else s' == s.(rx := Idle) && Upstream(s') == Upstream(s) && Partial(s.staging, fs)
  {
    hide Serialise;
    hide Accumulate;
    var more := s.ring + (s.usb + s.wire);
    PrefixOfPrefix(s.staging, more, Stream(fs));
    if FrameSize(s.staging).Some? {
      HeadSize(s.staging, more, fs);
      PayloadSize(fs[0]);
      NoOverflow(s.h4, fs[0].payload);
      if |Serialise(fs[0])| <= |s.staging| {
        HeadFrame(s.staging, more, fs);
      }
    } else if fs != [] {
      PayloadSize(fs[0]);
    }
  }

  lemma NoOverflow(acc: seq<Byte>, data: seq<Byte>)
    requires |acc| < BT_PKT_MAX && |data| <= MUX_STAGING_SZ
    ensures Accumulate(acc, data) == acc + data
  {
  }

  lemma StepDemux(s: State, fs: seq<Frame>, todo: seq<Packet>, ps: seq<Packet>) returns (fs': seq<Frame>)
    requires |s.h4| < BT_PKT_MAX && Explains(s, fs, todo, ps) && s.rx.Demuxing?
    ensures Explains(Next(s, DemuxOne), fs', todo, ps)
  {
    hide Serialise;
    hide DemuxNext;
    hide Upstream;
    DemuxCases(s, fs);
    if fs != [] && |Serialise(fs[0])| <= |s.staging| {
      fs' := fs[1..];
      PayloadsFirst(fs, BT);
      Assoc(s.h4, fs[0].payload, Flatten(Payloads(fs[1..], BT)));
    } else {
      fs' := fs;
    }
  }

  /** The packet at the head of the accumulator, if it is there in full. */
  lemma HeadPacket(h4: seq<Byte>, more: seq<Byte>, todo: seq<Packet>)
    requires AllWellFormed(todo) && h4 + more == Flatten(todo)
    ensures if todo != [] && |todo[0]| <= |h4| then
              var n := |todo[0]|;
              0 < PktLen(h4) == n <= BT_PKT_MAX && h4[..n] == todo[0] && h4[n..] + more == Flatten(todo[1..])
            else
              (PktLen(h4) == 0 || |h4| < PktLen(h4) <= BT_PKT_MAX) && PartialPacket(h4, todo)
  {
    if todo != [] {
      assert WellFormed(todo[0]);
      EncodingsExactly(todo[0]);
      hide WellFormed;
      PrefixOfPrefix(h4, more, Flatten(todo));
      PktLenOfPrefix(h4, todo[0], Flatten(todo[1..]));
      hide PktLen;
      var p := todo[0];
      if |p| <= |h4| {
        assert h4[..|p|] == (h4 + more)[..|p|] == p && h4 == p + h4[|p|..];
        Assoc(p, h4[|p|..], more);
        CancelPrefix(p, h4[|p|..] + more, Flatten(todo[1..]));
      }
    }
  }

  /** What one round of the packet loop does: nothing, or queue the packet at the head. */
  lemma FeedCases(s: State, more: seq<Byte>, todo: seq<Packet>)
    requires AllWellFormed(todo) && s.h4 + more == Flatten(todo)
    ensures var s' := FeedNext(s);
            if todo != [] && |todo[0]| <= |s.h4| then
              s' == s.(h4 := s'.h4, queue := s.queue + [todo[0]]) && s'.h4 + more == Flatten(todo[1..])
            else s' == s.(rx := Demuxing) && PartialPacket(s.h4, todo)
  {
    HeadPacket(s.h4, more, todo);
    hide PktLen;
    hide WellFormed;
    hide Flatten;
  }

  lemma StepFeed(s: State, fs: seq<Frame>, todo: seq<Packet>, ps: seq<Packet>) returns (todo': seq<Packet>)
    requires Explains(s, fs, todo, ps) && s.rx.Feeding? && Enabled(s, FeedOne)
    ensures Explains(Next(s, FeedOne), fs, todo', ps)
  {
    hide Serialise;
    hide PktLen;
    hide WellFormed;
    hide FeedNext;
    hide Partial;
    hide PartialPacket;
    FeedCases(s, Flatten(Payloads(fs, BT)), todo);
    if todo != [] && |todo[0]| <= |s.h4| {
      todo' := todo[1..];
      ShiftOne(s.sent + Held(s.ctrl), s.queue, todo);
      hide Flatten;
    } else {
      todo' := todo;
    }
  }

  lemma StepElse(s: State, st: Step, fs: seq<Frame>, todo: seq<Packet>, ps: seq<Packet>)
    requires Explains(s, fs, todo, ps) && Enabled(s, st) && !st.DemuxOne? && !st.FeedOne?
    ensures Explains(Next(s, st), fs, todo, ps)
  {
    hide Serialise;
    hide Stream;
    hide Payloads;
    hide Flatten;
    hide PktLen;
    hide Partial;
    hide PartialPacket;
    hide AllFit;
    hide AllWellFormed;
    if st.UsbRead? || st.RingSend? || st.RingReceive? {
      UpstreamMoves(s, st);
      hide Upstream;
    } else if st.Fetch? {
      assert s.queue == [s.queue[0]] + s.queue[1..];
    }
  }

  /** Every step keeps the invariant. */
  lemma StepKeeps(s: State, st: Step, ps: seq<Packet>)
    requires Inv(s, ps) && Enabled(s, st)
    ensures Inv(Next(s, st), ps)
  {
    BoundsKept(s, st);
    WakeUpKept(s, st);
    var fs, todo :| Explains(s, fs, todo, ps);
    assert s.rx.Demuxing? ==> |s.h4| < BT_PKT_MAX;
    hide Bounded;
    hide WakeUp;
    hide Explains;
    hide Next;
    match st
    case DemuxOne =>
      fs := StepDemux(s, fs, todo, ps);
    case FeedOne =>
      todo := StepFeed(s, fs, todo, ps);
    case _ =>
      StepElse(s, st, fs, todo, ps);
    assert Explains(Next(s, st), fs, todo, ps);
  }

  lemma WakeUpKept(s: State, st: Step)
    requires WakeUp(s) && Enabled(s, st)
    ensures WakeUp(Next(s, st))
  {
  }

  lemma {:induction false} RunKeeps(s: State, steps: seq<Step>, ps: seq<Packet>)
    requires Inv(s, ps) && Possible(s, steps)
    ensures Inv(Run(s, steps), ps)
    decreases |steps|
  {
    hide Inv;
    if steps != [] {
      StepKeeps(s, steps[0], ps);
      RunKeeps(Next(s, steps[0]), steps[1..], ps);
    }
  }

  lemma StartHolds(fs: seq<Frame>, available: bool, ps: seq<Packet>)
    requires AllFit(fs) && AllWellFormed(ps) && Flatten(Payloads(fs, BT)) == Flatten(ps)
    ensures Inv(Start(Stream(fs), available), ps)
  {
    var s := Start(Stream(fs), available);
    assert Upstream(s) == Stream(fs);
    if ps != [] {
      assert WellFormed(ps[0]);
      EncodingsExactly(ps[0]);
    }
    hide Serialise;
    assert s.h4 + Flatten(Payloads(fs, BT)) == Flatten(ps);
    assert Explains(s, fs, ps, ps);
  }

  /** Main theorem: the host frames the packets ps, split over BT frames in any way and mixed with
      frames of any other channel. In every state of every run, packets sent, held, queued and still
      spelt out by the bytes under way are ps, in order: none is lost, duplicated or overtaken. */
  lemma Lossless(fs: seq<Frame>, available: bool, ps: seq<Packet>, steps: seq<Step>)
    requires AllFit(fs) && AllWellFormed(ps) && Flatten(Payloads(fs, BT)) == Flatten(ps)
    requires Possible(Start(Stream(fs), available), steps)
    ensures var s := Run(Start(Stream(fs), available), steps);
            && s.sent + Held(s.ctrl) + s.queue + InFlight(s) == ps
            && (s.ctrl.Sending? ==> s.available)
            && (s.ctrl.Waiting? && s.available ==> s.ready || s.notify)
  {
    StartHolds(fs, available, ps);
    RunKeeps(Start(Stream(fs), available), steps, ps);
    var s := Run(Start(Stream(fs), available), steps);
    var fs', todo :| Explains(s, fs', todo, ps);
    InFlightIs(s, fs', todo, ps);
  }

  lemma InFlightIs(s: State, fs: seq<Frame>, todo: seq<Packet>, ps: seq<Packet>)
    requires Explains(s, fs, todo, ps)
    ensures InFlight(s) == todo
  {
    hide Serialise;
    DemuxStream(fs, [], []);
    assert Stream(fs) + [] == Stream(fs);
    var k := ReassembleStream(Flatten(todo), todo);
    AllArrived(todo, k, Reassemble(Flatten(todo)).rest);
    assert todo[..|todo|] == todo;
  }

  // ---- progress -----------------------------------------------------------------------------

  function RxRank(r: RxTask): nat {
    match r case Idle => 0 case Demuxing => 1 case Feeding => 2
  }

  function CtrlRank(c: CtrlTask): nat {
    match c case Fetching => 0 case Asking(_) => 6 case Waiting(_) => 5 case Sending(_) => 5
  }

  /** Bytes weigh less the further they have come, and so do packets. */
  function Measure(s: State): nat {
    7 * |s.wire| + 6 * |s.usb| + 5 * |s.ring| + 3 * |s.staging| + 3 * |s.h4| + RxRank(s.rx)
    + 7 * |s.queue| + CtrlRank(s.ctrl)
    + (if s.available then 0 else 4) + (if s.notify then 3 else 0) + (if s.ready then 2 else 0)
  }

  /** Every step, the controller's own included, brings the end nearer, on every stream. */
  lemma StepDecreases(s: State, st: Step)
    requires Enabled(s, st)
    ensures Measure(Next(s, st)) < Measure(s)
  {
    if st.DemuxOne? {
      DemuxDecreases(s);
    } else if st.FeedOne? {
      FeedDecreases(s);
    }
  }

  lemma AccumulateSize(acc: seq<Byte>, data: seq<Byte>)
    ensures |Accumulate(acc, data)| <= |acc| + |data|
  {
  }

  lemma DemuxDecreases(s: State)
    requires s.rx.Demuxing?
    ensures Measure(DemuxNext(s)) < Measure(s)
  {
    hide Accumulate;
    match FrameSize(s.staging)
    case None =>
    case Some(size) =>
      if size <= |s.staging| {
        AccumulateSize(s.h4, s.staging[HDR_LEN..size - TAIL_LEN]);
      }
  }

  lemma FeedDecreases(s: State)
    requires s.rx.Feeding?
    ensures Measure(FeedNext(s)) < Measure(s)
  {
    hide PktLen;
    PktLenFacts(s.h4);
  }

  lemma {:induction false} RunsAreShort(s: State, steps: seq<Step>)
    requires Possible(s, steps)
    ensures |steps| + Measure(Run(s, steps)) <= Measure(s)
    decreases |steps|
  {
    hide Measure;
    if steps != [] {
      StepDecreases(s, steps[0]);
      RunsAreShort(Next(s, steps[0]), steps[1..]);
    }
  }

  /** While a packet is missing, some task or the controller can move: there is no deadlock. */
  lemma NoDeadlock(s: State, ps: seq<Packet>) returns (st: Step)
    requires Inv(s, ps) && s.sent != ps
    ensures Enabled(s, st)
  {
    var fs, todo :| Explains(s, fs, todo, ps);
    if s.ctrl.Sending? {
      st := SendOne(true);
    } else if s.ctrl.Asking? {
      st := Ask;
    } else if s.ctrl.Waiting? {
      st := if s.ready then TakeReady else if s.notify then Callback else Free;
    } else if s.queue != [] {
      st := Fetch;
    } else if s.rx.Feeding? {
      st := FeedOne;
    } else if s.rx.Demuxing? {
      st := DemuxOne;
    } else if s.ring != [] {
      st := RingReceive(1);
    } else if s.usb != [] {
      st := RingSend(1);
    } else {
      if s.wire == [] {
        NothingLeft(s, fs, todo, ps);
      }
      st := UsbRead(1);
    }
  }

  lemma NothingLeft(s: State, fs: seq<Frame>, todo: seq<Packet>, ps: seq<Packet>)
    requires Explains(s, fs, todo, ps) && s.ctrl.Fetching? && s.queue == [] && s.rx.Idle?
    requires s.ring == [] && s.usb == [] && s.wire == []
    ensures s.sent == ps
  {
    assert s.staging == Upstream(s) == Stream(fs);
    hide Serialise;
    assert fs == [];
    assert s.h4 == Flatten(todo);
  }

  /** Main theorem: every run ends, after at most seven steps a byte and four more, and a run that
      cannot go on has delivered every packet. */
  lemma EveryRunDelivers(fs: seq<Frame>, available: bool, ps: seq<Packet>, steps: seq<Step>)
    requires AllFit(fs) && AllWellFormed(ps) && Flatten(Payloads(fs, BT)) == Flatten(ps)
    requires Possible(Start(Stream(fs), available), steps)
    ensures |steps| <= 7 * |Stream(fs)| + 4
    ensures var s := Run(Start(Stream(fs), available), steps);
            (forall st :: !Enabled(s, st)) ==> s.sent == ps
  {
    RunsAreShort(Start(Stream(fs), available), steps);
    StartHolds(fs, available, ps);
    RunKeeps(Start(Stream(fs), available), steps, ps);
    var s := Run(Start(Stream(fs), available), steps);
    if s.sent != ps {
      var st := NoDeadlock(s, ps);
    }
  }
}
