/** The transmit side: a droppable queue with its drainer task and two reliable senders, all writing
    to USB under one mutex, as a state machine whose steps interleave in any order. A USB write
    advances byte by byte and may stop short. */
module MuxTx {
  import opened Bytes
  import opened MuxWire

  const MUX_TX_Q_DEPTH: nat := 16

  datatype Writer = Drainer | BtSender | SpinelSender

  datatype PerWriter<T> = PerWriter(drainer: T, bt: T, spinel: T) {
    function Of(w: Writer): T {
      match w case Drainer => drainer case BtSender => bt case SpinelSender => spinel
    }

    function With(w: Writer, x: T): (r: PerWriter<T>)
      ensures forall w' :: r.Of(w') == if w' == w then x else Of(w')
    {
      match w
      case Drainer => this.(drainer := x)
      case BtSender => this.(bt := x)
      case SpinelSender => this.(spinel := x)
    }
  }

  /** A writer without a frame, waiting for the mutex, or with n bytes written under it. */
  datatype Job = Idle | Waiting(f: Frame) | Writing(f: Frame, n: nat)

  /** A finished write: the first n bytes of f's frame, n short of it after a timeout. */
  datatype Segment = Segment(who: Writer, f: Frame, n: nat)

  datatype State = State(
    jobs: PerWriter<Job>,
    mutex: Option<Writer>,
    queue: seq<Frame>,
    wire: seq<Byte>,
    log: seq<Segment>,                     // every finished write, in wire order
    offered: seq<Frame>,                   // frames built for the droppable queue
    accepted: seq<Frame>,                  // ... and those it took
    submitted: PerWriter<seq<Frame>>)      // frames the reliable senders took

  datatype Step =
    | Offer(kind: Byte, data: seq<Byte>)   // mux_tx or the log hook: enqueue or drop
    | Drain                                // mux_tx_task takes the next frame
    | Submit(w: Writer, payload: seq<Byte>)  // mux_tx_reliable, connected and within the cap
    | Acquire(w: Writer)
    | Push(w: Writer, n: nat)              // n more bytes reach the wire
    | Release(w: Writer)                   // write done or timed out, mutex given back

  function Kind(w: Writer): Byte
    requires !w.Drainer?
  {
    if w.BtSender? then BT else SPINEL
  }

  /** mux_tx shortens what is too long; the frame stays valid. */
  function Truncate(data: seq<Byte>): (payload: seq<Byte>)
    ensures payload <= data
    ensures |payload| == if |data| <= MUX_TX_MAX_PAYLOAD then |data| else MUX_TX_MAX_PAYLOAD
  {
    if |data| > MUX_TX_MAX_PAYLOAD then data[..MUX_TX_MAX_PAYLOAD] else data
  }

  predicate Enabled(s: State, st: Step) {
    match st
    case Offer(kind, _) => SYNC <= kind <= LOG
    case Drain => s.jobs.drainer.Idle? && s.queue != []
    case Submit(w, payload) => !w.Drainer? && s.jobs.Of(w).Idle? && |payload| <= MUX_TX_MAX_PAYLOAD
    case Acquire(w) => s.jobs.Of(w).Waiting? && s.mutex == None
    case Push(w, n) => s.jobs.Of(w).Writing? && 0 < n <= |Serialise(s.jobs.Of(w).f)| - s.jobs.Of(w).n
    case Release(w) => s.jobs.Of(w).Writing?
  }

  function Next(s: State, st: Step): State
    requires Enabled(s, st)
  {
    match st
    case Offer(kind, data) =>
      var f := Frame(kind, Truncate(data));
      var s' := s.(offered := s.offered + [f]);
      if |s.queue| < MUX_TX_Q_DEPTH then s'.(queue := s.queue + [f], accepted := s.accepted + [f]) else s'
    case Drain => s.(queue := s.queue[1..], jobs := s.jobs.With(Drainer, Waiting(s.queue[0])))
    case Submit(w, payload) =>
      var f := Frame(Kind(w), payload);
      s.(jobs := s.jobs.With(w, Waiting(f)), submitted := s.submitted.With(w, s.submitted.Of(w) + [f]))
    case Acquire(w) => s.(jobs := s.jobs.With(w, Writing(s.jobs.Of(w).f, 0)), mutex := Some(w))
    case Push(w, n) =>
      var j := s.jobs.Of(w);
      s.(jobs := s.jobs.With(w, Writing(j.f, j.n + n)), wire := s.wire + Serialise(j.f)[j.n..j.n + n])
    case Release(w) =>
      var j := s.jobs.Of(w);
      s.(jobs := s.jobs.With(w, Idle), mutex := None, log := s.log + [Segment(w, j.f, j.n)])
  }

  const START: State :=
    State(PerWriter(Idle, Idle, Idle), None, [], [], [], [], [], PerWriter([], [], []))

  predicate Possible(s: State, steps: seq<Step>)
    decreases |steps|
  {
    steps == [] || (Enabled(s, steps[0]) && Possible(Next(s, steps[0]), steps[1..]))
  }

  function Run(s: State, steps: seq<Step>): State
    requires Possible(s, steps)
    decreases |steps|
  {
    if steps == [] then s else Run(Next(s, steps[0]), steps[1..])
  }

  // ---- wire safety --------------------------------------------------------------------------

  function LogBytes(log: seq<Segment>): seq<Byte> {
    if log == [] then []
    else
      var e := log[|log| - 1];
      LogBytes(log[..|log| - 1]) + (if e.n <= |Serialise(e.f)| then Serialise(e.f)[..e.n] else [])
  }

  /** The frames of one writer's finished writes, in wire order. */
  function By(log: seq<Segment>, w: Writer): seq<Frame> {
    if log == [] then []
    else
      var e := log[|log| - 1];
      By(log[..|log| - 1], w) + (if e.who == w then [e.f] else [])
  }

  /** The part of a write in progress that is already on the wire. */
  function Prefix(s: State): seq<Byte> {
    if s.mutex.None? then []
    else
      match s.jobs.Of(s.mutex.value)
      case Writing(f, n) => if n <= |Serialise(f)| then Serialise(f)[..n] else []
      case _ => []
  }

  function Pending(j: Job): seq<Frame> {
    if j.Idle? then [] else [j.f]
  }

  predicate Whole(e: Segment) {
    e.n == |Serialise(e.f)|
  }

  ghost predicate WellTyped(w: Writer, f: Frame) {
    && |f.payload| <= MUX_TX_MAX_PAYLOAD
    && (if w.Drainer? then SYNC <= f.kind <= LOG else f.kind == Kind(w))
  }

  /** The wire is the finished writes, whole frames and cut-off ones, and then the start of at most
      one frame more: the one written by the holder of the mutex. Frames never interleave. */
  ghost predicate Serialised(s: State) {
    && s.wire == LogBytes(s.log) + Prefix(s)
    && (forall w :: s.jobs.Of(w).Writing? <==> s.mutex == Some(w))
    && (forall w :: s.jobs.Of(w).Writing? ==> s.jobs.Of(w).n <= |Serialise(s.jobs.Of(w).f)|)
    && (forall e :: e in s.log ==> e.n <= |Serialise(e.f)|)
  }

  /** Each writer's frames reach the wire in the order it took them, none missing; the droppable
      queue is FIFO. */
  ghost predicate InOrder(s: State) {
    && s.accepted == By(s.log, Drainer) + Pending(s.jobs.drainer) + s.queue
    && s.submitted.bt == By(s.log, BtSender) + Pending(s.jobs.bt)
    && s.submitted.spinel == By(s.log, SpinelSender) + Pending(s.jobs.spinel)
  }

  /** Sizes, the queue's depth, and which writer sends what. */
  ghost predicate Typed(s: State) {
    && |s.queue| <= MUX_TX_Q_DEPTH
    && (forall e :: e in s.log ==> WellTyped(e.who, e.f))
    && (forall w :: !s.jobs.Of(w).Idle? ==> WellTyped(w, s.jobs.Of(w).f))
    && (forall f :: f in s.queue ==> WellTyped(Drainer, f))
  }

  ghost predicate Inv(s: State) {
    Serialised(s) && InOrder(s) && Typed(s)
  }

  lemma LogAppend(log: seq<Segment>, e: Segment)
    requires e.n <= |Serialise(e.f)|
    ensures LogBytes(log + [e]) == LogBytes(log) + Serialise(e.f)[..e.n]
  {
    hide Serialise;
    assert (log + [e])[..|log|] == log;
  }

  lemma SerialisedKept(s: State, st: Step)
    requires Serialised(s) && Enabled(s, st)
    ensures Serialised(Next(s, st))
  {
    hide Serialise;
    hide LogBytes;
    match st
    case Push(w, n) =>
      var b, k := Serialise(s.jobs.Of(w).f), s.jobs.Of(w).n;
      assert b[..k] + b[k..k + n] == b[..k + n];
      Assoc(LogBytes(s.log), b[..k], b[k..k + n]);
    case Release(w) =>
      LogAppend(s.log, Segment(w, s.jobs.Of(w).f, s.jobs.Of(w).n));
      var s' := Next(s, st);
      assert s'.wire == LogBytes(s'.log) + Prefix(s');
    case Acquire(w) =>
      assert s.wire == LogBytes(s.log) + Prefix(Next(s, st));
    case _ =>
      assert Prefix(Next(s, st)) == Prefix(s);
  }

  lemma ByAppend(log: seq<Segment>, e: Segment, w: Writer)
    ensures By(log + [e], w) == By(log, w) + if e.who == w then [e.f] else []
  {
    assert (log + [e])[..|log|] == log;
  }

  lemma InOrderKept(s: State, st: Step)
    requires InOrder(s) && Enabled(s, st)
    ensures InOrder(Next(s, st))
  {
    hide Serialise;
    hide By;
    match st
    case Offer(kind, data) =>
      Assoc(By(s.log, Drainer) + Pending(s.jobs.drainer), s.queue, [Frame(kind, Truncate(data))]);
    case Drain =>
      assert s.queue == [s.queue[0]] + s.queue[1..];
    case Release(w) =>
      forall w' ensures By(Next(s, st).log, w') == By(s.log, w') + if w' == w then [s.jobs.Of(w).f] else [] {
        ByAppend(s.log, Segment(w, s.jobs.Of(w).f, s.jobs.Of(w).n), w');
      }
    case _ =>
  }

  lemma TypedKept(s: State, st: Step)
    requires Typed(s) && Enabled(s, st)
    ensures Typed(Next(s, st))
  {
    hide Serialise;
    match st
    case Drain => assert s.queue[0] in s.queue;
    case Release(w) => assert WellTyped(w, s.jobs.Of(w).f);
    case Acquire(w) => assert WellTyped(w, s.jobs.Of(w).f);
    case Push(w, n) => assert WellTyped(w, s.jobs.Of(w).f);
    case _ =>
  }

  lemma StepKeeps(s: State, st: Step)
    requires Inv(s) && Enabled(s, st)
    ensures Inv(Next(s, st))
  {
    SerialisedKept(s, st);
    InOrderKept(s, st);
    TypedKept(s, st);
  }

  lemma {:induction false} RunKeeps(s: State, steps: seq<Step>)
    requires Inv(s) && Possible(s, steps)
    ensures Inv(Run(s, steps))
    decreases |steps|
  {
    hide Inv;
    if steps != [] {
      StepKeeps(s, steps[0]);
      RunKeeps(Next(s, steps[0]), steps[1..]);
    }
  }

  lemma StartHolds()
    ensures Inv(START)
  {
  }

  // ---- what the callers passed --------------------------------------------------------------

  /** The payloads a reliable sender was called with in a run. */
  function Calls(steps: seq<Step>, w: Writer): seq<seq<Byte>>
    decreases |steps|
  {
    if steps == [] then []
    else (if steps[0].Submit? && steps[0].w == w then [steps[0].payload] else []) + Calls(steps[1..], w)
  }

  /** The frames the droppable queue was offered in a run: type and data as passed, cut to 528 bytes. */
  function Offers(steps: seq<Step>): seq<Frame>
    decreases |steps|
  {
    if steps == [] then []
    else
      (if steps[0].Offer? then
         var data := steps[0].data;
         [Frame(steps[0].kind, if |data| <= 528 then data else data[..528])]
       else []) + Offers(steps[1..])
  }

  /** BT frames around the payloads of one sender, Spinel frames around those of the other. */
  function Framed(kind: Byte, payloads: seq<seq<Byte>>): (fs: seq<Frame>)
    ensures |fs| == |payloads| && forall i :: 0 <= i < |fs| ==> fs[i] == Frame(kind, payloads[i])
  {
    seq(|payloads|, i requires 0 <= i < |payloads| => Frame(kind, payloads[i]))
  }

  lemma StepRecords(s: State, st: Step)
    requires Enabled(s, st)
    ensures var s' := Next(s, st);
            && s'.submitted.bt == s.submitted.bt + Framed(7, Calls([st], BtSender))
            && s'.submitted.spinel == s.submitted.spinel + Framed(8, Calls([st], SpinelSender))
            && s'.offered == s.offered + Offers([st])
  {
    hide Serialise;
    assert [st][1..] == [];
    assert Framed(7, []) == [] && Framed(8, []) == [];
    if st.Submit? {
      assert Framed(7, [st.payload]) == [Frame(7, st.payload)] && Framed(8, [st.payload]) == [Frame(8, st.payload)];
    }
  }

  lemma FramedAppend(kind: Byte, a: seq<seq<Byte>>, b: seq<seq<Byte>>)
    ensures Framed(kind, a + b) == Framed(kind, a) + Framed(kind, b)
  {
  }

  lemma CallsFirst(steps: seq<Step>, w: Writer)
    requires steps != []
    ensures Calls(steps, w) == Calls([steps[0]], w) + Calls(steps[1..], w)
  {
    assert [steps[0]][1..] == [];
  }

  lemma OffersFirst(steps: seq<Step>)
    requires steps != []
    ensures Offers(steps) == Offers([steps[0]]) + Offers(steps[1..])
  {
    assert [steps[0]][1..] == [];
  }

  lemma {:induction false} RunRecords(s: State, steps: seq<Step>)
    requires Possible(s, steps)
    ensures var s' := Run(s, steps);
            && s'.submitted.bt == s.submitted.bt + Framed(7, Calls(steps, BtSender))
            && s'.submitted.spinel == s.submitted.spinel + Framed(8, Calls(steps, SpinelSender))
            && s'.offered == s.offered + Offers(steps)
    decreases |steps|
  {
    if steps == [] {
      assert Framed(7, []) == [] && Framed(8, []) == [];
    } else {
      var st, later := [steps[0]], steps[1..];
      StepRecords(s, steps[0]);
      RunRecords(Next(s, steps[0]), later);
      hide Next;
      hide Enabled;
      CallsFirst(steps, BtSender);
      CallsFirst(steps, SpinelSender);
      OffersFirst(steps);
      hide Calls;
      hide Offers;
      FramedAppend(7, Calls(st, BtSender), Calls(later, BtSender));
      FramedAppend(8, Calls(st, SpinelSender), Calls(later, SpinelSender));
      hide Framed;
      Assoc(s.submitted.bt, Framed(7, Calls(st, BtSender)), Framed(7, Calls(later, BtSender)));
      Assoc(s.submitted.spinel, Framed(8, Calls(st, SpinelSender)), Framed(8, Calls(later, SpinelSender)));
      Assoc(s.offered, Offers(st), Offers(later));
    }
  }

  /** Main theorem: over every run, what has been taken from the callers is exactly what they passed,
      in order, in frames of the type they asked for. */
  lemma TakenAsPassed(steps: seq<Step>)
    requires Possible(START, steps)
    ensures var s := Run(START, steps);
            && s.submitted.bt == Framed(7, Calls(steps, BtSender))
            && s.submitted.spinel == Framed(8, Calls(steps, SpinelSender))
            && s.offered == Offers(steps)
  {
    RunRecords(START, steps);
    hide Run;
    hide Framed;
  }

  /** Main theorem: wire safety. In every state of every run the wire is the finished writes and the
      start of at most one frame, and the frames of each reliable sender, written and being written,
      are those it was called for, in order. */
  lemma WireSafety(steps: seq<Step>)
    requires Possible(START, steps)
    ensures var s := Run(START, steps);
            && Inv(s)
            && By(s.log, BtSender) + Pending(s.jobs.bt) == Framed(7, Calls(steps, BtSender))
            && By(s.log, SpinelSender) + Pending(s.jobs.spinel) == Framed(8, Calls(steps, SpinelSender))
  {
    StartHolds();
    RunKeeps(START, steps);
    TakenAsPassed(steps);
    hide Run;
    hide Framed;
    hide By;
    hide Serialised;
    hide Typed;
  }

  // ---- what the droppable queue loses -------------------------------------------------------

  /** a is b with some elements left out. */
  predicate Sub(a: seq<Frame>, b: seq<Frame>)
    decreases |b|
  {
    if a == [] then true
    else if b == [] then false
    else
      || (a[|a| - 1] == b[|b| - 1] && Sub(a[..|a| - 1], b[..|b| - 1]))
      || Sub(a, b[..|b| - 1])
  }

  /** No frame is offered while sixteen are waiting. */
  ghost predicate NeverFull(s: State, steps: seq<Step>)
    requires Possible(s, steps)
    decreases |steps|
  {
    steps == [] ||
    ((steps[0].Offer? ==> |s.queue| < 16) && NeverFull(Next(s, steps[0]), steps[1..]))
  }

  lemma OfferKeeps(s: State, st: Step)
    requires Sub(s.accepted, s.offered) && Enabled(s, st)
    ensures var s' := Next(s, st);
            && Sub(s'.accepted, s'.offered)
            && (|s'.offered| - |s'.accepted| == |s.offered| - |s.accepted|
                  + if st.Offer? && |s.queue| >= MUX_TX_Q_DEPTH then 1 else 0)
  {
    hide Serialise;
    if st.Offer? {
      hide Sub;
      SubAppend(s.accepted, s.offered, Frame(st.kind, Truncate(st.data)));
    }
  }

  lemma SubAppend(a: seq<Frame>, b: seq<Frame>, f: Frame)
    requires Sub(a, b)
    ensures Sub(a, b + [f]) && Sub(a + [f], b + [f])
  {
    assert (a + [f])[..|a|] == a && (b + [f])[..|b|] == b;
  }

  lemma {:induction false} SubWhole(a: seq<Frame>, b: seq<Frame>)
    requires Sub(a, b)
    ensures |a| <= |b| && (|a| == |b| ==> a == b)
    decreases |b|
  {
    if a != [] {
      var before := b[..|b| - 1];
      if Sub(a, before) {
        SubWhole(a, before);
      } else {
        SubWhole(a[..|a| - 1], before);
      }
    }
  }

  lemma {:induction false} LossCounted(s: State, steps: seq<Step>)
    requires Possible(s, steps) && Sub(s.accepted, s.offered)
    ensures var s' := Run(s, steps);
            && Sub(s'.accepted, s'.offered)
            && |s'.offered| - |s'.accepted| >= |s.offered| - |s.accepted|
            && (|s'.offered| - |s'.accepted| == |s.offered| - |s.accepted| <==> NeverFull(s, steps))
    decreases |steps|
  {
    if steps != [] {
      OfferKeeps(s, steps[0]);
      LossCounted(Next(s, steps[0]), steps[1..]);
      hide Next;
      hide Enabled;
      hide Sub;
    }
  }

  /** Logs and replies may be dropped, but only before they are queued, and are never reordered: the
      frames written, being written and waiting are those offered, in order, with some left out; and
      none is left out if and only if none was offered while sixteen were waiting. */
  lemma DroppedExactly(steps: seq<Step>)
    requires Possible(START, steps)
    ensures var s := Run(START, steps);
            var kept := By(s.log, Drainer) + Pending(s.jobs.drainer) + s.queue;
            Sub(kept, Offers(steps)) && (kept == Offers(steps) <==> NeverFull(START, steps))
  {
    TakenAsPassed(steps);
    WireSafety(steps);
    LossCounted(START, steps);
    var s := Run(START, steps);
    SubWhole(s.accepted, s.offered);
    hide Run;
    hide Sub;
    hide By;
  }
}
