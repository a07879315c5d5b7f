/** The firmware's frame parser, on values. Unlike the host's it trusts the length and never looks at
    the tail, which makes it exact on every payload but unable to resync. */
module FwDemux {
  import opened Bytes
  import opened MuxWire

  const MUX_STAGING_SZ: nat := 1024

  predicate FitsStaging(f: Frame) {
    3 + |f.payload| + 9 <= 1024
  }

  ghost predicate AllFit(fs: seq<Frame>) {
    forall f :: f in fs ==> FitsStaging(f)
  }

  datatype Demuxed = Demuxed(frames: seq<Frame>, rest: seq<Byte>) {
    function After(f: Frame): Demuxed {
      Demuxed([f] + frames, rest)
    }
  }

  /** One round of the parse loop over the staged bytes. An impossible length flushes them all. */
  function Demux(s: seq<Byte>): Demuxed
    decreases |s|
  {
    if |s| < HDR_LEN then Demuxed([], s)
    else
      var len := U16(s[1], s[2]);
      var size := HDR_LEN + len + TAIL_LEN;
      if size > MUX_STAGING_SZ then Demuxed([], [])
      else if |s| < size then Demuxed([], s)
      else Demux(s[size..]).After(Frame(s[0], s[HDR_LEN..HDR_LEN + len]))
  }

  /** mux_rx_task between two receives. */
  datatype Rx = Rx(staging: seq<Byte>, frames: seq<Frame>) {
    function Receive(chunk: seq<Byte>): Rx {
      var d := Demux(staging + chunk);
      Rx(d.rest, frames + d.frames)
    }
  }

  function Receives(r: Rx, chunks: seq<seq<Byte>>): Rx
    decreases |chunks|
  {
    if chunks == [] then r else Receives(r.Receive(chunks[0]), chunks[1..])
  }

  /** On every stream, clean or not, there is room for at least one more byte at each receive. */
  lemma {:induction false} StagingBound(s: seq<Byte>)
    ensures |Demux(s).rest| < MUX_STAGING_SZ
    decreases |s|
  {
    if HDR_LEN <= |s| && HDR_LEN + U16(s[1], s[2]) + TAIL_LEN <= |s| {
      StagingBound(s[HDR_LEN + U16(s[1], s[2]) + TAIL_LEN..]);
    }
  }

  // ---- exactness ----------------------------------------------------------------------------

  lemma DemuxWhole(f: Frame, rest: seq<Byte>)
    requires FitsStaging(f)
    ensures Demux(Serialise(f) + rest) == Demux(rest).After(f)
  {
    HeaderOf(f, rest);
  }

  lemma DemuxPartial(p: seq<Byte>, fs: seq<Frame>)
    requires AllFit(fs) && Partial(p, fs)
    ensures Demux(p) == Demuxed([], p)
  {
    if HDR_LEN <= |p| {
      assert FitsStaging(fs[0]);
      HeaderOf(fs[0], Stream(fs[1..]));
      assert p[1] == Stream(fs)[1] && p[2] == Stream(fs)[2];
    }
  }

  lemma {:induction false} DemuxStream(fs: seq<Frame>, p: seq<Byte>, next: seq<Frame>)
    requires AllFit(fs) && AllFit(next) && Partial(p, next)
    ensures Demux(Stream(fs) + p) == Demuxed(fs, p)
  {
    if fs == [] {
      assert Stream(fs) + p == p;
      DemuxPartial(p, next);
    } else {
      Assoc(Serialise(fs[0]), Stream(fs[1..]), p);
      DemuxWhole(fs[0], Stream(fs[1..]) + p);
      DemuxStream(fs[1..], p, next);
    }
  }

  /** A header that claims more than 1012 bytes of payload costs everything staged from there on, and
      nothing before it. */
  lemma {:induction false} FlushedByLength(fs: seq<Frame>, b: seq<Byte>)
    requires AllFit(fs) && |b| >= 3 && b[1] as int + 256 * b[2] as int > 1012
    ensures Demux(Stream(fs) + b) == Demuxed(fs, [])
  {
    if fs == [] {
      assert Stream(fs) + b == b;
    } else {
      Assoc(Serialise(fs[0]), Stream(fs[1..]), b);
      DemuxWhole(fs[0], Stream(fs[1..]) + b);
      FlushedByLength(fs[1..], b);
    }
  }

  ghost predicate Received(r: Rx, input: seq<Byte>, fs: seq<Frame>, k: nat, r': Rx) {
    && k <= |fs|
    && r'.frames == r.frames + fs[..k]
    && r.staging + input == Stream(fs[..k]) + r'.staging
    && Partial(r'.staging, fs[k..])
  }

  lemma {:induction false} ExactReceives(r: Rx, fs: seq<Frame>, chunks: seq<seq<Byte>>) returns (k: nat)
    requires AllFit(fs) && Partial(r.staging, fs) && r.staging + Flatten(chunks) <= Stream(fs)
    ensures Received(r, Flatten(chunks), fs, k, Receives(r, chunks))
    decreases |chunks|
  {
    hide Serialise;
    hide Demux;
    if chunks == [] {
      k := 0;
      assert fs[0..] == fs;
    } else {
      var c, more := chunks[0], Flatten(chunks[1..]);
      Assoc(r.staging, c, more);
      PrefixOfPrefix(r.staging + c, more, Stream(fs));
      k := WholeFrames(fs, |r.staging + c|);
      var p := SplitPrefix(fs, r.staging + c);
      DemuxStream(fs[..k], p, fs[k..]);
      var r1 := r.Receive(c);
      StreamRemainder(fs, k, r1.staging, more);
      var k' := ExactReceives(r1, fs[k..], chunks[1..]);
      ReceivedTwice(r, c, fs, k, r1, more, k', Receives(r, chunks));
      k := k + k';
    }
  }

  lemma ReceivedTwice(r: Rx, a: seq<Byte>, fs: seq<Frame>, k: nat, r1: Rx,
                      b: seq<Byte>, k': nat, r2: Rx)
    requires Received(r, a, fs, k, r1) && Received(r1, b, fs[k..], k', r2)
    ensures Received(r, a + b, fs, k + k', r2)
  {
    hide Serialise;
    hide Stream;
    var s, s' := Stream(fs[..k]), Stream(fs[k..][..k']);
    assert fs[k..][..k'] == fs[k..k + k'] && fs[k..][k'..] == fs[k + k'..];
    assert fs[..k + k'] == fs[..k] + fs[k..k + k'];
    StreamSlice(fs, k, k + k');
    Assoc(r.staging, a, b);
    Assoc(s, r1.staging, b);
    Assoc(s, s', r2.staging);
  }

  /** Main theorem: for frames of up to 1024 bytes in all, whatever their payloads, and however the
      stream is cut, exactly the frames that have arrived whole are dispatched, in order. */
  lemma DemuxExact(fs: seq<Frame>, chunks: seq<seq<Byte>>)
    requires AllFit(fs) && Flatten(chunks) <= Stream(fs)
    ensures var r := Receives(Rx([], []), chunks);
            var k := WholeFrames(fs, |Flatten(chunks)|);
            r.frames == fs[..k] && Flatten(chunks) == Stream(fs[..k]) + r.staging
    ensures Flatten(chunks) == Stream(fs) ==> Receives(Rx([], []), chunks) == Rx([], fs)
  {
    var k := ExactReceives(Rx([], []), fs, chunks);
    var r := Receives(Rx([], []), chunks);
    assert [] + Flatten(chunks) == Flatten(chunks);
    SplitUnique(fs, k, r.staging);
    if Flatten(chunks) == Stream(fs) {
      assert fs[|fs|..] == [] && fs[..|fs|] == fs;
      SplitUnique(fs, |fs|, []);
      assert Stream(fs) + [] == Stream(fs);
    }
  }

  // ---- dispatch -----------------------------------------------------------------------------

  /** Where mux_demux_frame sends payloads: the BT reassembler, the NCP, and replies offered to the
      droppable transmit queue. */
  datatype Sinks = Sinks(bt: seq<seq<Byte>>, ncp: seq<Byte>, replies: seq<Frame>)

  /** "mt2mqtt sync" and "PONG", each with its NUL. */
  const SYNC_REPLY: Frame := Frame(SYNC, [109, 116, 50, 109, 113, 116, 116, 32, 115, 121, 110, 99, 0])
  const PONG: Frame := Frame(PING, [80, 79, 78, 71, 0])

  function Dispatch(k: Sinks, f: Frame): Sinks {
    if f.kind == SYNC then k.(replies := k.replies + [SYNC_REPLY])
    else if f.kind == PING then k.(replies := k.replies + [PONG])
    else if f.kind == BT then k.(bt := k.bt + [f.payload])
    else if f.kind == SPINEL then k.(ncp := k.ncp + f.payload)
    else k
  }

  function DispatchAll(k: Sinks, fs: seq<Frame>): Sinks
    decreases |fs|
  {
    if fs == [] then k else DispatchAll(Dispatch(k, fs[0]), fs[1..])
  }

  /** One channel's share of a frame sequence. */
  function Payloads(fs: seq<Frame>, kind: Byte): seq<seq<Byte>> {
    if fs == [] then []
    else (if fs[0].kind == kind then [fs[0].payload] else []) + Payloads(fs[1..], kind)
  }

  lemma {:induction false} PayloadsAppend(a: seq<Frame>, b: seq<Frame>, kind: Byte)
    ensures Payloads(a + b, kind) == Payloads(a, kind) + Payloads(b, kind)
  {
    if a == [] {
      assert a + b == b;
    } else {
      assert (a + b)[1..] == a[1..] + b;
      PayloadsAppend(a[1..], b, kind);
    }
  }

  lemma PayloadsFirst(fs: seq<Frame>, kind: Byte)
    requires fs != []
    ensures var rest := Flatten(Payloads(fs[1..], kind));
            Flatten(Payloads(fs, kind)) == if fs[0].kind == kind then fs[0].payload + rest else rest
  {
    if fs[0].kind == kind {
      assert Payloads(fs, kind)[1..] == Payloads(fs[1..], kind);
    } else {
      assert Payloads(fs, kind) == Payloads(fs[1..], kind);
    }
  }

  /** The SYNCs and PINGs, in order. */
  function Requests(fs: seq<Frame>): seq<Frame> {
    if fs == [] then []
    else (if fs[0].kind == 4 || fs[0].kind == 5 then [fs[0]] else []) + Requests(fs[1..])
  }

  /** One reply each: a SYNC saying "mt2mqtt sync" for a SYNC, a PING saying "PONG" for a PING. */
  ghost predicate Answer(requests: seq<Frame>, replies: seq<Frame>) {
    && |replies| == |requests|
    && forall i :: 0 <= i < |replies| ==>
         replies[i] == if requests[i].kind == 4 then Sync() else Pong()
  }

  function Sync(): Frame {
    Frame(4, CString("mt2mqtt sync"))
  }

  function Pong(): Frame {
    Frame(5, CString("PONG"))
  }

  lemma Texts()
    ensures SYNC_REPLY == Sync() && PONG == Pong()
  {
    assert SYNC_REPLY.payload == CString("mt2mqtt sync");
    assert PONG.payload == CString("PONG");
  }

  lemma AnswerOne(k: Sinks, f: Frame)
    ensures |k.replies| <= |Dispatch(k, f).replies|
    ensures Dispatch(k, f).replies == k.replies + Dispatch(k, f).replies[|k.replies|..]
    ensures Answer(Requests([f]), Dispatch(k, f).replies[|k.replies|..])
  {
    Texts();
    hide Sync;
    hide Pong;
    assert Requests([f][1..]) == [];
    assert Requests([f]) == if f.kind == 4 || f.kind == 5 then [f] else [];
  }

  lemma AnswerAppend(a: seq<Frame>, b: seq<Frame>, x: seq<Frame>, y: seq<Frame>)
    requires Answer(a, x) && Answer(b, y)
    ensures Answer(a + b, x + y)
  {
    hide Sync;
    hide Pong;
  }

  lemma RequestsFirst(fs: seq<Frame>)
    requires fs != []
    ensures Requests(fs) == Requests([fs[0]]) + Requests(fs[1..])
  {
    assert [fs[0]][1..] == [];
  }

  lemma DispatchOne(k: Sinks, f: Frame, bt: seq<seq<Byte>>, ncp: seq<Byte>)
    ensures var k' := Dispatch(k, f);
            && k'.bt + bt == k.bt + (if f.kind == 7 then [f.payload] + bt else bt)
            && k'.ncp + ncp == k.ncp + (if f.kind == 8 then f.payload + ncp else ncp)
  {
    Assoc(k.bt, [f.payload], bt);
    Assoc(k.ncp, f.payload, ncp);
  }

  /** Each channel gets its own payloads in order, whatever else is interleaved with them: BT frames
      (7) go to the reassembler, Spinel frames (8) to the NCP, and SYNCs and PINGs are answered. */
  lemma {:induction false} ChannelsSeparate(k: Sinks, fs: seq<Frame>) returns (replies: seq<Frame>)
    ensures var k' := DispatchAll(k, fs);
            && k'.bt == k.bt + Payloads(fs, 7)
            && k'.ncp == k.ncp + Flatten(Payloads(fs, 8))
            && k'.replies == k.replies + replies && Answer(Requests(fs), replies)
    decreases |fs|
  {
    if fs == [] {
      replies := [];
    } else {
      var k1 := Dispatch(k, fs[0]);
      AnswerOne(k, fs[0]);
      RequestsFirst(fs);
      PayloadsFirst(fs, 8);
      DispatchOne(k, fs[0], Payloads(fs[1..], 7), Flatten(Payloads(fs[1..], 8)));
      hide Answer;
      hide Requests;
      hide Dispatch;
      hide Flatten;
      var later := ChannelsSeparate(k1, fs[1..]);
      var first := k1.replies[|k.replies|..];
      assert k1.replies == k.replies + first;
      Assoc(k.replies, first, later);
      replies := first + later;
      AnswerAppend(Requests([fs[0]]), Requests(fs[1..]), first, later);
    }
  }
}
