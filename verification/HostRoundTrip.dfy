/** The host's promise on a clean stream: exact delivery under every chunking. */
module HostRoundTrip {
  import opened Bytes
  import opened MuxWire
  import opened HostParser

  // ---- round trip ---------------------------------------------------------------------------

  lemma JudgeWhole(f: Frame, rest: seq<Byte>)
    requires Clean(f)
    ensures Judge(Serialise(f) + rest) == Deliver(f)
  {
    HeaderOf(f, rest);
  }

  lemma ParseWhole(f: Frame, rest: seq<Byte>)
    requires Clean(f)
    ensures Parse(Serialise(f) + rest) == Parse(rest).After(Dispatched(f))
  {
    JudgeWhole(f, rest);
    HeaderOf(f, rest);
  }

  lemma JudgePartial(p: seq<Byte>, fs: seq<Frame>)
    requires AllClean(fs) && Partial(p, fs) && HDR_LEN <= |p|
    ensures Judge(p) == Wait
  {
    PartialIsTailFree(p, fs);
    assert Clean(fs[0]);
    HeaderOf(fs[0], Stream(fs[1..]));
    assert p[1] == Stream(fs)[1] && p[2] == Stream(fs)[2];
  }

  /** Whole clean frames followed by an incomplete one: all are dispatched, the rest is kept. */
  lemma {:induction false} ParseStream(fs: seq<Frame>, p: seq<Byte>, next: seq<Frame>)
    requires AllClean(fs) && AllClean(next) && Partial(p, next)
    ensures Parse(Stream(fs) + p) == Parsed(Dispatches(fs), p)
  {
    if fs == [] {
      assert Stream(fs) + p == p;
      if HDR_LEN <= |p| {
        JudgePartial(p, next);
      }
    } else {
      Assoc(Serialise(fs[0]), Stream(fs[1..]), p);
      ParseWhole(fs[0], Stream(fs[1..]) + p);
      ParseStream(fs[1..], p, next);
      assert Dispatches(fs) == [Dispatched(fs[0])] + Dispatches(fs[1..]);
    }
  }

  /** h is on a boundary with fs still to come. */
  ghost predicate OnBoundary(h: Host, fs: seq<Frame>) {
    Partial(h.buf, fs)
  }

  /** Having read input, h has become h', which dispatched the first k frames of fs and only them. */
  ghost predicate Delivered(h: Host, input: seq<Byte>, fs: seq<Frame>, k: nat, h': Host) {
    && k <= |fs|
    && h'.events == h.events + Dispatches(fs[..k])
    && h.buf + input == Stream(fs[..k]) + h'.buf
    && OnBoundary(h', fs[k..])
  }

  lemma CleanRead(h: Host, fs: seq<Frame>, chunk: seq<Byte>) returns (k: nat)
    requires AllClean(fs) && OnBoundary(h, fs) && h.buf + chunk <= Stream(fs)
    ensures Delivered(h, chunk, fs, k, h.Read(chunk))
  {
    BoundaryNotFull(h, fs);
    k := WholeFrames(fs, |h.buf + chunk|);
    var p := SplitPrefix(fs, h.buf + chunk);
    ParseStream(fs[..k], p, fs[k..]);
  }

  lemma DeliveredTwice(h: Host, a: seq<Byte>, fs: seq<Frame>, k: nat, h1: Host,
                       b: seq<Byte>, k': nat, h2: Host)
    requires Delivered(h, a, fs, k, h1) && Delivered(h1, b, fs[k..], k', h2)
    ensures Delivered(h, a + b, fs, k + k', h2)
  {
    var s, s' := Stream(fs[..k]), Stream(fs[k..][..k']);
    Compose(fs, k, k');
    Assoc(h.buf, a, b);
    Assoc(s, h1.buf, b);
    Assoc(s, s', h2.buf);
    Assoc(h.events, Dispatches(fs[..k]), Dispatches(fs[k..][..k']));
  }

  lemma {:induction false} CleanReads(h: Host, fs: seq<Frame>, chunks: seq<seq<Byte>>) returns (k: nat)
    requires AllClean(fs) && OnBoundary(h, fs)
    requires h.buf + Flatten(chunks) <= Stream(fs)
    ensures Delivered(h, Flatten(chunks), fs, k, Reads(h, chunks))
    decreases |chunks|
  {
    hide Serialise;
    hide Parse;
    if chunks == [] {
      k := 0;
      assert fs[0..] == fs;
    } else {
      var c, more := chunks[0], Flatten(chunks[1..]);
      Assoc(h.buf, c, more);
      PrefixOfPrefix(h.buf + c, more, Stream(fs));
      k := CleanRead(h, fs, c);
      StreamRemainder(fs, k, h.Read(c).buf, more);
      var k' := CleanReads(h.Read(c), fs[k..], chunks[1..]);
      DeliveredTwice(h, c, fs, k, h.Read(c), more, k', Reads(h, chunks));
      k := k + k';
    }
  }

  lemma Compose(fs: seq<Frame>, k: nat, k': nat)
    requires k + k' <= |fs|
    ensures Stream(fs[..k + k']) == Stream(fs[..k]) + Stream(fs[k..][..k'])
    ensures Dispatches(fs[..k + k']) == Dispatches(fs[..k]) + Dispatches(fs[k..][..k'])
    ensures fs[k..][k'..] == fs[k + k'..] && fs[k..][..k'] == fs[k..k + k']
  {
    assert fs[..k + k'] == fs[..k] + fs[k..][..k'];
    StreamAppend(fs[..k], fs[k..][..k']);
  }

  lemma BoundaryNotFull(h: Host, fs: seq<Frame>)
    requires AllClean(fs) && OnBoundary(h, fs)
    ensures |h.buf| < ACC_SZ && h.AfterReset() == h
  {
    if fs != [] {
      assert Clean(fs[0]);
    }
  }

  /** Main theorem: however a clean stream is cut into reads, the host dispatches exactly the frames
      that have arrived whole, in order and once each, skips nothing, and keeps the rest. */
  lemma RoundTrip(fs: seq<Frame>, chunks: seq<seq<Byte>>)
    requires AllClean(fs) && Flatten(chunks) <= Stream(fs)
    ensures var h := Reads(START, chunks);
            var k := WholeFrames(fs, |Flatten(chunks)|);
            && h.events == Dispatches(fs[..k])
            && Flatten(chunks) == Stream(fs[..k]) + h.buf
    ensures Flatten(chunks) == Stream(fs) ==> Reads(START, chunks) == Host([], Dispatches(fs))
  {
    assert START.buf + Flatten(chunks) == Flatten(chunks);
    var k := CleanReads(START, fs, chunks);
    var h := Reads(START, chunks);
    SplitUnique(fs, k, h.buf);
    if Flatten(chunks) == Stream(fs) {
      assert fs[|fs|..] == [] && fs[..|fs|] == fs;
      SplitUnique(fs, |fs|, []);
      assert Stream(fs) + [] == Stream(fs);
    }
  }
}
