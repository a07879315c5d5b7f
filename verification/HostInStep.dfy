/** Exactly when a host that starts off the frame boundaries gets back onto them, over whole runs. From
    the head of its buffer on, the bytes are x, up to the first boundary, and then clean frames. */
module HostInStep {
  import opened Bytes
  import opened MuxWire
  import opened HostParser
  import opened HostRoundTrip
  import opened HostResync

  /** n bytes further on, the bytes up to the next boundary, and the frames behind it. */
  function Ahead(x: seq<Byte>, fs: seq<Frame>, n: nat): (seq<Byte>, seq<Frame>)
    decreases |fs|
  {
    if n <= |x| then (x[n..], fs)
    else if fs == [] then ([], [])
    else Ahead(Serialise(fs[0]), fs[1..], n - |x|)
  }

  /** n bytes further on there is a boundary. */
  ghost predicate InStep(x: seq<Byte>, fs: seq<Frame>, n: nat) {
    exists k: nat :: k <= |fs| && n == |x| + |Stream(fs[..k])|
  }

  /** The read that returns chunk, after the reads before, recovers by its own garbage, what is
      buffered up to the next boundary, and its own clean bytes behind that boundary. */
  ghost predicate RecoversBy(h: Host, x: seq<Byte>, fs: seq<Frame>, before: seq<seq<Byte>>, chunk: seq<Byte>) {
    var r := Reads(h, before).AfterReset();
    var (g, ahead) := Ahead(x, fs, |EventBytes(r.events)|);
    |g| <= |r.buf + chunk| && Recovers(g, (r.buf + chunk)[|g|..], ahead)
  }

  // ---- positions ----------------------------------------------------------------------------

  lemma NextFrame(x: seq<Byte>, fs: seq<Frame>, n: nat)
    requires |x| < n && fs != []
    ensures InStep(x, fs, n) <==> InStep(Serialise(fs[0]), fs[1..], n - |x|)
  {
    hide Serialise;
    if InStep(x, fs, n) {
      var k: nat :| k <= |fs| && n == |x| + |Stream(fs[..k])|;
      assert k != 0;
      StreamTake(fs, k);
      assert n - |x| == |Serialise(fs[0])| + |Stream(fs[1..][..k - 1])|;
    }
    if InStep(Serialise(fs[0]), fs[1..], n - |x|) {
      var k: nat :| k <= |fs[1..]| && n - |x| == |Serialise(fs[0])| + |Stream(fs[1..][..k])|;
      StreamTake(fs, k + 1);
    }
  }

  lemma {:induction false} AheadSplits(x: seq<Byte>, fs: seq<Frame>, n: nat)
    requires AllClean(fs) && n <= |x + Stream(fs)|
    ensures var (g, ahead) := Ahead(x, fs, n);
            g + Stream(ahead) == (x + Stream(fs))[n..] && AllClean(ahead)
    decreases |fs|
  {
    hide Serialise;
    if |x| < n {
      assert (x + Stream(fs))[n..] == Stream(fs)[n - |x|..];
      AheadSplits(Serialise(fs[0]), fs[1..], n - |x|);
    } else {
      assert (x + Stream(fs))[n..] == x[n..] + Stream(fs);
    }
  }

  lemma {:induction false} AheadInStep(x: seq<Byte>, fs: seq<Frame>, n: nat, m: nat)
    requires n <= |x + Stream(fs)|
    ensures InStep(x, fs, n + m) <==> InStep(Ahead(x, fs, n).0, Ahead(x, fs, n).1, m)
    decreases |fs|
  {
    hide Serialise;
    if |x| < n {
      NextFrame(x, fs, n + m);
      AheadInStep(Serialise(fs[0]), fs[1..], n - |x|, m);
    }
  }

  /** What follows the first |done| bytes lies ahead of them. */
  lemma RestAhead(x: seq<Byte>, fs: seq<Frame>, done: seq<Byte>, rest: seq<Byte>)
    requires AllClean(fs) && done + rest <= x + Stream(fs)
    ensures var (g, ahead) := Ahead(x, fs, |done|);
            rest <= g + Stream(ahead) && AllClean(ahead)
    ensures |done| <= |x + Stream(fs)|
  {
    hide Stream;
    hide Ahead;
    hide AllClean;
    Beyond(done, rest, x + Stream(fs));
    AheadSplits(x, fs, |done|);
  }

  lemma Beyond(done: seq<Byte>, rest: seq<Byte>, all: seq<Byte>)
    requires done + rest <= all
    ensures |done| <= |all| && rest <= all[|done|..]
  {
    PrefixOfPrefix(done, rest, all);
    assert all == done + all[|done|..];
    CancelPrefix(done, rest, all[|done|..]);
  }

  // ---- one read -----------------------------------------------------------------------------

  /** What one call consumes ends on a boundary if and only if it recovers. */
  lemma ReadInStep(g: seq<Byte>, fs: seq<Frame>, s: seq<Byte>)
    requires AllClean(fs) && s <= g + Stream(fs)
    ensures InStep(g, fs, |EventBytes(Parse(s).events)|) <==> |g| <= |s| && Recovers(g, s[|g|..], fs)
  {
    hide Parse;
    hide Serialise;
    ParseConserves(s);
    if |g| <= |s| {
      var p := s[|g|..];
      assert s == g + p;
      CancelPrefix(g, p, Stream(fs));
      ResyncExact(g, p, fs);
      hide Recovers;
      SameBoundary(g, p, fs, EventBytes(Parse(s).events), Parse(s).rest);
    }
  }

  lemma SameBoundary(g: seq<Byte>, p: seq<Byte>, fs: seq<Frame>, done: seq<Byte>, rest: seq<Byte>)
    requires p <= Stream(fs) && done + rest == g + p
    ensures AtBoundary(rest, p, fs) <==> InStep(g, fs, |done|)
  {
    if AtBoundary(rest, p, fs) {
      var k: nat :| k <= |fs| && p == Stream(fs[..k]) + rest;
      assert |done| == |g| + |Stream(fs[..k])|;
    }
    if InStep(g, fs, |done|) {
      var k: nat :| k <= |fs| && |done| == |g| + |Stream(fs[..k])|;
      StreamSplit(fs, k);
      assert p == (done + rest)[|g|..];
      assert p[..|Stream(fs[..k])|] == Stream(fs[..k]);
      assert p[|Stream(fs[..k])|..] == (done + rest)[|done|..] == rest;
    }
  }

  lemma ResetConserves(h: Host)
    ensures var r := h.AfterReset();
            EventBytes(r.events) + r.buf == EventBytes(h.events) + h.buf
  {
    if h.AfterReset() != h {
      EventCons(Discarded(h.buf), []);
      EventBytesAppend(h.events, [Discarded(h.buf)]);
    }
  }

  /** After some reads and the reset, what is buffered and what comes next follow what is done. */
  lemma Buffered(h: Host, before: seq<seq<Byte>>, more: seq<Byte>)
    requires h.events == []
    ensures var h1, r := Reads(h, before), Reads(h, before).AfterReset();
            && EventBytes(r.events) + (r.buf + more) == h.buf + Flatten(before) + more
            && EventBytes(h1.events) + (h1.buf + more) == h.buf + Flatten(before) + more
  {
    ReadsConserve(h, before);
    var h1 := Reads(h, before);
    hide Reads;
    ResetConserves(h1);
    var r := h1.AfterReset();
    assert [] + h.buf == h.buf;
    Assoc(EventBytes(r.events), r.buf, more);
    Assoc(EventBytes(h1.events), h1.buf, more);
  }

  /** After a read the head is on a boundary if and only if that read recovers. */
  lemma LastRead(h: Host, x: seq<Byte>, fs: seq<Frame>, before: seq<seq<Byte>>, chunk: seq<Byte>)
    requires AllClean(fs) && h.events == [] && h.buf + Flatten(before) + chunk <= x + Stream(fs)
    ensures InStep(x, fs, |EventBytes(Reads(h, before).Read(chunk).events)|) <==> RecoversBy(h, x, fs, before, chunk)
  {
    hide Parse;
    hide Recovers;
    hide InStep;
    hide Stream;
    hide Reads;
    hide EventBytes;
    hide Ahead;
    hide AllClean;
    Buffered(h, before, chunk);
    var r := Reads(h, before).AfterReset();
    var done, s := EventBytes(r.events), r.buf + chunk;
    RestAhead(x, fs, done, s);
    var (g, ahead) := Ahead(x, fs, |done|);
    ReadInStep(g, ahead, s);
    EventBytesAppend(r.events, Parse(s).events);
    AheadInStep(x, fs, |done|, |EventBytes(Parse(s).events)|);
  }

  // ---- whole runs ---------------------------------------------------------------------------

  lemma {:induction false} ReadsLast(h: Host, before: seq<seq<Byte>>, chunk: seq<Byte>)
    ensures Reads(h, before + [chunk]) == Reads(h, before).Read(chunk)
    decreases |before|
  {
    hide Parse;
    if before == [] {
      assert before + [chunk] == [chunk];
    } else {
      assert (before + [chunk])[1..] == before[1..] + [chunk];
      ReadsLast(h.Read(before[0]), before[1..], chunk);
    }
  }

  lemma FlattenLast(before: seq<seq<Byte>>, chunk: seq<Byte>)
    ensures Flatten(before + [chunk]) == Flatten(before) + chunk
  {
    FlattenAppend(before, [chunk]);
    assert [chunk][1..] == [];
    assert Flatten([chunk]) == chunk + [] == chunk;
  }

  /** A tail-free buffer on a boundary holds less than a frame. */
  lemma TailFreeIsPartial(b: seq<Byte>, fs: seq<Frame>)
    requires AllClean(fs) && b <= Stream(fs) && TailFree(b)
    ensures Partial(b, fs) && |b| < ACC_SZ
  {
    assert [] + b == b;
    if fs != [] {
      assert Clean(fs[0]);
      PayloadSize(fs[0]);
      if |Serialise(fs[0])| <= |b| {
        FirstTail([], b, fs);
      }
    }
    hide Serialise;
    hide Stream;
  }

  /** A host in step after at least one read has just the start of the next frame in its buffer. */
  lemma InStepOnBoundary(h: Host, x: seq<Byte>, fs: seq<Frame>, before: seq<seq<Byte>>)
    requires AllClean(fs) && h.events == [] && h.buf + Flatten(before) <= x + Stream(fs) && before != []
    requires InStep(x, fs, |EventBytes(Reads(h, before).events)|)
    ensures var h1 := Reads(h, before);
            var (g, ahead) := Ahead(x, fs, |EventBytes(h1.events)|);
            g == [] && AllClean(ahead) && OnBoundary(h1, ahead) && h1.AfterReset() == h1
  {
    hide Parse;
    hide InStep;
    hide Stream;
    hide Ahead;
    hide EventBytes;
    LastReadTailFree(h, before);
    Buffered(h, before, []);
    var h1 := Reads(h, before);
    hide Reads;
    var done := EventBytes(h1.events);
    assert h1.buf + [] == h1.buf && h.buf + Flatten(before) + [] == h.buf + Flatten(before);
    RestAhead(x, fs, done, h1.buf);
    AheadInStep(x, fs, |done|, 0);
    var (g, ahead) := Ahead(x, fs, |done|);
    NoneLeft(g, ahead);
    TailFreeIsPartial(h1.buf, ahead);
  }

  lemma NoneLeft(g: seq<Byte>, fs: seq<Frame>)
    requires InStep(g, fs, 0)
    ensures g == [] && g + Stream(fs) == Stream(fs)
  {
    hide Stream;
  }

  lemma LastReadTailFree(h: Host, before: seq<seq<Byte>>)
    requires before != []
    ensures TailFree(Reads(h, before).buf)
  {
    hide Parse;
    var last := |before| - 1;
    assert before == before[..last] + [before[last]];
    ReadsLast(h, before[..last], before[last]);
    ParseRest(Reads(h, before[..last]).AfterReset().buf + before[last]);
    hide Reads;
    hide TailFree;
  }

  /** Once in step, always in step. */
  lemma StaysInStep(h: Host, x: seq<Byte>, fs: seq<Frame>, before: seq<seq<Byte>>, chunk: seq<Byte>)
    requires AllClean(fs) && h.events == [] && h.buf + Flatten(before) + chunk <= x + Stream(fs) && before != []
    requires InStep(x, fs, |EventBytes(Reads(h, before).events)|)
    ensures RecoversBy(h, x, fs, before, chunk)
  {
    PrefixOfPrefix(h.buf + Flatten(before), chunk, x + Stream(fs));
    InStepOnBoundary(h, x, fs, before);
    hide Reads;
  }

  /** Main theorem: after any run of reads, the head of the buffer is on a boundary if and only if one
      of the reads recovered by its own garbage and clean bytes. */
  lemma {:induction false} RunExact(h: Host, x: seq<Byte>, fs: seq<Frame>, chunks: seq<seq<Byte>>)
    requires AllClean(fs) && h.events == [] && h.buf + Flatten(chunks) <= x + Stream(fs) && chunks != []
    ensures InStep(x, fs, |EventBytes(Reads(h, chunks).events)|)
            <==> exists i :: 0 <= i < |chunks| && RecoversBy(h, x, fs, chunks[..i], chunks[i])
    decreases |chunks|
  {
    hide InStep;
    hide RecoversBy;
    hide Reads;
    hide Stream;
    var last := |chunks| - 1;
    var before, chunk := chunks[..last], chunks[last];
    assert chunks == before + [chunk];
    ReadsLast(h, before, chunk);
    FlattenLast(before, chunk);
    Assoc(h.buf, Flatten(before), chunk);
    LastRead(h, x, fs, before, chunk);
    if i :| 0 <= i < last && RecoversBy(h, x, fs, chunks[..i], chunks[i]) {
      PrefixOfPrefix(h.buf + Flatten(before), chunk, x + Stream(fs));
      assert before[..i] == chunks[..i] && before[i] == chunks[i];
      RunExact(h, x, fs, before);
      StaysInStep(h, x, fs, before, chunk);
    }
  }

  /** ... and from the first such read on, exactly the frames ahead are delivered. */
  lemma InStepDelivers(h: Host, x: seq<Byte>, fs: seq<Frame>, before: seq<seq<Byte>>, later: seq<seq<Byte>>)
    requires AllClean(fs) && h.events == [] && h.buf + (Flatten(before) + Flatten(later)) <= x + Stream(fs)
    requires before != [] && InStep(x, fs, |EventBytes(Reads(h, before).events)|)
    ensures var h1, h' := Reads(h, before), Reads(Reads(h, before), later);
            var ahead := Ahead(x, fs, |EventBytes(h1.events)|).1;
            h'.events == h1.events + Dispatches(ahead[..WholeFrames(ahead, |h1.buf + Flatten(later)|)])
  {
    hide Reads;
    hide Parse;
    hide Stream;
    hide InStep;
    hide Ahead;
    hide EventBytes;
    hide Partial;
    var h1 := Reads(h, before);
    Assoc(h.buf, Flatten(before), Flatten(later));
    PrefixOfPrefix(h.buf + Flatten(before), Flatten(later), x + Stream(fs));
    InStepOnBoundary(h, x, fs, before);
    Buffered(h, before, Flatten(later));
    RestAhead(x, fs, EventBytes(h1.events), h1.buf + Flatten(later));
    var ahead := Ahead(x, fs, |EventBytes(h1.events)|).1;
    assert [] + Stream(ahead) == Stream(ahead);
    var k := CleanReads(h1, ahead, later);
    SplitUnique(ahead, k, Reads(h1, later).buf);
  }
}
