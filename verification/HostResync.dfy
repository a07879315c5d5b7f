/** How a host parser that is off the frame boundaries gets back onto them, and when it does not.
    Throughout, g is garbage at the head of the buffer and p, behind it, is a prefix of a clean
    stream. */
module HostResync {
  import opened Bytes
  import opened MuxWire
  import opened HostParser
  import opened HostRoundTrip

  /** A tail that ends past the garbage ends at a true frame boundary. */
  lemma {:induction false} TailIsBoundary(p: seq<Byte>, fs: seq<Frame>, i: nat) returns (j: nat)
    requires AllClean(fs) && p <= Stream(fs) && TailAt(p, i)
    ensures 1 <= j <= WholeFrames(fs, |p|)
    ensures i + TAIL_LEN == |Stream(fs[..j])|
    decreases |fs|
  {
    hide Serialise;
    var n := |Serialise(fs[0])|;
    var s := Stream(fs);
    assert p == s[0..|p|];
    TailWithin(s, i, 0, |p|);
    assert Clean(fs[0]);
    if i < n {
      TailEndsFrame(fs[0], Stream(fs[1..]), i);
      j := 1;
      StreamTake(fs, 1);
      assert fs[1..][..0] == [];
    } else {
      var p' := CutFirst(fs, p);
      assert p' == p[n..|p|];
      TailWithin(p, i, n, |p|);
      j := TailIsBoundary(p', fs[1..], i - n);
      j := j + 1;
      StreamTake(fs, j);
    }
  }

  lemma FirstTail(g: seq<Byte>, p: seq<Byte>, fs: seq<Frame>)
    requires fs != [] && p <= Stream(fs) && |Serialise(fs[0])| <= |p|
    ensures TailAt(g + p, |g| + |Serialise(fs[0])| - TAIL_LEN)
  {
    var q' := CutFirst(fs, p);
    var n := |Serialise(fs[0])|;
    assert (g + p)[|g| + n - TAIL_LEN..|g| + n] == p[n - TAIL_LEN..n] == Serialise(fs[0])[n - TAIL_LEN..n] == TAIL;
  }

  /** After a jump to z, just behind some tail of g + p: either still in the garbage, or on the
      boundary in front of frame j. */
  lemma Landing(g: seq<Byte>, p: seq<Byte>, fs: seq<Frame>, z: nat) returns (j: nat)
    requires AllClean(fs) && p <= Stream(fs)
    requires |g| < z && TailAt(g + p, z - TAIL_LEN)
    ensures 1 <= j <= WholeFrames(fs, |p|)
    ensures z == |g| + |Stream(fs[..j])|
    ensures Stream(fs[..j]) <= p && (g + p)[z..] == p[z - |g|..]
  {
    var s := g + p;
    if z - TAIL_LEN < |g| {
      TailNotAcrossBoundary(g, p, fs, z - TAIL_LEN);
    }
    assert p == s[|g|..|s|];
    TailWithin(s, z - TAIL_LEN, |g|, |s|);
    j := TailIsBoundary(p, fs, z - TAIL_LEN - |g|);
    assert fs == fs[..j] + fs[j..];
    StreamAppend(fs[..j], fs[j..]);
  }

  /** junk, what a desynced host makes of its garbage g, costs the first j frames behind it: it is
      exactly those bytes, and its last event starts in the garbage. No more than one frame is lost,
      unless that event is a frame dispatched from the garbage that reaches across the boundary. */
  ghost predicate Lost(junk: seq<Event>, j: nat, g: seq<Byte>, fs: seq<Frame>) {
    && j <= |fs| && EventBytes(junk) == g + Stream(fs[..j])
    && (0 < j ==> junk != [] && |EventBytes(junk[..|junk| - 1])| < |g|)
    && (1 < j ==> junk[|junk| - 1].Dispatched?)
  }

  /** r is the outcome of parsing p, a prefix of Stream(fs), from the start of frame j on: exactly the
      frames from there, and the head on a true boundary. */
  ghost predicate Aligned(r: Parsed, j: nat, p: seq<Byte>, fs: seq<Frame>) {
    var k := WholeFrames(fs, |p|);
    && j <= k
    && r.events == Dispatches(fs[j..k])
    && p == Stream(fs[..k]) + r.rest
    && Partial(r.rest, fs[k..])
  }

  /** The outcome of parsing garbage g and then p: junk up to the start of frame j, then aligned. */
  ghost predicate Realigned(r: Parsed, junk: seq<Event>, j: nat, g: seq<Byte>, p: seq<Byte>, fs: seq<Frame>) {
    && Lost(junk, j, g, fs)
    && junk <= r.events
    && Aligned(Parsed(r.events[|junk|..], r.rest), j, p, fs)
  }

  /** A hop inside the garbage. */
  lemma RealignedAfter(r: Parsed, e: Event, junk: seq<Event>, j: nat, g: seq<Byte>, p: seq<Byte>, fs: seq<Frame>)
    requires Realigned(r, junk, j, g, p, fs)
    ensures Realigned(r.After(e), [e] + junk, j, e.Bytes() + g, p, fs)
  {
    EventCons(e, junk);
    Assoc(e.Bytes(), g, Stream(fs[..j]));
    assert ([e] + r.events)[|[e] + junk|..] == r.events[|junk|..];
    if 0 < j {
      var last := |junk| - 1;
      EventCons(e, junk[..last]);
      assert ([e] + junk)[..|junk|] == [e] + junk[..last];
      assert ([e] + junk)[|junk|] == junk[last];
    }
    hide Aligned;
    hide EventBytes;
    hide Stream;
  }

  /** The hop out of the garbage, to the start of frame j. */
  lemma RealignedByHop(r: Parsed, e: Event, j: nat, g: seq<Byte>, p: seq<Byte>, fs: seq<Frame>)
    requires Aligned(r, j, p, fs) && j <= |fs|
    requires g != [] && e.Bytes() == g + Stream(fs[..j]) && (1 < j ==> e.Dispatched?)
    ensures Realigned(r.After(e), [e], j, g, p, fs)
  {
    EventCons(e, []);
    assert [e] + [] == [e] && [e][..0] == [];
    assert e.Bytes() + [] == e.Bytes();
    assert ([e] + r.events)[1..] == r.events;
    hide Aligned;
    hide Stream;
  }

  lemma CleanSlice(fs: seq<Frame>, j: nat, k: nat)
    requires j <= k <= |fs| && AllClean(fs)
    ensures AllClean(fs[j..k]) && (k == |fs| ==> fs[j..k] == fs[j..])
  {
    forall f | f in fs[j..k] ensures Clean(f) {
      assert f in fs;
    }
  }

  lemma ParseFromBoundary(p: seq<Byte>, fs: seq<Frame>, j: nat)
    requires AllClean(fs) && p <= Stream(fs)
    requires j <= WholeFrames(fs, |p|)
    ensures |Stream(fs[..j])| <= |p|
    ensures Aligned(Parse(p[|Stream(fs[..j])|..]), j, p, fs)
  {
    hide Serialise;
    hide Parse;
    hide Stream;
    var k := WholeFrames(fs, |p|);
    var rest := SplitPrefix(fs, p);
    StreamSlice(fs, j, k);
    DropFirst(Stream(fs[..j]), Stream(fs[j..k]), rest);
    CleanSlice(fs, j, k);
    CleanSlice(fs, k, |fs|);
    ParseStream(fs[j..k], rest, fs[k..]);
  }

  /** Main theorem: from any garbage g at the head of the buffer, one call that sees a whole clean
      frame behind it, followed only by clean bytes, delivers exactly the frames from some frame j on
      and ends on a true boundary; j is 0 or 1, unless a frame dispatched from the garbage reaches
      across the boundary. */
  lemma {:induction false} Resync(g: seq<Byte>, p: seq<Byte>, fs: seq<Frame>) returns (j: nat, junk: seq<Event>)
    requires AllClean(fs) && p <= Stream(fs)
    requires fs != [] && |Serialise(fs[0])| <= |p|
    ensures Realigned(Parse(g + p), junk, j, g, p, fs)
    decreases |g|
  {
    hide Realigned;
    hide Aligned;
    hide Parse;
    hide Serialise;
    hide TailAt;
    hide AllClean;
    if g == [] {
      j, junk := 0, [];
      assert g + p == p[|Stream(fs[..0])|..];
      ParseFromBoundary(p, fs, 0);
      NothingLostYet(Parse(p), p, fs);
    } else {
      FirstTail(g, p, fs);
      PayloadSize(fs[0]);
      var z, e := Hop(g + p);
      if z <= |g| {
        assert (g + p)[z..] == g[z..] + p && e.Bytes() == g[..z];
        j, junk := Resync(g[z..], p, fs);
        assert g[..z] + g[z..] == g;
        RealignedAfter(Parse(g[z..] + p), e, junk, j, g[z..], p, fs);
        junk := [e] + junk;
      } else {
        j := Landing(g, p, fs, z);
        ParseFromBoundary(p, fs, j);
        junk := [e];
        HopCost(g, p, fs, z, e, j);
        RealignedByHop(Parse((g + p)[z..]), e, j, g, p, fs);
      }
    }
  }

  lemma NothingLostYet(r: Parsed, p: seq<Byte>, fs: seq<Frame>)
    requires Aligned(r, 0, p, fs)
    ensures Realigned(r, [], 0, [], p, fs)
  {
    assert fs[..0] == [] && r.events[0..] == r.events;
    hide Aligned;
  }

  /** The bytes of a hop out of the garbage, and how far a skip can go. */
  lemma HopCost(g: seq<Byte>, p: seq<Byte>, fs: seq<Frame>, z: nat, e: Event, j: nat)
    requires fs != [] && p <= Stream(fs) && |Serialise(fs[0])| <= |p| && g != []
    requires z <= |g + p| && e.Bytes() == (g + p)[..z] && !e.Discarded?
    requires e.Skipped? ==> forall i: nat :: 1 <= i < z - TAIL_LEN ==> !TailAt(g + p, i)
    requires 1 <= j <= |fs| && z == |g| + |Stream(fs[..j])| && Stream(fs[..j]) <= p
    ensures e.Bytes() == g + Stream(fs[..j])
    ensures 1 < j ==> e.Dispatched?
  {
    assert (g + p)[..z] == g + p[..z - |g|];
    if 1 < j {
      FirstTail(g, p, fs);
      SecondFrame(fs, j);
    }
    hide TailAt;
    hide Serialise;
    hide Stream;
  }

  lemma SecondFrame(fs: seq<Frame>, j: nat)
    requires 1 < j <= |fs|
    ensures |Serialise(fs[0])| < |Stream(fs[..j])|
  {
    StreamTake(fs, j);
    StreamTake(fs[1..], j - 1);
    PayloadSize(fs[1]);
    hide Serialise;
  }

  /** When a tail is ahead, the parse loop moves to just behind some tail. */
  lemma Hop(s: seq<Byte>) returns (z: nat, e: Event)
    requires HDR_LEN <= |s| && exists i :: 1 <= i && TailAt(s, i)
    ensures TAIL_LEN < z <= |s| && TailAt(s, z - TAIL_LEN)
    ensures Parse(s) == Parse(s[z..]).After(e)
    ensures e.Bytes() == s[..z] && !e.Discarded?
    ensures e.Skipped? ==> forall i: nat :: 1 <= i < z - TAIL_LEN ==> !TailAt(s, i)
  {
    match Judge(s)
    case Deliver(f) =>
      z, e := |Serialise(f)|, Dispatched(f);
      assert s[z - TAIL_LEN..z] == Serialise(f)[z - TAIL_LEN..] == TAIL;
    case Realign(next) =>
      z, e := next, Skipped(s[..next]);
  }

  /** ... and the host then delivers the rest of the clean stream exactly, under every chunking. */
  lemma ResyncRun(h: Host, chunk: seq<Byte>, later: seq<seq<Byte>>,
                  g: seq<Byte>, p: seq<Byte>, fs: seq<Frame>) returns (j: nat, junk: seq<Event>)
    requires AllClean(fs) && h.AfterReset().buf + chunk == g + p && p + Flatten(later) <= Stream(fs)
    requires fs != [] && |Serialise(fs[0])| <= |p|
    ensures var h1, h' := h.Read(chunk), Reads(h.Read(chunk), later);
            var m, k := WholeFrames(fs, |p|), WholeFrames(fs, |p + Flatten(later)|);
            && Lost(junk, j, g, fs) && j <= m <= k
            && h1.events == h.AfterReset().events + junk + Dispatches(fs[j..m])
            && h'.events == h1.events + Dispatches(fs[m..k])
            && p + Flatten(later) == Stream(fs[..k]) + h'.buf
            && OnBoundary(h', fs[k..])
  {
    hide Serialise;
    hide Parse;
    hide Stream;
    hide Flatten;
    hide Lost;
    var r, h1 := h.AfterReset(), h.Read(chunk);
    PrefixOfPrefix(p, Flatten(later), Stream(fs));
    j, junk := Resync(g, p, fs);
    var m := WholeFrames(fs, |p|);
    assert Parse(g + p).events == junk + Dispatches(fs[j..m]);
    Assoc(r.events, junk, Dispatches(fs[j..m]));
    StreamRemainder(fs, m, h1.buf, Flatten(later));
    CleanSlice(fs, m, |fs|);
    var n := CleanReads(h1, fs[m..], later);
    Compose(fs, m, n);
    var h' := Reads(h1, later);
    Assoc(Stream(fs[..m]), h1.buf, Flatten(later));
    Assoc(Stream(fs[..m]), Stream(fs[m..][..n]), h'.buf);
    SplitUnique(fs, m + n, h'.buf);
  }

  // ---- exactly when one read recovers -------------------------------------------------------

  /** The header at the head of s is not believed: its length is implausible, or the frame it
      describes would be complete. */
  predicate HeaderRejected(s: seq<Byte>) {
    HDR_LEN <= |s| && (U16(s[1], s[2]) > ACC_SZ || HDR_LEN + U16(s[1], s[2]) + TAIL_LEN <= |s|)
  }

  /** How far one round of the parse loop moves: to just behind a tail, or not at all. */
  function Jump(s: seq<Byte>): (z: nat)
    ensures z != 0 ==> TAIL_LEN < z <= |s| && TailAt(s, z - TAIL_LEN)
    ensures z == 0 ==> forall i: nat :: 1 <= i ==> !TailAt(s, i)
  {
    if |s| < HDR_LEN then 0
    else
      match Judge(s)
      case Deliver(f) =>
        var z := |Serialise(f)|;
        assert s[z - TAIL_LEN..z] == Serialise(f)[z - TAIL_LEN..] == TAIL;
        z
      case Realign(next) => next
      case _ => 0
  }

  /** What is left of the garbage once the frames and tails inside it have been gone through. */
  function Residue(g: seq<Byte>, p: seq<Byte>): seq<Byte>
    decreases |g|
  {
    var z := Jump(g + p);
    if 0 < z <= |g| then Residue(g[z..], p) else g
  }

  /** A whole clean frame has arrived; or the garbage is used up by the frames and tails inside it;
      or the eight bytes kept when dropping happen to be exactly p. */
  predicate Recovers(g: seq<Byte>, p: seq<Byte>, fs: seq<Frame>) {
    || (fs != [] && |Serialise(fs[0])| <= |p|)
    || Residue(g, p) == []
    || (|p| == TAIL_LEN - 1 && HeaderRejected(Residue(g, p) + p))
  }

  /** What is left in the buffer starts at a frame boundary of the clean stream. */
  ghost predicate AtBoundary(rest: seq<Byte>, p: seq<Byte>, fs: seq<Frame>) {
    exists k: nat :: k <= |fs| && p == Stream(fs[..k]) + rest
  }

  /** Main theorem: the exact condition, for any garbage whatsoever. */
  lemma ResyncExact(g: seq<Byte>, p: seq<Byte>, fs: seq<Frame>)
    requires AllClean(fs) && p <= Stream(fs)
    ensures AtBoundary(Parse(g + p).rest, p, fs) <==> Recovers(g, p, fs)
  {
    if fs != [] && |Serialise(fs[0])| <= |p| {
      var j, junk := Resync(g, p, fs);
    } else {
      assert Partial(p, fs);
      PartialAtBoundary(Parse(g + p).rest, p, fs);
      PartialExact(g, p, fs);
    }
  }

  lemma PartialAtBoundary(rest: seq<Byte>, p: seq<Byte>, fs: seq<Frame>)
    requires Partial(p, fs)
    ensures AtBoundary(rest, p, fs) <==> rest == p
  {
    assert fs[..0] == [] && Stream(fs[..0]) + rest == rest;
    if AtBoundary(rest, p, fs) {
      var k: nat :| k <= |fs| && p == Stream(fs[..k]) + rest;
      if 0 < k {
        StreamTake(fs, k);
      }
    }
  }

  /** When no whole clean frame has arrived, the only tails are those of the garbage. */
  lemma TailInGarbage(g: seq<Byte>, p: seq<Byte>, fs: seq<Frame>, i: nat)
    requires AllClean(fs) && Partial(p, fs)
    ensures TailAt(g + p, i) <==> TailAt(g, i)
  {
    var s := g + p;
    assert g == s[0..|g|] && p == s[|g|..|s|];
    PartialIsTailFree(p, fs);
    if i + TAIL_LEN <= |g| {
      TailWithin(s, i, 0, |g|);
    } else if |g| <= i && i + TAIL_LEN <= |s| {
      TailWithin(s, i, |g|, |s|);
    } else if i < |g| && TailAt(s, i) {
      TailNotAcrossBoundary(g, p, fs, i);
    }
  }

  /** One round on g + p: it hops to just behind a tail of g, or there is none ahead. */
  lemma ResidueStep(g: seq<Byte>, p: seq<Byte>, fs: seq<Frame>) returns (z: nat)
    requires AllClean(fs) && Partial(p, fs)
    ensures z == 0 ==> Residue(g, p) == g && forall i: nat :: 1 <= i ==> !TailAt(g + p, i) && !TailAt(g, i)
    ensures z != 0 ==> TAIL_LEN < z <= |g| && TailAt(g, z - TAIL_LEN)
    ensures z != 0 ==> Residue(g, p) == Residue(g[z..], p) && Parse(g + p).rest == Parse(g[z..] + p).rest
  {
    hide Parse;
    hide Jump;
    hide TailAt;
    var s := g + p;
    z := Jump(s);
    if z != 0 {
      TailInGarbage(g, p, fs, z - TAIL_LEN);
      TailFits(g, z - TAIL_LEN);
      assert s[z..] == g[z..] + p;
      JumpParses(s);
    } else {
      forall i: nat | 1 <= i ensures !TailAt(s, i) && !TailAt(g, i) {
        TailInGarbage(g, p, fs, i);
      }
    }
  }

  lemma TailFits(s: seq<Byte>, i: int)
    requires TailAt(s, i)
    ensures i + TAIL_LEN <= |s|
  {
  }

  lemma JumpParses(s: seq<Byte>)
    requires Jump(s) != 0
    ensures Parse(s).rest == Parse(s[Jump(s)..]).rest
  {
    hide Judge;
  }

  /** Parsing the garbage comes down to parsing its residue, which shows no tail behind its head. */
  lemma {:induction false} ParseResidue(g: seq<Byte>, p: seq<Byte>, fs: seq<Frame>)
    requires AllClean(fs) && Partial(p, fs)
    ensures Parse(g + p).rest == Parse(Residue(g, p) + p).rest
    ensures forall i :: 1 <= i ==> !TailAt(Residue(g, p) + p, i)
    decreases |g|
  {
    hide Parse;
    hide Residue;
    var z := ResidueStep(g, p, fs);
    if z != 0 {
      ParseResidue(g[z..], p, fs);
    }
  }

  lemma PartialExact(g: seq<Byte>, p: seq<Byte>, fs: seq<Frame>)
    requires AllClean(fs) && Partial(p, fs)
    ensures Parse(g + p).rest == p <==> Recovers(g, p, fs)
  {
    hide Serialise;
    hide Parse;
    hide Residue;
    ParseResidue(g, p, fs);
    var r := Residue(g, p);
    if r == [] {
      assert r + p == p && Stream([]) + p == p;
      ParseStream([], p, fs);
    } else {
      HeadHopeless(r + p);
      assert |p| == TAIL_LEN - 1 ==> (r + p)[|r + p| - (TAIL_LEN - 1)..] == p;
    }
  }

  /** In closed form: what is left is all that follows the last tail of the garbage; a tail at the
      very head is not seen, and one that adjoins another may be at the head in its turn. */
  lemma {:induction false} ResidueFollowsLastTail(g: seq<Byte>, p: seq<Byte>, fs: seq<Frame>, t: nat)
    requires AllClean(fs) && Partial(p, fs)
    requires forall i: nat :: t < i ==> !TailAt(g, i)
    ensures t == 0 ==> Residue(g, p) == g
    ensures t != 0 && TailAt(g, t) && !TailAt(g, t - TAIL_LEN) ==> Residue(g, p) == g[t + TAIL_LEN..]
    decreases |g|
  {
    hide Parse;
    hide Residue;
    var z := ResidueStep(g, p, fs);
    if t != 0 && TailAt(g, t) && !TailAt(g, t - TAIL_LEN) {
      if z - TAIL_LEN == t {
        LaterTails(g, z);
        ResidueFollowsLastTail(g[z..], p, fs, 0);
      } else {
        TailsApart(g, z - TAIL_LEN, t);
        LaterTails(g, z);
        ResidueFollowsLastTail(g[z..], p, fs, t - z);
        assert g[z..][t - z + TAIL_LEN..] == g[t + TAIL_LEN..];
      }
    }
  }

  lemma TailsApart(s: seq<Byte>, i: nat, j: nat)
    requires TailAt(s, i) && TailAt(s, j) && i < j
    ensures i + TAIL_LEN <= j
  {
    if j < i + TAIL_LEN {
      TailByte(s, j, 0);
      TailByte(s, i, j - i);
    }
  }

  lemma LaterTails(s: seq<Byte>, z: nat)
    requires z <= |s|
    ensures forall i: nat :: TailAt(s[z..], i) <==> TailAt(s, z + i)
  {
    forall i: nat ensures TailAt(s[z..], i) <==> TailAt(s, z + i) {
      assert s[z..|s|] == s[z..];
      if z + i + TAIL_LEN <= |s| {
        TailWithin(s, z + i, z, |s|);
      }
    }
  }

  /** No tail ahead of the head: nothing is consumed, unless the header is rejected, and then all
      but the last eight bytes are. */
  lemma HeadHopeless(s: seq<Byte>)
    requires forall i :: 1 <= i ==> !TailAt(s, i)
    ensures Parse(s).rest == if HeaderRejected(s) && TAIL_LEN <= |s| then s[|s| - (TAIL_LEN - 1)..] else s
    ensures Frames(Parse(s).events) == []
  {
    hide Judge;
    hide TailAt;
    if HDR_LEN <= |s| {
      hide HeaderRejected;
      HopelessVerdict(s);
      if HeaderRejected(s) && TAIL_LEN <= |s| {
        var e := Skipped(s[..|s| - (TAIL_LEN - 1)]);
        assert Parse(s) == Parsed([e], s[|s| - (TAIL_LEN - 1)..]);
        assert Frames([e]) == Frames([e][1..]) == [];
      }
    }
  }

  lemma HopelessVerdict(s: seq<Byte>)
    requires HDR_LEN <= |s| && forall i :: 1 <= i ==> !TailAt(s, i)
    ensures Judge(s) == if HeaderRejected(s) then Drop else Wait
  {
    hide TailAt;
    assert !TailAt(s, HDR_LEN + U16(s[1], s[2]));
  }

  // ---- recovery is not unconditional --------------------------------------------------------

  const LEADING_TAIL: seq<Byte> := TAIL[..TAIL_LEN - 1]

  function ButLast(s: seq<Byte>): seq<Byte>
    requires s != []
  {
    s[..|s| - 1]
  }

  /** The tails of a stream cut one byte early by every read. */
  function LateReads(fs: seq<Frame>): seq<seq<Byte>> {
    if fs == [] then [] else [[TAIL[TAIL_LEN - 1]] + ButLast(Serialise(fs[0]))] + LateReads(fs[1..])
  }

  lemma LateTail(f: Frame, s: seq<Byte>)
    requires s == TAIL + ButLast(Serialise(f))
    ensures HeaderRejected(s) && s[|s| - (TAIL_LEN - 1)..] == LEADING_TAIL
  {
  }

  lemma LateRead(h: Host, f: Frame)
    requires Clean(f) && h.buf == LEADING_TAIL
    ensures var h' := h.Read([TAIL[TAIL_LEN - 1]] + ButLast(Serialise(f)));
            h'.buf == LEADING_TAIL && Frames(h'.events) == Frames(h.events)
  {
    var p := ButLast(Serialise(f));
    var s := TAIL + p;
    assert h.buf + ([TAIL[TAIL_LEN - 1]] + p) == s;
    assert Stream([f]) == Serialise(f);
    forall i: nat ensures TailAt(s, i) ==> i == 0 {
      TailInGarbage(TAIL, p, [f], i);
    }
    HeadHopeless(s);
    LateTail(f, s);
    hide Serialise;
    hide Parse;
    FramesAppend(h.events, Parse(s).events);
  }

  /** Recovery is not unconditional: joined in the middle of a frame, a host whose reads always end
      one byte before the end of a frame never dispatches anything, for a clean stream of any
      length. With the firmware's frames every one of those reads is possible. */
  lemma {:induction false} NeverRecovers(h: Host, fs: seq<Frame>)
    requires AllClean(fs) && h.buf == LEADING_TAIL
    ensures var h' := Reads(h, LateReads(fs));
            h'.buf == LEADING_TAIL && Frames(h'.events) == Frames(h.events)
    ensures (forall f :: f in fs ==> |f.payload| <= MUX_TX_MAX_PAYLOAD) ==> ReadsFit(h, LateReads(fs))
    decreases |fs|
  {
    if fs != [] {
      PayloadSize(fs[0]);
    }
    hide Serialise;
    hide Parse;
    if fs != [] {
      assert LateReads(fs)[1..] == LateReads(fs[1..]);
      LateRead(h, fs[0]);
      NeverRecovers(h.Read(LateReads(fs)[0]), fs[1..]);
    }
  }

  /** What those reads return is, up to the last byte, the end of a tail and then that stream. */
  lemma {:induction false} LateReadsAreClean(fs: seq<Frame>)
    ensures LEADING_TAIL + Flatten(LateReads(fs)) + [TAIL[TAIL_LEN - 1]] == TAIL + Stream(fs)
  {
    assert LEADING_TAIL + [TAIL[TAIL_LEN - 1]] == TAIL;
    LateBytes(fs);
    Assoc(LEADING_TAIL, Flatten(LateReads(fs)), [TAIL[TAIL_LEN - 1]]);
    Assoc(LEADING_TAIL, [TAIL[TAIL_LEN - 1]], Stream(fs));
  }

  lemma {:induction false} LateBytes(fs: seq<Frame>)
    ensures Flatten(LateReads(fs)) + [TAIL[TAIL_LEN - 1]] == [TAIL[TAIL_LEN - 1]] + Stream(fs)
  {
    if fs != [] {
      var z, b := [TAIL[TAIL_LEN - 1]], ButLast(Serialise(fs[0]));
      assert b + z == Serialise(fs[0]);
      LateBytes(fs[1..]);
      Assoc(z + b, Flatten(LateReads(fs[1..])), z);
      Assoc(z + b, z, Stream(fs[1..]));
      Assoc(z, b, z);
      Assoc(z, Serialise(fs[0]), Stream(fs[1..]));
    }
  }

  lemma FirstRead(s: seq<Byte>)
    ensures START.Read(s) == Host(Parse(s).rest, Parse(s).events)
  {
    hide Parse;
    assert START.buf + s == s && [] + Parse(s).events == Parse(s).events;
  }

  /** The state NeverRecovers starts from is reached by one read of the end of a frame. */
  lemma JoinedMidFrame(x: seq<Byte>)
    requires HDR_LEN <= |x| && TailFree(x + LEADING_TAIL) && U16(x[1], x[2]) > ACC_SZ
    ensures var h := START.Read(x + LEADING_TAIL);
            h.buf == LEADING_TAIL && Frames(h.events) == []
  {
    var s := x + LEADING_TAIL;
    FirstRead(s);
    CancelPrefix(x, LEADING_TAIL, []);
    assert HeaderRejected(s) && |s| == |x| + TAIL_LEN - 1;
    hide HeaderRejected;
    HeadHopeless(s);
    hide Parse;
    hide TailFree;
    hide Frames;
  }

  /** The end of a frame with the sync word all but complete. */
  const JOINED: Frame := Frame(LOG, [0, 0, 255])

  function JoinedReads(fs: seq<Frame>): seq<seq<Byte>> {
    [JOINED.payload + LEADING_TAIL] + LateReads(fs)
  }

  /** The whole run: a host that is started in the middle of a clean frame, on a clean stream of any
      length, and never dispatches anything; with the firmware's frames, every read is possible. */
  lemma NeverRecoversFromStart(fs: seq<Frame>)
    requires AllClean(fs)
    ensures AllClean([JOINED] + fs)
    ensures Flatten(JoinedReads(fs)) + [TAIL[TAIL_LEN - 1]] == Stream([JOINED] + fs)[HDR_LEN..]
    ensures Frames(Reads(START, JoinedReads(fs)).events) == []
    ensures (forall f :: f in fs ==> |f.payload| <= MUX_TX_MAX_PAYLOAD) ==> ReadsFit(START, JoinedReads(fs))
  {
    var x, chunks := JOINED.payload, JoinedReads(fs);
    NoTailYet();
    JoinedMidFrame(x);
    var h := START.Read(x + LEADING_TAIL);
    hide Parse;
    assert chunks[0] == x + LEADING_TAIL && chunks[1..] == LateReads(fs);
    NeverRecovers(h, fs);
    JoinedBytes(fs);
  }

  lemma NoTailYet()
    ensures TailFree(JOINED.payload) && TailFree(JOINED.payload + LEADING_TAIL) && Clean(JOINED)
  {
    var s := JOINED.payload + LEADING_TAIL;
    forall i ensures !TailAt(s, i) {
      if TailAt(s, i) {
        TailByte(s, i, 0);
        TailByte(s, i, 8);
      }
    }
  }

  lemma JoinedBytes(fs: seq<Frame>)
    ensures Flatten(JoinedReads(fs)) + [TAIL[TAIL_LEN - 1]] == Stream([JOINED] + fs)[HDR_LEN..]
  {
    var x, z := JOINED.payload, [TAIL[TAIL_LEN - 1]];
    assert JoinedReads(fs)[1..] == LateReads(fs);
    LateReadsAreClean(fs);
    Assoc(x, LEADING_TAIL, Flatten(LateReads(fs)));
    Assoc(x, LEADING_TAIL + Flatten(LateReads(fs)), z);
    Assoc(x, TAIL, Stream(fs));
    assert ([JOINED] + fs)[1..] == fs;
    assert (Serialise(JOINED) + Stream(fs))[HDR_LEN..] == x + TAIL + Stream(fs);
  }
}
