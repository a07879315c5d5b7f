/** The mux frame on the wire, `[type][len u16 LE][payload][tail]`, and where its tail can occur. */
module MuxWire {
  import opened Bytes

  const HDR_LEN: nat := 3
  const TAIL_LEN: nat := 9

  /** "/mt2mqtt" and its terminating NUL. */
  const TAIL: seq<Byte> := [47, 109, 116, 50, 109, 113, 116, 116, 0]

  const SYNC: Byte := 4
  const PING: Byte := 5
  const LOG: Byte := 6
  const BT: Byte := 7
  const SPINEL: Byte := 8

  /** The firmware's payload cap, and the size of the host's reassembly buffer. */
  const MUX_TX_MAX_PAYLOAD: nat := 528
  const ACC_SZ: nat := 4096

  datatype Frame = Frame(kind: Byte, payload: seq<Byte>)

  function U16(lo: Byte, hi: Byte): nat {
    lo + 256 * hi
  }

  function Serialise(f: Frame): seq<Byte> {
    [f.kind, |f.payload| % 256, |f.payload| / 256 % 256] + f.payload + TAIL
  }

  /** Type, length in little-endian, payload, and the sync word with its NUL. */
  lemma FrameBytes(f: Frame)
    requires |f.payload| < 0x1_0000
    ensures Serialise(f) == [f.kind, |f.payload| % 256, |f.payload| / 256] + f.payload + CString("/mt2mqtt")
    ensures SYNC == 4 && PING == 5 && LOG == 6 && BT == 7 && SPINEL == 8
  {
    assert TAIL == CString("/mt2mqtt");
  }

  lemma PayloadSize(f: Frame)
    ensures |Serialise(f)| == HDR_LEN + |f.payload| + TAIL_LEN
  {
  }

  /** Frames back to back. */
  function Stream(fs: seq<Frame>): seq<Byte> {
    if fs == [] then [] else Serialise(fs[0]) + Stream(fs[1..])
  }

  lemma {:induction false} StreamAppend(a: seq<Frame>, b: seq<Frame>)
    ensures Stream(a + b) == Stream(a) + Stream(b)
  {
    if a == [] {
      assert a + b == b;
    } else {
      assert (a + b)[1..] == a[1..] + b;
      StreamAppend(a[1..], b);
    }
  }

  lemma StreamSplit(fs: seq<Frame>, k: nat)
    requires k <= |fs|
    ensures Stream(fs) == Stream(fs[..k]) + Stream(fs[k..])
  {
    hide Stream;
    assert fs == fs[..k] + fs[k..];
    StreamAppend(fs[..k], fs[k..]);
  }

  lemma StreamSlice(fs: seq<Frame>, j: nat, k: nat)
    requires j <= k <= |fs|
    ensures Stream(fs[..k]) == Stream(fs[..j]) + Stream(fs[j..k])
  {
    hide Stream;
    assert fs[..k] == fs[..j] + fs[j..k];
    StreamAppend(fs[..j], fs[j..k]);
  }

  /** Behind the first k frames of a stream comes the stream of the others. */
  lemma StreamRemainder(fs: seq<Frame>, k: nat, b: seq<Byte>, more: seq<Byte>)
    requires k <= |fs| && Stream(fs[..k]) + b + more <= Stream(fs)
    ensures b + more <= Stream(fs[k..])
  {
    StreamSplit(fs, k);
    Assoc(Stream(fs[..k]), b, more);
    CancelPrefix(Stream(fs[..k]), b + more, Stream(fs[k..]));
  }

  /** The header of a frame can be read back: this is what all three parsers rely on. */
  lemma HeaderOf(f: Frame, rest: seq<Byte>)
    requires |f.payload| < 0x1_0000
    ensures var s := Serialise(f) + rest;
            && s[0] == f.kind && U16(s[1], s[2]) == |f.payload|
            && s[HDR_LEN..HDR_LEN + |f.payload|] == f.payload
            && s[..HDR_LEN + |f.payload| + TAIL_LEN] == Serialise(f)
            && s[HDR_LEN + |f.payload| + TAIL_LEN..] == rest
            && s[HDR_LEN + |f.payload|..HDR_LEN + |f.payload| + TAIL_LEN] == TAIL
  {
  }

  // ---- cutting a stream anywhere ------------------------------------------------------------

  /** p is what is left in a buffer whose head is the first byte of fs: less than one frame. */
  ghost predicate Partial(p: seq<Byte>, fs: seq<Frame>) {
    p <= Stream(fs) && (fs == [] || |p| < |Serialise(fs[0])|)
  }

  /** How many frames of fs lie whole within its first n bytes. */
  function WholeFrames(fs: seq<Frame>, n: nat): (k: nat)
    ensures k <= |fs|
  {
    if fs == [] || n < |Serialise(fs[0])| then 0
    else 1 + WholeFrames(fs[1..], n - |Serialise(fs[0])|)
  }

  lemma StreamTake(fs: seq<Frame>, k: nat)
    requires 0 < k <= |fs|
    ensures Stream(fs[..k]) == Serialise(fs[0]) + Stream(fs[1..][..k - 1])
    ensures fs[1..][k - 1..] == fs[k..]
  {
    assert fs[..k][1..] == fs[1..][..k - 1];
  }

  lemma CutFirst(fs: seq<Frame>, q: seq<Byte>) returns (q': seq<Byte>)
    requires q <= Stream(fs) && fs != [] && |Serialise(fs[0])| <= |q|
    ensures q == Serialise(fs[0]) + q' && q' <= Stream(fs[1..])
  {
    q' := q[|Serialise(fs[0])|..];
  }

  /** The cut of a stream into whole frames and a partial one exists ... */
  lemma {:induction false} SplitPrefix(fs: seq<Frame>, q: seq<Byte>) returns (p: seq<Byte>)
    requires q <= Stream(fs)
    ensures var k := WholeFrames(fs, |q|);
            q == Stream(fs[..k]) + p && Partial(p, fs[k..])
  {
    if fs == [] || |q| < |Serialise(fs[0])| {
      p := q;
      assert fs[0..] == fs;
    } else {
      var q' := CutFirst(fs, q);
      p := SplitPrefix(fs[1..], q');
      StreamTake(fs, WholeFrames(fs, |q|));
    }
  }

  /** ... and is the only one. */
  lemma {:induction false} SplitUnique(fs: seq<Frame>, k: nat, p: seq<Byte>)
    requires k <= |fs| && Partial(p, fs[k..])
    ensures WholeFrames(fs, |Stream(fs[..k]) + p|) == k
  {
    if k == 0 {
      assert fs[0..] == fs;
    } else {
      StreamTake(fs, k);
      SplitUnique(fs[1..], k - 1, p);
    }
  }

  // ---- where a tail can occur ---------------------------------------------------------------

  predicate TailAt(s: seq<Byte>, i: int) {
    0 <= i && i + TAIL_LEN <= |s| && s[i..i + TAIL_LEN] == TAIL
  }

  ghost predicate TailFree(s: seq<Byte>) {
    forall i :: !TailAt(s, i)
  }

  /** What the host is promised for every frame: a known type, a size its buffer can hold, and a
      payload without the sync word. The firmware's own cap, 528, is well within the size bound. */
  ghost predicate Clean(f: Frame) {
    && SYNC <= f.kind <= SPINEL
    && 3 + |f.payload| + 9 <= 4096
    && TailFree(f.payload)
  }

  ghost predicate AllClean(fs: seq<Frame>) {
    forall f :: f in fs ==> Clean(f)
  }

  lemma TailByte(s: seq<Byte>, i: int, k: nat)
    requires TailAt(s, i) && k < TAIL_LEN
    ensures s[i + k] == TAIL[k]
  {
    assert s[i + k] == s[i..i + TAIL_LEN][k];
  }

  lemma TailWithin(s: seq<Byte>, i: int, from: nat, to: nat)
    requires from <= i && i + TAIL_LEN <= to <= |s|
    ensures TailAt(s, i) <==> TailAt(s[from..to], i - from)
  {
    var a, b := s[i..i + TAIL_LEN], s[from..to][i - from..i - from + TAIL_LEN];
    assert forall k :: 0 <= k < TAIL_LEN ==> a[k] == s[i + k] == b[k];
    assert a == b;
  }

  /** Inside a clean frame the tail occurs at the frame's end and nowhere else, whatever follows. */
  lemma TailEndsFrame(f: Frame, rest: seq<Byte>, i: nat)
    requires Clean(f) && i < |Serialise(f)|
    requires TailAt(Serialise(f) + rest, i)
    ensures i + TAIL_LEN == |Serialise(f)|
  {
    HeaderOf(f, rest);
    TailInFrame(Serialise(f) + rest, |f.payload|, i);
  }

  lemma TailInFrame(s: seq<Byte>, n: nat, i: nat)
    requires HDR_LEN + n + TAIL_LEN <= |s| && HDR_LEN + n + TAIL_LEN <= ACC_SZ
    requires SYNC <= s[0] <= SPINEL && U16(s[1], s[2]) == n
    requires TailFree(s[HDR_LEN..HDR_LEN + n]) && TailAt(s, HDR_LEN + n)
    requires TailAt(s, i) && i < HDR_LEN + n + TAIL_LEN
    ensures i == HDR_LEN + n
  {
    TailByte(s, i, 0);
    if i < HDR_LEN {
      TailByte(s, i, 1);
    } else if i + TAIL_LEN <= HDR_LEN + n {
      TailWithin(s, i, HDR_LEN, HDR_LEN + n);
    } else if i < HDR_LEN + n {
      TailByte(s, HDR_LEN + n, 0);
      TailByte(s, i, HDR_LEN + n - i);
    } else if HDR_LEN + n < i {
      TailByte(s, HDR_LEN + n, i - HDR_LEN - n);
    }
  }

  /** A frame that has not arrived whole shows no tail. */
  lemma PartialIsTailFree(p: seq<Byte>, fs: seq<Frame>)
    requires AllClean(fs) && Partial(p, fs)
    ensures TailFree(p)
  {
    forall i ensures !TailAt(p, i) {
      if TailAt(p, i) {
        var s := Stream(fs);
        assert p == s[0..|p|];
        TailWithin(s, i, 0, |p|);
        TailEndsFrame(fs[0], Stream(fs[1..]), i);
      }
    }
  }

  lemma FirstByte(p: seq<Byte>, fs: seq<Frame>)
    requires AllClean(fs) && p <= Stream(fs)
    ensures p != [] ==> SYNC <= p[0] <= SPINEL
  {
    if p != [] {
      assert p[0] == Stream(fs)[0] == fs[0].kind;
      assert Clean(fs[0]);
    }
  }

  /** No type byte occurs in the tail, so a tail never straddles the start of a clean stream. */
  lemma TailNotAcrossBoundary(g: seq<Byte>, p: seq<Byte>, fs: seq<Frame>, i: nat)
    requires AllClean(fs) && p <= Stream(fs)
    requires TailAt(g + p, i) && i < |g|
    ensures i + TAIL_LEN <= |g|
  {
    FirstByte(p, fs);
    if |g| < i + TAIL_LEN {
      TailByte(g + p, i, |g| - i);
    }
  }
}
