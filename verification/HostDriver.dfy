/** The host driver itself: one reassembly buffer, parsed and shifted in place. */
module HostMain {
  import opened Bytes
  import opened MuxWire
  import opened HostParser

  const SPINEL_CHUNK_MAX: nat := 512
  const VHCI_PKT_MAX: nat := 2048
  const HCI_VENDOR_PKT: Byte := 0xff

  class HostDriver {
    const acc: array<Byte>
    var accLen: nat
    var events: seq<Event>   // what became of every byte read from the device
    var sent: seq<Byte>      // what was written to the device
    var writable: nat        // how many more bytes it takes before a write fails

    ghost predicate Valid()
      reads this
    {
      acc.Length == ACC_SZ && accLen <= ACC_SZ
    }

    ghost function View(): Host
      requires Valid()
      reads this, acc
    {
      Host(acc[..accLen], events)
    }

    constructor (writable: nat)
      ensures Valid() && fresh(acc) && View() == START && sent == [] && this.writable == writable
    {
      acc := new Byte[ACC_SZ];
      accLen, events, sent := 0, [], [];
      this.writable := writable;
    }

    /** memcmp(acc + i, MSG_TAIL, MSG_TAIL_LEN) == 0 */
    method TailMatches(i: nat) returns (b: bool)
      requires Valid() && i + TAIL_LEN <= accLen
      ensures b == TailAt(acc[..accLen], i)
    {
      b := acc[i..i + TAIL_LEN] == TAIL;
      assert acc[..accLen][i..i + TAIL_LEN] == acc[i..i + TAIL_LEN];
    }

    method FindAfterTail(start: nat) returns (r: Option<nat>)
      requires Valid()
      ensures r == AfterTail(acc[..accLen], start)
    {
      if accLen < TAIL_LEN {
        return None;
      }
      var i := start;
      while i + TAIL_LEN <= accLen
        invariant AfterTail(acc[..accLen], start) == AfterTail(acc[..accLen], i)
        decreases accLen - i
      {
        var found := TailMatches(i);
        if found {
          return Some(i + TAIL_LEN);
        }
        i := i + 1;
      }
      return None;
    }

    /** Pulls every complete frame out of the buffer; returns how many bytes were consumed, and what
        was done with them, in order. */
    method ProcessFrames() returns (off: nat, es: seq<Event>)
      requires Valid()
      ensures off <= accLen && acc[off..accLen] == Parse(acc[..accLen]).rest
      ensures es == Parse(acc[..accLen]).events
    {
      hide Parse;
      hide Judge;
      hide AfterTail;
      hide TailAt;
      hide InProgress;
      hide Finished;
      off, es := 0, [];
      ghost var s := acc[..accLen];
      ghost var finished := false;
      Started(s);
      while accLen - off >= HDR_LEN
        invariant off <= accLen && !finished && InProgress(es, s, off)
        decreases accLen - off
      {
        var kind := acc[off];
        var len := U16(acc[off + 1], acc[off + 2]);
        var need := HDR_LEN + len + TAIL_LEN;
        if len <= ACC_SZ && accLen - off >= need {
          var payload := off + HDR_LEN;
          var valid := TailMatches(payload + len);
          if valid {
            SliceOf(acc, accLen, payload, payload + len);
            AfterDeliver(es, s, off, len);
            es := es + [Dispatched(Frame(kind, acc[payload..payload + len]))];
            off := off + need;
            continue;
          }
        } else if len <= ACC_SZ {
          var r := FindAfterTail(off + 1);
          if r == None {
            AfterWait(es, s, off, len);
            finished := true;
            break;
          }
          AfterRealign(es, s, off, len, r.value);
          SliceOf(acc, accLen, off, r.value);
          es := es + [Skipped(acc[off..r.value])];
          off := r.value;
          continue;
        }

        var r := FindAfterTail(off + 1);
        if r == None {
          var keep := TAIL_LEN - 1;
          var dropped := if accLen - off > keep then accLen - off - keep else 0;
          AfterDrop(es, s, off, len);
          if dropped > 0 {
            SliceOf(acc, accLen, off, accLen - keep);
            es := es + [Skipped(acc[off..accLen - keep])];
            off := accLen - keep;
          }
          finished := true;
          break;
        }
        AfterRealign(es, s, off, len, r.value);
        SliceOf(acc, accLen, off, r.value);
        es := es + [Skipped(acc[off..r.value])];
        off := r.value;
      }
      if !finished {
        AfterShort(es, s, off);
      }
      TheEnd(es, s, off);
      SliceOf(acc, accLen, off, accLen);
    }

    /** The device is readable and read() returned chunk. */
    method OnDeviceReadable(chunk: seq<Byte>)
      requires Valid() && View().Fits(chunk)
      modifies this`accLen, this`events, acc
      ensures Valid() && View() == old(View()).Read(chunk)
    {
      hide Parse;
      if accLen == ACC_SZ {
        events := events + [Discarded(acc[..accLen])];
        accLen := 0;
      }
      CopyIn(acc, accLen, chunk);
      accLen := accLen + |chunk|;
      var consumed, es := ProcessFrames();
      events := events + es;
      if consumed > 0 {
        MoveDown(acc, consumed, accLen - consumed);
        accLen := accLen - consumed;
      }
    }

    /** write(): takes some of the bytes, or fails once the device takes no more. */
    method Write(bytes: seq<Byte>) returns (n: int)
      requires bytes != []
      modifies this`sent, this`writable
      ensures if old(writable) == 0 then n == -1 && sent == old(sent) && writable == 0
              else 0 < n <= |bytes| && writable == old(writable) - n && sent == old(sent) + bytes[..n]
    {
      if writable == 0 {
        return -1;
      }
      n :| 0 < n <= |bytes| && n <= writable;
      writable := writable - n;
      sent := sent + bytes[..n];
    }

    /** Writes everything, in as many pieces as it takes, or as much as the device takes. */
    method WriteAll(bytes: seq<Byte>) returns (ok: bool)
      modifies this`sent, this`writable
      ensures ok <==> |bytes| <= old(writable)
      ensures sent == old(sent) + Written(bytes, old(writable)) && writable == Left(bytes, old(writable))
    {
      var i := 0;
      while i < |bytes|
        invariant 0 <= i <= |bytes| && i + writable == old(writable)
        invariant sent == old(sent) + bytes[..i]
      {
        var n := Write(bytes[i..]);
        if n < 0 {
          return false;
        }
        Assoc(old(sent), bytes[..i], bytes[i..][..n]);
        assert bytes[..i] + bytes[i..][..n] == bytes[..i + n];
        i := i + n;
      }
      return true;
    }

    /** Header, payload and tail put one frame on the wire; if the device fails on the way, exactly
        what it took of that frame. */
    method SendFrame(kind: Byte, payload: seq<Byte>) returns (ok: bool)
      requires |payload| < 0x1_0000
      modifies this`sent, this`writable
      ensures var b := Serialise(Frame(kind, payload));
              && (ok <==> |b| <= old(writable))
              && sent == old(sent) + Written(b, old(writable)) && writable == Left(b, old(writable))
    {
      hide Serialise;
      var hdr := [kind, |payload| % 256, |payload| / 256];
      ghost var before, room := sent, writable;
      FrameInThree(before, kind, payload, room);
      ok := WriteAll(hdr);
      if !ok {
        return false;
      }
      if |payload| > 0 {
        ok := WriteAll(payload);
        if !ok {
          return false;
        }
      }
      ok := WriteAll(TAIL);
    }

    /** Kernel host -> controller: one whole H4 packet, or the kernel's device-created ack. Not ok
        ends the driver's loop. */
    method OnVhciReadable(pkt: seq<Byte>) returns (ok: bool)
      requires 0 < |pkt| <= VHCI_PKT_MAX
      modifies this`sent, this`writable
      ensures var b := if pkt[0] == 0xff then [] else Serialise(Frame(7, pkt));
              && (ok <==> |b| <= old(writable))
              && sent == old(sent) + Written(b, old(writable)) && writable == Left(b, old(writable))
    {
      ok := true;
      if pkt[0] != HCI_VENDOR_PKT {
        ok := SendFrame(BT, pkt);
      }
    }

    /** OpenThread tool -> radio: at most one frame's worth of the Spinel byte stream. */
    method OnPtyReadable(chunk: seq<Byte>) returns (ok: bool)
      requires 0 < |chunk| <= SPINEL_CHUNK_MAX
      modifies this`sent, this`writable
      ensures var b := Serialise(Frame(8, chunk));
              && (ok <==> |b| <= old(writable))
              && sent == old(sent) + Written(b, old(writable)) && writable == Left(b, old(writable))
    {
      ok := SendFrame(SPINEL, chunk);
    }

    method ServeOne(input: Input) returns (ok: bool)
      requires input.Valid()
      modifies this`sent, this`writable
      ensures var b := Stream(input.Frames());
              && (ok <==> |b| <= old(writable))
              && sent == old(sent) + Written(b, old(writable)) && writable == Left(b, old(writable))
    {
      hide Serialise;
      OneFrame(input);
      match input
      case Ping => ok := SendFrame(PING, PING_PAYLOAD);
      case Kernel(pkt) => ok := OnVhciReadable(pkt);
      case Pty(chunk) => ok := OnPtyReadable(chunk);
    }

    /** The sending half of the driver's loop: pings when they are due, and whatever the kernel and
        the PTY have, until a write fails. */
    method Serve(inputs: seq<Input>) returns (ok: bool)
      requires forall input :: input in inputs ==> input.Valid()
      modifies this`sent, this`writable
      ensures var b := Stream(FramesFrom(inputs));
              && (ok <==> |b| <= old(writable))
              && sent == old(sent) + Written(b, old(writable)) && writable == Left(b, old(writable))
    {
      hide Serialise;
      hide FramesFrom;
      hide Stream;
      ghost var before, room := sent, writable;
      ServedNone(before, room);
      for i := 0 to |inputs|
        invariant var b := Stream(FramesFrom(inputs[..i]));
                  |b| <= room && sent == before + Written(b, room) && writable == Left(b, room)
      {
        assert inputs[i] in inputs;
        ServedOneMore(before, inputs, i, room);
        ok := ServeOne(inputs[i]);
        if !ok {
          return false;
        }
      }
      assert inputs[..|inputs|] == inputs;
      return true;
    }
  }

  // ---- what the driver sends ----------------------------------------------------------------

  /** "PING" with its NUL. */
  const PING_PAYLOAD: seq<Byte> := [80, 73, 78, 71, 0]

  datatype Input =
    | Ping                      // a second has passed
    | Kernel(pkt: seq<Byte>)    // one packet from /dev/vhci
    | Pty(chunk: seq<Byte>)     // bytes from the PTY
  {
    predicate Valid() {
      match this
      case Ping => true
      case Kernel(pkt) => 0 < |pkt| <= VHCI_PKT_MAX
      case Pty(chunk) => 0 < |chunk| <= SPINEL_CHUNK_MAX
    }

    /** The frame sent for it, if any. */
    function Frames(): seq<Frame>
      requires Valid()
    {
      match this
      case Ping => [Frame(PING, PING_PAYLOAD)]
      case Kernel(pkt) => if pkt[0] == HCI_VENDOR_PKT then [] else [Frame(BT, pkt)]
      case Pty(chunk) => [Frame(SPINEL, chunk)]
    }
  }

  /** A ping is a PING saying "PING"; a packet of the kernel is a BT frame, unless it begins with 0xff;
      a chunk of the PTY is a Spinel frame. */
  lemma InputFrames(input: Input)
    requires input.Valid()
    ensures input == Ping ==> input.Frames() == [Frame(5, CString("PING"))]
    ensures input.Kernel? ==> input.Frames() == if input.pkt[0] == 0xff then [] else [Frame(7, input.pkt)]
    ensures input.Pty? ==> input.Frames() == [Frame(8, input.chunk)]
  {
    assert PING_PAYLOAD == CString("PING");
  }

  function FramesFrom(inputs: seq<Input>): seq<Frame>
    requires forall input :: input in inputs ==> input.Valid()
  {
    if inputs == [] then []
    else FramesFrom(inputs[..|inputs| - 1]) + inputs[|inputs| - 1].Frames()
  }

  lemma ServedNone(sent: seq<Byte>, room: nat)
    ensures var b := Stream(FramesFrom([]));
            |b| <= room && sent == sent + Written(b, room) && room == Left(b, room)
  {
  }

  lemma ServedOneMore(sent: seq<Byte>, inputs: seq<Input>, i: nat, room: nat)
    requires i < |inputs| && forall input :: input in inputs ==> input.Valid()
    ensures var a, b, c := Stream(FramesFrom(inputs[..i])), Stream(inputs[i].Frames()), Stream(FramesFrom(inputs));
            && Stream(FramesFrom(inputs[..i + 1])) == a + b
            && sent + Written(a + b, room) == sent + Written(a, room) + Written(b, Left(a, room))
            && Left(a + b, room) == Left(b, Left(a, room))
            && a + b <= c
            && (|a + b| > room ==> |c| > room && Written(c, room) == Written(a + b, room) && Left(c, room) == 0)
  {
    hide Serialise;
    assert inputs[..i + 1][..i] == inputs[..i];
    StreamAppend(FramesFrom(inputs[..i]), inputs[i].Frames());
    WrittenAppend(sent, Stream(FramesFrom(inputs[..i])), Stream(inputs[i].Frames()), room);
    FramesPrefix(inputs, i + 1);
    OneFrame(inputs[i]);
  }

  lemma OneFrame(input: Input)
    requires input.Valid()
    ensures forall f :: input.Frames() == [f] ==> Stream(input.Frames()) == Serialise(f)
    ensures input.Frames() == [] ==> Stream(input.Frames()) == []
  {
    hide Serialise;
  }

  lemma {:induction false} FramesPrefix(inputs: seq<Input>, i: nat)
    requires i <= |inputs| && forall input :: input in inputs ==> input.Valid()
    ensures FramesFrom(inputs[..i]) <= FramesFrom(inputs)
    ensures Stream(FramesFrom(inputs[..i])) <= Stream(FramesFrom(inputs))
  {
    hide Serialise;
    if i < |inputs| {
      var last := |inputs| - 1;
      FramesPrefix(inputs[..last], i);
      assert inputs[..last][..i] == inputs[..i];
      StreamAppend(FramesFrom(inputs[..last]), inputs[last].Frames());
    } else {
      assert inputs[..i] == inputs;
    }
  }

  // ---- writing to a device that takes room more bytes ---------------------------------------

  function Written(bytes: seq<Byte>, room: nat): seq<Byte> {
    if |bytes| <= room then bytes else bytes[..room]
  }

  function Left(bytes: seq<Byte>, room: nat): nat {
    if |bytes| <= room then room - |bytes| else 0
  }

  lemma WrittenAppend(sent: seq<Byte>, a: seq<Byte>, b: seq<Byte>, room: nat)
    ensures sent + Written(a + b, room) == sent + Written(a, room) + Written(b, Left(a, room))
    ensures Left(a + b, room) == Left(b, Left(a, room))
  {
    if |a| <= room < |a + b| {
      assert (a + b)[..room] == a + b[..room - |a|];
    } else if room < |a| {
      assert (a + b)[..room] == a[..room] && b[..0] == [];
    }
    Assoc(sent, Written(a, room), Written(b, Left(a, room)));
  }

  lemma FrameInThree(sent: seq<Byte>, kind: Byte, payload: seq<Byte>, room: nat)
    requires |payload| < 0x1_0000
    ensures var b, h := Serialise(Frame(kind, payload)), [kind, |payload| % 256, |payload| / 256];
            var r := Left(h, room);
            && |b| == |h| + |payload| + |TAIL|
            && sent + Written(b, room) ==
               sent + Written(h, room) + Written(payload, r) + Written(TAIL, Left(payload, r))
            && Left(b, room) == Left(TAIL, Left(payload, r))
  {
    var h := [kind, |payload| % 256, |payload| / 256];
    assert Serialise(Frame(kind, payload)) == (h + payload) + TAIL;
    hide Serialise;
    hide Written;
    hide Left;
    WrittenAppend(sent, h + payload, TAIL, room);
    WrittenAppend(sent, h, payload, room);
  }

  // ---- the steps of ProcessFrames, on values ------------------------------------------------

  lemma TailSuffix(s: seq<Byte>, off: nat, i: nat)
    requires off <= |s|
    ensures TailAt(s, off + i) <==> TailAt(s[off..], i)
  {
    if off + i + TAIL_LEN <= |s| {
      TailWithin(s, off + i, off, |s|);
      assert s[off..|s|] == s[off..];
    }
  }

  lemma {:induction false} AfterTailShift(s: seq<Byte>, off: nat, start: nat)
    requires off <= |s|
    ensures AfterTail(s, off + start)
         == (match AfterTail(s[off..], start) case None => None case Some(r) => Some(off + r))
    decreases |s| - start
  {
    hide TailAt;
    TailSuffix(s, off, start);
    if off + start + TAIL_LEN <= |s| {
      AfterTailShift(s, off, start + 1);
    }
  }

  /** The tail of the frame described by the header at off is in place. */
  predicate FrameAt(s: seq<Byte>, off: nat, len: nat) {
    && len <= ACC_SZ
    && off + HDR_LEN + len + TAIL_LEN <= |s|
    && TailAt(s, off + HDR_LEN + len)
  }

  lemma JudgeAt(s: seq<Byte>, off: nat, len: nat)
    requires off + HDR_LEN <= |s| && len == U16(s[off + 1], s[off + 2])
    ensures FrameAt(s, off, len) ==> Judge(s[off..]) == Deliver(Frame(s[off], s[off + HDR_LEN..off + HDR_LEN + len]))
    ensures !FrameAt(s, off, len) ==> match AfterTail(s, off + 1)
            case Some(r) => off < r <= |s| && Judge(s[off..]) == Realign(r - off)
            case None => Judge(s[off..]) == if len <= ACC_SZ && |s| - off < HDR_LEN + len + TAIL_LEN then Wait else Drop
  {
    hide TailAt;
    hide AfterTail;
    var t := s[off..];
    assert t[0] == s[off] && t[1] == s[off + 1] && t[2] == s[off + 2];
    AfterTailShift(s, off, 1);
    TailSuffix(s, off, HDR_LEN + len);
    if off + HDR_LEN + len <= |s| {
      assert t[HDR_LEN..HDR_LEN + len] == s[off + HDR_LEN..off + HDR_LEN + len];
    }
  }

  /** Up to off the buffer s has been dealt with as Parse does. */
  ghost predicate InProgress(done: seq<Event>, s: seq<Byte>, off: nat) {
    && off <= |s|
    && Parse(s[off..]).rest == Parse(s).rest
    && done + Parse(s[off..]).events == Parse(s).events
  }

  ghost predicate Finished(done: seq<Event>, s: seq<Byte>, off: nat) {
    off <= |s| && s[off..] == Parse(s).rest && done == Parse(s).events
  }

  lemma Started(s: seq<Byte>)
    ensures InProgress([], s, 0)
  {
    assert s[0..] == s;
  }

  lemma Moved(done: seq<Event>, e: Event, s: seq<Byte>, off: nat, off': nat)
    requires InProgress(done, s, off) && off' <= |s|
    requires Parse(s[off..]) == Parse(s[off'..]).After(e)
    ensures InProgress(done + [e], s, off')
  {
    Assoc(done, [e], Parse(s[off'..]).events);
  }

  lemma AfterDeliver(done: seq<Event>, s: seq<Byte>, off: nat, len: nat)
    requires InProgress(done, s, off)
    requires off + HDR_LEN <= |s| && len == U16(s[off + 1], s[off + 2]) && FrameAt(s, off, len)
    ensures off + HDR_LEN + len + TAIL_LEN <= |s|
    ensures InProgress(done + [Dispatched(Frame(s[off], s[off + HDR_LEN..off + HDR_LEN + len]))],
                       s, off + HDR_LEN + len + TAIL_LEN)
  {
    hide Judge;
    hide InProgress;
    JudgeAt(s, off, len);
    assert s[off..][HDR_LEN + len + TAIL_LEN..] == s[off + HDR_LEN + len + TAIL_LEN..];
    Moved(done, Dispatched(Frame(s[off], s[off + HDR_LEN..off + HDR_LEN + len])),
          s, off, off + HDR_LEN + len + TAIL_LEN);
  }

  lemma AfterRealign(done: seq<Event>, s: seq<Byte>, off: nat, len: nat, r: nat)
    requires InProgress(done, s, off)
    requires off + HDR_LEN <= |s| && len == U16(s[off + 1], s[off + 2])
    requires !FrameAt(s, off, len) && AfterTail(s, off + 1) == Some(r)
    ensures off < r <= |s| && InProgress(done + [Skipped(s[off..r])], s, r)
  {
    hide Judge;
    hide AfterTail;
    hide InProgress;
    JudgeAt(s, off, len);
    assert s[off..][r - off..] == s[r..] && s[off..][..r - off] == s[off..r];
    Moved(done, Skipped(s[off..r]), s, off, r);
  }

  lemma AfterWait(done: seq<Event>, s: seq<Byte>, off: nat, len: nat)
    requires InProgress(done, s, off)
    requires off + HDR_LEN <= |s| && len == U16(s[off + 1], s[off + 2]) && AfterTail(s, off + 1) == None
    requires len <= ACC_SZ && |s| - off < HDR_LEN + len + TAIL_LEN
    ensures Finished(done, s, off)
  {
    hide Judge;
    hide AfterTail;
    JudgeAt(s, off, len);
  }

  lemma AfterDrop(done: seq<Event>, s: seq<Byte>, off: nat, len: nat)
    requires InProgress(done, s, off)
    requires off + HDR_LEN <= |s| && len == U16(s[off + 1], s[off + 2]) && AfterTail(s, off + 1) == None
    requires !FrameAt(s, off, len) && (len > ACC_SZ || HDR_LEN + len + TAIL_LEN <= |s| - off)
    ensures var cut := |s| - (TAIL_LEN - 1);
            if cut <= off then Finished(done, s, off) else Finished(done + [Skipped(s[off..cut])], s, cut)
  {
    hide Judge;
    hide AfterTail;
    hide TailAt;
    JudgeAt(s, off, len);
    var cut := |s| - (TAIL_LEN - 1);
    if off < cut {
      assert s[off..][..cut - off] == s[off..cut] && s[off..][cut - off..] == s[cut..];
    }
  }

  lemma AfterShort(done: seq<Event>, s: seq<Byte>, off: nat)
    requires InProgress(done, s, off) && |s| - off < HDR_LEN
    ensures Finished(done, s, off)
  {
  }

  lemma TheEnd(done: seq<Event>, s: seq<Byte>, off: nat)
    requires Finished(done, s, off)
    ensures off <= |s| && s[off..] == Parse(s).rest && done == Parse(s).events
  {
  }
}
