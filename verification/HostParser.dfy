/** What the host's reassembler does with its buffer, on values. The bytes still to be parsed are
    always the suffix of the buffer from the current offset, so every function here works on that
    suffix; class HostDriver is proved against these functions. */
module HostParser {
  import opened Bytes
  import opened MuxWire

  /** The fate of every byte that was ever read from the device. */
  datatype Event =
    | Dispatched(f: Frame)          // a validated frame, handed to vhci, the PTY or stdout
    | Skipped(bytes: seq<Byte>)     // passed over while resyncing
    | Discarded(bytes: seq<Byte>)   // thrown away when the buffer was full
  {
    function Bytes(): seq<Byte> {
      match this
      case Dispatched(f) => Serialise(f)
      case Skipped(b) => b
      case Discarded(b) => b
    }
  }

  function EventBytes(es: seq<Event>): seq<Byte> {
    if es == [] then [] else es[0].Bytes() + EventBytes(es[1..])
  }

  function Dispatches(fs: seq<Frame>): seq<Event> {
    seq(|fs|, i requires 0 <= i < |fs| => Dispatched(fs[i]))
  }

  /** The frames among the events, in order. */
  function Frames(es: seq<Event>): seq<Frame> {
    if es == [] then []
    else (if es[0].Dispatched? then [es[0].f] else []) + Frames(es[1..])
  }

  /** Offset just after the first tail at or after start. */
  function AfterTail(s: seq<Byte>, start: nat): (r: Option<nat>)
    ensures r.Some? ==> start + TAIL_LEN <= r.value <= |s| && TailAt(s, r.value - TAIL_LEN)
    ensures r.Some? ==> forall i :: start <= i < r.value - TAIL_LEN ==> !TailAt(s, i)
    ensures r.None? ==> forall i :: start <= i ==> !TailAt(s, i)
    decreases |s| - start
  {
    if start + TAIL_LEN > |s| then None
    else if TailAt(s, start) then Some(start + TAIL_LEN)
    else AfterTail(s, start + 1)
  }

  /** What one round of the parse loop decides about the header at the head of s. */
  datatype Verdict =
    | Deliver(f: Frame)     // whole frame with its tail in place
    | Realign(next: nat)    // header not believed: go to just after the next tail
    | Wait                  // plausible header, rest not here yet
    | Drop                  // header not believed and no tail ahead

  function Judge(s: seq<Byte>): (v: Verdict)
    requires HDR_LEN <= |s|
    ensures v.Deliver? ==> Serialise(v.f) <= s
    ensures v.Realign? ==> TAIL_LEN < v.next <= |s| && TailAt(s, v.next - TAIL_LEN)
    ensures v.Wait? || v.Drop? ==> forall i :: 1 <= i ==> !TailAt(s, i)
  {
    var len := U16(s[1], s[2]);
    var need := HDR_LEN + len + TAIL_LEN;
    if len <= ACC_SZ && need <= |s| && TailAt(s, HDR_LEN + len) then
      DeliverPrefix(s, len);
      Deliver(Frame(s[0], s[HDR_LEN..HDR_LEN + len]))
    else
      match AfterTail(s, 1)
      case Some(r) => Realign(r)
      case None => if len <= ACC_SZ && |s| < need then Wait else Drop
  }

  lemma DeliverPrefix(s: seq<Byte>, len: nat)
    requires HDR_LEN + len + TAIL_LEN <= |s| && len == U16(s[1], s[2]) && TailAt(s, HDR_LEN + len)
    ensures Serialise(Frame(s[0], s[HDR_LEN..HDR_LEN + len])) == s[..HDR_LEN + len + TAIL_LEN]
  {
    var f := Frame(s[0], s[HDR_LEN..HDR_LEN + len]);
    assert s[..HDR_LEN + len + TAIL_LEN]
        == s[..HDR_LEN] + s[HDR_LEN..HDR_LEN + len] + s[HDR_LEN + len..HDR_LEN + len + TAIL_LEN];
    assert s[..HDR_LEN] == [f.kind, len % 256, len / 256 % 256];
  }

  datatype Parsed = Parsed(events: seq<Event>, rest: seq<Byte>) {
    function After(e: Event): Parsed {
      Parsed([e] + events, rest)
    }
  }

  /** One call of process_frames: what it does with the buffered bytes and what it leaves there. */
  function Parse(s: seq<Byte>): Parsed
    decreases |s|
  {
    if |s| < HDR_LEN then Parsed([], s)
    else
      match Judge(s)
      case Deliver(f) => Parse(s[|Serialise(f)|..]).After(Dispatched(f))
      case Realign(next) => Parse(s[next..]).After(Skipped(s[..next]))
      case Wait => Parsed([], s)
      case Drop =>
        if |s| > TAIL_LEN - 1
        then Parsed([Skipped(s[..|s| - (TAIL_LEN - 1)])], s[|s| - (TAIL_LEN - 1)..])
        else Parsed([], s)
  }

  /** The reassembler between two reads. */
  datatype Host = Host(buf: seq<Byte>, events: seq<Event>) {

    /** A full buffer is given up before the next read. */
    function AfterReset(): Host {
      if |buf| == ACC_SZ then Host([], events + [Discarded(buf)]) else this
    }

    /** One read of the device returning chunk. */
    function Read(chunk: seq<Byte>): Host {
      var h := AfterReset();
      var p := Parse(h.buf + chunk);
      Host(p.rest, h.events + p.events)
    }

    /** read() returns at least one byte and at most the free space. */
    predicate Fits(chunk: seq<Byte>) {
      0 < |chunk| <= ACC_SZ - |AfterReset().buf|
    }
  }

  const START := Host([], [])

  /** Any number of reads. */
  function Reads(h: Host, chunks: seq<seq<Byte>>): Host
    decreases |chunks|
  {
    if chunks == [] then h else Reads(h.Read(chunks[0]), chunks[1..])
  }

  predicate ReadsFit(h: Host, chunks: seq<seq<Byte>>)
    decreases |chunks|
  {
    chunks == [] || (h.Fits(chunks[0]) && ReadsFit(h.Read(chunks[0]), chunks[1..]))
  }

  // ---- soundness on arbitrary bytes ---------------------------------------------------------

  lemma {:induction false} EventBytesAppend(a: seq<Event>, b: seq<Event>)
    ensures EventBytes(a + b) == EventBytes(a) + EventBytes(b)
  {
    if a == [] {
      assert a + b == b;
    } else {
      assert (a + b)[1..] == a[1..] + b;
      EventBytesAppend(a[1..], b);
    }
  }

  lemma {:induction false} FramesAppend(a: seq<Event>, b: seq<Event>)
    ensures Frames(a + b) == Frames(a) + Frames(b)
  {
    if a == [] {
      assert a + b == b;
    } else {
      assert (a + b)[1..] == a[1..] + b;
      FramesAppend(a[1..], b);
      Assoc(if a[0].Dispatched? then [a[0].f] else [], Frames(a[1..]), Frames(b));
    }
  }

  lemma EventCons(e: Event, es: seq<Event>)
    ensures EventBytes([e] + es) == e.Bytes() + EventBytes(es)
  {
    assert ([e] + es)[1..] == es;
  }

  lemma ConservesAfter(e: Event, p: Parsed, s: seq<Byte>)
    requires e.Bytes() <= s
    requires EventBytes(p.events) + p.rest == s[|e.Bytes()|..]
    ensures EventBytes(p.After(e).events) + p.rest == s
  {
    EventCons(e, p.events);
    Reassociate(e.Bytes(), EventBytes(p.events), p.rest, s);
  }

  /** One call accounts for every byte, in order: each dispatched frame is a slice of the input. */
  lemma {:induction false} ParseConserves(s: seq<Byte>)
    ensures EventBytes(Parse(s).events) + Parse(s).rest == s
    decreases |s|
  {
    if HDR_LEN <= |s| {
      match Judge(s)
      case Deliver(f) =>
        ParseConserves(s[|Serialise(f)|..]);
        ConservesAfter(Dispatched(f), Parse(s[|Serialise(f)|..]), s);
      case Realign(next) =>
        ParseConserves(s[next..]);
        ConservesAfter(Skipped(s[..next]), Parse(s[next..]), s);
      case Wait =>
      case Drop =>
        if TAIL_LEN - 1 < |s| {
          ConservesAfter(Parse(s).events[0], Parsed([], Parse(s).rest), s);
        }
    }
  }

  /** Conservation over any run on any bytes: received == dispatched + skipped + discarded +
      still buffered, in the order received. */
  lemma {:induction false} ReadsConserve(h: Host, chunks: seq<seq<Byte>>)
    ensures var h' := Reads(h, chunks);
            EventBytes(h'.events) + h'.buf == EventBytes(h.events) + h.buf + Flatten(chunks)
    decreases |chunks|
  {
    hide Parse;
    hide EventBytes;
    if chunks != [] {
      var h1 := h.Read(chunks[0]);
      ReadConserves(h, chunks[0]);
      ReadsConserve(h1, chunks[1..]);
      Assoc(EventBytes(h.events) + h.buf, chunks[0], Flatten(chunks[1..]));
    }
  }

  lemma ReadConserves(h: Host, chunk: seq<Byte>)
    ensures var h' := h.Read(chunk);
            EventBytes(h'.events) + h'.buf == EventBytes(h.events) + h.buf + chunk
  {
    var r := h.AfterReset();
    if r != h {
      EventCons(Discarded(h.buf), []);
      EventBytesAppend(h.events, [Discarded(h.buf)]);
      assert EventBytes(r.events) == EventBytes(h.events) + h.buf;
    }
    var p := Parse(r.buf + chunk);
    ParseConserves(r.buf + chunk);
    EventBytesAppend(r.events, p.events);
    Reassociate(EventBytes(r.events), EventBytes(p.events), p.rest, EventBytes(r.events) + (r.buf + chunk));
  }

  // ---- bounds on arbitrary bytes ------------------------------------------------------------

  /** What is kept for the next read shows no tail, and it is a full buffer only if the header at
      its head claims one of the few lengths that pass the size check but never fit. */
  lemma {:induction false} ParseRest(s: seq<Byte>)
    ensures var r := Parse(s).rest;
            && TailFree(r)
            && (ACC_SZ <= |r| ==> ACC_SZ - HDR_LEN - TAIL_LEN < U16(r[1], r[2]) <= ACC_SZ)
    decreases |s|
  {
    if HDR_LEN <= |s| {
      match Judge(s)
      case Deliver(f) => ParseRest(s[|Serialise(f)|..]);
      case Realign(next) => ParseRest(s[next..]);
      case Wait =>
        if TailAt(s, 0) {
          TailByte(s, 0, 1);
          TailByte(s, 0, 2);
        }
      case Drop =>
        if TailAt(s, 0) {
          TailByte(s, 0, 1);
          TailByte(s, 0, 2);
        }
    }
  }

  lemma {:induction false} ParseShrinks(s: seq<Byte>)
    ensures |Parse(s).rest| <= |s|
    decreases |s|
  {
    if HDR_LEN <= |s| {
      match Judge(s)
      case Deliver(f) => ParseShrinks(s[|Serialise(f)|..]);
      case Realign(next) => ParseShrinks(s[next..]);
      case Wait =>
      case Drop =>
    }
  }

  /** Between any two reads there is room for at least one more byte, and no tail is buffered. */
  lemma {:induction false} AlwaysRoom(chunks: seq<seq<Byte>>, h: Host)
    requires |h.buf| <= ACC_SZ && TailFree(h.buf) && ReadsFit(h, chunks)
    ensures var h' := Reads(h, chunks);
            |h'.buf| <= ACC_SZ && |h'.AfterReset().buf| < ACC_SZ && TailFree(h'.buf)
    decreases |chunks|
  {
    if chunks != [] {
      var s := h.AfterReset().buf + chunks[0];
      ParseShrinks(s);
      ParseRest(s);
      hide Parse;
      AlwaysRoom(chunks[1..], h.Read(chunks[0]));
    }
  }
}
