/** H4 packets (Bluetooth Core Specification, Vol 4 Part A section 2) and their reassembly from the
    payloads of the BT channel, on values. */
module H4 {
  import opened Bytes
  import opened Hci

  /** 5 + CONFIG_BT_LE_ACL_BUF_SIZE (517), which exceeds 1 + CONFIG_BT_LE_HCI_EVT_BUF_SIZE (257). */
  const BT_PKT_MAX: nat := 522
  const BT_ACC_SZ: nat := 2048

  type Packet = seq<Byte>

  /** Length of the packet at the head of s; 0: more bytes needed to tell; -1: unknown type. */
  function PktLen(s: seq<Byte>): int {
    if s == [] then 0
    else if s[0] == 0x01 || s[0] == 0x03 then (if |s| < 4 then 0 else 4 + s[3] as int)
    else if s[0] == 0x02 then (if |s| < 5 then 0 else 5 + s[3] as int + 256 * (s[4] as int))
    else if s[0] == 0x04 then (if |s| < 3 then 0 else 3 + s[2] as int)
    else -1
  }

  /** The encoding of an HCI packet, no longer than the bridge moves in one piece. */
  ghost predicate WellFormed(p: Packet) {
    |p| <= BT_PKT_MAX && exists h: Hci :: h.Valid() && p == h.Encode()
  }

  ghost predicate AllWellFormed(ps: seq<Packet>) {
    forall p :: p in ps ==> WellFormed(p)
  }

  datatype Reassembled = Reassembled(packets: seq<Packet>, rest: seq<Byte>) {
    function After(p: Packet): Reassembled {
      Reassembled([p] + packets, rest)
    }
  }

  /** The packet loop over the accumulated bytes. A bad header flushes them all. */
  function Reassemble(s: seq<Byte>): Reassembled
    decreases |s|
  {
    var n := PktLen(s);
    if n == 0 then Reassembled([], s)
    else if n < 0 || n > BT_PKT_MAX then Reassembled([], [])
    else if |s| < n then Reassembled([], s)
    else Reassemble(s[n..]).After(s[..n])
  }

  /** bt_rx_from_host between two calls. */
  datatype Bt = Bt(acc: seq<Byte>, queued: seq<Packet>) {
    function Feed(data: seq<Byte>): Bt {
      if |data| > BT_ACC_SZ then Bt([], queued)
      else
        var r := Reassemble((if |data| > BT_ACC_SZ - |acc| then [] else acc) + data);
        Bt(r.rest, queued + r.packets)
    }
  }

  function Feeds(b: Bt, chunks: seq<seq<Byte>>): Bt
    decreases |chunks|
  {
    if chunks == [] then b else Feeds(b.Feed(chunks[0]), chunks[1..])
  }

  /** On every stream, what is left between two calls is less than one packet. So a chunk of up to
      1527 bytes never overflows the buffer, and no mux payload is larger than 1012. */
  lemma {:induction false} AccBound(s: seq<Byte>)
    ensures |Reassemble(s).rest| < BT_PKT_MAX
    decreases |s|
  {
    if 0 < PktLen(s) <= |s| {
      AccBound(s[PktLen(s)..]);
    }
  }

  // ---- packet lengths -----------------------------------------------------------------------

  /** Whatever follows, a packet's length is that of its encoding, and told by its header alone. */
  lemma LenOfEncoding(h: Hci, s: seq<Byte>, more: seq<Byte>)
    requires h.Valid() && s <= h.Encode() + more
    ensures PktLen(s) == if |s| < h.HeaderSize() then 0 else |h.Encode()|
  {
    EncodeShape(h);
    var p := h.Encode();
    assert forall i :: 0 <= i < |s| && i < |p| ==> s[i] == p[i];
  }

  /** The packet a length of its own says is there. */
  function Decode(p: Packet): (h: Hci)
    requires PktLen(p) == |p| > 0
    ensures h.Valid() && h.Encode() == p
  {
    if p[0] == 0x02 then
      assert p == p[..5] + p[5..];
      Acl(p[1] as int + 256 * p[2] as int, p[5..])
    else if p[0] == 0x04 then
      assert p == p[..3] + p[3..];
      Event(p[1], p[3..])
    else
      assert p == p[..4] + p[4..];
      var n := p[1] as int + 256 * p[2] as int;
      if p[0] == 0x01 then Command(n, p[4..]) else Sco(n, p[4..])
  }

  /** The bytes that are as long as their own header says are exactly the encodings. */
  lemma EncodingsExactly(p: Packet)
    ensures WellFormed(p) <==> p != [] && PktLen(p) == |p| <= BT_PKT_MAX
  {
    if WellFormed(p) {
      EncodedLen(p);
    }
    hide PktLen;
    if p != [] && PktLen(p) == |p| <= BT_PKT_MAX {
      var h := Decode(p);
      assert h.Valid() && p == h.Encode();
    }
  }

  lemma EncodedLen(p: Packet)
    requires WellFormed(p)
    ensures PktLen(p) == |p| > 0
  {
    var h: Hci :| h.Valid() && p == h.Encode();
    EncodeShape(h);
    assert p + [] == p;
    hide PktLen;
    LenOfEncoding(h, p, []);
  }

  // ---- exactness ----------------------------------------------------------------------------

  /** acc holds less than one packet, and with what follows spells out ps. */
  ghost predicate PartialPacket(acc: seq<Byte>, ps: seq<Packet>) {
    acc <= Flatten(ps) && (ps == [] || |acc| < |ps[0]|)
  }

  /** The header decides as soon as it is there, whatever follows. */
  lemma PktLenOfPrefix(s: seq<Byte>, p: Packet, more: seq<Byte>)
    requires WellFormed(p) && s <= p + more
    ensures PktLen(s) == 0 || PktLen(s) == |p|
    ensures |p| <= |s| ==> PktLen(s) == |p|
  {
    EncodingsExactly(p);
    assert forall i :: 0 <= i < |s| && i < |p| ==> s[i] == p[i];
    hide WellFormed;
  }

  lemma ReassembleHead(q: seq<Byte>, p: Packet, more: seq<Byte>)
    requires WellFormed(p) && q <= p + more
    ensures Reassemble(q) == if |q| < |p| then Reassembled([], q) else Reassemble(q[|p|..]).After(p)
    ensures |p| <= |q| ==> q == p + q[|p|..] && q[|p|..] <= more
  {
    hide PktLen;
    hide WellFormed;
    PktLenOfPrefix(q, p, more);
    EncodingsExactly(p);
    if |p| <= |q| {
      assert q[..|p|] == p && q == p + q[|p|..];
      CancelPrefix(p, q[|p|..], more);
    }
  }

  lemma {:induction false} ReassembleStream(q: seq<Byte>, ps: seq<Packet>) returns (k: nat)
    requires AllWellFormed(ps) && q <= Flatten(ps)
    ensures k <= |ps| && Reassemble(q).packets == ps[..k]
    ensures q == Flatten(ps[..k]) + Reassemble(q).rest
    ensures PartialPacket(Reassemble(q).rest, ps[k..])
    decreases |ps|
  {
    if ps == [] {
      k := 0;
    } else {
      var p, more := ps[0], Flatten(ps[1..]);
      assert WellFormed(p);
      EncodingsExactly(p);
      ReassembleHead(q, p, more);
      hide Reassemble;
      hide WellFormed;
      if |q| < |p| {
        k := 0;
        assert ps[0..] == ps;
      } else {
        k := ReassembleStream(q[|p|..], ps[1..]);
        k := k + 1;
        TakePacket(ps, k);
        Assoc(p, Flatten(ps[1..][..k - 1]), Reassemble(q).rest);
      }
    }
  }

  /** b is no start of a packet the bridge can move: its indicator is none of 1 to 4, or its header
      announces a packet of more than 522 bytes. */
  ghost predicate Hopeless(b: seq<Byte>) {
    b != [] &&
    (!(1 <= b[0] <= 4)
     || exists h: Hci :: h.Valid() && b <= h.Encode() && h.HeaderSize() <= |b| && |h.Encode()| > 522)
  }

  lemma HopelessLen(b: seq<Byte>)
    requires Hopeless(b)
    ensures PktLen(b) < 0 || PktLen(b) > BT_PKT_MAX
  {
    if 1 <= b[0] <= 4 {
      var h: Hci :| h.Valid() && b <= h.Encode() && h.HeaderSize() <= |b| && |h.Encode()| > 522;
      assert h.Encode() + [] == h.Encode();
      LenOfEncoding(h, b, []);
    }
  }

  /** Such bytes cost everything accumulated from there on, and no packet before them. */
  lemma {:induction false} FlushedByHeader(ps: seq<Packet>, b: seq<Byte>)
    requires AllWellFormed(ps) && Hopeless(b)
    ensures Reassemble(Flatten(ps) + b) == Reassembled(ps, [])
  {
    hide WellFormed;
    hide PktLen;
    if ps == [] {
      HopelessLen(b);
      assert Flatten(ps) + b == b;
    } else {
      hide Hopeless;
      var p, more := ps[0], Flatten(ps[1..]) + b;
      assert WellFormed(p);
      EncodingsExactly(p);
      Assoc(p, Flatten(ps[1..]), b);
      ReassembleHead(p + more, p, more);
      assert (p + more)[|p|..] == more;
      FlushedByHeader(ps[1..], b);
    }
  }

  /** A chunk that does not fit behind what is accumulated costs that and is itself taken as if it were
      the first; one of more than 2048 bytes is lost too. */
  lemma OverflowRule(b: Bt, data: seq<Byte>)
    requires |b.acc| + |data| > 2048 && |b.acc| <= 2048
    ensures b.Feed(data) == if |data| > 2048 then Bt([], b.queued) else Bt([], b.queued).Feed(data)
  {
    hide Reassemble;
  }

  lemma TakePacket(ps: seq<Packet>, k: nat)
    requires 0 < k <= |ps|
    ensures Flatten(ps[..k]) == ps[0] + Flatten(ps[1..][..k - 1])
    ensures ps[..k] == [ps[0]] + ps[1..][..k - 1] && ps[1..][k - 1..] == ps[k..]
  {
    assert ps[..k][1..] == ps[1..][..k - 1];
  }

  lemma FlattenRemainder(ps: seq<Packet>, k: nat, b: seq<Byte>, more: seq<Byte>)
    requires k <= |ps| && Flatten(ps[..k]) + b + more <= Flatten(ps)
    ensures b + more <= Flatten(ps[k..])
  {
    assert ps == ps[..k] + ps[k..];
    FlattenAppend(ps[..k], ps[k..]);
    Assoc(Flatten(ps[..k]), b, more);
    CancelPrefix(Flatten(ps[..k]), b + more, Flatten(ps[k..]));
  }

  ghost predicate Fed(b: Bt, input: seq<Byte>, ps: seq<Packet>, k: nat, b': Bt) {
    && k <= |ps|
    && b'.queued == b.queued + ps[..k]
    && b.acc + input == Flatten(ps[..k]) + b'.acc
    && PartialPacket(b'.acc, ps[k..])
  }

  lemma FedTwice(b: Bt, x: seq<Byte>, ps: seq<Packet>, k: nat, b1: Bt, y: seq<Byte>, k': nat, b2: Bt)
    requires Fed(b, x, ps, k, b1) && Fed(b1, y, ps[k..], k', b2)
    ensures Fed(b, x + y, ps, k + k', b2)
  {
    assert ps[k..][k'..] == ps[k + k'..];
    assert ps[..k + k'] == ps[..k] + ps[k..][..k'];
    FlattenAppend(ps[..k], ps[k..][..k']);
    Assoc(b.acc, x, y);
    Assoc(Flatten(ps[..k]), b1.acc, y);
    Assoc(Flatten(ps[..k]), Flatten(ps[k..][..k']), b2.acc);
  }

  lemma ExactFeed(b: Bt, ps: seq<Packet>, chunk: seq<Byte>) returns (k: nat)
    requires AllWellFormed(ps) && PartialPacket(b.acc, ps) && b.acc + chunk <= Flatten(ps)
    requires |chunk| <= BT_ACC_SZ - (BT_PKT_MAX - 1)
    ensures Fed(b, chunk, ps, k, b.Feed(chunk))
  {
    hide Reassemble;
    if ps != [] {
      assert WellFormed(ps[0]);
      EncodingsExactly(ps[0]);
    }
    k := ReassembleStream(b.acc + chunk, ps);
  }

  lemma {:induction false} ExactFeeds(b: Bt, ps: seq<Packet>, chunks: seq<seq<Byte>>) returns (k: nat)
    requires AllWellFormed(ps) && PartialPacket(b.acc, ps) && b.acc + Flatten(chunks) <= Flatten(ps)
    requires forall c :: c in chunks ==> |c| <= BT_ACC_SZ - (BT_PKT_MAX - 1)
    ensures Fed(b, Flatten(chunks), ps, k, Feeds(b, chunks))
    decreases |chunks|
  {
    hide Reassemble;
    hide WellFormed;
    if chunks == [] {
      k := 0;
      assert ps[0..] == ps;
    } else {
      var c, more := chunks[0], Flatten(chunks[1..]);
      Assoc(b.acc, c, more);
      PrefixOfPrefix(b.acc + c, more, Flatten(ps));
      k := ExactFeed(b, ps, c);
      var b1 := b.Feed(c);
      FlattenRemainder(ps, k, b1.acc, more);
      var k' := ExactFeeds(b1, ps[k..], chunks[1..]);
      FedTwice(b, c, ps, k, b1, more, k', Feeds(b, chunks));
      k := k + k';
    }
  }

  /** Main theorem: HCI packets of up to 522 bytes, encoded, concatenated and re-split into chunks of
      up to 1527 bytes, come out exactly as they went in, in order. */
  lemma H4Exact(hs: seq<Hci>, chunks: seq<seq<Byte>>)
    requires AllValid(hs) && (forall h :: h in hs ==> |h.Encode()| <= BT_PKT_MAX)
    requires Flatten(chunks) <= Flatten(Encodings(hs))
    requires forall c :: c in chunks ==> |c| <= BT_ACC_SZ - (BT_PKT_MAX - 1)
    ensures var b, ps := Feeds(Bt([], []), chunks), Encodings(hs);
            && b.queued <= ps
            && Flatten(chunks) == Flatten(b.queued) + b.acc
            && PartialPacket(b.acc, ps[|b.queued|..])
    ensures Flatten(chunks) == Flatten(Encodings(hs)) ==> Feeds(Bt([], []), chunks) == Bt([], Encodings(hs))
  {
    EncodedWellFormed(hs);
    ExactFromStart(Encodings(hs), chunks);
    hide *;
  }

  lemma EncodedWellFormed(hs: seq<Hci>)
    requires AllValid(hs) && forall h :: h in hs ==> |h.Encode()| <= BT_PKT_MAX
    ensures AllWellFormed(Encodings(hs))
  {
    forall p | p in Encodings(hs) ensures WellFormed(p) {
      var i :| 0 <= i < |hs| && Encodings(hs)[i] == p;
      assert hs[i] in hs;
    }
  }

  lemma ExactFromStart(ps: seq<Packet>, chunks: seq<seq<Byte>>)
    requires AllWellFormed(ps) && Flatten(chunks) <= Flatten(ps)
    requires forall c :: c in chunks ==> |c| <= BT_ACC_SZ - (BT_PKT_MAX - 1)
    ensures var b := Feeds(Bt([], []), chunks);
            && b.queued <= ps
            && Flatten(chunks) == Flatten(b.queued) + b.acc
            && PartialPacket(b.acc, ps[|b.queued|..])
    ensures Flatten(chunks) == Flatten(ps) ==> Feeds(Bt([], []), chunks) == Bt([], ps)
  {
    hide PktLen;
    hide Reassemble;
    assert [] + Flatten(chunks) == Flatten(chunks);
    if ps != [] {
      assert WellFormed(ps[0]);
      EncodingsExactly(ps[0]);
    }
    hide WellFormed;
    var k := ExactFeeds(Bt([], []), ps, chunks);
    var b := Feeds(Bt([], []), chunks);
    assert b.queued == ps[..k];
    if Flatten(chunks) == Flatten(ps) {
      AllArrived(ps, k, b.acc);
    }
  }

  lemma AllArrived(ps: seq<Packet>, k: nat, acc: seq<Byte>)
    requires k <= |ps| && Flatten(ps) == Flatten(ps[..k]) + acc && PartialPacket(acc, ps[k..])
    ensures k == |ps| && acc == []
  {
    assert ps == ps[..k] + ps[k..];
    FlattenAppend(ps[..k], ps[k..]);
    CancelPrefix(Flatten(ps[..k]), acc, Flatten(ps[k..]));
  }
}
