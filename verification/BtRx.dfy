/** bt_rx_from_host: the H4 accumulator, parsed and shifted in place. */
module BtRxFromHost {
  import opened Bytes
  import opened H4

  class BtRx {
    const acc: array<Byte>
    var accLen: nat
    var queued: seq<Packet>   // handed to the queue towards the controller

    ghost predicate Valid()
      reads this
    {
      acc.Length == BT_ACC_SZ && accLen < BT_PKT_MAX
    }

    ghost function View(): Bt
      requires Valid()
      reads this, acc
    {
      Bt(acc[..accLen], queued)
    }

    constructor ()
      ensures Valid() && fresh(acc) && View() == Bt([], [])
    {
      acc := new Byte[BT_ACC_SZ];
      accLen, queued := 0, [];
    }

    /** h4_pkt_len(acc + off, accLen - off) */
    method HeaderAt(off: nat) returns (n: int)
      requires off <= accLen <= acc.Length
      ensures n == PktLen(acc[off..accLen])
    {
      var avail := accLen - off;
      if avail < 1 {
        return 0;
      }
      if acc[off] == 0x01 || acc[off] == 0x03 {
        return if avail < 4 then 0 else 4 + acc[off + 3] as int;
      } else if acc[off] == 0x02 {
        return if avail < 5 then 0 else 5 + acc[off + 3] as int + 256 * (acc[off + 4] as int);
      } else if acc[off] == 0x04 {
        return if avail < 3 then 0 else 3 + acc[off + 2] as int;
      }
      return -1;
    }

    /** Queues every whole packet; returns how many bytes were consumed. */
    method PacketLoop() returns (off: nat)
      requires accLen <= acc.Length
      modifies this`accLen, this`queued
      ensures off <= accLen <= old(accLen)
      ensures acc[off..accLen] == Reassemble(acc[..old(accLen)]).rest
      ensures queued == old(queued) + Reassemble(acc[..old(accLen)]).packets
    {
      hide Reassemble;
      hide PktLen;
      hide InProgress;
      off := 0;
      ghost var s, q := acc[..accLen], queued;
      ghost var stopped := false;
      Started(q, s);
      while off < accLen
        invariant off <= accLen == |s| && s == acc[..accLen]
        invariant !stopped && InProgress(q, queued, s, off)
      {
        SliceOf(acc, accLen, off, accLen);
        var n := HeaderAt(off);
        if n == 0 {
          Stopped(q, queued, s, off);
          stopped := true;
          break;
        }
        if n < 0 || n > BT_PKT_MAX {
          Flushed(q, queued, s, off);
          accLen := 0;
          off := 0;
          stopped := true;
          break;
        }
        if accLen - off < n {
          Stopped(q, queued, s, off);
          stopped := true;
          break;
        }
        SliceOf(acc, accLen, off, off + n);
        NextPacket(q, queued, s, off, n);
        queued := queued + [acc[off..off + n]];
        off := off + n;
      }
      if !stopped {
        Stopped(q, queued, s, off);
        SliceOf(acc, accLen, off, accLen);
      }
    }

    method RxFromHost(data: seq<Byte>)
      requires Valid()
      modifies this`accLen, this`queued, acc
      ensures Valid() && View() == old(View()).Feed(data)
    {
      hide Reassemble;
      if |data| > BT_ACC_SZ - accLen {
        accLen := 0;
        if |data| > BT_ACC_SZ {
          return;
        }
      }
      CopyIn(acc, accLen, data);
      accLen := accLen + |data|;
      AccBound(acc[..accLen]);
      var off := PacketLoop();
      if off > 0 {
        MoveDown(acc, off, accLen - off);
        accLen := accLen - off;
      }
    }
  }

  // ---- the steps of PacketLoop, on values ---------------------------------------------------

  /** Up to off the buffer s has been dealt with as Reassemble does. */
  ghost predicate InProgress(before: seq<Packet>, done: seq<Packet>, s: seq<Byte>, off: nat) {
    && off <= |s|
    && Reassemble(s[off..]).rest == Reassemble(s).rest
    && done + Reassemble(s[off..]).packets == before + Reassemble(s).packets
  }

  lemma Started(before: seq<Packet>, s: seq<Byte>)
    ensures InProgress(before, before, s, 0)
  {
    assert s[0..] == s;
  }

  lemma NextPacket(before: seq<Packet>, done: seq<Packet>, s: seq<Byte>, off: nat, n: nat)
    requires InProgress(before, done, s, off)
    requires off + n <= |s| && PktLen(s[off..]) == n && 0 < n <= BT_PKT_MAX
    ensures InProgress(before, done + [s[off..off + n]], s, off + n)
  {
    hide PktLen;
    assert s[off..][n..] == s[off + n..] && s[off..][..n] == s[off..off + n];
    Assoc(done, [s[off..off + n]], Reassemble(s[off + n..]).packets);
  }

  lemma Stopped(before: seq<Packet>, done: seq<Packet>, s: seq<Byte>, off: nat)
    requires InProgress(before, done, s, off)
    requires var n := PktLen(s[off..]); off == |s| || n == 0 || |s| - off < n <= BT_PKT_MAX
    ensures Reassemble(s).rest == s[off..] && done == before + Reassemble(s).packets
  {
  }

  lemma Flushed(before: seq<Packet>, done: seq<Packet>, s: seq<Byte>, off: nat)
    requires InProgress(before, done, s, off)
    requires var n := PktLen(s[off..]); n < 0 || n > BT_PKT_MAX
    ensures Reassemble(s).rest == [] && done == before + Reassemble(s).packets
  {
  }
}
