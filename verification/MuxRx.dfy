/** mux_rx_task: the staging buffer, parsed and shifted in place. */
module MuxRxTask {
  import opened Bytes
  import opened MuxWire
  import opened FwDemux

  class MuxRx {
    const staging: array<Byte>
    var stagingLen: nat
    var sinks: Sinks

    ghost predicate Valid()
      reads this
    {
      staging.Length == MUX_STAGING_SZ && stagingLen < MUX_STAGING_SZ
    }

    constructor ()
      ensures Valid() && fresh(staging) && stagingLen == 0 && sinks == Sinks([], [], [])
    {
      staging := new Byte[MUX_STAGING_SZ];
      stagingLen, sinks := 0, Sinks([], [], []);
    }

    method DemuxFrame(kind: Byte, payload: seq<Byte>)
      modifies this`sinks
      ensures sinks == Dispatch(old(sinks), Frame(kind, payload))
    {
      if kind == SYNC {
        sinks := sinks.(replies := sinks.replies + [SYNC_REPLY]);
      } else if kind == PING {
        sinks := sinks.(replies := sinks.replies + [PONG]);
      } else if kind == BT {
        sinks := sinks.(bt := sinks.bt + [payload]);
      } else if kind == SPINEL {
        sinks := sinks.(ncp := sinks.ncp + payload);
      }
    }

    /** One receive from the ring buffer returning chunk, and the parse loop after it. */
    method Receive(chunk: seq<Byte>)
      requires Valid() && 0 < |chunk| <= MUX_STAGING_SZ - stagingLen
      modifies this`stagingLen, this`sinks, staging
      ensures Valid()
      ensures var d := Demux(old(staging[..stagingLen]) + chunk);
              staging[..stagingLen] == d.rest && sinks == DispatchAll(old(sinks), d.frames)
    {
      hide Demux;
      hide DispatchAll;
      hide Dispatch;
      CopyIn(staging, stagingLen, chunk);
      stagingLen := stagingLen + |chunk|;
      ghost var s := staging[..stagingLen];
      ghost var all := Demux(s);
      ghost var here := all;
      ghost var stopped := false;
      assert s[0..] == s;
      var off := 0;
      while stagingLen - off >= HDR_LEN
        modifies this`stagingLen, this`sinks
        invariant off <= stagingLen <= MUX_STAGING_SZ && s == staging[..stagingLen]
        invariant !stopped && here == Demux(s[off..]) && here.rest == all.rest
        invariant DispatchAll(sinks, here.frames) == DispatchAll(old(sinks), all.frames)
      {
        var kind := staging[off];
        var len := U16(staging[off + 1], staging[off + 2]);
        var size := HDR_LEN + len + TAIL_LEN;
        DemuxAt(s, off);
        if size > MUX_STAGING_SZ {
          stagingLen := 0;
          off := 0;
          stopped := true;
          break;
        }
        if stagingLen - off < size {
          stopped := true;
          break;
        }
        assert s[off + HDR_LEN..off + HDR_LEN + len] == staging[off + HDR_LEN..off + HDR_LEN + len];
        here := Demux(s[off + size..]);
        DispatchFirst(sinks, Frame(kind, s[off + HDR_LEN..off + HDR_LEN + len]), here.frames);
        DemuxFrame(kind, staging[off + HDR_LEN..off + HDR_LEN + len]);
        off := off + size;
      }
      if !stopped {
        DemuxShort(s[off..]);
      }
      DispatchNone(sinks);
      StagingBound(s);
      assert staging[off..stagingLen] == all.rest;
      if off > 0 {
        MoveDown(staging, off, stagingLen - off);
        stagingLen := stagingLen - off;
      }
    }
  }

  lemma DemuxAt(s: seq<Byte>, off: nat)
    requires off + HDR_LEN <= |s|
    ensures var len := U16(s[off + 1], s[off + 2]);
            var size := HDR_LEN + len + TAIL_LEN;
            Demux(s[off..]) ==
              if size > MUX_STAGING_SZ then Demuxed([], [])
              else if |s| - off < size then Demuxed([], s[off..])
              else Demux(s[off + size..]).After(Frame(s[off], s[off + HDR_LEN..off + HDR_LEN + len]))
  {
    var t, len := s[off..], U16(s[off + 1], s[off + 2]);
    var size := HDR_LEN + len + TAIL_LEN;
    assert t[0] == s[off] && t[1] == s[off + 1] && t[2] == s[off + 2];
    if off + size <= |s| {
      assert t[size..] == s[off + size..];
      assert t[HDR_LEN..HDR_LEN + len] == s[off + HDR_LEN..off + HDR_LEN + len];
    }
  }

  lemma DemuxShort(s: seq<Byte>)
    requires |s| < HDR_LEN
    ensures Demux(s) == Demuxed([], s)
  {
  }

  lemma DispatchFirst(k: Sinks, f: Frame, fs: seq<Frame>)
    ensures DispatchAll(k, [f] + fs) == DispatchAll(Dispatch(k, f), fs)
  {
    assert ([f] + fs)[1..] == fs;
  }

  lemma DispatchNone(k: Sinks)
    ensures DispatchAll(k, []) == k
  {
  }
}
