/** The firmware's frame assembly, and the cutting of Spinel's byte stream into frames. */
module FrameOut {
  import opened Bytes
  import opened MuxWire

  /** mux_write_locked's buffer, filled step by step. */
  method Assemble(f: Frame) returns (buf: array<Byte>, n: nat)
    requires |f.payload| <= MUX_TX_MAX_PAYLOAD
    ensures n <= buf.Length && buf[..n] == Serialise(f)
  {
    buf := new Byte[HDR_LEN + MUX_TX_MAX_PAYLOAD + TAIL_LEN];
    buf[0] := f.kind;
    buf[1] := |f.payload| % 256;
    buf[2] := |f.payload| / 256 % 256;
    n := 3;
    CopyIn(buf, n, f.payload);
    n := n + |f.payload|;
    CopyIn(buf, n, TAIL);
    n := n + TAIL_LEN;
  }

  /** buf cut into chunks the reliable sender accepts: none is empty or over its cap, and none but the
      last is shorter than it could be. */
  predicate IsCut(chunks: seq<seq<Byte>>, buf: seq<Byte>) {
    && Flatten(chunks) == buf
    && (forall i :: 0 <= i < |chunks| ==> 0 < |chunks[i]| <= MUX_TX_MAX_PAYLOAD)
    && (forall i :: 0 <= i < |chunks| - 1 ==> |chunks[i]| == MUX_TX_MAX_PAYLOAD)
  }

  /** spinel_ncp_send: the chunks handed to the reliable sender. */
  method SpinelNcpSend(buf: seq<Byte>) returns (chunks: seq<seq<Byte>>)
    ensures IsCut(chunks, buf)
  {
    chunks := [];
    var off := 0;
    while off < |buf|
      invariant off <= |buf| && Flatten(chunks) == buf[..off]
      invariant forall i :: 0 <= i < |chunks| ==> 0 < |chunks[i]| <= MUX_TX_MAX_PAYLOAD
      invariant off < |buf| ==> forall i :: 0 <= i < |chunks| ==> |chunks[i]| == MUX_TX_MAX_PAYLOAD
      invariant forall i :: 0 <= i < |chunks| - 1 ==> |chunks[i]| == MUX_TX_MAX_PAYLOAD
    {
      var chunk := |buf| - off;
      if chunk > MUX_TX_MAX_PAYLOAD {
        chunk := MUX_TX_MAX_PAYLOAD;
      }
      FlattenAppend(chunks, [buf[off..off + chunk]]);
      assert Flatten([buf[off..off + chunk]]) == buf[off..off + chunk];
      assert buf[..off] + buf[off..off + chunk] == buf[..off + chunk];
      chunks := chunks + [buf[off..off + chunk]];
      off := off + chunk;
    }
    assert buf[..off] == buf;
  }
}
