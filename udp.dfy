/** The UDP layer (RFC 768): an 8-byte header, then an RPC message. */
module Udp {
  import opened Base
  import opened Xdr
  import opened Unpack
  import opened Layers
  import opened Session

  const UDP_HEADER: nat := 8
  const PROTO_UDP: nat := 17

  /** The header, four 16-bit big-endian words. */
  function UdpHeader(h: seq<byte>): Udp
    requires |h| == UDP_HEADER
  {
    Udp(BigEndian(h[0..2]), BigEndian(h[2..4]), BigEndian(h[4..6]), BigEndian(h[6..8]))
  }

  /** `_decode_payload`: an RPC message is stored, a reply retires its
      xid, and the payload decoder runs; nothing happens past the RPC
      decoder when it finds no message. */
  function UdpPayloadStep(dec: Decoders, s: Snapshot): (t: Snapshot)
    requires Sane(dec) && s.pos <= |s.data|
    ensures t.pos <= |t.data|
  {
    var r := dec.rpc(s.data, s.pos, PROTO_UDP);
    if r.rpc.None? then s.(pos := r.next)
    else
      var msg := r.rpc.value;
      var xids := if msg.msgType != CALL then s.xids - {msg.xid} else s.xids;
      var load := dec.payload(s.data, r.next, msg);
      s.(pos := load.next, pkt := s.pkt.(rpc := r.rpc), xids := xids)
  }

  /** `UDP(pktt)`. */
  function UdpStep(dec: Decoders, s: Snapshot): (e: Effect)
    requires Sane(dec) && s.pos <= |s.data|
    ensures e.state.pos <= |e.state.data|
  {
    var h := ReadBytes(s.data, s.pos, UDP_HEADER);
    if h.result.None? then Effect(s, Some(Truncated))
    else Effect(UdpPayloadStep(dec, s.(pos := h.next, pkt := s.pkt.(udp := Some(UdpHeader(h.result.value))))), None)
  }

  method DecodeUdpPayload(p: Pktt)
    requires p.Valid()
    modifies p, p.unpack, p.pkt
    ensures p.Valid()
    ensures p.Snap() == UdpPayloadStep(p.dec, old(p.Snap()))
  {
    var rpc := DecodeRpc(p, PROTO_UDP);
    if rpc.Some? {
      p.pkt.rpc := rpc;
      if rpc.value.msgType != CALL {
        p.rpcXids := p.rpcXids - {rpc.value.xid};
      }
      var _ := DecodePayload(p, rpc.value);
    }
  }

  method DecodeUdp(p: Pktt) returns (raised: Option<Error>)
    requires p.Valid()
    modifies p, p.unpack, p.pkt
    ensures p.Valid()
    ensures Effect(p.Snap(), raised) == UdpStep(p.dec, old(p.Snap()))
  {
    var h := p.unpack.Read(UDP_HEADER);
    if h.None? {
      return Some(Truncated);
    }
    p.pkt.udp := Some(UdpHeader(h.value));
    DecodeUdpPayload(p);
    raised := None;
  }

  // Properties.

  function EncodeUdp(u: Udp): seq<byte> {
    ToBigEndian(u.srcPort, 2) + ToBigEndian(u.dstPort, 2) + ToBigEndian(u.length, 2) + ToBigEndian(u.checksum, 2)
  }

  /** The four header words read back from their encoding. */
  lemma UdpHeaderRoundTrip(u: Udp)
    requires u.srcPort < 0x1_0000 && u.dstPort < 0x1_0000 && u.length < 0x1_0000 && u.checksum < 0x1_0000
    ensures UdpHeader(EncodeUdp(u)) == u
  {
    var e := EncodeUdp(u);
    assert Pow256(2) == 0x1_0000 by {
      assert Pow256(2) == 256 * Pow256(1) && Pow256(1) == 256 * Pow256(0);
    }
    assert e[0..2] == ToBigEndian(u.srcPort, 2);
    assert e[2..4] == ToBigEndian(u.dstPort, 2);
    assert e[4..6] == ToBigEndian(u.length, 2);
    assert e[6..8] == ToBigEndian(u.checksum, 2);
    BigEndianOfToBigEndian(u.srcPort, 2);
    BigEndianOfToBigEndian(u.dstPort, 2);
    BigEndianOfToBigEndian(u.length, 2);
    BigEndianOfToBigEndian(u.checksum, 2);
  }

  /** Fewer than 8 bytes: nothing is read or stored, and the short read
      raises. */
  lemma ShortHeader(dec: Decoders, s: Snapshot)
    requires Sane(dec) && s.pos <= |s.data| && |s.data| - s.pos < UDP_HEADER
    ensures UdpStep(dec, s) == Effect(s, Some(Truncated))
  {
  }

  /** Exactly 8 header bytes are read; the UDP layer is on the packet
      whatever the RPC decoder then finds, the RPC decoder is tried for
      UDP right after the header; with no RPC message no rpc layer is
      stored, the xid table is untouched and the payload decoder does not
      run; with one, it is stored, a reply's xid is retired (a call leaves
      the table alone) and the payload decoder runs after it. */
  lemma UdpDecode(dec: Decoders, s: Snapshot)
    requires Sane(dec) && s.pos + UDP_HEADER <= |s.data|
    ensures var e := UdpStep(dec, s);
      var r := dec.rpc(s.data, s.pos + UDP_HEADER, PROTO_UDP);
      && e.raised.None? && e.state.data == s.data && e.state.streams == s.streams
      && e.state.pkt.udp == Some(UdpHeader(s.data[s.pos..s.pos + UDP_HEADER]))
      && e.state.pkt == s.pkt.(udp := e.state.pkt.udp, rpc := e.state.pkt.rpc)
      && (r.rpc.None? ==> e.state.pkt.rpc == s.pkt.rpc && e.state.xids == s.xids && e.state.pos == r.next)
      && (r.rpc.Some? ==>
            && e.state.pkt.rpc == r.rpc
            && e.state.xids == (if r.rpc.value.msgType != CALL then s.xids - {r.rpc.value.xid} else s.xids)
            && e.state.pos == dec.payload(s.data, r.next, r.rpc.value).next)
  {
  }

  /** Retiring an xid the table does not hold changes nothing. */
  lemma RetireAbsent(dec: Decoders, s: Snapshot)
    requires Sane(dec) && s.pos + UDP_HEADER <= |s.data|
    requires var r := dec.rpc(s.data, s.pos + UDP_HEADER, PROTO_UDP);
      r.rpc.Some? && r.rpc.value.xid !in s.xids
    ensures UdpStep(dec, s).state.xids == s.xids
  {
    var r := dec.rpc(s.data, s.pos + UDP_HEADER, PROTO_UDP);
    assert s.xids - {r.rpc.value.xid} == s.xids;
  }

  /** The UDP layer keeps the pcap record and never adds a call. */
  lemma UdpKeepsRecord(dec: Decoders, s: Snapshot)
    requires Sane(dec) && s.pos <= |s.data|
    ensures UdpStep(dec, s).state.pkt.record == s.pkt.record && UdpStep(dec, s).state.xids <= s.xids
  {
  }
}
