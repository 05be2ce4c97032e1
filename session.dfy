/** The trace reader's session object (`pktt`): the byte cursor over the
    current frame, the packet record the decoders fill in, and the state
    kept across packets, the TCP stream map and the table of RPC calls
    still waiting for their reply.  The RPC decoder and the RPC payload
    decoder are not part of this model: they are the two functions a
    session is built with. */
module Session {
  import opened Base
  import opened Unpack
  import opened Layers

  /** What the RPC decoder leaves: the message, or nothing when the bytes
      are not an RPC message, and the read position after it. */
  datatype RpcRead = RpcRead(rpc: Option<Rpc>, next: nat)

  /** What the payload decoder leaves: whether it decoded something, and
      the read position after it. */
  datatype PayloadRead = PayloadRead(loaded: bool, next: nat)

  /** The whole state a decoder reads and writes. */
  datatype Snapshot = Snapshot(data: seq<byte>, pos: nat, pkt: PacketView,
                               streams: map<string, Stream>, xids: set<nat>)

  /** A decoder's result: the state after it, and the exception it raised,
      if any. */
  datatype Effect = Effect(state: Snapshot, raised: Option<Error>)

  /** `RPC(pktt, proto)` and `rpc.decode_payload()`, on the frame and the
      read position, and the whole IPv4 decoder, on the session state. */
  datatype Decoders = Decoders(rpc: (seq<byte>, nat, nat) -> RpcRead,
                               payload: (seq<byte>, nat, Rpc) -> PayloadRead,
                               ipv4: Snapshot -> Effect)

  /** The RPC decoders only move forward within the frame; the IPv4
      decoder keeps the position within the frame and the pcap record. */
  ghost predicate Sane(d: Decoders) {
    && (forall data: seq<byte>, pos: nat, proto: nat :: pos <= |data| ==>
          pos <= d.rpc(data, pos, proto).next <= |data|)
    && (forall data: seq<byte>, pos: nat, r: Rpc :: pos <= |data| ==>
          pos <= d.payload(data, pos, r).next <= |data|)
    && (forall s: Snapshot {:trigger d.ipv4(s)} :: s.pos <= |s.data| ==>
          d.ipv4(s).state.pos <= |d.ipv4(s).state.data| && d.ipv4(s).state.pkt.record == s.pkt.record)
  }

  /** The packet record (`pktt.pkt`). */
  class Packet {
    var ethernet: Option<Ethernet>
    var ip: Option<Ipv6>
    var tcp: Option<Tcp>
    var udp: Option<Udp>
    var rpc: Option<Rpc>
    var gssd: Option<GssData>
    var gssc: Option<GssChecksum>
    const record: Record

    constructor (rec: Record)
      ensures View() == PacketView(None, None, None, None, None, None, None, rec)
    {
      ethernet, ip, tcp, udp, rpc, gssd, gssc := None, None, None, None, None, None, None;
      record := rec;
    }

    function View(): PacketView
      reads this
    {
      PacketView(ethernet, ip, tcp, udp, rpc, gssd, gssc, record)
    }
  }

  class Pktt {
    const unpack: Cursor
    const pkt: Packet
    const dec: Decoders
    /** `_tcp_stream_map`. */
    var tcpStreams: map<string, Stream>
    /** The xids of `_rpc_xid_map`; the call records it maps them to are
        not part of this model. */
    var rpcXids: set<nat>

    ghost predicate Valid()
      reads this, unpack
    {
      unpack.Valid() && Sane(dec)
    }

    constructor (frame: seq<byte>, rec: Record, d: Decoders, streams: map<string, Stream>, xids: set<nat>)
      requires Sane(d)
      ensures Valid() && fresh(unpack) && fresh(pkt) && dec == d
      ensures Snap() == Snapshot(frame, 0, PacketView(None, None, None, None, None, None, None, rec), streams, xids)
    {
      unpack := new Cursor(frame);
      pkt := new Packet(rec);
      dec := d;
      tcpStreams := streams;
      rpcXids := xids;
    }

    function Snap(): Snapshot
      reads this, unpack, pkt
    {
      Snapshot(unpack.data, unpack.pos, pkt.View(), tcpStreams, rpcXids)
    }
  }

  /** `RPC(pktt, proto)`: the message, or nothing, with the cursor after
      what the decoder consumed. */
  method DecodeRpc(p: Pktt, proto: nat) returns (r: Option<Rpc>)
    requires p.Valid()
    modifies p.unpack
    ensures p.Valid() && p.unpack.data == old(p.unpack.data)
    ensures RpcRead(r, p.unpack.pos) == p.dec.rpc(p.unpack.data, old(p.unpack.pos), proto)
  {
    var out := p.dec.rpc(p.unpack.data, p.unpack.pos, proto);
    p.unpack.pos := out.next;
    r := out.rpc;
  }

  /** `rpc.decode_payload()`. */
  method DecodePayload(p: Pktt, r: Rpc) returns (loaded: bool)
    requires p.Valid()
    modifies p.unpack
    ensures p.Valid() && p.unpack.data == old(p.unpack.data)
    ensures PayloadRead(loaded, p.unpack.pos) == p.dec.payload(p.unpack.data, old(p.unpack.pos), r)
  {
    var out := p.dec.payload(p.unpack.data, p.unpack.pos, r);
    p.unpack.pos := out.next;
    loaded := out.loaded;
  }

  /** `IPv4(pktt)`. */
  method DecodeIpv4(p: Pktt) returns (raised: Option<Error>)
    requires p.Valid()
    modifies p, p.unpack, p.pkt
    ensures p.Valid()
    ensures Effect(p.Snap(), raised) == p.dec.ipv4(old(p.Snap()))
  {
    var e := p.dec.ipv4(p.Snap());
    var t := e.state;
    p.unpack.data, p.unpack.pos := t.data, t.pos;
    p.pkt.ethernet, p.pkt.ip, p.pkt.tcp, p.pkt.udp := t.pkt.ethernet, t.pkt.ip, t.pkt.tcp, t.pkt.udp;
    p.pkt.rpc, p.pkt.gssd, p.pkt.gssc := t.pkt.rpc, t.pkt.gssd, t.pkt.gssc;
    p.tcpStreams, p.rpcXids := t.streams, t.xids;
    raised := e.raised;
  }
}
