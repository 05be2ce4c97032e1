/** The TCP layer (section 3.1 of RFC 793) and the per-stream state the
    session keeps for it: relative sequence numbers with a wrap count, a
    gate that skips retransmitted segments, and the carry-over of RPC
    record fragments that span segments. */
module Tcp {
  import opened Base
  import opened Xdr
  import opened Bits
  import opened Text
  import opened Unpack
  import opened Layers
  import opened Session

  const TCP_HEADER: nat := 20
  const PROTO_TCP: nat := 6
  /** The flags of a segment that is a bare ACK. */
  const ACK_ONLY: nat := 0x10

  // Flags.

  /** `Flags(data)`: FIN is bit 0, SYN bit 1, ... NS bit 8. */
  function TcpFlagsOf(data: nat): TcpFlags {
    TcpFlags(And(data, 0x01), And(Shr(data, 1), 0x01), And(Shr(data, 2), 0x01),
             And(Shr(data, 3), 0x01), And(Shr(data, 4), 0x01), And(Shr(data, 5), 0x01),
             And(Shr(data, 6), 0x01), And(Shr(data, 7), 0x01), And(Shr(data, 8), 0x01))
  }

  /** The 9-bit value the flags stand for. */
  function FlagsValue(f: TcpFlags): nat {
    f.fin + 2 * f.syn + 4 * f.rst + 8 * f.psh + 16 * f.ack + 32 * f.urg + 64 * f.ece
    + 128 * f.cwr + 256 * f.ns
  }

  lemma ShiftedBit(data: nat, k: nat)
    ensures And(Shr(data, k), 1) == Bit(data, k)
  {
    AndOneMod(Shr(data, k));
  }

  /** Each flag is one bit of the flags value. */
  lemma FlagsBits(data: nat)
    ensures var f := TcpFlagsOf(data);
      && f.fin == Bit(data, 0) && f.syn == Bit(data, 1) && f.rst == Bit(data, 2)
      && f.psh == Bit(data, 3) && f.ack == Bit(data, 4) && f.urg == Bit(data, 5)
      && f.ece == Bit(data, 6) && f.cwr == Bit(data, 7) && f.ns == Bit(data, 8)
  {
    AndOneMod(data);
    assert Pow2(0) == 1;
    ShiftedBit(data, 1);
    ShiftedBit(data, 2);
    ShiftedBit(data, 3);
    ShiftedBit(data, 4);
    ShiftedBit(data, 5);
    ShiftedBit(data, 6);
    ShiftedBit(data, 7);
    ShiftedBit(data, 8);
  }

  /** The nine flags give back the 9-bit value they were taken from. */
  lemma FlagsRoundTrip(raw: nat)
    requires raw < 0x200
    ensures FlagsValue(TcpFlagsOf(raw)) == raw
  {
    FlagsValueBits(raw);
    LowBitsMod(raw, 9);
    Pow2Nine();
    assert LowBits(raw, 9) == raw % 512;
    SmallMod(raw, 512);
  }

  lemma SmallMod(x: nat, m: nat)
    requires x < m
    ensures x % m == x
  {
  }

  lemma Pow2Nine()
    ensures Pow2(9) == 512
  {
    assert Pow2(1) == 2 && Pow2(2) == 4 && Pow2(3) == 8 && Pow2(4) == 16;
    assert Pow2(5) == 32 && Pow2(6) == 64 && Pow2(7) == 128 && Pow2(8) == 256;
  }

  lemma FlagsValueBits(raw: nat)
    ensures FlagsValue(TcpFlagsOf(raw)) == LowBits(raw, 9)
  {
    var f := TcpFlagsOf(raw);
    FlagsBits(raw);
    assert f == TcpFlags(Bit(raw, 0), Bit(raw, 1), Bit(raw, 2), Bit(raw, 3), Bit(raw, 4),
                         Bit(raw, 5), Bit(raw, 6), Bit(raw, 7), Bit(raw, 8));
    NineBits(raw);
  }

  lemma NineBits(x: nat)
    ensures LowBits(x, 9) == Bit(x, 0) + 2 * Bit(x, 1) + 4 * Bit(x, 2) + 8 * Bit(x, 3) + 16 * Bit(x, 4)
                             + 32 * Bit(x, 5) + 64 * Bit(x, 6) + 128 * Bit(x, 7) + 256 * Bit(x, 8)
  {
    assert Pow2(0) == 1 && Pow2(1) == 2 && Pow2(2) == 4 && Pow2(3) == 8 && Pow2(4) == 16;
    assert Pow2(5) == 32 && Pow2(6) == 64 && Pow2(7) == 128 && Pow2(8) == 256;
    assert LowBits(x, 1) == Bit(x, 0);
    assert LowBits(x, 2) == LowBits(x, 1) + Bit(x, 1) * 2;
    assert LowBits(x, 3) == LowBits(x, 2) + Bit(x, 2) * 4;
    assert LowBits(x, 4) == LowBits(x, 3) + Bit(x, 3) * 8;
    assert LowBits(x, 5) == LowBits(x, 4) + Bit(x, 4) * 16;
    assert LowBits(x, 6) == LowBits(x, 5) + Bit(x, 5) * 32;
    assert LowBits(x, 7) == LowBits(x, 6) + Bit(x, 6) * 64;
    assert LowBits(x, 8) == LowBits(x, 7) + Bit(x, 7) * 128;
    assert LowBits(x, 9) == LowBits(x, 8) + Bit(x, 8) * 256;
  }

  // Header.

  function Field(h: seq<byte>, i: nat, j: nat): nat
    requires i <= j <= |h|
  {
    BigEndian(h[i..j])
  }

  /** `unpack(20, "!HHIIHHHH")` and the fields computed from it. */
  function TcpHeader(h: seq<byte>): Tcp
    requires |h| == TCP_HEADER
  {
    var w := Field(h, 12, 14);
    var hl := Shr(w, 12);
    var flagsRaw := And(w, 0x1FF);
    Tcp(Field(h, 0, 2), Field(h, 2, 4), Field(h, 4, 8), Field(h, 8, 12), hl, 4 * hl, flagsRaw,
        TcpFlagsOf(flagsRaw), Field(h, 14, 16), Field(h, 16, 18), Field(h, 18, 20), None, None, None)
  }

  /** The data offset is the top four bits of the 13th and 14th bytes, in
      32-bit words, and the flags are their low nine bits. */
  lemma HeaderWord(h: seq<byte>)
    requires |h| == TCP_HEADER
    ensures var w := BigEndian(h[12..14]); var t := TcpHeader(h);
      && t.hl == w / 4096 && t.headerSize == 4 * (w / 4096) && t.hl < 16
      && t.flagsRaw == w % 512 && t.flags == TcpFlagsOf(w % 512)
  {
    var w := BigEndian(h[12..14]);
    assert Pow256(2) == 0x1_0000 by {
      assert Pow256(2) == 256 * Pow256(1) && Pow256(1) == 256 * Pow256(0);
    }
    AndLowMask(w, 9);
    assert Pow2(9) == 512 && Pow2(12) == 4096 by {
      assert Pow2(1) == 2 && Pow2(2) == 4 && Pow2(3) == 8 && Pow2(4) == 16;
      assert Pow2(5) == 32 && Pow2(6) == 64 && Pow2(7) == 128 && Pow2(8) == 256;
    }
  }

  // The stream tracker.

  /** `"%s:%d-%s:%d" % (ip.src, src_port, ip.dst, dst_port)`. */
  function StreamId(ip: Ipv6, t: Tcp): string {
    ip.src + ":" + Decimal(t.srcPort) + "-" + ip.dst + ":" + Decimal(t.dstPort)
  }

  /** The entry a stream starts with. */
  function NewStream(seqNumber: nat): Stream {
    Stream([], 0, 0, 0, seqNumber)
  }

  datatype Tracked = Tracked(stream: Stream, rel: int)

  /** A SYN resets the base, then the sequence number is made relative,
      counting one more wrap whenever it falls below the base. */
  function Track(st: Stream, seqNumber: nat, syn: nat): Tracked {
    var st1 := if syn != 0 then st.(seqBase := seqNumber, lastSeq := st.seqWrap) else st;
    var rel := seqNumber - st1.seqBase + st1.seqWrap;
    if rel < st1.seqWrap then Tracked(st1.(seqWrap := st1.seqWrap + TWO32), rel + TWO32)
    else Tracked(st1, rel)
  }

  /** The segment once its header, its stream entry and its options are
      done: the state, the stream, the relative sequence number, the
      payload length and the raw flags. */
  datatype Segment = Segment(state: Snapshot, sid: string, rel: int, length: nat, flagsRaw: nat)

  datatype Parse = Failed(effect: Effect) | Parsed(seg: Segment)

  /** `TCP.__init__` up to the retransmission test. */
  function SegmentStep(s: Snapshot): (r: Parse)
    requires s.pos <= |s.data|
    ensures r.Failed? ==> r.effect.state.pos <= |r.effect.state.data| && r.effect.raised.Some?
    ensures r.Parsed? ==> r.seg.state.pos <= |r.seg.state.data| && r.seg.sid in r.seg.state.streams
    ensures r.Failed? ==> r.effect.state.pkt.record == s.pkt.record && r.effect.state.xids == s.xids
    ensures r.Parsed? ==> r.seg.state.pkt.record == s.pkt.record && r.seg.state.xids == s.xids
  {
    var h := ReadBytes(s.data, s.pos, TCP_HEADER);
    if h.result.None? then Failed(Effect(s, Some(Truncated)))
    else StreamStep(s.(pos := h.next), TcpHeader(h.result.value))
  }

  /** The rest of `TCP.__init__` once the header `t` is read: the layer
      goes on the packet, the stream entry is found or made and updated,
      and the options and the payload length are read. */
  function StreamStep(s: Snapshot, t: Tcp): (r: Parse)
    requires s.pos <= |s.data|
    ensures r.Failed? ==> r.effect.state.pos <= |r.effect.state.data| && r.effect.raised.Some?
    ensures r.Parsed? ==> r.seg.state.pos <= |r.seg.state.data| && r.seg.sid in r.seg.state.streams
    ensures r.Failed? ==> r.effect.state.pkt.record == s.pkt.record && r.effect.state.xids == s.xids
    ensures r.Parsed? ==> r.seg.state.pkt.record == s.pkt.record && r.seg.state.xids == s.xids
  {
    if s.pkt.ip.None? then Failed(Effect(s.(pkt := s.pkt.(tcp := Some(t))), Some(AttributeError))) else
    var sid := StreamId(s.pkt.ip.value, t);
    var tr := Track(if sid in s.streams then s.streams[sid] else NewStream(t.seqNumber), t.seqNumber, t.flags.syn);
    var t1 := t.(relSeq := Some(tr.rel));
    OptionsStep(s.(pkt := s.pkt.(tcp := Some(t1)), streams := s.streams[sid := tr.stream]), t1, sid, tr.rel)
  }

  /** The options, when the header is longer than 20 bytes, then the
      length of what is left. */
  function OptionsStep(s: Snapshot, t: Tcp, sid: string, rel: int): (r: Parse)
    requires s.pos <= |s.data| && sid in s.streams
    ensures r.Failed? ==> r.effect.state.pos <= |r.effect.state.data| && r.effect.raised.Some?
    ensures r.Parsed? ==> r.seg.state.pos <= |r.seg.state.data| && r.seg.sid in r.seg.state.streams
    ensures r.Failed? ==> r.effect.state.pkt.record == s.pkt.record && r.effect.state.xids == s.xids
    ensures r.Parsed? ==> r.seg.state.pkt.record == s.pkt.record && r.seg.state.xids == s.xids
  {
    if t.headerSize > TCP_HEADER then
      var o := ReadBytes(s.data, s.pos, t.headerSize - TCP_HEADER);
      if o.result.None? then Failed(Effect(s, Some(Truncated))) else
      var length := |s.data| - o.next;
      Parsed(Segment(s.(pos := o.next, pkt := s.pkt.(tcp := Some(t.(options := o.result, length := Some(length))))),
                     sid, rel, length, t.flagsRaw))
    else
      var length := |s.data| - s.pos;
      Parsed(Segment(s.(pkt := s.pkt.(tcp := Some(t.(length := Some(length))))), sid, rel, length, t.flagsRaw))
  }

  // The payload: `_decode_payload`.

  /** Where the payload decoder stands once it has an RPC header, or has
      given up on one: the state, the saved cursor state, the size of the
      segment's data, the bytes left after the record mark, and the RPC
      message. */
  datatype Prelude = Prelude(s: Snapshot, saved: State, size: int, ldata: int, rpc: Option<Rpc>)

  /** `_decode_payload` up to the first RPC header attempt: skip to an
      RPC message inside the segment, try a header before the
      carried-over fragment, and drop that fragment on a loss of sync
      (except on a bare ACK). */
  function ResyncStep(dec: Decoders, s: Snapshot, sid: string, flagsRaw: nat): (r: Prelude)
    requires Sane(dec) && s.pos <= |s.data| && sid in s.streams
    ensures r.s.pos <= |r.s.data| && sid in r.s.streams && r.saved.pos <= |r.saved.data|
    ensures r.s.pkt == s.pkt && r.s.xids == s.xids && r.s.data == s.data
    ensures r.rpc.None? ==> r.saved == State(r.s.data, r.s.pos)
  {
    var st := s.streams[sid];
    var pos0 := if st.fragOff > 0 && |st.msfrag| == 0 then Clamp(s.pos + st.fragOff, |s.data|) else s.pos;
    var size := |s.data| - pos0;
    var first := if |st.msfrag| > 0 then dec.rpc(s.data, pos0, PROTO_TCP) else RpcRead(None, pos0);
    var st1 := if first.rpc.Some? || (size == 0 && |st.msfrag| > 0 && flagsRaw != ACK_ONLY)
               then st.(msfrag := [], fragOff := 0) else st;
    var pos1 := if first.rpc.Some? then first.next else pos0;
    Prelude(s.(pos := pos1, streams := s.streams[sid := st1]), State(s.data, pos0), size, size - 4, first.rpc)
  }

  /** `_decode_payload` up to the RPC header: when the first attempt found
      none, the carried-over fragment goes in front of the data and the
      header is tried again. */
  function PreludeStep(dec: Decoders, s: Snapshot, sid: string, flagsRaw: nat): (r: Prelude)
    requires Sane(dec) && s.pos <= |s.data| && sid in s.streams
    ensures r.s.pos <= |r.s.data| && sid in r.s.streams && r.saved.pos <= |r.saved.data|
    ensures r.s.pkt == s.pkt && r.s.xids == s.xids
  {
    var r := ResyncStep(dec, s, sid, flagsRaw);
    if r.rpc.Some? then r
    else
      var frag := r.s.streams[sid].msfrag;
      var data := if |frag| > 0 then r.s.data[..r.s.pos] + frag + r.s.data[r.s.pos..] else r.s.data;
      var second := dec.rpc(data, r.s.pos, PROTO_TCP);
      Prelude(r.s.(data := data, pos := second.next), r.saved, r.size, |data| - r.s.pos - 4, second.rpc)
  }

  /** After the payload decoder: if the message was consumed whole and
      bytes are left, they start the next RPC message; it is kept for the
      next segment when its header does not decode or it is not all here. */
  function AfterPayloadStep(dec: Decoders, s: Snapshot, sid: string, size: int, ldata: int, msg: Rpc): (t: Snapshot)
    requires Sane(dec) && s.pos <= |s.data| && sid in s.streams
    ensures t.pos <= |t.data| && sid in t.streams
  {
    var load := dec.payload(s.data, s.pos, msg);
    var s1 := s.(pos := load.next);
    var remaining := |s1.data| - s1.pos;
    var st := s1.streams[sid];
    if !load.loaded && ldata - remaining != msg.fragmentSize then s1
    else if remaining > 0 then
      var st1 := st.(fragOff := st.fragOff + size - remaining);
      var hdr := dec.rpc(s1.data, s1.pos, PROTO_TCP);
      if hdr.rpc.None? || remaining - 4 < hdr.rpc.value.fragmentSize then
        s1.(pos := |s1.data|, streams := s1.streams[sid := st1.(msfrag := st1.msfrag + s1.data[s1.pos..])])
      else s1.(pos := hdr.next, streams := s1.streams[sid := st1])
    else s1.(streams := s1.streams[sid := st.(fragOff := 0)])
  }

  /** `_decode_payload`. */
  function PayloadStep(dec: Decoders, s: Snapshot, sid: string, flagsRaw: nat): (t: Snapshot)
    requires Sane(dec) && s.pos <= |s.data| && sid in s.streams
    ensures t.pos <= |t.data| && sid in t.streams
  {
    var p := PreludeStep(dec, s, sid, flagsRaw);
    if p.rpc.None? then p.s else
    var msg := p.rpc.value;
    var st := p.s.streams[sid];
    var truncbytes := s.pkt.record.lengthOrig - s.pkt.record.lengthInc;
    if truncbytes == 0 && p.ldata < msg.fragmentSize then FragmentStep(p.s, sid, p.saved)
    else AfterPayloadStep(dec, StoreRpc(p, sid), sid, p.size, p.ldata, msg)
  }

  /** A record longer than the untruncated segment: the segment is kept,
      from the saved offset on, as the start of the stream's fragment, and
      the frame is consumed. */
  function FragmentStep(s: Snapshot, sid: string, saved: State): (t: Snapshot)
    requires sid in s.streams && saved.pos <= |saved.data|
    ensures t.pos <= |t.data| && sid in t.streams
  {
    var st := s.streams[sid];
    s.(data := saved.data, pos := |saved.data|,
       streams := s.streams[sid := st.(msfrag := st.msfrag + saved.data[saved.pos..])])
  }

  /** The message goes on the packet, a reply retires its call, and the
      carried-over fragment is dropped (its offset too, when there was a
      fragment or the record fills the segment). */
  function StoreRpc(p: Prelude, sid: string): (t: Snapshot)
    requires p.rpc.Some? && sid in p.s.streams && p.s.pos <= |p.s.data|
    ensures t.pos <= |t.data| && sid in t.streams
  {
    var msg := p.rpc.value;
    var st := p.s.streams[sid];
    var st2 := (if |st.msfrag| > 0 || p.ldata == msg.fragmentSize then st.(fragOff := 0) else st).(msfrag := []);
    var xids := if msg.msgType != CALL then p.s.xids - {msg.xid} else p.s.xids;
    p.s.(pkt := p.s.pkt.(rpc := p.rpc), streams := p.s.streams[sid := st2], xids := xids)
  }

  /** `TCP(pktt)`. */
  function TcpStep(dec: Decoders, s: Snapshot): (e: Effect)
    requires Sane(dec) && s.pos <= |s.data|
    ensures e.state.pos <= |e.state.data|
  {
    match SegmentStep(s)
    case Failed(e) => e
    case Parsed(g) => Effect(AfterSegmentStep(dec, g), None)
  }

  /** The rest of `TCP.__init__` once the segment is parsed: a
      retransmission stops here; otherwise the payload is decoded and, if
      there is one, its relative sequence number becomes the last seen. */
  function AfterSegmentStep(dec: Decoders, g: Segment): (t: Snapshot)
    requires Sane(dec) && g.state.pos <= |g.state.data| && g.sid in g.state.streams
    ensures t.pos <= |t.data|
  {
    if g.rel < g.state.streams[g.sid].lastSeq then g.state
    else
      var t := PayloadStep(dec, g.state, g.sid, g.flagsRaw);
      if g.length > 0 then t.(streams := t.streams[g.sid := t.streams[g.sid].(lastSeq := g.rel)]) else t
  }

  // The decoder, on the session.

  method DecodeSegment(p: Pktt) returns (raised: Option<Error>, sid: string, rel: int, length: nat, flagsRaw: nat)
    requires p.Valid()
    modifies p, p.unpack, p.pkt
    ensures p.Valid()
    ensures var g := SegmentStep(old(p.Snap()));
      && (g.Failed? <==> raised.Some?)
      && (g.Failed? ==> Effect(p.Snap(), raised) == g.effect)
      && (g.Parsed? ==> g.seg == Segment(p.Snap(), sid, rel, length, flagsRaw))
  {
    var h := p.unpack.Read(TCP_HEADER);
    if h.None? {
      return Some(Truncated), "", 0, 0, 0;
    }
    raised, sid, rel, length, flagsRaw := DecodeStream(p, TcpHeader(h.value));
  }

  method DecodeStream(p: Pktt, t: Tcp) returns (raised: Option<Error>, sid: string, rel: int, length: nat, flagsRaw: nat)
    requires p.Valid()
    modifies p, p.unpack, p.pkt
    ensures p.Valid()
    ensures var g := StreamStep(old(p.Snap()), t);
      && (g.Failed? <==> raised.Some?)
      && (g.Failed? ==> Effect(p.Snap(), raised) == g.effect)
      && (g.Parsed? ==> g.seg == Segment(p.Snap(), sid, rel, length, flagsRaw))
  {
    sid, rel, length, flagsRaw := "", 0, 0, 0;
    var u := p.unpack;
    p.pkt.tcp := Some(t);
    if p.pkt.ip.None? {
      return Some(AttributeError), sid, rel, length, flagsRaw;
    }
    sid := StreamId(p.pkt.ip.value, t);
    var st := if sid in p.tcpStreams then p.tcpStreams[sid] else NewStream(t.seqNumber);
    ghost var st0 := st;
    if t.flags.syn != 0 {
      st := st.(seqBase := t.seqNumber, lastSeq := st.seqWrap);
    }
    rel := t.seqNumber - st.seqBase + st.seqWrap;
    if rel < st.seqWrap {
      st := st.(seqWrap := st.seqWrap + TWO32);
      rel := rel + TWO32;
    }
    assert Track(st0, t.seqNumber, t.flags.syn) == Tracked(st, rel);
    p.tcpStreams := p.tcpStreams[sid := st];
    var t1 := t.(relSeq := Some(rel));
    p.pkt.tcp := Some(t1);
    raised, length, flagsRaw := DecodeOptions(p, t1, sid, rel);
  }

  method DecodeOptions(p: Pktt, t: Tcp, sid: string, rel: int) returns (raised: Option<Error>, length: nat, flagsRaw: nat)
    requires p.Valid() && sid in p.tcpStreams
    modifies p.unpack, p.pkt
    ensures p.Valid()
    ensures var g := OptionsStep(old(p.Snap()), t, sid, rel);
      && (g.Failed? <==> raised.Some?)
      && (g.Failed? ==> Effect(p.Snap(), raised) == g.effect)
      && (g.Parsed? ==> g.seg == Segment(p.Snap(), sid, rel, length, flagsRaw))
  {
    var u := p.unpack;
    var t1 := t;
    if t.headerSize > TCP_HEADER {
      var o := u.Read(t.headerSize - TCP_HEADER);
      if o.None? {
        return Some(Truncated), 0, 0;
      }
      t1 := t1.(options := o);
    }
    length := u.Size();
    p.pkt.tcp := Some(t1.(length := Some(length)));
    flagsRaw := t.flagsRaw;
    raised := None;
  }

  method DecodeResync(p: Pktt, sid: string, flagsRaw: nat) returns (saved: State, size: int, rpc: Option<Rpc>)
    requires p.Valid() && sid in p.tcpStreams
    modifies p, p.unpack
    ensures p.Valid()
    ensures Prelude(p.Snap(), saved, size, size - 4, rpc) == ResyncStep(p.dec, old(p.Snap()), sid, flagsRaw)
  {
    var u := p.unpack;
    var st := p.tcpStreams[sid];
    if st.fragOff > 0 && |st.msfrag| == 0 {
      u.Seek(u.pos + st.fragOff);
    }
    saved := u.SaveState();
    size := u.Size();
    rpc := None;
    if |st.msfrag| > 0 {
      rpc := DecodeRpc(p, PROTO_TCP);
      if rpc.None? {
        u.RestoreState(saved);
        saved := u.SaveState();
      }
    }
    if rpc.Some? || (size == 0 && |st.msfrag| > 0 && flagsRaw != ACK_ONLY) {
      st := st.(msfrag := [], fragOff := 0);
    }
    p.tcpStreams := p.tcpStreams[sid := st];
  }

  method DecodePrelude(p: Pktt, sid: string, flagsRaw: nat) returns (saved: State, size: int, ldata: int, rpc: Option<Rpc>)
    requires p.Valid() && sid in p.tcpStreams
    modifies p, p.unpack
    ensures p.Valid()
    ensures Prelude(p.Snap(), saved, size, ldata, rpc) == PreludeStep(p.dec, old(p.Snap()), sid, flagsRaw)
  {
    saved, size, rpc := DecodeResync(p, sid, flagsRaw);
    if rpc.None? {
      var u := p.unpack;
      if |p.tcpStreams[sid].msfrag| > 0 {
        u.Insert(p.tcpStreams[sid].msfrag);
      }
      ldata := u.Size() - 4;
      rpc := DecodeRpc(p, PROTO_TCP);
    } else {
      ldata := size - 4;
    }
  }

  method DecodeAfterPayload(p: Pktt, sid: string, size: int, ldata: int, msg: Rpc)
    requires p.Valid() && sid in p.tcpStreams
    modifies p, p.unpack
    ensures p.Valid()
    ensures p.Snap() == AfterPayloadStep(p.dec, old(p.Snap()), sid, size, ldata, msg)
  {
    ghost var s0 := p.Snap();
    var u := p.unpack;
    var loaded := DecodePayload(p, msg);
    ghost var s1 := p.Snap();
    assert s1 == s0.(pos := p.dec.payload(s0.data, s0.pos, msg).next);
    var rpcbytes := ldata - u.Size();
    var st := p.tcpStreams[sid];
    if !loaded && rpcbytes != msg.fragmentSize {
      assert p.Snap() == AfterPayloadStep(p.dec, s0, sid, size, ldata, msg);
      return;
    }
    if u.Size() > 0 {
      st := st.(fragOff := st.fragOff + size - u.Size());
      var saved := u.SaveState();
      var ldata2 := u.Size() - 4;
      var hdr := DecodeRpc(p, PROTO_TCP);
      if hdr.None? || ldata2 < hdr.value.fragmentSize {
        u.RestoreState(saved);
        var rest := u.GetBytes();
        st := st.(msfrag := st.msfrag + rest);
        p.tcpStreams := p.tcpStreams[sid := st];
        assert p.Snap() == s1.(pos := |s1.data|, streams := s1.streams[sid := st]);
        assert p.Snap() == AfterPayloadStep(p.dec, s0, sid, size, ldata, msg);
      } else {
        p.tcpStreams := p.tcpStreams[sid := st];
        assert p.Snap() == s1.(pos := u.pos, streams := s1.streams[sid := st]);
        assert p.Snap() == AfterPayloadStep(p.dec, s0, sid, size, ldata, msg);
      }
    } else {
      p.tcpStreams := p.tcpStreams[sid := st.(fragOff := 0)];
      assert p.Snap() == AfterPayloadStep(p.dec, s0, sid, size, ldata, msg);
    }
  }

  method DecodeTcpPayload(p: Pktt, sid: string, flagsRaw: nat)
    requires p.Valid() && sid in p.tcpStreams
    modifies p, p.unpack, p.pkt
    ensures p.Valid()
    ensures p.Snap() == PayloadStep(p.dec, old(p.Snap()), sid, flagsRaw)
  {
    var saved, size, ldata, rpc := DecodePrelude(p, sid, flagsRaw);
    if rpc.None? {
      return;
    }
    var msg := rpc.value;
    var truncbytes := p.pkt.record.lengthOrig - p.pkt.record.lengthInc;
    if truncbytes == 0 && ldata < msg.fragmentSize {
      KeepFragment(p, sid, saved);
    } else {
      StoreMessage(p, sid, ldata, rpc, saved, size);
      DecodeAfterPayload(p, sid, size, ldata, msg);
    }
  }

  method KeepFragment(p: Pktt, sid: string, saved: State)
    requires p.Valid() && sid in p.tcpStreams && saved.pos <= |saved.data|
    modifies p, p.unpack
    ensures p.Valid()
    ensures p.Snap() == FragmentStep(old(p.Snap()), sid, saved)
  {
    var st := p.tcpStreams[sid];
    p.unpack.RestoreState(saved);
    var rest := p.unpack.GetBytes();
    p.tcpStreams := p.tcpStreams[sid := st.(msfrag := st.msfrag + rest)];
  }

  method StoreMessage(p: Pktt, sid: string, ldata: int, rpc: Option<Rpc>, ghost saved: State, ghost size: int)
    requires p.Valid() && sid in p.tcpStreams && rpc.Some?
    modifies p, p.pkt
    ensures p.Valid()
    ensures p.Snap() == StoreRpc(Prelude(old(p.Snap()), saved, size, ldata, rpc), sid)
  {
    var msg := rpc.value;
    var st := p.tcpStreams[sid];
    if |st.msfrag| > 0 || ldata == msg.fragmentSize {
      st := st.(fragOff := 0);
    }
    st := st.(msfrag := []);
    p.tcpStreams := p.tcpStreams[sid := st];
    p.pkt.rpc := rpc;
    if msg.msgType != CALL {
      p.rpcXids := p.rpcXids - {msg.xid};
    }
  }

  method DecodeTcp(p: Pktt) returns (raised: Option<Error>)
    requires p.Valid()
    modifies p, p.unpack, p.pkt
    ensures p.Valid()
    ensures Effect(p.Snap(), raised) == TcpStep(p.dec, old(p.Snap()))
  {
    var sid, rel, length, flagsRaw;
    raised, sid, rel, length, flagsRaw := DecodeSegment(p);
    if raised.Some? {
      return;
    }
    DecodeAfterSegment(p, sid, rel, length, flagsRaw);
  }

  method DecodeAfterSegment(p: Pktt, sid: string, rel: int, length: nat, flagsRaw: nat)
    requires p.Valid() && sid in p.tcpStreams
    modifies p, p.unpack, p.pkt
    ensures p.Valid()
    ensures p.Snap() == AfterSegmentStep(p.dec, Segment(old(p.Snap()), sid, rel, length, flagsRaw))
  {
    if rel < p.tcpStreams[sid].lastSeq {
      return;
    }
    DecodeTcpPayload(p, sid, flagsRaw);
    if length > 0 {
      p.tcpStreams := p.tcpStreams[sid := p.tcpStreams[sid].(lastSeq := rel)];
    }
  }

  // Properties of the stream tracker.

  /** The relative sequence number is the distance from the base plus the
      wrap count; the wrap count grows by 2^32 exactly when the sequence
      number is below the base; a SYN makes the segment the base and
      rewinds the last sequence number to the wrap count; the fragment
      state is not touched. */
  lemma TrackRelative(st: Stream, seqNumber: nat, syn: nat)
    ensures var tr := Track(st, seqNumber, syn);
      var base := if syn != 0 then seqNumber else st.seqBase;
      && tr.stream.seqBase == base
      && tr.rel - tr.stream.seqWrap == seqNumber - base
      && tr.stream.seqWrap == st.seqWrap + (if seqNumber < base then TWO32 else 0)
      && tr.stream.lastSeq == (if syn != 0 then st.seqWrap else st.lastSeq)
      && tr.stream.msfrag == st.msfrag && tr.stream.fragOff == st.fragOff
  {
  }

  /** A SYN is never taken for a retransmission. */
  lemma SynIsNotRetransmission(st: Stream, seqNumber: nat)
    ensures Track(st, seqNumber, 1).rel == Track(st, seqNumber, 1).stream.lastSeq
  {
  }

  /** For 32-bit sequence numbers the relative number lies in the 2^32
      numbers from the wrap count the stream had before. */
  lemma TrackWindow(st: Stream, seqNumber: nat, syn: nat)
    requires seqNumber < TWO32 && 0 <= st.seqBase < TWO32
    ensures st.seqWrap <= Track(st, seqNumber, syn).rel < st.seqWrap + TWO32
  {
  }

  /** Every segment below the base counts one more wrap, not only the
      first one after the sequence numbers wrap around. */
  lemma WrapCountsEverySegment()
    ensures var a := Track(NewStream(4000000000), 100, 0);
      var b := Track(a.stream, 200, 0);
      && a.stream.seqWrap == TWO32 && a.rel == 294967396
      && b.stream.seqWrap == 2 * TWO32 && b.rel == a.rel + 100 + TWO32
  {
  }

  // Properties of the header and the stream map.

  /** A header shorter than 20 bytes raises and changes nothing. */
  lemma ShortSegment(s: Snapshot)
    requires s.pos <= |s.data| && |s.data| - s.pos < TCP_HEADER
    ensures SegmentStep(s) == Failed(Effect(s, Some(Truncated)))
  {
  }

  /** Without an IP layer the stream cannot be named: the header stays on
      the packet and an AttributeError is raised. */
  lemma SegmentWithoutIp(s: Snapshot)
    requires s.pos + TCP_HEADER <= |s.data| && s.pkt.ip.None?
    ensures SegmentStep(s) == Failed(Effect(s.(pos := s.pos + TCP_HEADER,
      pkt := s.pkt.(tcp := Some(TcpHeader(s.data[s.pos..s.pos + TCP_HEADER])))), Some(AttributeError)))
  {
  }

  /** The header and its options are consumed, the payload length is what
      is left of the frame, and a header whose options are not all there
      raises. */
  lemma SegmentLayout(s: Snapshot)
    requires s.pos + TCP_HEADER <= |s.data| && s.pkt.ip.Some?
    ensures var t := TcpHeader(s.data[s.pos..s.pos + TCP_HEADER]);
      var hs := if t.headerSize > TCP_HEADER then t.headerSize else TCP_HEADER;
      var r := SegmentStep(s);
      && (r.Failed? <==> s.pos + hs > |s.data|)
      && (r.Failed? ==> r.effect.raised == Some(Truncated))
      && (r.Parsed? ==>
          && r.seg.state.data == s.data && r.seg.state.pos == s.pos + hs
          && r.seg.length == |s.data| - (s.pos + hs) && r.seg.flagsRaw == t.flagsRaw
          && r.seg.state.xids == s.xids
          && r.seg.state.pkt == s.pkt.(tcp := Some(t.(relSeq := Some(r.seg.rel),
               options := if t.headerSize > TCP_HEADER then Some(s.data[s.pos + TCP_HEADER..s.pos + hs]) else None,
               length := Some(r.seg.length)))))
  {
    var h := ReadBytes(s.data, s.pos, TCP_HEADER);
    assert h.result == Some(s.data[s.pos..s.pos + TCP_HEADER]);
    StreamLayout(s.(pos := h.next), TcpHeader(h.result.value));
  }

  /** `SegmentLayout` once the 20-byte header `t` is read. */
  lemma StreamLayout(s: Snapshot, t: Tcp)
    requires s.pos <= |s.data| && s.pkt.ip.Some? && t.options.None?
    ensures var extra := if t.headerSize > TCP_HEADER then t.headerSize - TCP_HEADER else 0;
      var r := StreamStep(s, t);
      && (r.Failed? <==> s.pos + extra > |s.data|)
      && (r.Failed? ==> r.effect.raised == Some(Truncated))
      && (r.Parsed? ==>
          && r.seg.state.data == s.data && r.seg.state.pos == s.pos + extra
          && r.seg.length == |s.data| - (s.pos + extra) && r.seg.flagsRaw == t.flagsRaw
          && r.seg.state.xids == s.xids
          && r.seg.state.pkt == s.pkt.(tcp := Some(t.(relSeq := Some(r.seg.rel),
               options := if t.headerSize > TCP_HEADER then Some(s.data[s.pos..s.pos + extra]) else None,
               length := Some(r.seg.length)))))
  {
    var sid := StreamId(s.pkt.ip.value, t);
    var tr := Track(if sid in s.streams then s.streams[sid] else NewStream(t.seqNumber), t.seqNumber, t.flags.syn);
    var t1 := t.(relSeq := Some(tr.rel));
    var s1 := s.(pkt := s.pkt.(tcp := Some(t1)), streams := s.streams[sid := tr.stream]);
    assert StreamStep(s, t) == OptionsStep(s1, t1, sid, tr.rel);
    OptionsLayout(s1, t1, sid, tr.rel);
  }

  /** The options step reads `headerSize - 20` bytes of options when
      there are any, then records what is left as the length. */
  lemma OptionsLayout(s: Snapshot, t: Tcp, sid: string, rel: int)
    requires s.pos <= |s.data| && sid in s.streams
    ensures var extra := if t.headerSize > TCP_HEADER then t.headerSize - TCP_HEADER else 0;
      var r := OptionsStep(s, t, sid, rel);
      && (r.Failed? <==> s.pos + extra > |s.data|)
      && (r.Failed? ==> r.effect.raised == Some(Truncated))
      && (r.Parsed? ==>
          && r.seg.rel == rel && r.seg.length == |s.data| - (s.pos + extra) && r.seg.flagsRaw == t.flagsRaw
          && r.seg.state == s.(pos := s.pos + extra, pkt := s.pkt.(tcp := Some(t.(
               options := if t.headerSize > TCP_HEADER then Some(s.data[s.pos..s.pos + extra]) else t.options,
               length := Some(r.seg.length))))))
  {
  }

  /** The segment's stream is the one its addresses and ports name; it is
      made on first sight with the segment's sequence number as base, it
      is updated by the tracker, and no other stream changes. */
  lemma SegmentStream(s: Snapshot)
    requires s.pos <= |s.data| && SegmentStep(s).Parsed?
    ensures var t := TcpHeader(s.data[s.pos..s.pos + TCP_HEADER]);
      var g := SegmentStep(s).seg;
      && g.sid == StreamId(s.pkt.ip.value, t)
      && Track(if g.sid in s.streams then s.streams[g.sid] else NewStream(t.seqNumber), t.seqNumber, t.flags.syn)
         == Tracked(g.state.streams[g.sid], g.rel)
      && OnlyEntry(s.streams, g.state.streams, g.sid)
  {
    var h := ReadBytes(s.data, s.pos, TCP_HEADER);
    assert h.result == Some(s.data[s.pos..s.pos + TCP_HEADER]);
    StreamOfHeader(s.(pos := h.next), TcpHeader(h.result.value));
  }

  lemma StreamOfHeader(s: Snapshot, t: Tcp)
    requires s.pos <= |s.data| && StreamStep(s, t).Parsed?
    ensures var g := StreamStep(s, t).seg;
      && g.sid == StreamId(s.pkt.ip.value, t)
      && Track(if g.sid in s.streams then s.streams[g.sid] else NewStream(t.seqNumber), t.seqNumber, t.flags.syn)
         == Tracked(g.state.streams[g.sid], g.rel)
      && OnlyEntry(s.streams, g.state.streams, g.sid)
  {
  }

  /** `m2` is `m1` with at most the entry `sid` added or changed. */
  ghost predicate OnlyEntry(m1: map<string, Stream>, m2: map<string, Stream>, sid: string) {
    && m2.Keys == m1.Keys + {sid}
    && forall k :: k in m1 && k != sid ==> m2[k] == m1[k]
  }

  /** The fields of a stream entry the tracker owns. */
  predicate SameTracking(a: Stream, b: Stream) {
    a.lastSeq == b.lastSeq && a.seqWrap == b.seqWrap && a.seqBase == b.seqBase
  }

  /** `m2` is `m1` with only the fragment state of `sid` changed. */
  ghost predicate OnlyFragment(m1: map<string, Stream>, m2: map<string, Stream>, sid: string) {
    sid in m1 && OnlyEntry(m1, m2, sid) && SameTracking(m1[sid], m2[sid])
  }

  // Properties of the payload.

  /** The RPC header is tried before the carried-over fragment only when
      there is one; the fragment is dropped when that header decodes, or
      when the segment is empty and more than a bare ACK; without a
      fragment a message inside the previous segment is skipped to. */
  lemma ResyncFragment(dec: Decoders, s: Snapshot, sid: string, flagsRaw: nat)
    requires Sane(dec) && s.pos <= |s.data| && sid in s.streams
    ensures var r := ResyncStep(dec, s, sid, flagsRaw); var st := s.streams[sid];
      && OnlyFragment(s.streams, r.s.streams, sid)
      && (r.rpc.Some? ==> |st.msfrag| > 0 && r.s.streams[sid].msfrag == [] && r.s.streams[sid].fragOff == 0)
      && (|st.msfrag| == 0 ==>
            && r.rpc.None? && r.s.streams[sid] == st
            && r.saved.pos == (if st.fragOff > 0 then Clamp(s.pos + st.fragOff, |s.data|) else s.pos))
      && (r.rpc.None? && |st.msfrag| > 0 ==>
          (r.s.streams[sid].msfrag == [] <==> r.size == 0 && flagsRaw != ACK_ONLY))
  {
  }

  /** Without an RPC header nothing is stored and no call is retired. */
  lemma PayloadWithoutRpc(dec: Decoders, s: Snapshot, sid: string, flagsRaw: nat)
    requires Sane(dec) && s.pos <= |s.data| && sid in s.streams
    requires PreludeStep(dec, s, sid, flagsRaw).rpc.None?
    ensures var t := PayloadStep(dec, s, sid, flagsRaw);
      t.pkt == s.pkt && t.xids == s.xids && OnlyFragment(s.streams, t.streams, sid)
  {
    PreludeFragment(dec, s, sid, flagsRaw);
  }

  /** A message whose record is not all in an untruncated segment is not
      stored: the segment's data go onto the carried-over fragment. */
  lemma PayloadIncomplete(dec: Decoders, s: Snapshot, sid: string, flagsRaw: nat)
    requires Sane(dec) && s.pos <= |s.data| && sid in s.streams
    requires var p := PreludeStep(dec, s, sid, flagsRaw);
      && p.rpc.Some? && s.pkt.record.lengthOrig == s.pkt.record.lengthInc && p.ldata < p.rpc.value.fragmentSize
    ensures var p := PreludeStep(dec, s, sid, flagsRaw); var t := PayloadStep(dec, s, sid, flagsRaw);
      && t.pkt == s.pkt && t.xids == s.xids && OnlyFragment(s.streams, t.streams, sid)
      && t.data == p.saved.data && t.pos == |t.data|
      && t.streams[sid].msfrag == p.s.streams[sid].msfrag + p.saved.data[p.saved.pos..]
  {
    PreludeFragment(dec, s, sid, flagsRaw);
  }

  /** Otherwise the message is stored on the packet, a reply retires its
      call, and what is carried over to the next segment is nothing or
      the tail of the frame. */
  lemma PayloadStored(dec: Decoders, s: Snapshot, sid: string, flagsRaw: nat)
    requires Sane(dec) && s.pos <= |s.data| && sid in s.streams
    requires var p := PreludeStep(dec, s, sid, flagsRaw);
      && p.rpc.Some? && !(s.pkt.record.lengthOrig == s.pkt.record.lengthInc && p.ldata < p.rpc.value.fragmentSize)
    ensures var p := PreludeStep(dec, s, sid, flagsRaw); var t := PayloadStep(dec, s, sid, flagsRaw);
      var msg := p.rpc.value; var m := t.streams[sid].msfrag;
      && t.pkt == s.pkt.(rpc := p.rpc)
      && t.xids == (if msg.msgType != CALL then s.xids - {msg.xid} else s.xids)
      && OnlyFragment(s.streams, t.streams, sid)
      && (m == [] || (|m| <= |t.data| && m == t.data[|t.data| - |m|..]))
  {
    var p := PreludeStep(dec, s, sid, flagsRaw);
    var s2 := StoreRpc(p, sid);
    var t := AfterPayloadStep(dec, s2, sid, p.size, p.ldata, p.rpc.value);
    assert PayloadStep(dec, s, sid, flagsRaw) == t;
    StoreRpcFacts(dec, s, sid, flagsRaw);
    AfterPayloadTail(dec, s2, sid, p.size, p.ldata, p.rpc.value);
    OnlyFragmentTrans(s.streams, s2.streams, t.streams, sid);
  }

  /** Storing the message puts it on the packet, retires a reply's call
      and empties the stream's fragment. */
  lemma StoreRpcFacts(dec: Decoders, s: Snapshot, sid: string, flagsRaw: nat)
    requires Sane(dec) && s.pos <= |s.data| && sid in s.streams
    requires PreludeStep(dec, s, sid, flagsRaw).rpc.Some?
    ensures var p := PreludeStep(dec, s, sid, flagsRaw); var s2 := StoreRpc(p, sid); var msg := p.rpc.value;
      && s2.pkt == s.pkt.(rpc := p.rpc)
      && s2.xids == (if msg.msgType != CALL then s.xids - {msg.xid} else s.xids)
      && OnlyFragment(s.streams, s2.streams, sid) && s2.streams[sid].msfrag == []
  {
    var p := PreludeStep(dec, s, sid, flagsRaw);
    PreludeFragment(dec, s, sid, flagsRaw);
    var s2 := StoreRpc(p, sid);
    assert OnlyFragment(p.s.streams, s2.streams, sid);
    OnlyFragmentTrans(s.streams, p.s.streams, s2.streams, sid);
  }

  /** The prelude changes only the fragment state of its stream. */
  lemma PreludeFragment(dec: Decoders, s: Snapshot, sid: string, flagsRaw: nat)
    requires Sane(dec) && s.pos <= |s.data| && sid in s.streams
    ensures OnlyFragment(s.streams, PreludeStep(dec, s, sid, flagsRaw).s.streams, sid)
  {
    ResyncFragment(dec, s, sid, flagsRaw);
  }

  lemma OnlyFragmentTrans(m1: map<string, Stream>, m2: map<string, Stream>, m3: map<string, Stream>, sid: string)
    requires OnlyFragment(m1, m2, sid) && OnlyFragment(m2, m3, sid)
    ensures OnlyFragment(m1, m3, sid)
  {
  }

  /** After the payload decoder only the position and the fragment state
      change; a fragment that started empty is left empty or holds the
      tail of the frame. */
  lemma AfterPayloadTail(dec: Decoders, s: Snapshot, sid: string, size: int, ldata: int, msg: Rpc)
    requires Sane(dec) && s.pos <= |s.data| && sid in s.streams && s.streams[sid].msfrag == []
    ensures var t := AfterPayloadStep(dec, s, sid, size, ldata, msg); var m := t.streams[sid].msfrag;
      && t.data == s.data && t.pkt == s.pkt && t.xids == s.xids
      && OnlyFragment(s.streams, t.streams, sid)
      && (m == [] || (|m| <= |t.data| && m == t.data[|t.data| - |m|..]))
  {
  }

  // Properties of the whole layer.

  /** A segment below the last sequence number seen is a retransmission:
      nothing after its header is decoded. */
  lemma Retransmission(dec: Decoders, s: Snapshot)
    requires Sane(dec) && s.pos <= |s.data| && SegmentStep(s).Parsed?
    requires var g := SegmentStep(s).seg; g.rel < g.state.streams[g.sid].lastSeq
    ensures TcpStep(dec, s) == Effect(SegmentStep(s).seg.state, None)
  {
  }

  /** Any other decoded segment has its payload decoded, and if it has a
      payload its relative sequence number becomes the last one seen. */
  lemma LastSeqUpdate(dec: Decoders, s: Snapshot)
    requires Sane(dec) && s.pos <= |s.data| && SegmentStep(s).Parsed?
    requires var g := SegmentStep(s).seg; g.rel >= g.state.streams[g.sid].lastSeq
    ensures var g := SegmentStep(s).seg; var e := TcpStep(dec, s);
      var before := g.state.streams[g.sid]; var after := e.state.streams[g.sid];
      && e.raised.None?
      && after.lastSeq == (if g.length > 0 then g.rel else before.lastSeq)
      && after.seqWrap == before.seqWrap && after.seqBase == before.seqBase
      && OnlyEntry(g.state.streams, e.state.streams, g.sid)
  {
    var g := SegmentStep(s).seg;
    PayloadTracking(dec, g.state, g.sid, g.flagsRaw);
  }

  /** The payload decoder changes only the fragment state of its own
      stream, and only retires calls. */
  lemma PayloadTracking(dec: Decoders, s: Snapshot, sid: string, flagsRaw: nat)
    requires Sane(dec) && s.pos <= |s.data| && sid in s.streams
    ensures var t := PayloadStep(dec, s, sid, flagsRaw);
      OnlyFragment(s.streams, t.streams, sid) && t.xids <= s.xids && t.pkt.record == s.pkt.record
  {
    var p := PreludeStep(dec, s, sid, flagsRaw);
    if p.rpc.None? {
      PayloadWithoutRpc(dec, s, sid, flagsRaw);
    } else if s.pkt.record.lengthOrig == s.pkt.record.lengthInc && p.ldata < p.rpc.value.fragmentSize {
      PayloadIncomplete(dec, s, sid, flagsRaw);
    } else {
      PayloadStored(dec, s, sid, flagsRaw);
    }
  }

  /** The TCP layer keeps the pcap record and never adds a call. */
  lemma TcpKeepsRecord(dec: Decoders, s: Snapshot)
    requires Sane(dec) && s.pos <= |s.data|
    ensures TcpStep(dec, s).state.pkt.record == s.pkt.record && TcpStep(dec, s).state.xids <= s.xids
  {
    var r := SegmentStep(s);
    if r.Parsed? {
      AfterSegmentKeepsRecord(dec, r.seg);
    }
  }

  lemma AfterSegmentKeepsRecord(dec: Decoders, g: Segment)
    requires Sane(dec) && g.state.pos <= |g.state.data| && g.sid in g.state.streams
    ensures var t := AfterSegmentStep(dec, g); t.pkt.record == g.state.pkt.record && t.xids <= g.state.xids
  {
    if g.rel >= g.state.streams[g.sid].lastSeq {
      PayloadTracking(dec, g.state, g.sid, g.flagsRaw);
    }
  }
}
