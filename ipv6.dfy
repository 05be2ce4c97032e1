/** The IPv6 layer (section 3 of RFC 8200): the 40-byte fixed header,
    without extension headers, then TCP, UDP or the raw payload. */
module Ipv6 {
  import opened Base
  import opened Xdr
  import opened Bits
  import opened Text
  import opened Layers
  import opened Session
  import Ipv6Addr
  import Tcp
  import Udp

  const IPV6_HEADER: nat := 40

  /** The sixteen address bytes always convert. */
  lemma AddressConverts(b: seq<byte>)
    requires |b| == 16
    ensures Ipv6Addr.CanonicalStr(HexOfBytes(b)).Ok?
  {
    var _ := Ipv6Addr.SixteenBytes(b);
  }

  /** `IPv6Addr(b.encode('hex'))`. */
  function Address(b: seq<byte>): string
    requires |b| == 16
  {
    AddressConverts(b);
    Ipv6Addr.CanonicalStr(HexOfBytes(b)).value
  }

  /** `unpack(40, "!IHBB16s16s")` and the fields computed from it. */
  function Ipv6Header(h: seq<byte>): Ipv6
    requires |h| == IPV6_HEADER
  {
    var w := BigEndian(h[0..4]);
    Ipv6(Shr(w, 28), And(Shr(w, 20), 0xFF), And(w, 0xFFF), BigEndian(h[4..6]), h[6], h[7],
         Address(h[8..24]), Address(h[24..40]), None)
  }

  /** `IPv6(pktt)`: the header goes on the packet before the transport
      layer is decoded; any other protocol keeps the rest of the frame as
      the layer's data. */
  function Ipv6Step(dec: Decoders, s: Snapshot): (e: Effect)
    requires Sane(dec) && s.pos <= |s.data|
    ensures e.state.pos <= |e.state.data|
  {
    var h := ReadBytes(s.data, s.pos, IPV6_HEADER);
    if h.result.None? then Effect(s, Some(Truncated)) else
    var ip := Ipv6Header(h.result.value);
    var s1 := s.(pos := h.next, pkt := s.pkt.(ip := Some(ip)));
    if ip.protocol == Tcp.PROTO_TCP then Tcp.TcpStep(dec, s1)
    else if ip.protocol == Udp.PROTO_UDP then Udp.UdpStep(dec, s1)
    else Effect(s1.(pos := |s1.data|, pkt := s1.pkt.(ip := Some(ip.(data := Some(s1.data[s1.pos..]))))), None)
  }

  method DecodeIpv6(p: Pktt) returns (raised: Option<Error>)
    requires p.Valid()
    modifies p, p.unpack, p.pkt
    ensures p.Valid()
    ensures Effect(p.Snap(), raised) == Ipv6Step(p.dec, old(p.Snap()))
  {
    var h := p.unpack.Read(IPV6_HEADER);
    if h.None? {
      return Some(Truncated);
    }
    var ip := Ipv6Header(h.value);
    p.pkt.ip := Some(ip);
    if ip.protocol == Tcp.PROTO_TCP {
      raised := Tcp.DecodeTcp(p);
    } else if ip.protocol == Udp.PROTO_UDP {
      raised := Udp.DecodeUdp(p);
    } else {
      var rest := p.unpack.GetBytes();
      p.pkt.ip := Some(ip.(data := Some(rest)));
      raised := None;
    }
  }

  // Properties.

  lemma Pow2Fields()
    ensures Pow2(8) == 0x100 && Pow2(12) == 0x1000 && Pow2(20) == 0x10_0000 && Pow2(28) == 0x1000_0000
  {
    assert Pow2(1) == 2 && Pow2(2) == 4 && Pow2(3) == 8 && Pow2(4) == 16;
    assert Pow2(5) == 32 && Pow2(6) == 64 && Pow2(7) == 128 && Pow2(8) == 256;
    Pow2Add(8, 4);
    Pow2Add(12, 8);
    Pow2Add(20, 8);
  }

  /** The first header word holds the version in its top four bits and
      the traffic class in the next eight; the flow label is its low
      twelve bits only. */
  lemma HeaderWord(h: seq<byte>)
    requires |h| == IPV6_HEADER
    ensures var w := BigEndian(h[0..4]); var ip := Ipv6Header(h);
      && ip.version == w / 0x1000_0000 && ip.version < 16
      && ip.trafficClass == (w / 0x10_0000) % 0x100
      && ip.flowLabel == w % 0x1000
  {
    var w := BigEndian(h[0..4]);
    Pow2Fields();
    AndLowMask(Shr(w, 20), 8);
    AndLowMask(w, 12);
    assert Pow256(4) == TWO32 by {
      assert Pow256(1) == 0x100 && Pow256(2) == 0x1_0000 && Pow256(3) == 0x100_0000;
    }
  }

  /** Bits 12 to 19 of the first word, the top of a 20-bit flow label,
      are in no field. */
  lemma FlowLabelDropsBits(h: seq<byte>)
    requires |h| == IPV6_HEADER
    ensures var w := BigEndian(h[0..4]); var ip := Ipv6Header(h);
      w == ip.version * 0x1000_0000 + ip.trafficClass * 0x10_0000 + ((w / 0x1000) % 0x100) * 0x1000 + ip.flowLabel
  {
    var w := BigEndian(h[0..4]);
    HeaderWord(h);
    WordSplit(w);
  }

  lemma WordSplit(w: nat)
    ensures w == (w / 0x1000_0000) * 0x1000_0000 + ((w / 0x10_0000) % 0x100) * 0x10_0000
               + ((w / 0x1000) % 0x100) * 0x1000 + w % 0x1000
  {
    var a := w / 0x1000;
    var b := a / 0x100;
    var c := b / 0x100;
    assert w == a * 0x1000 + w % 0x1000;
    assert a == b * 0x100 + a % 0x100;
    assert b == c * 0x100 + b % 0x100;
    DivDiv(w, 0x1000, 0x100);
    DivDiv(w, 0x10_0000, 0x100);
    assert b == w / 0x10_0000;
    assert c == w / 0x1000_0000;
  }

  /** The word `0x61234567`: version 6, traffic class `0x12`, flow label
      `0x567` (the 20-bit label would be `0x34567`). */
  lemma FlowLabelExample(h: seq<byte>)
    requires |h| == IPV6_HEADER && h[0..4] == [0x61, 0x23, 0x45, 0x67]
    ensures Ipv6Header(h).version == 6 && Ipv6Header(h).trafficClass == 0x12
    ensures Ipv6Header(h).flowLabel == 0x567
  {
    var w := BigEndian(h[0..4]);
    FirstWord();
    assert w == 0x61234567;
    DivModUnique(w, 0x1000_0000, 6, 0x1234567);
    DivModUnique(w, 0x10_0000, 0x612, 0x34567);
    DivModUnique(0x612, 0x100, 6, 0x12);
    DivModUnique(w, 0x1000, 0x61234, 0x567);
    HeaderWord(h);
  }

  lemma FirstWord()
    ensures BigEndian([0x61, 0x23, 0x45, 0x67]) == 0x61234567
  {
    var q: seq<byte> := [0x61, 0x23, 0x45, 0x67];
    assert BigEndian(q[..1]) == 0x61 by {
      assert q[..1][..0] == [];
    }
    assert q[..2][..1] == q[..1] && q[..3][..2] == q[..2] && q[..4][..3] == q[..3] && q[..4] == q;
    assert BigEndian(q[..2]) == 0x6123;
    assert BigEndian(q[..3]) == 0x612345;
  }

  /** The fixed header spelled from its fields and the bytes of its two
      addresses. */
  function EncodeIpv6(ip: Ipv6, src: seq<byte>, dst: seq<byte>): seq<byte> {
    ToBigEndian(ip.version * 0x1000_0000 + ip.trafficClass * 0x10_0000 + ip.flowLabel, 4)
    + ToBigEndian(ip.totalSize, 2) + ToBigEndian(ip.protocol, 1) + ToBigEndian(ip.hopLimit, 1) + src + dst
  }

  /** A header whose fields fit (a flow label of twelve bits) reads back
      from its encoding, with its addresses in canonical form. */
  lemma Ipv6HeaderRoundTrip(ip: Ipv6, src: seq<byte>, dst: seq<byte>)
    requires ip.version < 16 && ip.trafficClass < 0x100 && ip.flowLabel < 0x1000
    requires ip.totalSize < 0x1_0000 && ip.protocol < 0x100 && ip.hopLimit < 0x100
    requires |src| == 16 && |dst| == 16
    ensures Ipv6Header(EncodeIpv6(ip, src, dst)) == ip.(src := Address(src), dst := Address(dst), data := None)
  {
    var w := ip.version * 0x1000_0000 + ip.trafficClass * 0x10_0000 + ip.flowLabel;
    var e := EncodeIpv6(ip, src, dst);
    EncodedParts(ip, src, dst);
    WordFields(BigEndian(e[0..4]), ip.version, ip.trafficClass, ip.flowLabel);
    HeaderWord(e);
    var r := Ipv6Header(e);
    assert r.version == ip.version && r.trafficClass == ip.trafficClass && r.flowLabel == ip.flowLabel;
    assert r.totalSize == ip.totalSize && r.protocol == ip.protocol && r.hopLimit == ip.hopLimit;
    assert r.src == Address(src) && r.dst == Address(dst) && r.data == None;
  }

  lemma EncodedParts(ip: Ipv6, src: seq<byte>, dst: seq<byte>)
    requires ip.version < 16 && ip.trafficClass < 0x100 && ip.flowLabel < 0x1000
    requires ip.totalSize < 0x1_0000 && ip.protocol < 0x100 && ip.hopLimit < 0x100
    requires |src| == 16 && |dst| == 16
    ensures var e := EncodeIpv6(ip, src, dst);
      && |e| == IPV6_HEADER
      && BigEndian(e[0..4]) == ip.version * 0x1000_0000 + ip.trafficClass * 0x10_0000 + ip.flowLabel
      && BigEndian(e[4..6]) == ip.totalSize && e[6] == ip.protocol && e[7] == ip.hopLimit
      && e[8..24] == src && e[24..40] == dst
  {
    var w := ip.version * 0x1000_0000 + ip.trafficClass * 0x10_0000 + ip.flowLabel;
    var e := EncodeIpv6(ip, src, dst);
    assert Pow256(1) == 0x100 && Pow256(2) == 0x1_0000 && Pow256(4) == TWO32 by {
      assert Pow256(3) == 0x100_0000;
    }
    assert e[0..4] == ToBigEndian(w, 4);
    assert e[4..6] == ToBigEndian(ip.totalSize, 2);
    assert e[6..7] == ToBigEndian(ip.protocol, 1) && e[7..8] == ToBigEndian(ip.hopLimit, 1);
    BigEndianOfToBigEndian(w, 4);
    BigEndianOfToBigEndian(ip.totalSize, 2);
    BigEndianOfToBigEndian(ip.protocol, 1);
    BigEndianOfToBigEndian(ip.hopLimit, 1);
    OneByte(e[6..7]);
    OneByte(e[7..8]);
  }

  lemma OneByte(b: seq<byte>)
    requires |b| == 1
    ensures BigEndian(b) == b[0]
  {
    assert b[..0] == [];
  }

  lemma WordFields(w: nat, v: nat, tc: nat, fl: nat)
    requires v < 16 && tc < 0x100 && fl < 0x1000 && w == v * 0x1000_0000 + tc * 0x10_0000 + fl
    ensures w / 0x1000_0000 == v && (w / 0x10_0000) % 0x100 == tc && w % 0x1000 == fl
  {
    DivModUnique(w, 0x1000_0000, v, tc * 0x10_0000 + fl);
    DivModUnique(w, 0x10_0000, v * 0x100 + tc, fl);
    DivModUnique(v * 0x100 + tc, 0x100, v, tc);
    DivModUnique(w, 0x1000, (v * 0x100 + tc) * 0x100, fl);
  }

  /** Each address is the canonical text of its eight 16-bit groups: the
      groups in lower-case hex, with the first zero group after a nonzero
      one written as the empty field of `::` and every other zero group
      left out. */
  lemma AddressGroups(b: seq<byte>) returns (vs: seq<int>)
    requires |b| == 16
    ensures |vs| == 8 && forall j :: 0 <= j < 8 ==> 0 <= vs[j] < 0x1_0000
    ensures Address(b) == Join(Ipv6Addr.CollapsedParts(vs), ":")
  {
    vs := Ipv6Addr.SixteenBytes(b);
  }

  /** Fewer than 40 bytes: nothing is stored and the short read raises. */
  lemma ShortIpv6(dec: Decoders, s: Snapshot)
    requires Sane(dec) && s.pos <= |s.data| && |s.data| - s.pos < IPV6_HEADER
    ensures Ipv6Step(dec, s) == Effect(s, Some(Truncated))
  {
  }

  /** The layer the transport decoder sees: the header on the packet, the
      read position after it. */
  function Registered(s: Snapshot): Snapshot
    requires s.pos + IPV6_HEADER <= |s.data|
  {
    s.(pos := s.pos + IPV6_HEADER, pkt := s.pkt.(ip := Some(Ipv6Header(s.data[s.pos..s.pos + IPV6_HEADER]))))
  }

  /** Protocol 6 is TCP and 17 is UDP, each decoded after the header is on
      the packet; any other protocol consumes the rest of the frame as the
      layer's data and changes nothing else. */
  lemma Ipv6Dispatch(dec: Decoders, s: Snapshot)
    requires Sane(dec) && s.pos + IPV6_HEADER <= |s.data|
    ensures var ip := Ipv6Header(s.data[s.pos..s.pos + IPV6_HEADER]); var e := Ipv6Step(dec, s);
      && (ip.protocol == 6 ==> e == Tcp.TcpStep(dec, Registered(s)))
      && (ip.protocol == 17 ==> e == Udp.UdpStep(dec, Registered(s)))
      && (ip.protocol != 6 && ip.protocol != 17 ==>
            && e.raised.None? && e.state.pos == |s.data|
            && e.state == s.(pos := |s.data|, pkt := s.pkt.(ip := Some(ip.(data := Some(s.data[s.pos + IPV6_HEADER..]))))))
  {
  }

  /** The IPv6 layer keeps the pcap record and never adds a call. */
  lemma Ipv6KeepsRecord(dec: Decoders, s: Snapshot)
    requires Sane(dec) && s.pos <= |s.data|
    ensures Ipv6Step(dec, s).state.pkt.record == s.pkt.record && Ipv6Step(dec, s).state.xids <= s.xids
  {
    if s.pos + IPV6_HEADER <= |s.data| {
      Ipv6Dispatch(dec, s);
      Tcp.TcpKeepsRecord(dec, Registered(s));
      Udp.UdpKeepsRecord(dec, Registered(s));
    }
  }
}
