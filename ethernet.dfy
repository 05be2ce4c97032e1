/** The Ethernet II layer (RFC 894): destination and source MAC addresses
    and the payload type, then IPv4, IPv6 or the raw payload. */
module Ethernet {
  import opened Base
  import opened Xdr
  import opened Text
  import opened Layers
  import opened Session
  import Ipv6

  const ETHERNET_HEADER: nat := 14
  const ETHERTYPE_IPV4: nat := 0x0800
  const ETHERTYPE_IPV6: nat := 0x86dd

  /** `unpack(14, "!6s6sH")`: each address as its bytes spelled in hex. */
  function EthernetHeader(h: seq<byte>): Ethernet
    requires |h| == ETHERNET_HEADER
  {
    Ethernet(HexOfBytes(h[0..6]), HexOfBytes(h[6..12]), BigEndian(h[12..14]), None)
  }

  /** `ETHERNET(pktt)`: the header goes on the packet before the payload
      is decoded; any other type keeps the rest of the frame as the
      layer's data. */
  function EthernetStep(dec: Decoders, s: Snapshot): (e: Effect)
    requires Sane(dec) && s.pos <= |s.data|
    ensures e.state.pos <= |e.state.data|
  {
    var h := ReadBytes(s.data, s.pos, ETHERNET_HEADER);
    if h.result.None? then Effect(s, Some(Truncated)) else
    var eth := EthernetHeader(h.result.value);
    var s1 := s.(pos := h.next, pkt := s.pkt.(ethernet := Some(eth)));
    if eth.etherType == ETHERTYPE_IPV4 then dec.ipv4(s1)
    else if eth.etherType == ETHERTYPE_IPV6 then Ipv6.Ipv6Step(dec, s1)
    else Effect(s1.(pos := |s1.data|, pkt := s1.pkt.(ethernet := Some(eth.(data := Some(s1.data[s1.pos..]))))), None)
  }

  method DecodeEthernet(p: Pktt) returns (raised: Option<Error>)
    requires p.Valid()
    modifies p, p.unpack, p.pkt
    ensures p.Valid()
    ensures Effect(p.Snap(), raised) == EthernetStep(p.dec, old(p.Snap()))
  {
    var h := p.unpack.Read(ETHERNET_HEADER);
    if h.None? {
      return Some(Truncated);
    }
    var eth := EthernetHeader(h.value);
    p.pkt.ethernet := Some(eth);
    if eth.etherType == ETHERTYPE_IPV4 {
      raised := DecodeIpv4(p);
    } else if eth.etherType == ETHERTYPE_IPV6 {
      raised := Ipv6.DecodeIpv6(p);
    } else {
      var rest := p.unpack.GetBytes();
      p.pkt.ethernet := Some(eth.(data := Some(rest)));
      raised := None;
    }
  }

  // Properties.

  /** The header spelled from the two addresses' bytes and the type. */
  function EncodeEthernet(dst: seq<byte>, src: seq<byte>, etherType: nat): seq<byte> {
    dst + src + ToBigEndian(etherType, 2)
  }

  /** A header reads back from its encoding. */
  lemma EthernetHeaderRoundTrip(dst: seq<byte>, src: seq<byte>, etherType: nat)
    requires |dst| == 6 && |src| == 6 && etherType < 0x1_0000
    ensures EthernetHeader(EncodeEthernet(dst, src, etherType)) == Ethernet(HexOfBytes(dst), HexOfBytes(src), etherType, None)
  {
    var e := EncodeEthernet(dst, src, etherType);
    assert e[0..6] == dst && e[6..12] == src && e[12..14] == ToBigEndian(etherType, 2);
    assert Pow256(2) == 0x1_0000 by {
      assert Pow256(2) == 256 * Pow256(1) && Pow256(1) == 256 * Pow256(0);
    }
    BigEndianOfToBigEndian(etherType, 2);
  }

  /** The type is the big-endian value of the 13th and 14th bytes, and
      each address has two hex digits per byte. */
  lemma EthernetFields(h: seq<byte>)
    requires |h| == ETHERNET_HEADER
    ensures var eth := EthernetHeader(h);
      && eth.etherType == 256 * (h[12] as int) + h[13] && eth.etherType < 0x1_0000
      && |eth.dst| == 12 && |eth.src| == 12
  {
    var t := h[12..14];
    assert t[..1][..0] == [] && t[..1] == [h[12]];
    assert BigEndian(t[..1]) == h[12];
    assert BigEndian(t) == BigEndian(t[..1]) * 256 + h[13];
    HexLength(h[0..6]);
    HexLength(h[6..12]);
  }

  lemma {:induction false} HexLength(b: seq<byte>)
    ensures |HexOfBytes(b)| == 2 * |b|
  {
    if b != [] {
      HexLength(b[..|b| - 1]);
    }
  }

  /** Fewer than 14 bytes: nothing is stored and the short read raises. */
  lemma ShortEthernet(dec: Decoders, s: Snapshot)
    requires Sane(dec) && s.pos <= |s.data| && |s.data| - s.pos < ETHERNET_HEADER
    ensures EthernetStep(dec, s) == Effect(s, Some(Truncated))
  {
  }

  /** The layer the next decoder sees: the header on the packet, the read
      position after it. */
  function Registered(s: Snapshot): Snapshot
    requires s.pos + ETHERNET_HEADER <= |s.data|
  {
    s.(pos := s.pos + ETHERNET_HEADER, pkt := s.pkt.(ethernet := Some(EthernetHeader(s.data[s.pos..s.pos + ETHERNET_HEADER]))))
  }

  /** Type `0x0800` is IPv4 and `0x86dd` is IPv6, each decoded after the
      header is on the packet; any other type consumes the rest of the
      frame as the layer's data and changes nothing else. */
  lemma EthernetDispatch(dec: Decoders, s: Snapshot)
    requires Sane(dec) && s.pos + ETHERNET_HEADER <= |s.data|
    ensures var eth := EthernetHeader(s.data[s.pos..s.pos + ETHERNET_HEADER]); var e := EthernetStep(dec, s);
      && (eth.etherType == 0x0800 ==> e == dec.ipv4(Registered(s)))
      && (eth.etherType == 0x86dd ==> e == Ipv6.Ipv6Step(dec, Registered(s)))
      && (eth.etherType != 0x0800 && eth.etherType != 0x86dd ==>
            e == Effect(s.(pos := |s.data|,
                           pkt := s.pkt.(ethernet := Some(eth.(data := Some(s.data[s.pos + ETHERNET_HEADER..]))))), None))
  {
  }

  /** Decoding a frame keeps its pcap record. */
  lemma EthernetKeepsRecord(dec: Decoders, s: Snapshot)
    requires Sane(dec) && s.pos <= |s.data|
    ensures EthernetStep(dec, s).state.pkt.record == s.pkt.record
  {
    if s.pos + ETHERNET_HEADER <= |s.data| {
      EthernetDispatch(dec, s);
      Ipv6.Ipv6KeepsRecord(dec, Registered(s));
      assert Registered(s).pkt.record == s.pkt.record;
    }
  }
}
