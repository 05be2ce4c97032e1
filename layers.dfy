/** The records each layer decoder leaves on the packet: one datatype per
    layer object of the trace reader, holding the attributes the modelled
    decoders set. */
module Layers {
  import opened Base

  const AUTH_NONE: nat := 0
  const AUTH_SYS: nat := 1
  const RPCSEC_GSS: nat := 6

  /** `gss_proc` values (RFC 2203, section 5). */
  const RPCSEC_GSS_DATA: nat := 0
  const RPCSEC_GSS_INIT: nat := 1
  const RPCSEC_GSS_CONTINUE_INIT: nat := 2
  const RPCSEC_GSS_DESTROY: nat := 3

  /** `gss_service` values. */
  const RPC_GSS_SVC_NONE: nat := 1
  const RPC_GSS_SVC_INTEGRITY: nat := 2
  const RPC_GSS_SVC_PRIVACY: nat := 3

  /** RPC message types. */
  const CALL: nat := 0
  const REPLY: nat := 1

  /** The pcap record of the frame: its length on the wire and the length
      captured. */
  datatype Record = Record(lengthOrig: nat, lengthInc: nat)

  /** `ETHERNET`: the MAC addresses are kept as their hex strings. */
  datatype Ethernet = Ethernet(dst: string, src: string, etherType: nat, data: Option<seq<byte>>)

  /** `IPv6`. */
  datatype Ipv6 = Ipv6(version: nat, trafficClass: nat, flowLabel: nat, totalSize: nat,
                       protocol: nat, hopLimit: nat, src: string, dst: string,
                       data: Option<seq<byte>>)

  /** `Flags`: one bit each. */
  datatype TcpFlags = TcpFlags(fin: nat, syn: nat, rst: nat, psh: nat, ack: nat,
                               urg: nat, ece: nat, cwr: nat, ns: nat)

  /** `TCP`.  `seq` (here `relSeq`), `options` and `length` are set after the layer is
      already on the packet, so a failure in between leaves them unset. */
  datatype Tcp = Tcp(srcPort: nat, dstPort: nat, seqNumber: nat, ackNumber: nat,
                     hl: nat, headerSize: nat, flagsRaw: nat, flags: TcpFlags,
                     windowSize: nat, checksum: nat, urgentPtr: nat,
                     relSeq: Option<int>, options: Option<seq<byte>>, length: Option<nat>)

  /** `UDP`. */
  datatype Udp = Udp(srcPort: nat, dstPort: nat, length: nat, checksum: nat)

  /** A credential or verifier (`opaque_auth`).  The `gss_proc` and
      `gss_service` attributes of a GSS verifier are set, if at all, by
      the RPC decoder, which is not part of this model. */
  datatype Credential =
    | AuthNone
    | AuthSys(size: nat, stamp: nat, machine: seq<byte>, uid: nat, gid: nat, gids: seq<nat>)
    | GssCredential(size: nat, gssVersion: nat, gssProc: nat, gssSeqNum: nat,
                    gssService: nat, gssContext: seq<byte>)
    | GssVerifier(size: nat, gssToken: seq<byte>, verifierProc: Option<nat>, verifierService: Option<nat>)
  {
    /** The class attribute `flavor`. */
    function Flavor(): nat {
      match this
      case AuthNone => AUTH_NONE
      case AuthSys(_, _, _, _, _, _) => AUTH_SYS
      case _ => RPCSEC_GSS
    }

    /** The `gss_proc` attribute, when the object has one. */
    function Proc(): Option<nat> {
      match this
      case GssCredential(_, _, p, _, _, _) => Some(p)
      case GssVerifier(_, _, p, _) => p
      case _ => None
    }

    /** The `gss_service` attribute, when the object has one. */
    function Service(): Option<nat> {
      match this
      case GssCredential(_, _, _, _, s, _) => Some(s)
      case GssVerifier(_, _, _, s) => s
      case _ => None
    }
  }

  /** What the layers below read of an RPC message: its type (0 call,
      1 reply), its xid, the size of the record fragment (over TCP), and
      its credential and verifier. */
  datatype Rpc = Rpc(msgType: nat, xid: nat, fragmentSize: nat,
                     credential: Option<Credential>, verifier: Option<Credential>)

  /** `GSS_Data`: integrity data (`length`, `seq_num`), an INIT call's
      token, or an INIT reply's context, status, window and token. */
  datatype GssData =
    | GssIntegrity(msgType: nat, length: nat, seqNum: nat)
    | GssInitCall(token: seq<byte>)
    | GssInitReply(context: seq<byte>, major: nat, minor: nat, seqWindow: nat, token: seq<byte>)

  /** `GSS_Checksum`. */
  datatype GssChecksum = GssChecksum(token: seq<byte>)

  /** An entry of the TCP stream map. */
  datatype Stream = Stream(msfrag: seq<byte>, fragOff: int, lastSeq: int, seqWrap: int, seqBase: int)

  /** Every layer the decoders store on a packet, and its pcap record. */
  datatype PacketView = PacketView(ethernet: Option<Ethernet>, ip: Option<Ipv6>, tcp: Option<Tcp>,
                                   udp: Option<Udp>, rpc: Option<Rpc>, gssd: Option<GssData>,
                                   gssc: Option<GssChecksum>, record: Record)
}
