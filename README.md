# NFStest packet decoder, modelled in Dafny

This project models the core of the packet-trace decoder of NFStest. That core is a Python 2 library which reads captured
network frames and decodes them layer by layer. Each decoder reads a big-endian header from the trace reader's shared
byte cursor (`pktt.unpack`), stores its layer on the current packet record (`pktt.pkt`), and hands the rest of the frame to
the decoder its tag selects:

- Ethernet II (RFC 894): ethertype `0x0800` goes to IPv4 and `0x86dd` to IPv6. Any other type keeps the rest of the frame.
- IPv6: next header 6 goes to TCP and 17 to UDP. Any other value keeps the rest of the frame.
- TCP and UDP try an ONC RPC decode on their payload.
- RPC credentials and verifiers are `opaque_auth` values (section 8.2 of RFC 5531): `AUTH_NONE`, `AUTH_SYS`
  (Appendix A of RFC 5531) and the RPCSEC_GSS credential (section 5 of RFC 2203).
- The RPCSEC_GSS envelope around the RPC body: the INIT token and result (sections 5.2.2 and 5.2.3.1 of RFC 2203), and
  the integrity length, sequence number and checksum (section 5.3.2.2 of RFC 2203).

Two pieces of state live on the session object and carry over from packet to packet:

- The TCP stream map. It turns sequence numbers into relative ones, counts wraps, skips retransmissions and carries RPC
  fragments that span segments.
- The table of RPC calls waiting for their reply. A decoded reply retires its call's xid.

The project also models pure helpers:

- The IPv6 address canonicaliser (`IPv6Addr`).
- Bitmap and enum decoding (`bitmap_dict`, `Enum`) and the hex renderings `IntHex`, `LongHex` and `StrHex`.
- pNFS file-layout stripe arithmetic (dense and sparse packing, section 13.4.4 of RFC 5661), `getop`, `bitmap_str`, and
  the port of an IPv4 universal address (section 5.2.3.3 of RFC 5665).
- The `access_str` and `oflag_str` name renderings.

## Layout

One module per source file:

| module | source |
|---|---|
| `Ethernet` | `packet/link/ethernet.py` |
| `Ipv6` | `packet/internet/ipv6.py` |
| `Ipv6Addr` | `packet/internet/ipv6addr.py` |
| `Tcp` | `packet/transport/tcp.py` |
| `Udp` | `packet/transport/udp.py` |
| `RpcCreds` | `packet/application/rpc_creds.py` |
| `Gss` | `packet/application/gss.py` |
| `Utils` | `packet/utils.py` |
| `NfsUtil` | `nfstest/nfs_util.py` |
| `Params` | `params.py` |

Supporting modules:

- `Base`: bytes, `Option`, `Result` and the Python exceptions the core raises.
- `Xdr`: big-endian integers, XDR padding, the reading functions and matching encoders.
- `Unpack`: a minimal `Cursor` class standing in for the trace reader's `Unpack` object.
- `Text`: hex and decimal spelling, `int(s, base)`, `split`, `join`, `lower`, `upper` and `rstrip`.
- `Bits`: Python's `>>` and `&` on unbounded integers.
- `Layers`: the layer records and protocol constants.
- `Session`: the packet record (`Packet`), the session (`Pktt`) and the state a decoder reads and writes (`Snapshot`).

Each decoder that changes the session is a method on `Pktt` and the `Cursor`. Its `ensures` says that the new state is
the result of a pure step function applied to the old state (`Effect(p.Snap(), raised) == TcpStep(p.dec, old(p.Snap()))`).
The lemmas then prove what the source promises about the step function. Loops (`_convert`, `bitmap_dict`, `getop`,
`bitmap_str`, `access_str`, `oflag_str`, the cursor's array and integer reads) are `while`/`for` loops with invariants,
proved equal to a function that is itself characterised by lemmas.

## Model

| member | source | states |
|---|---|---|
| Ethernet.DecodeEthernet | packet/link/ethernet.py:55-78 | The new session state and the exception raised are exactly those of the Ethernet step. |
| Ethernet.EthernetHeaderRoundTrip | packet/link/ethernet.py:65-68 | A 14-byte header built from a 6-byte destination, a 6-byte source and a 16-bit type decodes back to those two addresses (in hex) and that type. |
| Ethernet.EthernetFields | packet/link/ethernet.py:65-68 | The type is the big-endian value of bytes 12 and 13, below 2^16; each address is 12 hex digits. |
| Ethernet.ShortEthernet | packet/link/ethernet.py:65 | Fewer than 14 bytes left: the short read raises, and nothing is stored or consumed. |
| Ethernet.EthernetDispatch | packet/link/ethernet.py:69-78 | With the header stored on the packet first, type 0x0800 continues with IPv4 and 0x86dd with IPv6. Any other type drains the rest of the frame into the layer's `data` and changes nothing else. |
| Ethernet.EthernetKeepsRecord | packet/link/ethernet.py:55-78 | Decoding a frame never changes its pcap record. |
| Ipv6.DecodeIpv6 | packet/internet/ipv6.py:59-88 | The new state and the exception raised are exactly those of the IPv6 step. |
| Ipv6.HeaderWord | packet/internet/ipv6.py:69-72 | version is the first word shifted right by 28; traffic_class is bits 20-27; flow_label is the word modulo 0x1000, that is, only 12 bits. |
| Ipv6.FlowLabelDropsBits | packet/internet/ipv6.py:70-72 | The first word is version, traffic_class, the 8 bits 12-19 that no field keeps, and flow_label. |
| Ipv6.FlowLabelExample | packet/internet/ipv6.py:70-72 | First word 0x61234567 gives version 6, traffic_class 0x12 and flow_label 0x567. |
| Ipv6.Ipv6HeaderRoundTrip | packet/internet/ipv6.py:69-77 | A 40-byte header built from in-range fields decodes back to those fields, with the two addresses canonicalised. |
| Ipv6.EncodedParts | packet/internet/ipv6.py:69 | The encoder lays out a 32-bit word, a 16-bit length, two single bytes and two 16-byte addresses: 40 bytes in all. |
| Ipv6.AddressGroups | packet/internet/ipv6.py:76-77 | Each address is the collapsed colon form of the eight 16-bit groups of its 16 bytes. |
| Ipv6.AddressConverts | packet/internet/ipv6.py:76-77 | Converting the 32 hex digits of 16 header bytes never raises. |
| Ipv6.ShortIpv6 | packet/internet/ipv6.py:69 | Fewer than 40 bytes left: the short read raises, and nothing is stored or consumed. |
| Ipv6.Ipv6Dispatch | packet/internet/ipv6.py:79-88 | With the header stored on the packet first, protocol 6 continues with TCP and 17 with UDP. Anything else drains the rest of the frame into `data` and leaves the cursor empty. |
| Ipv6.Ipv6KeepsRecord | packet/internet/ipv6.py:59-88 | The pcap record is unchanged, and the xid table only loses entries. |
| Ipv6Addr.Convert | packet/internet/ipv6addr.py:53-93 | `_convert`, with its two loops, returns exactly the canonical form that the lemmas below characterise. `None` stays `None`, and the result either normalises, expands, range-checks and groups the address, or fails with the error of that step. |
| Ipv6Addr.ExpandColons | packet/internet/ipv6addr.py:63-77 | The first loop's result is the colon expansion of the string. |
| Ipv6Addr.ExpandItem | packet/internet/ipv6addr.py:68-76 | One field of the loop: an empty field while the count `8 - len(ol)` is nonzero becomes `0000` repeated count-plus-one times (none when that is negative) and clears the count; any other field becomes its value zero-filled to four hex digits, and a field that is not hex is an error. |
| Ipv6Addr.GroupAndCollapse | packet/internet/ipv6addr.py:81-92 | The second loop's result is the grouped form of the digit string. |
| Ipv6Addr.Eq | packet/internet/ipv6addr.py:101-103 | Raises exactly when converting `other` raises. True exactly when the converted `other` is this address's string. Comparing with `None` is False. |
| Ipv6Addr.Ne | packet/internet/ipv6addr.py:105-107 | Raises exactly when `__eq__` raises; otherwise it is the negation of `__eq__`. |
| Ipv6Addr.NormalizeHexDigits | packet/internet/ipv6addr.py:58-62 | After `rstrip('Ll')`, `replace('0x','')` and `lower()`, both `hex(n)` and the bare digits of `n` are the lower-case digits, with no `0x` and no `L`. |
| Ipv6Addr.IntSpelling | packet/internet/ipv6addr.py:58-60 | An integer address converts like the string of its hex digits. |
| Ipv6Addr.IntTooLarge | packet/internet/ipv6addr.py:79-80 | Every integer above 2^128-1 raises `ValueError`. |
| Ipv6Addr.ZeroXSpelling | packet/internet/ipv6addr.py:61 | A leading `0x` makes no difference to the result. |
| Ipv6Addr.UpperSpelling | packet/internet/ipv6addr.py:62 | Upper-case digits convert like lower-case ones, when no `x` is in play. |
| Ipv6Addr.DigitSpellings | packet/internet/ipv6addr.py:38-44 | An integer, its hex digits, `0x` plus the digits, and both in upper case all compare alike against any address. |
| Ipv6Addr.ColonSpelling | packet/internet/ipv6addr.py:45-46 | Eight colon-separated groups, with or without leading zeros, compare like the 32 digits they spell. |
| Ipv6Addr.GapSpelling | packet/internet/ipv6addr.py:47-50 | The fields `pre`, an empty field, then `post`, joined with `:`, compare like the digits with the gap filled by `0000` groups up to eight groups in all. With both sides non-empty this is `pre::post`. A gap at an end works only when spelled with a single colon (`:1`, `fe80:`). |
| Ipv6Addr.TwoGapsRaise | packet/internet/ipv6addr.py:65-75 | Two empty fields after splitting at `:` make the expansion raise `ValueError`: the first clears the owed count, so the second reaches `int('', 16)`. |
| Ipv6Addr.TwoGapsDoNotConvert | packet/internet/ipv6addr.py:56-80 | Such a lower-case colon string does not convert: `_convert` raises `ValueError`. |
| Ipv6Addr.LoopbackRaises | packet/internet/ipv6addr.py:56-80 | `::1` raises `ValueError`. |
| Ipv6Addr.LinkPrefixRaises | packet/internet/ipv6addr.py:56-80 | `fe80::` raises `ValueError`. |
| Ipv6Addr.ExpandEightGroups | packet/internet/ipv6addr.py:63-77 | With no empty field, each group is zero-filled to four digits and the groups are run together. |
| Ipv6Addr.ExpandOneGap | packet/internet/ipv6addr.py:63-77 | The first empty field becomes (9 - field count) groups of `0000`; every other field is zero-filled to four digits. |
| Ipv6Addr.GroupedReference | packet/internet/ipv6addr.py:81-92 | The second loop prints the nonzero groups in `%x`. The first zero group after a nonzero group becomes one empty field. Every other zero group, leading ones included, disappears. |
| Ipv6Addr.SixteenBytes | packet/internet/ipv6addr.py:79-92 | The 32 digits of any 16 header bytes convert without error, to the collapsed form of their eight 16-bit groups. |
| Ipv6Addr.DocumentedAddress | packet/internet/ipv6addr.py:142-145 | 32 digits whose groups are fe80, 0, 0, 0, 20c, 29ff, fe54, 9ef convert to `fe80::20c:29ff:fe54:9ef`. |
| Ipv6Addr.AllOnesAddress | packet/internet/ipv6addr.py:147-148 | The all-ones 128-bit integer converts to `ffff:ffff:ffff:ffff:ffff:ffff:ffff:ffff`. |
| Ipv6Addr.ShortIntegersCollide | packet/internet/ipv6addr.py:58-60 | As written, the integers 0, 1 and 2 all convert to the empty string. |
| Ipv6Addr.ShortDigits | packet/internet/ipv6addr.py:81-92 | Every integer below 16 converts to the empty string: no group of four digits is left. |
| Ipv6Addr.CanonicalFixed | packet/internet/ipv6addr.py:53-93 | The corrected conversion (integers zero-filled to 32 digits) agrees with `_convert` on everything but integers. |
| Ipv6Addr.FixedIntMatchesBytes | packet/internet/ipv6addr.py:58-60 | With zero-filling, an integer within 128 bits converts exactly like the same address read from a packet header. |
| Ipv6Addr.FixedIntConverts | packet/internet/ipv6addr.py:79-80 | With zero-filling, every integer from 0 to 2^128-1 converts without error. |
| Ipv6Addr.AddrObjectsNeverCompare | packet/internet/ipv6addr.py:58-60 | As written, comparing an address with an address object, even a copy of itself, raises `TypeError` from both `__eq__` and `__ne__`. |
| Ipv6Addr.EqFixed | packet/internet/ipv6addr.py:101-103 | The corrected comparison agrees with `__eq__` on everything but address objects. |
| Ipv6Addr.EqFixedIsEquivalence | packet/internet/ipv6addr.py:101-103 | The corrected comparison between address objects is reflexive, symmetric and transitive. |
| Tcp.FlagsBits | packet/transport/tcp.py:45-55 | FIN is bit 0 of the flags value, SYN bit 1 and so on up to NS at bit 8. |
| Tcp.FlagsRoundTrip | packet/transport/tcp.py:45-55 | The nine flag bits put back together give any 9-bit flags value back. |
| Tcp.HeaderWord | packet/transport/tcp.py:115-126 | `hl` is the 13th and 14th bytes shifted right by 12, `header_size` is four times that, and `flags_raw` is the low 9 bits. |
| Tcp.DecodeTcp | packet/transport/tcp.py:104-176 | The new state (cursor, packet, stream map and xid table) and the exception raised are exactly those of the TCP step. |
| Tcp.DecodeTcpPayload | packet/transport/tcp.py:206-292 | The new state is exactly that of the payload step. |
| Tcp.TrackRelative | packet/transport/tcp.py:149-160 | A SYN resets `seq_base` and sets `last_seq` to `seq_wrap`. The relative number minus `seq_wrap` is `seq_number - seq_base`. `seq_wrap` grows by exactly 2^32 iff `seq_number < seq_base`. The fragment fields are untouched. |
| Tcp.SynIsNotRetransmission | packet/transport/tcp.py:149-152 | After a SYN the relative sequence number equals `last_seq`, so a SYN is never taken for a retransmission. |
| Tcp.TrackWindow | packet/transport/tcp.py:155-160 | For 32-bit sequence numbers the relative number lies in `[seq_wrap, seq_wrap + 2^32)` of the stream before the segment. |
| Tcp.WrapCountsEverySegment | packet/transport/tcp.py:155-159 | Two segments that both lie below `seq_base` each add 2^32 to `seq_wrap`. |
| Tcp.ShortSegment | packet/transport/tcp.py:115 | Fewer than 20 bytes left: the short read raises, and nothing is stored or consumed. |
| Tcp.SegmentWithoutIp | packet/transport/tcp.py:128-132 | With no IP layer, the header is stored and the stream id raises `AttributeError`. |
| Tcp.SegmentLayout | packet/transport/tcp.py:115-167 | Options of `header_size - 20` bytes are read only when `header_size > 20`. A short read raises. `length` is what is left after them. Apart from `pkt.tcp`, the packet and the xid table are unchanged. |
| Tcp.SegmentStream | packet/transport/tcp.py:130-160 | The stream id is `src:port-dst:port`. A new entry starts from the segment's `seq_number` with `last_seq`, `seq_wrap` and fragment empty. An existing entry is tracked, not reset. No other entry changes. |
| Tcp.ResyncFragment | packet/transport/tcp.py:211-233 | Only this stream's fragment fields change. A successful re-sync clears the fragment and its offset. Without a fragment, the offset moves by `frag_off` when positive. A failed re-sync clears the fragment iff the segment is empty and not a bare ACK. |
| Tcp.PayloadWithoutRpc | packet/transport/tcp.py:235-247 | When no RPC header decodes, no rpc layer is stored and the xid table is unchanged. |
| Tcp.PayloadIncomplete | packet/transport/tcp.py:251-255 | With nothing truncated and fewer bytes than the RPC fragment size, the bytes from the saved position are appended to `msfrag`. No rpc layer is stored and no xid is retired. |
| Tcp.PayloadStored | packet/transport/tcp.py:256-292 | Otherwise the rpc layer is stored and a reply retires its xid. A fragment left over is the frame's tail. |
| Tcp.AfterPayloadTail | packet/transport/tcp.py:268-292 | With no fragment pending, the step after the RPC payload changes only this stream's fragment fields, and a fragment it carries over is always the frame's tail. |
| Tcp.Retransmission | packet/transport/tcp.py:169-171 | A segment whose relative number is below `last_seq` decodes no payload, raises nothing, and leaves the state as the header decode left it. |
| Tcp.LastSeqUpdate | packet/transport/tcp.py:169-176 | Otherwise `last_seq` becomes the relative number iff the segment carries data. `seq_wrap`, `seq_base` and every other stream are unchanged. |
| Tcp.PayloadTracking | packet/transport/tcp.py:206-292 | The payload decode changes only this stream's fragment fields, only removes xids, and keeps the pcap record. |
| Tcp.TcpKeepsRecord | packet/transport/tcp.py:104-176 | The pcap record is unchanged, and the xid table only loses entries. |
| Udp.DecodeUdp | packet/transport/udp.py:51-87 | The new state and the exception raised are exactly those of the UDP step. |
| Udp.DecodeUdpPayload | packet/transport/udp.py:72-87 | The new state is exactly that of the UDP payload step. |
| Udp.UdpHeaderRoundTrip | packet/transport/udp.py:63-67 | Four 16-bit fields encoded big-endian in 8 bytes decode back to themselves. |
| Udp.ShortHeader | packet/transport/udp.py:63 | Fewer than 8 bytes left: the short read raises, and nothing is stored or consumed. |
| Udp.UdpDecode | packet/transport/udp.py:63-86 | The header is stored and an RPC decode with proto 17 is always attempted. With no RPC message, nothing more is stored and the xid table is unchanged. Otherwise rpc is stored, a reply retires its xid, a call leaves the table alone, and the payload decoder runs. |
| Udp.RetireAbsent | packet/transport/udp.py:80-83 | Retiring an xid that is not in the table changes nothing. |
| Udp.UdpKeepsRecord | packet/transport/udp.py:51-87 | The pcap record is unchanged, and the xid table only loses entries. |
| RpcCreds.RpcCredential | packet/application/rpc_creds.py:81-97 | The credential and the cursor position are exactly those of the credential reading. |
| RpcCreds.NewAuthNone | packet/application/rpc_creds.py:34-37 | The result and position are those of the `AUTH_NONE` reading. |
| RpcCreds.NewAuthSys | packet/application/rpc_creds.py:45-52 | The result and position are those of the `AUTH_SYS` reading. |
| RpcCreds.NewGssCredential | packet/application/rpc_creds.py:61-68 | The result and position are those of the RPCSEC_GSS credential reading. |
| RpcCreds.NewGssVerifier | packet/application/rpc_creds.py:76-79 | The result and position are those of the RPCSEC_GSS verifier reading. |
| RpcCreds.GssVerifierRead | packet/application/rpc_creds.py:76-79 | A verifier read is one opaque token, and its size is the token's length. |
| RpcCreds.AuthSysRoundTrip | packet/application/rpc_creds.py:45-52 | An `AUTH_SYS` body written as size, stamp, machine (at most 255 bytes), uid, gid and gids (at most 16) reads back in that order to the same credential. |
| RpcCreds.AuthSysEncoding | packet/application/rpc_creds.py:47-52 | The `AUTH_SYS` body is the six fields in field order, taking 4 + 8 + the machine's opaque + 8 + the gids array bytes. |
| RpcCreds.GssCredentialRoundTrip | packet/application/rpc_creds.py:61-68 | An RPCSEC_GSS credential written as size, version, procedure, sequence number and service, then an opaque context, reads back to itself. |
| RpcCreds.CredentialRoundTrip | packet/application/rpc_creds.py:81-97 | Any well-formed credential or verifier, flavor first, reads back to itself and consumes exactly its encoding. |
| RpcCreds.CredentialReadSpans | packet/application/rpc_creds.py:80-97 | The converse of the round trip: whatever `rpc_credential` returns is well formed (32-bit fields, at most 255 machine bytes and 16 gids, a verifier's size equal to its token's length), spans exactly the length of its encoding, and that encoding reads back to it. The bytes read need not equal the encoding itself: padding and the AUTH_NONE length word are skipped. |
| RpcCreds.UnknownFlavor | packet/application/rpc_creds.py:86-94 | An unknown flavor gives None, after consuming the flavor only. |
| RpcCreds.AuthNoneEightBytes | packet/application/rpc_creds.py:34-37 | `AUTH_NONE` consumes one uint after the flavor: 8 bytes in all. |
| RpcCreds.CredentialDispatch | packet/application/rpc_creds.py:83-96 | A decoded credential carries the flavor that was read. With RPCSEC_GSS it is a verifier iff `verifier` was set. A short flavor gives None and consumes nothing, so no failure raises. |
| Gss.DecodeGssData | packet/application/gss.py:157-171 | The new state is exactly that of the GSS data step. |
| Gss.DecodeGssChecksum | packet/application/gss.py:173-193 | The new state is exactly that of the GSS checksum step. |
| Gss.GssDataCall | packet/application/gss.py:111-130 | The result and position are those of the call-side GSS reading. |
| Gss.GssDataReply | packet/application/gss.py:132-155 | The result and position are those of the reply-side GSS reading. |
| Gss.ReadIntegrity | packet/application/gss.py:119-124 | The result and position are those of the integrity reading: two uints. |
| Gss.ReadInitReply | packet/application/gss.py:147-155 | The result and position are those of the INIT reply reading. |
| Gss.ShortInputIgnored | packet/application/gss.py:161-163 | With fewer than 4 bytes left, neither decoder stores anything or moves the cursor. |
| Gss.OnlyOwnLayer | packet/application/gss.py:159-193 | Each decoder changes only the position and its own field. The field is set only to a non-None result. Any failure leaves the packet as it was. |
| Gss.CallWithoutGss | packet/application/gss.py:113-115 | A call whose credential flavor is not RPCSEC_GSS yields no GSS data. |
| Gss.CallOtherCases | packet/application/gss.py:117-130 | DATA with a service other than integrity yields nothing. So does a procedure other than DATA or INIT. |
| Gss.CallIntegrity | packet/application/gss.py:117-124 | A DATA call with integrity stores length and seq_num, consuming 8 bytes. |
| Gss.CallInit | packet/application/gss.py:125-130 | An INIT call stores exactly one opaque token. |
| Gss.ReplyWithoutGss | packet/application/gss.py:134-136 | A reply whose verifier is not RPCSEC_GSS, or has no `gss_proc`, yields nothing. |
| Gss.ReplyIntegrity | packet/application/gss.py:138-145 | A DATA reply with integrity reads exactly two words, length then seq_num, and stores them as a reply's integrity data. |
| Gss.ReplyOtherCases | packet/application/gss.py:138-152 | A GSS reply with DATA on another service, or with a procedure other than DATA and INIT, yields nothing and consumes nothing. |
| Gss.InitReplyRoundTrip | packet/application/gss.py:146-155 | An INIT reply written as context, major, minor, seq_window and token reads back in that order. |
| Gss.ReplyInit | packet/application/gss.py:146-155 | An INIT reply stores those five fields and consumes exactly their encoding. |
| Gss.ChecksumOnlyForIntegrity | packet/application/gss.py:182-191 | A checksum is stored only for DATA with integrity: on the credential for calls, on the verifier for replies. |
| Gss.ChecksumRoundTrip | packet/application/gss.py:182-191 | In that case the checksum is the single opaque token that follows. |
| Utils.BitmapDict | packet/utils.py:106-143 | The loop's map and cursor position are exactly those of the bit-by-bit reading. |
| Utils.BitmapInBitOrder | packet/utils.py:127-142 | Values are decoded once per set bit, in ascending bit order from the least significant bit. |
| Utils.SetBitsMembers | packet/utils.py:127-142 | The bits visited are exactly the set bits. |
| Utils.SetBitsAscending | packet/utils.py:127-142 | The bits visited are strictly ascending. |
| Utils.BitmapKeys | packet/utils.py:125-143 | Every set bit has a decoding function. The keys are exactly the set bits, each named by `name_map` when it has a name and by its number otherwise. |
| Utils.DecodeBitsMissing | packet/utils.py:131-133 | A set bit with no decoding function makes the decode fail. When the bits before it decode, the failure is `BitmapInval`. |
| Utils.BitmapZero | packet/utils.py:125-127 | Bitmap 0 gives an empty map and consumes nothing. |
| Utils.EnumValue | packet/utils.py:80-89 | The value is kept. `EnumInval` is raised iff the check is on and the value is not in the enum. |
| Utils.EnumRead | packet/utils.py:84-89 | Without an integer argument, a signed 32-bit int is read and then checked. A short read raises. |
| Utils.EnumStrReadsBack | packet/utils.py:96-100 | A mapped value prints as its name without its first `_offset` characters. An unmapped value prints in decimal and parses back to itself. |
| Utils.IntHexLongHex | packet/utils.py:51-59 | `IntHex` below 2^32 is `0x` plus 8 lower-case hex digits, and `LongHex` below 2^64 is `0x` plus 16. Both parse back to the value. |
| Utils.FormatHashXReadsBack | packet/utils.py:51-59 | The `#0Nx` rendering parses back to its value, negative ones included. |
| Utils.FormatHashXWidth | packet/utils.py:51-59 | The rendering of a value below 16^k is exactly `0x` plus k lower-case digits. |
| Utils.StrHexReadsBack | packet/utils.py:61-64 | `StrHex` is `0x` plus two hex digits per byte, reading back as the big-endian value of the bytes. |
| NfsUtil.GetAbsOffset | nfstest/nfs_util.py:624-648 | With no DS index, or a sparse layout, the offset is returned unchanged. It fails iff a DS index is given with no layout (`TypeError`) or with a dense layout of stripe size 0 (`ZeroDivisionError`). |
| NfsUtil.DenseOffsetPlace | nfstest/nfs_util.py:636-644 | Dense packing keeps the offset modulo the stripe unit. It puts it in stripe unit `(offset div su)*nfhs + idx`, where `idx` is the DS index minus the first stripe index, plus `nfhs` if negative. |
| NfsUtil.VerifyStripe | nfstest/nfs_util.py:658-683 | False with no layout or no DS index. It fails with `ZeroDivisionError` iff the stripe size or the number of filehandles is 0. |
| NfsUtil.VerifyStripeMeans | nfstest/nfs_util.py:677-683 | True iff the first and last bytes of the I/O lie in one stripe unit `n` and `n mod nfhs` is the relative DS index. |
| NfsUtil.AbsOffsetVerifies | nfstest/nfs_util.py:636-683 | A dense file offset computed for a DS, with an I/O inside one stripe unit, passes the stripe check for that DS. |
| NfsUtil.VerifyStripeInRange | nfstest/nfs_util.py:677-683 | A passing stripe check implies that the relative DS index lies in `[0, nfhs)`. |
| NfsUtil.SparseKeepsOffset | nfstest/nfs_util.py:645-647 | A sparse layout never changes the offset. |
| NfsUtil.FloorDivMod | nfstest/nfs_util.py:642-643 | Python 2's integer `/` and `%` floor. For a positive divisor they are Dafny's, with the remainder in `[0, b)`. |
| NfsUtil.GetOp | nfstest/nfs_util.py:685-699 | No packet gives None. A packet without NFS raises `AttributeError`. Otherwise the result is the first operation at or after `NFSidx + 1` (0 without it) whose op matches, and None iff there is none. |
| NfsUtil.MaxKey | nfstest/nfs_util.py:1385 | The largest key of the map. |
| NfsUtil.BitmapStr | nfstest/nfs_util.py:1367-1394 | The two loops return exactly the reference result. An empty `bmap` raises `ValueError` from `max`, and a visited value without a name raises `KeyError`. Otherwise the result is the names of the values, halved down from the largest key, that share a bit with `bitmap`, joined by ` & `, returned only when the number of covering entries of `blist` equals `count` (see the two lemmas below). |
| NfsUtil.BitNamesOfPowers | nfstest/nfs_util.py:1385-1391 | Halving `bit` from `2^k` names the set bits from the highest down. A set bit with no name raises `KeyError`. |
| NfsUtil.CoveringCounts | nfstest/nfs_util.py:1380-1383 | The count is the number of entries of `blist` that contain every bit of `bitmap`. |
| NfsUtil.UaddrFields | nfstest/nfs_util.py:568-570 | For `a.b.c.d.p1.p2` the host is `a.b.c.d` and the port is `p1*256 + p2`. |
| NfsUtil.UaddrRoundTrip | nfstest/nfs_util.py:568-570 | The universal address written for a host and a port reads back as exactly that host and that port. |
| NfsUtil.UaddrSplits | nfstest/nfs_util.py:568-569 | Splitting a universal address at `.` gives the four host parts and the two port bytes. |
| NfsUtil.UaddrShort | nfstest/nfs_util.py:570 | An address with fewer than six parts fails, as the index does. |
| Params.AccessStr | params.py:17-25 | The loop's result is the access names joined by `|`. |
| Params.AccessListBits | params.py:19-24 | The names are those of the set permission bits, or `F_OK` alone when none is set. |
| Params.AccessStrNames | params.py:19-24 | `F_OK` appears iff `mode % 8 == 0`, and then alone. `X_OK`, `W_OK` and `R_OK` each appear iff bit 0, 1 or 2 is set. |
| Params.AccessStrSplits | params.py:25 | Splitting the result at `|` gives back the list of names. |
| Params.PermBit | params.py:21 | `perm & mode != 0` for a single-bit permission holds iff that bit of `mode` is set. |
| Params.OflagStr | params.py:120-136 | The result of the two loops is the flag list's names joined by `|`, or `KeyError`. |
| Params.FlagListSpec | params.py:123-133 | `O_RDONLY` is prepended iff none of `O_RDONLY`, `O_WRONLY` and `O_RDWR` is among the flags. |
| Params.FlagNamesSpec | params.py:134-135 | The names succeed iff every flag is in `open_flag_map`, and are then each flag's name in input order. Otherwise the failure is `KeyError`. |
| Params.FlagListUnnamed | params.py:123-135 | The prepended `O_RDONLY` never introduces an unnamed flag. |
| Params.OflagStrErrors | params.py:134-135 | The conversion fails iff some given flag is not in `open_flag_map`, and it fails with `KeyError`. |
| Params.OflagStrSplits | params.py:134-136 | Splitting the result at `|` gives back each flag's name in order. |
| Params.NamesHaveNoBar | params.py:89-118 | No open-flag name contains `|`. |

## Left out

- `packet/unpack.py`, `packet/application/rpc.py`, `packet/internet/ipv4.py`, `packet/link/macaddr.py` and `rpc_const.py` are not part of this model. `Cursor` stands in for the `Unpack` object. It assumes reads that either succeed and advance, or fail and leave the offset alone. It also assumes that `save_state`/`restore_state` save and restore both the bytes and the offset.
- ONC RPC decoding (`RPC(pktt, proto)`, `rpc.decode_payload()`) and the whole IPv4 decoder are functions the session is built with. `Sane` assumes only that they stay within the frame and that IPv4 keeps the pcap record. The payload decoder `Decoders.payload` is modelled as a function of the frame, the position and the RPC message that returns only whether a payload loaded and where it stopped. It therefore writes nothing to the session. In the source, `rpc.decode_payload()` runs the `GSS` base-class decoders, which set `pkt.gssd` and `pkt.gssc` (`packet/application/gss.py:160-191`), and stores the layer it decodes. The stream map and the xid table are not touched by anything in this model's core. Adding calls to the xid table happens inside `rpc.py`, so the table is modelled as the set of its xids and only their removal is modelled.
- Ethernet addresses are kept as the hex string of their bytes; the `MacAddr` formatting is not part of this model.
- `pktt.seek(pktt.boffset)` (`packet/transport/tcp.py:290`) repositions the trace file so that the next RPC message of the same segment is read again. File positioning is outside this model: the state after that branch is the state at which the seek happens.
- `Udp.UdpDecode`: its clauses on the packet record (only `udp` and `rpc` change), the stream map and the xid table hold because `Decoders.payload` writes nothing. The `gssd`/`gssc` layers and the payload layer that `rpc.decode_payload()` stores are not modelled.
- `Tcp.PayloadStored`: its packet-record clause (`pkt` is the old record with `rpc` set) and its fragment-only stream-map clause hold because `Decoders.payload` writes nothing. The `gssd`/`gssc` layers and the payload layer that `rpc.decode_payload()` stores are not modelled.
- `Tcp.AfterPayloadTail`: "changes only this stream's fragment fields" holds because `Decoders.payload`, which runs in that step, writes neither the packet record nor the stream map nor the xid table.
- `Tcp.PayloadStored`: states the stored rpc layer, the xid retirement and the shape of the carried fragment, but not the exact `frag_off` arithmetic of the multi-message branch. `DecodeTcpPayload` does state it, through `PayloadStep`.
- `Ipv6Addr.DocumentedAddress`: stated for every 32-digit lower-case string whose groups are the documented values rather than for the literal `fe80000000000000020c29fffe5409ef`. Unfolding the literal's 32 characters is beyond the verifier's budget.
- Ipv6Addr spellings: the twelve documented spellings are covered by `DigitSpellings`, `ColonSpelling` and `GapSpelling`, which state them for any address. They are not instantiated one by one with the literal strings.
- `Ipv6Addr.AllOnesAddress`: proves the conversion of the all-ones integer; the comparison with the colon spelling that the self-test then makes follows from `ColonSpelling` and is not instantiated.
- The `__str__` and `debug_repr` renderings other than `IntHex`/`LongHex`/`StrHex`/`Enum`, `RPCload.rpc_str`, the ctypes `DirEnt`/`Flock` structures and the constant files `gss_const.py` and `portmap2_const.py` are left out: they are human-readable dumps, foreign memory layouts or plain constants. The constants needed (DATA=0, INIT=1, integrity=2, TCP=6, UDP=17, the flavours `AUTH_NONE`=0, `AUTH_SYS`=1, `RPCSEC_GSS`=6) are declared in `Layers`.
- `open_flag_map` holds the Linux x86-64 values of the `posix` constants; another platform's values would only change the table.
- The rest of `nfstest/nfs_util.py` (trace capture, `rpcdebug`, free-space queries and the `find_*`/`verify_*` searches over the packet filter language), `nfstest/rexec.py`, `main.py` and `conf.py` run processes, sockets and system calls, and are left out.
- RPCSEC_GSS privacy (encrypted payloads) is not decoded by the source's core and is left out.
- The IPv6 flow label follows the code, not RFC 8200: `packet/internet/ipv6.py:72` masks the first word with `0xFFF`, keeping 12 bits where section 3 of RFC 8200 defines a 20-bit field, so bits 12-19 of the word are lost (`Ipv6.FlowLabelDropsBits`).
- Compressed IPv6 forms with `::` at the start or the end, such as `::1` and `fe80::` (section 2.2 of RFC 4291), follow the code, which rejects them. It splits them into two empty fields, and the second reaches `int('', 16)`, which raises `ValueError` (`packet/internet/ipv6addr.py:65-75`; `Ipv6Addr.TwoGapsRaise`, `Ipv6Addr.LoopbackRaises`, `Ipv6Addr.LinkPrefixRaises`). Only the single-colon spellings `:1` and `fe80:` expand (`Ipv6Addr.GapSpelling`). No corrected converter is modelled.
- The TCP wrap counter follows the code: `seq_wrap` grows by 2^32 on every segment below `seq_base`, not once per real wrap (`Tcp.WrapCountsEverySegment`).

## Findings

| source | as written | input that shows it | evidently intended | confidence | as-written member | corrected member |
|---|---|---|---|---|---|---|
| packet/internet/ipv6addr.py:58-60 | An integer address is spelled with `hex()`, which does not zero-fill, so the groups of four digits are taken from the wrong end. | `IPv6Addr(1)`, `IPv6Addr(2)` and `IPv6Addr(0)` all become `''`. | Zero-fill to 32 digits (`"%032x"`), which is how the header bytes of a packet are spelled. | medium, not executed | Ipv6Addr.ShortIntegersCollide | Ipv6Addr.FixedIntMatchesBytes |
| packet/internet/ipv6addr.py:101-103 | `IPv6Addr` subclasses `str`, so `type(other) != str` is true for another address object and `hex()` is applied to it. | `IPv6Addr('fe80::1') == IPv6Addr('fe80::1')` raises `TypeError`. | Compare another address object by its string, which is already canonical. | medium, not executed | Ipv6Addr.AddrObjectsNeverCompare | Ipv6Addr.EqFixedIsEquivalence |
