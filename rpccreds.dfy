/** RPC credentials and verifiers (`opaque_auth`, section 8.2 of RFC 5531):
    a 32-bit flavor, then the flavor's body.  Each constructor reads its
    fields one after the other from the shared cursor; a read that fails
    ends the decode with no credential, and the reads done before it stay
    consumed. */
module RpcCreds {
  import opened Base
  import opened Xdr
  import opened Unpack
  import opened Layers

  /** `AuthNone`: one discarded length word. */
  function AuthNoneRead(data: seq<byte>, pos: nat): (d: Decoded<Credential>)
    requires pos <= |data|
    ensures pos <= d.next <= |data|
  {
    var len := ReadU32(data, pos);
    if len.result.None? then Decoded(None, len.next) else Decoded(Some(AuthNone), len.next)
  }

  /** `AuthSys` (Appendix A of RFC 5531): size, stamp, machine name (at
      most 255 bytes), uid, gid and at most 16 gids. */
  function AuthSysRead(data: seq<byte>, pos: nat): (d: Decoded<Credential>)
    requires pos <= |data|
    ensures pos <= d.next <= |data|
  {
    var size := ReadU32(data, pos);
    if size.result.None? then Decoded(None, size.next) else
    var stamp := ReadU32(data, size.next);
    if stamp.result.None? then Decoded(None, stamp.next) else
    var machine := ReadOpaque(data, stamp.next, 255);
    if machine.result.None? then Decoded(None, machine.next) else
    var uid := ReadU32(data, machine.next);
    if uid.result.None? then Decoded(None, uid.next) else
    var gid := ReadU32(data, uid.next);
    if gid.result.None? then Decoded(None, gid.next) else
    var gids := ReadU32Array(data, gid.next, 16);
    if gids.result.None? then Decoded(None, gids.next) else
    Decoded(Some(AuthSys(size.result.value, stamp.result.value, machine.result.value,
                         uid.result.value, gid.result.value, gids.result.value)), gids.next)
  }

  /** `GSS_Credential` (section 5 of RFC 2203): size, version, procedure,
      sequence number and service, then the context handle. */
  function GssCredentialRead(data: seq<byte>, pos: nat): (d: Decoded<Credential>)
    requires pos <= |data|
    ensures pos <= d.next <= |data|
  {
    var size := ReadU32(data, pos);
    if size.result.None? then Decoded(None, size.next) else
    var version := ReadU32(data, size.next);
    if version.result.None? then Decoded(None, version.next) else
    var proc := ReadU32(data, version.next);
    if proc.result.None? then Decoded(None, proc.next) else
    var seqNum := ReadU32(data, proc.next);
    if seqNum.result.None? then Decoded(None, seqNum.next) else
    var service := ReadU32(data, seqNum.next);
    if service.result.None? then Decoded(None, service.next) else
    var context := ReadOpaque(data, service.next, 0);
    if context.result.None? then Decoded(None, context.next) else
    Decoded(Some(GssCredential(size.result.value, version.result.value, proc.result.value,
                               seqNum.result.value, service.result.value, context.result.value)),
            context.next)
  }

  /** `GSS_Verifier`: the token, whose length is the verifier's size. */
  function GssVerifierRead(data: seq<byte>, pos: nat): (d: Decoded<Credential>)
    requires pos <= |data|
    ensures pos <= d.next <= |data|
    ensures d.result.Some? ==> d.result.value.GssVerifier? && d.result.value.size == |d.result.value.gssToken|
  {
    var token := ReadOpaque(data, pos, 0);
    if token.result.None? then Decoded(None, token.next)
    else Decoded(Some(GssVerifier(|token.result.value|, token.result.value, None, None)), token.next)
  }

  /** `rpc_credential(unpack, verifier)`. */
  function CredentialRead(data: seq<byte>, pos: nat, verifier: bool): (d: Decoded<Credential>)
    requires pos <= |data|
    ensures pos <= d.next <= |data|
  {
    var flavor := ReadU32(data, pos);
    if flavor.result.None? then Decoded(None, flavor.next)
    else if flavor.result.value == AUTH_SYS then AuthSysRead(data, flavor.next)
    else if flavor.result.value == AUTH_NONE then AuthNoneRead(data, flavor.next)
    else if flavor.result.value == RPCSEC_GSS then
      (if verifier then GssVerifierRead(data, flavor.next) else GssCredentialRead(data, flavor.next))
    else Decoded(None, flavor.next)
  }

  method NewAuthNone(u: Cursor) returns (c: Option<Credential>)
    requires u.Valid()
    modifies u
    ensures u.Valid() && u.data == old(u.data)
    ensures Decoded(c, u.pos) == AuthNoneRead(u.data, old(u.pos))
  {
    var len := u.UnpackUint();
    if len.None? {
      return None;
    }
    c := Some(AuthNone);
  }

  method NewAuthSys(u: Cursor) returns (c: Option<Credential>)
    requires u.Valid()
    modifies u
    ensures u.Valid() && u.data == old(u.data)
    ensures Decoded(c, u.pos) == AuthSysRead(u.data, old(u.pos))
  {
    var size := u.UnpackUint();
    if size.None? {
      return None;
    }
    var stamp := u.UnpackUint();
    if stamp.None? {
      return None;
    }
    var machine := u.UnpackOpaque(255);
    if machine.None? {
      return None;
    }
    var uid := u.UnpackUint();
    if uid.None? {
      return None;
    }
    var gid := u.UnpackUint();
    if gid.None? {
      return None;
    }
    var gids := u.UnpackArray(16);
    if gids.None? {
      return None;
    }
    c := Some(AuthSys(size.value, stamp.value, machine.value, uid.value, gid.value, gids.value));
  }

  method NewGssCredential(u: Cursor) returns (c: Option<Credential>)
    requires u.Valid()
    modifies u
    ensures u.Valid() && u.data == old(u.data)
    ensures Decoded(c, u.pos) == GssCredentialRead(u.data, old(u.pos))
  {
    var size := u.UnpackUint();
    if size.None? {
      return None;
    }
    var version := u.UnpackUint();
    if version.None? {
      return None;
    }
    var proc := u.UnpackUint();
    if proc.None? {
      return None;
    }
    var seqNum := u.UnpackUint();
    if seqNum.None? {
      return None;
    }
    var service := u.UnpackUint();
    if service.None? {
      return None;
    }
    var context := u.UnpackOpaque(0);
    if context.None? {
      return None;
    }
    c := Some(GssCredential(size.value, version.value, proc.value, seqNum.value, service.value, context.value));
  }

  method NewGssVerifier(u: Cursor) returns (c: Option<Credential>)
    requires u.Valid()
    modifies u
    ensures u.Valid() && u.data == old(u.data)
    ensures Decoded(c, u.pos) == GssVerifierRead(u.data, old(u.pos))
  {
    var token := u.UnpackOpaque(0);
    if token.None? {
      return None;
    }
    c := Some(GssVerifier(|token.value|, token.value, None, None));
  }

  /** `rpc_credential`: dispatch on the flavor just read. */
  method RpcCredential(u: Cursor, verifier: bool) returns (c: Option<Credential>)
    requires u.Valid()
    modifies u
    ensures u.Valid() && u.data == old(u.data)
    ensures Decoded(c, u.pos) == CredentialRead(u.data, old(u.pos), verifier)
  {
    var flavor := u.UnpackUint();
    if flavor.None? {
      return None;
    }
    if flavor.value == AUTH_SYS {
      c := NewAuthSys(u);
    } else if flavor.value == AUTH_NONE {
      c := NewAuthNone(u);
    } else if flavor.value == RPCSEC_GSS {
      if verifier {
        c := NewGssVerifier(u);
      } else {
        c := NewGssCredential(u);
      }
    } else {
      c := None;
    }
  }

  // The wire form of a credential, and the round trip through it.

  function EncodeCredential(c: Credential): seq<byte> {
    match c
    case AuthNone => EncodeU32(AUTH_NONE) + EncodeU32(0)
    case AuthSys(size, stamp, machine, uid, gid, gids) =>
      EncodeU32(AUTH_SYS) + (EncodeU32(size) + (EncodeU32(stamp) + (EncodeOpaque(machine)
      + (EncodeU32(uid) + (EncodeU32(gid) + EncodeU32Array(gids))))))
    case GssCredential(size, version, proc, seqNum, service, context) =>
      EncodeU32(RPCSEC_GSS) + (EncodeU32(size) + (EncodeU32(version) + (EncodeU32(proc)
      + (EncodeU32(seqNum) + (EncodeU32(service) + EncodeOpaque(context))))))
    case GssVerifier(_, token, _, _) => EncodeU32(RPCSEC_GSS) + EncodeOpaque(token)
  }

  /** The credentials the decoder can produce: every number fits 32 bits,
      the limits of `AuthSys` hold, a verifier's size is its token's
      length and it has no `gss_proc`/`gss_service` yet, and the flag
      selects a verifier exactly for GSS verifiers. */
  predicate WellFormed(c: Credential, verifier: bool) {
    match c
    case AuthNone => true
    case AuthSys(size, stamp, machine, uid, gid, gids) =>
      size < TWO32 && stamp < TWO32 && |machine| <= 255 && uid < TWO32 && gid < TWO32
      && |gids| <= 16 && AllU32(gids)
    case GssCredential(size, version, proc, seqNum, service, context) =>
      !verifier && size < TWO32 && version < TWO32 && proc < TWO32 && seqNum < TWO32
      && service < TWO32 && |context| < TWO32
    case GssVerifier(size, token, proc, service) =>
      verifier && |token| < TWO32 && size == |token| && proc.None? && service.None?
  }

  lemma AuthSysRoundTrip(data: seq<byte>, pos: nat, c: Credential)
    requires c.AuthSys? && WellFormed(c, false)
    requires pos + 4 <= |data|
    requires IsPrefixAt(data, pos + 4, EncodeCredential(c)[4..])
    ensures AuthSysRead(data, pos + 4) == Decoded(Some(c), pos + |EncodeCredential(c)|)
  {
    var p := pos + 4;
    var q := p + 8 + |EncodeOpaque(c.machine)|;
    var end := q + 8 + |EncodeU32Array(c.gids)|;
    AuthSysPrefix(data, pos, c);
    AuthSysHead(data, p, c);
    AuthSysTail(data, q, c);
    AuthSysFields(data, p, c, q, end);
  }

  /** The body after the flavor is the six field encodings in order. */
  lemma AuthSysPrefix(data: seq<byte>, pos: nat, c: Credential)
    requires c.AuthSys? && IsPrefixAt(data, pos + 4, EncodeCredential(c)[4..])
    ensures IsPrefixAt(data, pos + 4, EncodeU32(c.size) + (EncodeU32(c.stamp) + (EncodeOpaque(c.machine)
      + (EncodeU32(c.uid) + (EncodeU32(c.gid) + EncodeU32Array(c.gids))))))
    ensures pos + |EncodeCredential(c)| == pos + 4 + 8 + |EncodeOpaque(c.machine)| + 8 + |EncodeU32Array(c.gids)|
  {
    AuthSysEncoding(c);
  }

  /** Six reads that yield the credential's fields make the credential. */
  lemma AuthSysFields(data: seq<byte>, p: nat, c: Credential, q: nat, end: nat)
    requires c.AuthSys? && p <= |data|
    requires ReadU32(data, p) == Decoded(Some(c.size), p + 4)
    requires ReadU32(data, p + 4) == Decoded(Some(c.stamp), p + 8)
    requires ReadOpaque(data, p + 8, 255) == Decoded(Some(c.machine), q)
    requires ReadU32(data, q) == Decoded(Some(c.uid), q + 4)
    requires ReadU32(data, q + 4) == Decoded(Some(c.gid), q + 8)
    requires ReadU32Array(data, q + 8, 16) == Decoded(Some(c.gids), end)
    ensures AuthSysRead(data, p) == Decoded(Some(c), end)
  {
  }

  lemma AuthSysEncoding(c: Credential)
    requires c.AuthSys?
    ensures var e1, e2, e3 := EncodeU32(c.size), EncodeU32(c.stamp), EncodeOpaque(c.machine);
      var e4, e5, e6 := EncodeU32(c.uid), EncodeU32(c.gid), EncodeU32Array(c.gids);
      && EncodeCredential(c)[4..] == e1 + (e2 + (e3 + (e4 + (e5 + e6))))
      && |EncodeCredential(c)| == 4 + 8 + |e3| + 8 + |e6|
  {
  }

  /** The size, the stamp and the machine name read back. */
  lemma AuthSysHead(data: seq<byte>, p: nat, c: Credential)
    requires c.AuthSys? && WellFormed(c, false)
    requires IsPrefixAt(data, p, EncodeU32(c.size) + (EncodeU32(c.stamp) + (EncodeOpaque(c.machine)
      + (EncodeU32(c.uid) + (EncodeU32(c.gid) + EncodeU32Array(c.gids))))))
    ensures ReadU32(data, p) == Decoded(Some(c.size), p + 4)
    ensures ReadU32(data, p + 4) == Decoded(Some(c.stamp), p + 8)
    ensures ReadOpaque(data, p + 8, 255) == Decoded(Some(c.machine), p + 8 + |EncodeOpaque(c.machine)|)
    ensures IsPrefixAt(data, p + 8 + |EncodeOpaque(c.machine)|,
      EncodeU32(c.uid) + (EncodeU32(c.gid) + EncodeU32Array(c.gids)))
  {
    var e1, e2, e3 := EncodeU32(c.size), EncodeU32(c.stamp), EncodeOpaque(c.machine);
    var rest := EncodeU32(c.uid) + (EncodeU32(c.gid) + EncodeU32Array(c.gids));
    PrefixSplit(data, p, e1, e2 + (e3 + rest));
    ReadU32Of(data, p, c.size);
    PrefixSplit(data, p + 4, e2, e3 + rest);
    ReadU32Of(data, p + 4, c.stamp);
    PrefixSplit(data, p + 8, e3, rest);
    ReadOpaqueOf(data, p + 8, c.machine, 255);
  }

  /** The uid, the gid and the group list read back. */
  lemma AuthSysTail(data: seq<byte>, q: nat, c: Credential)
    requires c.AuthSys? && WellFormed(c, false)
    requires IsPrefixAt(data, q, EncodeU32(c.uid) + (EncodeU32(c.gid) + EncodeU32Array(c.gids)))
    ensures ReadU32(data, q) == Decoded(Some(c.uid), q + 4)
    ensures ReadU32(data, q + 4) == Decoded(Some(c.gid), q + 8)
    ensures ReadU32Array(data, q + 8, 16) == Decoded(Some(c.gids), q + 8 + |EncodeU32Array(c.gids)|)
  {
    var e4, e5, e6 := EncodeU32(c.uid), EncodeU32(c.gid), EncodeU32Array(c.gids);
    PrefixSplit(data, q, e4, e5 + e6);
    ReadU32Of(data, q, c.uid);
    PrefixSplit(data, q + 4, e5, e6);
    ReadU32Of(data, q + 4, c.gid);
    ReadU32ArrayOf(data, q + 8, c.gids, 16);
  }

  lemma GssCredentialRoundTrip(data: seq<byte>, pos: nat, c: Credential)
    requires c.GssCredential? && WellFormed(c, false)
    requires pos + 4 <= |data|
    requires IsPrefixAt(data, pos + 4, EncodeCredential(c)[4..])
    ensures GssCredentialRead(data, pos + 4) == Decoded(Some(c), pos + |EncodeCredential(c)|)
  {
    var p := pos + 4;
    var e1, e2, e3 := EncodeU32(c.size), EncodeU32(c.gssVersion), EncodeU32(c.gssProc);
    var e4, e5, e6 := EncodeU32(c.gssSeqNum), EncodeU32(c.gssService), EncodeOpaque(c.gssContext);
    assert EncodeCredential(c)[4..] == e1 + (e2 + (e3 + (e4 + (e5 + e6))));
    PrefixSplit(data, p, e1, e2 + (e3 + (e4 + (e5 + e6))));
    ReadU32Of(data, p, c.size);
    PrefixSplit(data, p + 4, e2, e3 + (e4 + (e5 + e6)));
    ReadU32Of(data, p + 4, c.gssVersion);
    PrefixSplit(data, p + 8, e3, e4 + (e5 + e6));
    ReadU32Of(data, p + 8, c.gssProc);
    PrefixSplit(data, p + 12, e4, e5 + e6);
    ReadU32Of(data, p + 12, c.gssSeqNum);
    PrefixSplit(data, p + 16, e5, e6);
    ReadU32Of(data, p + 16, c.gssService);
    ReadOpaqueOf(data, p + 20, c.gssContext, 0);
  }

  /** Decoding the wire form of a well-formed credential gives it back
      and consumes exactly its bytes. */
  lemma CredentialRoundTrip(data: seq<byte>, pos: nat, c: Credential, verifier: bool)
    requires WellFormed(c, verifier)
    requires IsPrefixAt(data, pos, EncodeCredential(c))
    ensures CredentialRead(data, pos, verifier) == Decoded(Some(c), pos + |EncodeCredential(c)|)
  {
    var e := EncodeCredential(c);
    var f := EncodeU32(c.Flavor());
    assert e == f + e[4..];
    PrefixSplit(data, pos, f, e[4..]);
    ReadU32Of(data, pos, c.Flavor());
    match c
    case AuthNone =>
      ReadU32Of(data, pos + 4, 0);
    case AuthSys(_, _, _, _, _, _) =>
      AuthSysRoundTrip(data, pos, c);
    case GssCredential(_, _, _, _, _, _) =>
      GssCredentialRoundTrip(data, pos, c);
    case GssVerifier(_, token, _, _) =>
      ReadOpaqueOf(data, pos + 4, token, 0);
  }

  /** An AUTH_SYS body that reads is well formed, and the read consumes
      as many bytes as its encoding has after the flavor. */
  lemma AuthSysReadSpans(data: seq<byte>, p: nat)
    requires p <= |data| && AuthSysRead(data, p).result.Some?
    ensures var d := AuthSysRead(data, p); var c := d.result.value;
      c.AuthSys? && WellFormed(c, false) && d.next == p + |EncodeCredential(c)| - 4
  {
    var size, stamp := ReadU32(data, p), ReadU32(data, p + 4);
    ReadU32Fits(data, p);
    ReadU32Fits(data, p + 4);
    var machine := ReadOpaque(data, p + 8, 255);
    ReadOpaqueFits(data, p + 8, 255);
    var q := machine.next;
    var uid, gid, gids := ReadU32(data, q), ReadU32(data, q + 4), ReadU32Array(data, q + 8, 16);
    ReadU32Fits(data, q);
    ReadU32Fits(data, q + 4);
    ReadU32ArraySpans(data, q + 8, 16);
    var c := AuthSys(size.result.value, stamp.result.value, machine.result.value,
                     uid.result.value, gid.result.value, gids.result.value);
    assert AuthSysRead(data, p) == Decoded(Some(c), gids.next);
    AuthSysEncoding(c);
  }

  /** An RPCSEC_GSS credential body that reads is well formed, and the
      read consumes as many bytes as its encoding has after the flavor. */
  lemma GssCredentialReadSpans(data: seq<byte>, p: nat)
    requires p <= |data| && GssCredentialRead(data, p).result.Some?
    ensures var d := GssCredentialRead(data, p); var c := d.result.value;
      c.GssCredential? && WellFormed(c, false) && d.next == p + |EncodeCredential(c)| - 4
  {
    ReadU32Fits(data, p);
    ReadU32Fits(data, p + 4);
    ReadU32Fits(data, p + 8);
    ReadU32Fits(data, p + 12);
    ReadU32Fits(data, p + 16);
    ReadOpaqueFits(data, p + 20, 0);
  }

  /** The converse of `CredentialRoundTrip`: whatever the decoder returns
      is well formed, spans exactly the length of its encoding, and that
      encoding decodes back to it.  The bytes read need not equal the
      encoding: the opaque padding and the AUTH_NONE length word are
      skipped without being looked at. */
  lemma CredentialReadSpans(data: seq<byte>, pos: nat, verifier: bool)
    requires pos <= |data| && CredentialRead(data, pos, verifier).result.Some?
    ensures var d := CredentialRead(data, pos, verifier); var c := d.result.value; var e := EncodeCredential(c);
      && WellFormed(c, verifier) && d.next == pos + |e|
      && CredentialRead(e, 0, verifier) == Decoded(Some(c), |e|)
  {
    var d := CredentialRead(data, pos, verifier);
    var c := d.result.value;
    ReadU32Fits(data, pos);
    var flavor := ReadU32(data, pos).result.value;
    if flavor == AUTH_SYS {
      AuthSysReadSpans(data, pos + 4);
    } else if flavor == RPCSEC_GSS && verifier {
      ReadOpaqueFits(data, pos + 4, 0);
    } else if flavor == RPCSEC_GSS {
      GssCredentialReadSpans(data, pos + 4);
    }
    var e := EncodeCredential(c);
    assert e[0..|e|] == e;
    CredentialRoundTrip(e, 0, c, verifier);
  }

  /** A flavor other than AUTH_NONE, AUTH_SYS and RPCSEC_GSS gives no
      credential, after consuming the flavor word. */
  lemma UnknownFlavor(data: seq<byte>, pos: nat, verifier: bool)
    requires pos + 4 <= |data|
    requires ReadU32(data, pos).result.value !in {AUTH_NONE, AUTH_SYS, RPCSEC_GSS}
    ensures CredentialRead(data, pos, verifier) == Decoded(None, pos + 4)
  {
  }

  /** `AuthNone` takes the flavor and one length word: 8 bytes, whatever
      the length says. */
  lemma AuthNoneEightBytes(data: seq<byte>, pos: nat, verifier: bool)
    requires pos + 8 <= |data| && ReadU32(data, pos).result.value == AUTH_NONE
    ensures CredentialRead(data, pos, verifier) == Decoded(Some(AuthNone), pos + 8)
  {
  }

  /** Whatever is decoded has the flavor read first, and a GSS flavor
      gives a verifier exactly when one was asked for; a decode that
      fails returns nothing and never moves past the frame. */
  lemma CredentialDispatch(data: seq<byte>, pos: nat, verifier: bool)
    requires pos <= |data|
    ensures var d := CredentialRead(data, pos, verifier);
      && (d.result.Some? ==> ReadU32(data, pos).result == Some(d.result.value.Flavor()))
      && (d.result.Some? && d.result.value.Flavor() == RPCSEC_GSS ==> (d.result.value.GssVerifier? <==> verifier))
      && (ReadU32(data, pos).result.None? ==> d == Decoded(None, pos))
  {
  }
}
