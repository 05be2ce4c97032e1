/** The RPCSEC_GSS envelope around an RPC payload (RFC 2203): the data in
    front of the payload (integrity length and sequence number, or the
    INIT token and result) and the checksum after it.  Both decoders are
    best effort: an exception inside is swallowed, the bytes read before
    it stay consumed, and no layer is stored. */
module Gss {
  import opened Base
  import opened Xdr
  import opened Unpack
  import opened Layers
  import opened Session
  import Utils

  type Reading<T> = Utils.Outcome<T>

  /** Integrity data (section 5.3.2.2 of RFC 2203): length, then seq_num. */
  function IntegrityRead(data: seq<byte>, pos: nat, msgType: nat): (o: Reading<Option<GssData>>)
    requires pos <= |data|
    ensures pos <= o.next <= |data|
  {
    var length := ReadU32(data, pos);
    if length.result.None? then Utils.Outcome(Err(Truncated), length.next) else
    var seqNum := ReadU32(data, length.next);
    if seqNum.result.None? then Utils.Outcome(Err(Truncated), seqNum.next) else
    Utils.Outcome(Ok(Some(GssIntegrity(msgType, length.result.value, seqNum.result.value))), seqNum.next)
  }

  /** `_gss_data_call`: chosen by the call's credential. */
  function GssCall(data: seq<byte>, pos: nat, cred: Option<Credential>): (o: Reading<Option<GssData>>)
    requires pos <= |data|
    ensures pos <= o.next <= |data|
  {
    if cred.None? then Utils.Outcome(Err(AttributeError), pos)
    else if cred.value.Flavor() != RPCSEC_GSS then Utils.Outcome(Ok(None), pos)
    else if cred.value.Proc().None? then Utils.Outcome(Err(AttributeError), pos)
    else if cred.value.Proc().value == RPCSEC_GSS_DATA then
      if cred.value.Service().None? then Utils.Outcome(Err(AttributeError), pos)
      else if cred.value.Service().value == RPC_GSS_SVC_INTEGRITY then IntegrityRead(data, pos, CALL)
      else Utils.Outcome(Ok(None), pos)
    else if cred.value.Proc().value == RPCSEC_GSS_INIT then
      var token := ReadOpaque(data, pos, 0);
      if token.result.None? then Utils.Outcome(Err(Truncated), token.next)
      else Utils.Outcome(Ok(Some(GssInitCall(token.result.value))), token.next)
    else Utils.Outcome(Ok(None), pos)
  }

  /** The INIT result of a reply (section 5.2.3.1 of RFC 2203): context
      handle, major and minor status, sequence window, then the token. */
  function InitReplyRead(data: seq<byte>, pos: nat): (o: Reading<Option<GssData>>)
    requires pos <= |data|
    ensures pos <= o.next <= |data|
  {
    var context := ReadOpaque(data, pos, 0);
    if context.result.None? then Utils.Outcome(Err(Truncated), context.next) else
    var major := ReadU32(data, context.next);
    if major.result.None? then Utils.Outcome(Err(Truncated), major.next) else
    var minor := ReadU32(data, major.next);
    if minor.result.None? then Utils.Outcome(Err(Truncated), minor.next) else
    var window := ReadU32(data, minor.next);
    if window.result.None? then Utils.Outcome(Err(Truncated), window.next) else
    var token := ReadOpaque(data, window.next, 0);
    if token.result.None? then Utils.Outcome(Err(Truncated), token.next) else
    Utils.Outcome(Ok(Some(GssInitReply(context.result.value, major.result.value, minor.result.value,
                                       window.result.value, token.result.value))), token.next)
  }

  /** `_gss_data_reply`: chosen by the reply's verifier, which must be a
      GSS one carrying a `gss_proc`. */
  function GssReply(data: seq<byte>, pos: nat, verf: Option<Credential>): (o: Reading<Option<GssData>>)
    requires pos <= |data|
    ensures pos <= o.next <= |data|
  {
    if verf.None? then Utils.Outcome(Err(AttributeError), pos)
    else if verf.value.Flavor() != RPCSEC_GSS || verf.value.Proc().None? then Utils.Outcome(Ok(None), pos)
    else if verf.value.Proc().value == RPCSEC_GSS_DATA then
      if verf.value.Service().None? then Utils.Outcome(Err(AttributeError), pos)
      else if verf.value.Service().value == RPC_GSS_SVC_INTEGRITY then IntegrityRead(data, pos, REPLY)
      else Utils.Outcome(Ok(None), pos)
    else if verf.value.Proc().value == RPCSEC_GSS_INIT then InitReplyRead(data, pos)
    else Utils.Outcome(Ok(None), pos)
  }

  /** `decode_gss_data` for the RPC message `r`. */
  function GssDataStep(s: Snapshot, r: Rpc): (t: Snapshot)
    requires s.pos <= |s.data|
    ensures t.pos <= |t.data|
  {
    if |s.data| - s.pos < 4 then s
    else
      var o := if r.msgType == CALL then GssCall(s.data, s.pos, r.credential)
               else GssReply(s.data, s.pos, r.verifier);
      var stored := o.result.Ok? && o.result.value.Some?;
      s.(pos := o.next, pkt := if stored then s.pkt.(gssd := o.result.value) else s.pkt)
  }

  /** The part of `decode_gss_checksum` inside its `try`, on the credential
      of a call or the verifier of a reply. */
  function ChecksumRead(data: seq<byte>, pos: nat, r: Rpc): (o: Reading<Option<GssChecksum>>)
    requires pos <= |data|
    ensures pos <= o.next <= |data|
  {
    var auth := if r.msgType == CALL then r.credential else r.verifier;
    if auth.None? then Utils.Outcome(Err(AttributeError), pos)
    else if auth.value.Flavor() != RPCSEC_GSS then Utils.Outcome(Ok(None), pos)
    else if auth.value.Proc().None? then Utils.Outcome(Err(AttributeError), pos)
    else if auth.value.Proc().value != RPCSEC_GSS_DATA then Utils.Outcome(Ok(None), pos)
    else if auth.value.Service().None? then Utils.Outcome(Err(AttributeError), pos)
    else if auth.value.Service().value != RPC_GSS_SVC_INTEGRITY then Utils.Outcome(Ok(None), pos)
    else
      var token := ReadOpaque(data, pos, 0);
      if token.result.None? then Utils.Outcome(Err(Truncated), token.next)
      else Utils.Outcome(Ok(Some(GssChecksum(token.result.value))), token.next)
  }

  /** `decode_gss_checksum` for the RPC message `r`. */
  function GssChecksumStep(s: Snapshot, r: Rpc): (t: Snapshot)
    requires s.pos <= |s.data|
    ensures t.pos <= |t.data|
  {
    if |s.data| - s.pos < 4 then s
    else
      var o := ChecksumRead(s.data, s.pos, r);
      var stored := o.result.Ok? && o.result.value.Some?;
      s.(pos := o.next, pkt := if stored then s.pkt.(gssc := o.result.value) else s.pkt)
  }

  method ReadIntegrity(u: Cursor, msgType: nat) returns (g: Result<Option<GssData>>)
    requires u.Valid()
    modifies u
    ensures u.Valid() && u.data == old(u.data)
    ensures Utils.Outcome(g, u.pos) == IntegrityRead(u.data, old(u.pos), msgType)
  {
    var length := u.UnpackUint();
    if length.None? {
      return Err(Truncated);
    }
    var seqNum := u.UnpackUint();
    if seqNum.None? {
      return Err(Truncated);
    }
    g := Ok(Some(GssIntegrity(msgType, length.value, seqNum.value)));
  }

  method GssDataCall(u: Cursor, cred: Option<Credential>) returns (g: Result<Option<GssData>>)
    requires u.Valid()
    modifies u
    ensures u.Valid() && u.data == old(u.data)
    ensures Utils.Outcome(g, u.pos) == GssCall(u.data, old(u.pos), cred)
  {
    if cred.None? {
      return Err(AttributeError);
    }
    var c := cred.value;
    if c.Flavor() != RPCSEC_GSS {
      return Ok(None);
    }
    if c.Proc().None? {
      return Err(AttributeError);
    }
    if c.Proc().value == RPCSEC_GSS_DATA {
      if c.Service().None? {
        return Err(AttributeError);
      }
      if c.Service().value == RPC_GSS_SVC_INTEGRITY {
        g := ReadIntegrity(u, CALL);
      } else {
        g := Ok(None);
      }
    } else if c.Proc().value == RPCSEC_GSS_INIT {
      var token := u.UnpackOpaque(0);
      if token.None? {
        return Err(Truncated);
      }
      g := Ok(Some(GssInitCall(token.value)));
    } else {
      g := Ok(None);
    }
  }

  method ReadInitReply(u: Cursor) returns (g: Result<Option<GssData>>)
    requires u.Valid()
    modifies u
    ensures u.Valid() && u.data == old(u.data)
    ensures Utils.Outcome(g, u.pos) == InitReplyRead(u.data, old(u.pos))
  {
    var context := u.UnpackOpaque(0);
    if context.None? {
      return Err(Truncated);
    }
    var major := u.UnpackUint();
    if major.None? {
      return Err(Truncated);
    }
    var minor := u.UnpackUint();
    if minor.None? {
      return Err(Truncated);
    }
    var window := u.UnpackUint();
    if window.None? {
      return Err(Truncated);
    }
    var token := u.UnpackOpaque(0);
    if token.None? {
      return Err(Truncated);
    }
    g := Ok(Some(GssInitReply(context.value, major.value, minor.value, window.value, token.value)));
  }

  method GssDataReply(u: Cursor, verf: Option<Credential>) returns (g: Result<Option<GssData>>)
    requires u.Valid()
    modifies u
    ensures u.Valid() && u.data == old(u.data)
    ensures Utils.Outcome(g, u.pos) == GssReply(u.data, old(u.pos), verf)
  {
    if verf.None? {
      return Err(AttributeError);
    }
    var v := verf.value;
    if v.Flavor() != RPCSEC_GSS || v.Proc().None? {
      return Ok(None);
    }
    if v.Proc().value == RPCSEC_GSS_DATA {
      if v.Service().None? {
        return Err(AttributeError);
      }
      if v.Service().value == RPC_GSS_SVC_INTEGRITY {
        g := ReadIntegrity(u, REPLY);
      } else {
        g := Ok(None);
      }
    } else if v.Proc().value == RPCSEC_GSS_INIT {
      g := ReadInitReply(u);
    } else {
      g := Ok(None);
    }
  }

  method DecodeGssData(p: Pktt, r: Rpc)
    requires p.Valid()
    modifies p.unpack, p.pkt
    ensures p.Valid()
    ensures p.Snap() == GssDataStep(old(p.Snap()), r)
  {
    if p.unpack.Size() < 4 {
      return;
    }
    var g;
    if r.msgType == CALL {
      g := GssDataCall(p.unpack, r.credential);
    } else {
      g := GssDataReply(p.unpack, r.verifier);
    }
    if g.Ok? && g.value.Some? {
      p.pkt.gssd := g.value;
    }
  }

  method DecodeGssChecksum(p: Pktt, r: Rpc)
    requires p.Valid()
    modifies p.unpack, p.pkt
    ensures p.Valid()
    ensures p.Snap() == GssChecksumStep(old(p.Snap()), r)
  {
    var u := p.unpack;
    if u.Size() < 4 {
      return;
    }
    var auth := if r.msgType == CALL then r.credential else r.verifier;
    var g: Result<Option<GssChecksum>>;
    if auth.None? {
      g := Err(AttributeError);
    } else if auth.value.Flavor() != RPCSEC_GSS {
      g := Ok(None);
    } else if auth.value.Proc().None? {
      g := Err(AttributeError);
    } else if auth.value.Proc().value != RPCSEC_GSS_DATA {
      g := Ok(None);
    } else if auth.value.Service().None? {
      g := Err(AttributeError);
    } else if auth.value.Service().value != RPC_GSS_SVC_INTEGRITY {
      g := Ok(None);
    } else {
      var token := u.UnpackOpaque(0);
      if token.None? {
        g := Err(Truncated);
      } else {
        g := Ok(Some(GssChecksum(token.value)));
      }
    }
    if g.Ok? && g.value.Some? {
      p.pkt.gssc := g.value;
    }
  }

  // Properties of the two decoders.

  /** (RPCSEC_GSS data with integrity.) */
  predicate IsIntegrity(a: Credential) {
    a.Flavor() == RPCSEC_GSS && a.Proc() == Some(RPCSEC_GSS_DATA)
    && a.Service() == Some(RPC_GSS_SVC_INTEGRITY)
  }

  /** With fewer than 4 bytes left neither decoder reads or stores
      anything. */
  lemma ShortInputIgnored(s: Snapshot, r: Rpc)
    requires s.pos <= |s.data| && |s.data| - s.pos < 4
    ensures GssDataStep(s, r) == s && GssChecksumStep(s, r) == s
  {
  }

  /** The decoders touch only the cursor's position and their own layer;
      a layer is stored only when the sub-decoder returned one, and an
      exception inside leaves the layer as it was. */
  lemma OnlyOwnLayer(s: Snapshot, r: Rpc)
    requires s.pos <= |s.data| && |s.data| - s.pos >= 4
    ensures var t := GssDataStep(s, r);
      var o := if r.msgType == CALL then GssCall(s.data, s.pos, r.credential)
               else GssReply(s.data, s.pos, r.verifier);
      && t == s.(pos := t.pos, pkt := s.pkt.(gssd := t.pkt.gssd))
      && t.pos == o.next
      && (t.pkt.gssd != s.pkt.gssd ==> o.result == Ok(t.pkt.gssd))
      && (o.result.Err? ==> t.pkt == s.pkt)
    ensures var t := GssChecksumStep(s, r);
      var o := ChecksumRead(s.data, s.pos, r);
      && t == s.(pos := t.pos, pkt := s.pkt.(gssc := t.pkt.gssc))
      && t.pos == o.next
      && (t.pkt.gssc != s.pkt.gssc ==> o.result == Ok(t.pkt.gssc))
      && (o.result.Err? ==> t.pkt == s.pkt)
  {
  }

  /** A call whose credential is not RPCSEC_GSS yields no GSS data and
      consumes nothing. */
  lemma CallWithoutGss(s: Snapshot, r: Rpc)
    requires s.pos <= |s.data| && r.msgType == CALL
    requires r.credential.Some? && r.credential.value.Flavor() != RPCSEC_GSS
    ensures GssDataStep(s, r) == s
  {
  }

  /** A call with DATA on a service other than integrity, or with a
      procedure other than DATA and INIT (CONTINUE_INIT, DESTROY, ...),
      yields nothing. */
  lemma CallOtherCases(s: Snapshot, r: Rpc)
    requires s.pos <= |s.data| && r.msgType == CALL && r.credential.Some?
    requires r.credential.value.GssCredential?
    requires var c := r.credential.value;
      (c.gssProc == RPCSEC_GSS_DATA && c.gssService != RPC_GSS_SVC_INTEGRITY)
      || (c.gssProc != RPCSEC_GSS_DATA && c.gssProc != RPCSEC_GSS_INIT)
    ensures GssDataStep(s, r) == s
  {
  }

  /** A DATA call with integrity reads exactly two words: the length and
      the sequence number. */
  lemma CallIntegrity(s: Snapshot, r: Rpc, length: nat, seqNum: nat)
    requires s.pos <= |s.data| && r.msgType == CALL && r.credential.Some?
    requires IsIntegrity(r.credential.value)
    requires length < TWO32 && seqNum < TWO32
    requires IsPrefixAt(s.data, s.pos, EncodeU32(length) + EncodeU32(seqNum))
    ensures GssDataStep(s, r) == s.(pos := s.pos + 8, pkt := s.pkt.(gssd := Some(GssIntegrity(CALL, length, seqNum))))
  {
    PrefixSplit(s.data, s.pos, EncodeU32(length), EncodeU32(seqNum));
    ReadU32Of(s.data, s.pos, length);
    ReadU32Of(s.data, s.pos + 4, seqNum);
  }

  /** An INIT call holds exactly one opaque token. */
  lemma CallInit(s: Snapshot, r: Rpc, token: seq<byte>)
    requires s.pos <= |s.data| && r.msgType == CALL && r.credential.Some?
    requires r.credential.value.Flavor() == RPCSEC_GSS && r.credential.value.Proc() == Some(RPCSEC_GSS_INIT)
    requires |token| < TWO32 && IsPrefixAt(s.data, s.pos, EncodeOpaque(token))
    ensures GssDataStep(s, r) == s.(pos := s.pos + |EncodeOpaque(token)|, pkt := s.pkt.(gssd := Some(GssInitCall(token))))
  {
    ReadOpaqueOf(s.data, s.pos, token, 0);
  }

  /** A reply needs a GSS verifier carrying a `gss_proc`; otherwise it
      yields nothing. */
  lemma ReplyWithoutGss(s: Snapshot, r: Rpc)
    requires s.pos <= |s.data| && r.msgType != CALL && r.verifier.Some?
    requires r.verifier.value.Flavor() != RPCSEC_GSS || r.verifier.value.Proc().None?
    ensures GssDataStep(s, r) == s
  {
  }

  /** A DATA reply with integrity reads exactly two words, like a call,
      and records the layer as a reply's. */
  lemma ReplyIntegrity(s: Snapshot, r: Rpc, length: nat, seqNum: nat)
    requires s.pos <= |s.data| && r.msgType != CALL && r.verifier.Some?
    requires IsIntegrity(r.verifier.value)
    requires length < TWO32 && seqNum < TWO32
    requires IsPrefixAt(s.data, s.pos, EncodeU32(length) + EncodeU32(seqNum))
    ensures GssDataStep(s, r) == s.(pos := s.pos + 8, pkt := s.pkt.(gssd := Some(GssIntegrity(REPLY, length, seqNum))))
  {
    PrefixSplit(s.data, s.pos, EncodeU32(length), EncodeU32(seqNum));
    ReadU32Of(s.data, s.pos, length);
    ReadU32Of(s.data, s.pos + 4, seqNum);
  }

  /** A GSS reply with DATA on a service other than integrity, or with a
      procedure other than DATA and INIT, yields nothing. */
  lemma ReplyOtherCases(s: Snapshot, r: Rpc)
    requires s.pos <= |s.data| && r.msgType != CALL && r.verifier.Some?
    requires var v := r.verifier.value;
      v.Flavor() == RPCSEC_GSS && v.Proc().Some?
    requires var v := r.verifier.value;
      (v.Proc().value == RPCSEC_GSS_DATA && v.Service().Some? && v.Service().value != RPC_GSS_SVC_INTEGRITY)
      || (v.Proc().value != RPCSEC_GSS_DATA && v.Proc().value != RPCSEC_GSS_INIT)
    ensures GssDataStep(s, r) == s
  {
  }

  function EncodeInitReply(context: seq<byte>, major: nat, minor: nat, window: nat, token: seq<byte>): seq<byte> {
    EncodeOpaque(context) + (EncodeU32(major) + (EncodeU32(minor) + (EncodeU32(window) + EncodeOpaque(token))))
  }

  /** An INIT reply reads the context handle, major, minor, window and
      token, in that order. */
  lemma InitReplyRoundTrip(data: seq<byte>, pos: nat, context: seq<byte>, major: nat, minor: nat,
                           window: nat, token: seq<byte>)
    requires |context| < TWO32 && major < TWO32 && minor < TWO32 && window < TWO32 && |token| < TWO32
    requires IsPrefixAt(data, pos, EncodeInitReply(context, major, minor, window, token))
    ensures InitReplyRead(data, pos) == Utils.Outcome(Ok(Some(GssInitReply(context, major, minor, window, token))),
                                                      pos + |EncodeInitReply(context, major, minor, window, token)|)
  {
    var e1, e2, e3, e4, e5 := EncodeOpaque(context), EncodeU32(major), EncodeU32(minor), EncodeU32(window), EncodeOpaque(token);
    PrefixSplit(data, pos, e1, e2 + (e3 + (e4 + e5)));
    ReadOpaqueOf(data, pos, context, 0);
    var q := pos + |e1|;
    ThreeWords(data, q, major, minor, window, e5);
    ReadOpaqueOf(data, q + 12, token, 0);
    var end := q + 12 + |e5|;
    assert end == pos + |EncodeInitReply(context, major, minor, window, token)|;
    InitReplyFields(data, pos, context, major, minor, window, token, q, end);
  }

  /** Three words, then whatever follows them. */
  lemma ThreeWords(data: seq<byte>, q: nat, a: nat, b: nat, c: nat, rest: seq<byte>)
    requires a < TWO32 && b < TWO32 && c < TWO32
    requires IsPrefixAt(data, q, EncodeU32(a) + (EncodeU32(b) + (EncodeU32(c) + rest)))
    ensures ReadU32(data, q) == Decoded(Some(a), q + 4)
    ensures ReadU32(data, q + 4) == Decoded(Some(b), q + 8)
    ensures ReadU32(data, q + 8) == Decoded(Some(c), q + 12)
    ensures IsPrefixAt(data, q + 12, rest)
  {
    PrefixSplit(data, q, EncodeU32(a), EncodeU32(b) + (EncodeU32(c) + rest));
    ReadU32Of(data, q, a);
    PrefixSplit(data, q + 4, EncodeU32(b), EncodeU32(c) + rest);
    ReadU32Of(data, q + 4, b);
    PrefixSplit(data, q + 8, EncodeU32(c), rest);
    ReadU32Of(data, q + 8, c);
  }

  /** Five reads that yield the fields make the INIT reply. */
  lemma InitReplyFields(data: seq<byte>, pos: nat, context: seq<byte>, major: nat, minor: nat,
                        window: nat, token: seq<byte>, q: nat, end: nat)
    requires pos <= |data|
    requires ReadOpaque(data, pos, 0) == Decoded(Some(context), q)
    requires ReadU32(data, q) == Decoded(Some(major), q + 4)
    requires ReadU32(data, q + 4) == Decoded(Some(minor), q + 8)
    requires ReadU32(data, q + 8) == Decoded(Some(window), q + 12)
    requires ReadOpaque(data, q + 12, 0) == Decoded(Some(token), end)
    ensures InitReplyRead(data, pos) == Utils.Outcome(Ok(Some(GssInitReply(context, major, minor, window, token))), end)
  {
  }

  lemma ReplyInit(s: Snapshot, r: Rpc, context: seq<byte>, major: nat, minor: nat, window: nat, token: seq<byte>)
    requires s.pos <= |s.data| && r.msgType != CALL && r.verifier.Some?
    requires r.verifier.value.Flavor() == RPCSEC_GSS && r.verifier.value.Proc() == Some(RPCSEC_GSS_INIT)
    requires |context| < TWO32 && major < TWO32 && minor < TWO32 && window < TWO32 && |token| < TWO32
    requires IsPrefixAt(s.data, s.pos, EncodeInitReply(context, major, minor, window, token))
    ensures GssDataStep(s, r) == s.(pos := s.pos + |EncodeInitReply(context, major, minor, window, token)|,
                                    pkt := s.pkt.(gssd := Some(GssInitReply(context, major, minor, window, token))))
  {
    InitReplyRoundTrip(s.data, s.pos, context, major, minor, window, token);
  }

  /** The checksum is one opaque token, stored only for DATA with
      integrity, judged on the credential of a call and on the verifier of
      a reply. */
  lemma ChecksumOnlyForIntegrity(s: Snapshot, r: Rpc)
    requires s.pos <= |s.data|
    ensures var auth := if r.msgType == CALL then r.credential else r.verifier;
      GssChecksumStep(s, r).pkt.gssc != s.pkt.gssc ==> auth.Some? && IsIntegrity(auth.value)
  {
  }

  lemma ChecksumRoundTrip(s: Snapshot, r: Rpc, token: seq<byte>)
    requires s.pos <= |s.data|
    requires var auth := if r.msgType == CALL then r.credential else r.verifier;
      auth.Some? && IsIntegrity(auth.value)
    requires |token| < TWO32 && IsPrefixAt(s.data, s.pos, EncodeOpaque(token))
    ensures GssChecksumStep(s, r) == s.(pos := s.pos + |EncodeOpaque(token)|, pkt := s.pkt.(gssc := Some(GssChecksum(token))))
  {
    ReadOpaqueOf(s.data, s.pos, token, 0);
  }
}
