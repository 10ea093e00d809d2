/** The check of the OPEN a peer sends while its slot is connected
    (src/p_piranha.c:553-690): version 4, the peer's AS or AS_TRANS in the
    2-octet field (section 3 of RFC 6793), a length that matches the
    parameter length, parameters of type at most 4, and in a capabilities
    parameter (section 4 of RFC 5492) a 4-octet AS capability that names
    the configured AS. The OPEN is the first `len` octets of the received
    input `b`. As in the C, the walks over the parameters and the
    capabilities stop on the declared lengths but read whatever octets
    follow: a parameter or capability that overruns its container reads on
    into the next one or into the next message. Only a read past the
    octets received so far refuses the OPEN. */
module Handshake {
  import opened Bytes
  import opened Wire

  /** What a received OPEN does to the slot. `hold` is the peer's hold time
      once the version and AS checks have passed (the C adopts it before the
      remaining checks); `as4` tells whether a 4-octet AS capability naming
      the peer's AS was seen, and matters only when `established`; `next`
      is where the walk over the parameters stopped, which the size check
      after the OPEN branch compares with the message length. */
  datatype Verdict = Verdict(hold: Option<uint16>, as4: bool, established: bool, next: nat)

  const REFUSED: Verdict := Verdict(None, false, false, 0)

  /** The capabilities from b[i] while the walk is before `end`: None when
      a 4-octet AS capability names another AS or a read goes past the
      received octets; otherwise whether a matching one was seen. A
      capability is read whole even where it runs past `end`, as the C's
      `while (i < param->len)` reads it. */
  function Caps(b: bytes, i: nat, end: nat, peerAs: uint32): (r: Option<bool>)
    decreases end - i
  {
    if i >= end then Some(false)
    else if i + 2 > |b| then None
    else
      var code := b[i];
      var clen := b[i + 1];
      if code == CAP_AS4 && clen == 4 then
        if i + 6 > |b| || U32(b, i + 2) != peerAs then None
        else if Caps(b, i + 2 + clen, end, peerAs).None? then None
        else Some(true)
      else Caps(b, i + 2 + clen, end, peerAs)
  }

  /** The value from b[at] to `end` of one parameter of type `code`: None
      when it is refused, otherwise whether it holds a matching 4-octet AS
      capability. (The C walks a capabilities parameter before testing the
      type; both refusals end the session alike.) */
  function ParamValue(b: bytes, code: uint8, at: nat, end: nat, peerAs: uint32): (r: Option<bool>)
  {
    if code == PARAM_CAPABILITIES then Caps(b, at, end, peerAs)
    else if code > 4 then None
    else Some(false)
  }

  /** How a walk over a list ended: whether a matching 4-octet AS
      capability was seen, and the position it stopped at. */
  datatype Scan = Scan(seen: bool, next: nat)

  /** The optional parameters from b[pos] while the walk is before `len`:
      None when one is refused or a read goes past the received octets. A
      parameter is taken whole even where its length runs past `len`; the
      walk then stops beyond `len`. */
  function Params(b: bytes, pos: nat, len: nat, peerAs: uint32): (r: Option<Scan>)
    ensures r.Some? ==> pos <= r.value.next && len <= r.value.next
    decreases len - pos
  {
    if pos >= len then Some(Scan(false, pos))
    else if pos + 2 > |b| then None
    else
      var next := pos + 2 + b[pos + 1] as nat;
      var v := ParamValue(b, b[pos], pos + 2, next, peerAs);
      var rest := Params(b, next, len, peerAs);
      if v.None? || rest.None? then None else Some(Scan(v.value || rest.value.seen, rest.value.next))
  }

  /** Two verdicts on parts of a list taken together: refused if either
      is, and a capability seen in either. */
  function Join(a: Option<bool>, b: Option<bool>): (r: Option<bool>)
  {
    if a.None? || b.None? then None else Some(a.value || b.value)
  }

  /** The OPEN branch of `p_main_peer_work`, up to the size check. */
  function CheckOpen(b: bytes, len: nat, peerAs: uint32): (r: Verdict)
    requires len <= |b|
    ensures r.hold.Some? <==>
      |b| >= BGP_HEADER_LEN + BGP_OPEN_LEN && b[19] == 4 && (U16(b, 20) == AS_TRANS || U16(b, 20) == peerAs)
    ensures r.hold.Some? ==> r.hold.value == U16(b, 22)
    ensures r.established ==> r.hold.Some? && len == BGP_HEADER_LEN + BGP_OPEN_LEN + b[28] && len <= r.next
    ensures r.established && U16(b, 20) == AS_TRANS ==> r.as4
  {
    if |b| < BGP_HEADER_LEN + BGP_OPEN_LEN then REFUSED
    else
      var o := DecodeOpen(b, BGP_HEADER_LEN);
      var trans := o.asn == AS_TRANS;
      if o.version != 4 || (!trans && o.asn != peerAs) then REFUSED
      else if len != BGP_HEADER_LEN + BGP_OPEN_LEN + o.paramLen then Verdict(Some(o.holdTime), false, false, 0)
      else
        match Params(b, BGP_HEADER_LEN + BGP_OPEN_LEN, len, peerAs)
        case None => Verdict(Some(o.holdTime), false, false, 0)
        case Some(s) => Verdict(Some(o.holdTime), s.seen, !trans || s.seen, s.next)
  }

  // ------------------------------------------------------ structured OPEN

  /** An optional parameter: capabilities, or any other type with its raw
      value. */
  datatype Param = Capabilities(caps: seq<Tlv>) | Optional(code: uint8, value: bytes)

  predicate ParamFits(p: Param)
  {
    match p
    case Capabilities(cs) => ShortTlvs(cs) && TlvsSize(cs) < 0x100
    case Optional(code, v) => code != PARAM_CAPABILITIES && |v| < 0x100
  }

  function ParamTlv(p: Param): (t: Tlv)
    requires ParamFits(p)
    ensures |t.value| < 0x100
  {
    match p
    case Capabilities(cs) => Tlv(PARAM_CAPABILITIES, EncodeTlvs(cs))
    case Optional(code, v) => Tlv(code, v)
  }

  function ParamTlvs(ps: seq<Param>): (ts: seq<Tlv>)
    requires forall k :: 0 <= k < |ps| ==> ParamFits(ps[k])
    ensures |ts| == |ps| && ShortTlvs(ts)
    ensures forall k :: 0 <= k < |ps| ==> ts[k] == ParamTlv(ps[k])
  {
    seq(|ps|, k requires 0 <= k < |ps| => ParamTlv(ps[k]))
  }

  datatype OpenMsg = OpenMsg(version: uint8, asn: uint16, hold: uint16, bgpId: uint32, params: seq<Param>)

  predicate Sendable(o: OpenMsg)
  {
    (forall k :: 0 <= k < |o.params| ==> ParamFits(o.params[k]))
    && TlvsSize(ParamTlvs(o.params)) < 0x100
  }

  /** The octets of an OPEN message, header included. */
  function EncodeOpenMsg(o: OpenMsg): (m: bytes)
    requires Sendable(o)
    ensures |m| == BGP_HEADER_LEN + BGP_OPEN_LEN + TlvsSize(ParamTlvs(o.params))
  {
    var ps := EncodeTlvs(ParamTlvs(o.params));
    EncodeHeader(Header(BGP_HEADER_LEN + BGP_OPEN_LEN + |ps|, BGP_OPEN))
    + EncodeOpen(Open(o.version, o.asn, o.hold, o.bgpId, |ps|))
    + ps
  }

  /** A 4-octet AS capability. */
  predicate IsAs4(c: Tlv)
  {
    c.code == CAP_AS4 && |c.value| == 4
  }

  /** Every 4-octet AS capability names the peer's AS. */
  predicate CapsAgree(cs: seq<Tlv>, peerAs: uint32)
  {
    forall k :: 0 <= k < |cs| && IsAs4(cs[k]) ==> U32(cs[k].value, 0) == peerAs
  }

  predicate HasAs4(cs: seq<Tlv>)
  {
    exists k :: 0 <= k < |cs| && IsAs4(cs[k])
  }

  predicate ParamAccepted(p: Param, peerAs: uint32)
  {
    match p
    case Capabilities(cs) => CapsAgree(cs, peerAs)
    case Optional(code, _) => code <= 4
  }

  predicate ParamsAccepted(ps: seq<Param>, peerAs: uint32)
  {
    forall k :: 0 <= k < |ps| ==> ParamAccepted(ps[k], peerAs)
  }

  predicate AnnouncesAs4(ps: seq<Param>)
  {
    exists k :: 0 <= k < |ps| && ps[k].Capabilities? && HasAs4(ps[k].caps)
  }

  /** The OPEN check on a well-formed OPEN, whatever follows it in the
      buffer, stated on its parts: refused outright for a wrong version or
      AS; otherwise its hold time is taken, and the session is established
      exactly when every parameter is accepted and AS_TRANS, if used, is
      backed by a 4-octet AS capability. The walk then stops exactly at the
      end of the message. */
  lemma CheckEncodedOpen(o: OpenMsg, rest: bytes, peerAs: uint32)
    requires Sendable(o)
    ensures var m := EncodeOpenMsg(o);
      CheckOpen(m + rest, |m|, peerAs) ==
      if o.version != 4 || (o.asn != AS_TRANS && o.asn != peerAs) then REFUSED
      else if !ParamsAccepted(o.params, peerAs) then Verdict(Some(o.hold), false, false, 0)
      else Verdict(Some(o.hold), AnnouncesAs4(o.params), o.asn != AS_TRANS || AnnouncesAs4(o.params), |m|)
  {
    var ts := ParamTlvs(o.params);
    var ps := EncodeTlvs(ts);
    var h := EncodeHeader(Header(BGP_HEADER_LEN + BGP_OPEN_LEN + |ps|, BGP_OPEN));
    var f := EncodeOpen(Open(o.version, o.asn, o.hold, o.bgpId, |ps|));
    var m := h + f + ps;
    var b := m + rest;
    OpenRoundTrip(Open(o.version, o.asn, o.hold, o.bgpId, |ps|), h, ps + rest);
    assert b == h + f + (ps + rest);
    assert b[29..|m|] == ps;
    ParamsRun(b, 29, |m|, o.params, peerAs);
    ParamsVerdictMeaning(o.params, peerAs);
  }

  /** A capabilities parameter whose last capability is a single octet is
      accepted when another parameter follows: the capability's length is
      read from the next parameter's type, and the walk leaves the
      parameter. */
  lemma StrayCapabilityOctet(asn: uint16, hold: uint16, id: uint32, rest: bytes)
    requires asn != AS_TRANS
    ensures var b := EncodeHeader(Header(34, BGP_OPEN)) + EncodeOpen(Open(4, asn, hold, id, 5)) + [2, 1, 70, 1, 0] + rest;
      CheckOpen(b, 34, asn as uint32) == Verdict(Some(hold), false, true, 34)
  {
    var h := EncodeHeader(Header(34, BGP_OPEN));
    var ps: bytes := [2, 1, 70, 1, 0];
    var b := h + EncodeOpen(Open(4, asn, hold, id, 5)) + ps + rest;
    OpenRoundTrip(Open(4, asn, hold, id, 5), h, ps + rest);
    assert b == h + EncodeOpen(Open(4, asn, hold, id, 5)) + (ps + rest);
    assert b[29] == 2 && b[30] == 1 && b[31] == 70 && b[32] == 1 && b[33] == 0;
    assert Caps(b, 31, 32, asn as uint32) == Some(false);
    assert Params(b, 32, 34, asn as uint32) == Some(Scan(false, 34));
  }

  /** A parameter of a type other than capabilities whose length runs past
      the message is taken whole: the OPEN is accepted and the walk stops
      beyond the message, which the size check then refuses. */
  lemma OverrunningParam(asn: uint16, hold: uint16, id: uint32, code: uint8, plen: uint8, rest: bytes)
    requires asn != AS_TRANS && code != PARAM_CAPABILITIES && code <= 4 && plen > 1
    ensures var b := EncodeHeader(Header(32, BGP_OPEN)) + EncodeOpen(Open(4, asn, hold, id, 3)) + [code, plen, 0] + rest;
      CheckOpen(b, 32, asn as uint32) == Verdict(Some(hold), false, true, 31 + plen as nat)
  {
    var h := EncodeHeader(Header(32, BGP_OPEN));
    var ps: bytes := [code, plen, 0];
    var b := h + EncodeOpen(Open(4, asn, hold, id, 3)) + ps + rest;
    OpenRoundTrip(Open(4, asn, hold, id, 3), h, ps + rest);
    assert b == h + EncodeOpen(Open(4, asn, hold, id, 3)) + (ps + rest);
    assert b[29] == code && b[30] == plen;
    assert Params(b, 31 + plen as nat, 32, asn as uint32) == Some(Scan(false, 31 + plen as nat));
  }

  // The same verdicts computed element by element, for the inductions.

  function CapVerdict(c: Tlv, peerAs: uint32): Option<bool>
  {
    if !IsAs4(c) then Some(false)
    else if U32(c.value, 0) == peerAs then Some(true)
    else None
  }

  function CapsVerdict(cs: seq<Tlv>, peerAs: uint32): Option<bool>
  {
    if cs == [] then Some(false) else Join(CapVerdict(cs[0], peerAs), CapsVerdict(cs[1..], peerAs))
  }

  function ParamVerdict(p: Param, peerAs: uint32): Option<bool>
  {
    match p
    case Capabilities(cs) => CapsVerdict(cs, peerAs)
    case Optional(code, _) => if code <= 4 then Some(false) else None
  }

  function ParamsVerdict(ps: seq<Param>, peerAs: uint32): Option<bool>
  {
    if ps == [] then Some(false) else Join(ParamVerdict(ps[0], peerAs), ParamsVerdict(ps[1..], peerAs))
  }

  /** A verdict on a whole list, with the walk stopped at `next`. */
  function Scanned(v: Option<bool>, next: nat): Option<Scan>
  {
    if v.None? then None else Some(Scan(v.value, next))
  }

  lemma {:induction false} ParamsRun(m: bytes, pos: nat, len: nat, ps: seq<Param>, peerAs: uint32)
    requires forall k :: 0 <= k < |ps| ==> ParamFits(ps[k])
    requires pos <= len <= |m| && m[pos..len] == EncodeTlvs(ParamTlvs(ps))
    ensures Params(m, pos, len, peerAs) == Scanned(ParamsVerdict(ps, peerAs), len)
    decreases |ps|
  {
    var ts := ParamTlvs(ps);
    if ps != [] {
      var t := ParamTlv(ps[0]);
      TlvAt(m, pos, len, ts);
      var next := pos + 2 + |t.value|;
      ParamTlvsTail(ps);
      ParamsRun(m, next, len, ps[1..], peerAs);
      ParamHead(m, pos + 2, next, ps[0], peerAs);
      ParamsCons(m, pos, len, next, ps, peerAs);
    }
  }

  /** One step of the walk: the first parameter's verdict joined with the
      verdict of the walk after it. */
  lemma ParamsCons(m: bytes, pos: nat, len: nat, next: nat, ps: seq<Param>, peerAs: uint32)
    requires ps != [] && pos < len && pos + 2 <= |m| && next == pos + 2 + m[pos + 1] as nat
    requires ParamValue(m, m[pos], pos + 2, next, peerAs) == ParamVerdict(ps[0], peerAs)
    requires Params(m, next, len, peerAs) == Scanned(ParamsVerdict(ps[1..], peerAs), len)
    ensures Params(m, pos, len, peerAs) == Scanned(ParamsVerdict(ps, peerAs), len)
  {
  }

  lemma ParamHead(m: bytes, at: nat, end: nat, p: Param, peerAs: uint32)
    requires ParamFits(p)
    requires at <= end <= |m| && m[at..end] == ParamTlv(p).value
    ensures ParamValue(m, ParamTlv(p).code, at, end, peerAs) == ParamVerdict(p, peerAs)
  {
    if p.Capabilities? {
      CapsRun(m, at, end, p.caps, peerAs);
    }
  }

  lemma ParamTlvsTail(ps: seq<Param>)
    requires forall k :: 0 <= k < |ps| ==> ParamFits(ps[k])
    requires ps != []
    ensures ParamTlvs(ps[1..]) == ParamTlvs(ps)[1..]
  {
  }

  lemma {:induction false} CapsRun(m: bytes, i: nat, end: nat, cs: seq<Tlv>, peerAs: uint32)
    requires ShortTlvs(cs)
    requires i <= end <= |m| && m[i..end] == EncodeTlvs(cs)
    ensures Caps(m, i, end, peerAs) == CapsVerdict(cs, peerAs)
    decreases |cs|
  {
    if cs != [] {
      var c := cs[0];
      TlvAt(m, i, end, cs);
      var next := i + 2 + |c.value|;
      assert ShortTlvs(cs[1..]);
      CapsRun(m, next, end, cs[1..], peerAs);
      if IsAs4(c) {
        U32Slice(m, i + 2, c.value, 0);
      }
    }
  }

  /** The element-by-element verdicts mean what the predicates say. */
  lemma {:induction false} ParamsVerdictMeaning(ps: seq<Param>, peerAs: uint32)
    ensures ParamsVerdict(ps, peerAs) == if ParamsAccepted(ps, peerAs) then Some(AnnouncesAs4(ps)) else None
    decreases |ps|
  {
    if ps != [] {
      ParamsVerdictMeaning(ps[1..], peerAs);
      if ps[0].Capabilities? {
        CapsVerdictMeaning(ps[0].caps, peerAs);
      }
      AcceptedCons(ps, peerAs);
    }
  }

  lemma {:induction false} CapsVerdictMeaning(cs: seq<Tlv>, peerAs: uint32)
    ensures CapsVerdict(cs, peerAs) == if CapsAgree(cs, peerAs) then Some(HasAs4(cs)) else None
    decreases |cs|
  {
    if cs != [] {
      CapsVerdictMeaning(cs[1..], peerAs);
      CapsCons(cs, peerAs);
    }
  }

  lemma AcceptedCons(ps: seq<Param>, peerAs: uint32)
    requires ps != []
    ensures ParamsAccepted(ps, peerAs) <==> ParamAccepted(ps[0], peerAs) && ParamsAccepted(ps[1..], peerAs)
    ensures AnnouncesAs4(ps) <==> (ps[0].Capabilities? && HasAs4(ps[0].caps)) || AnnouncesAs4(ps[1..])
  {
    if AnnouncesAs4(ps) && !(ps[0].Capabilities? && HasAs4(ps[0].caps)) {
      var k :| 0 <= k < |ps| && ps[k].Capabilities? && HasAs4(ps[k].caps);
      assert ps[1..][k - 1] == ps[k];
    }
    if AnnouncesAs4(ps[1..]) {
      var k :| 0 <= k < |ps[1..]| && ps[1..][k].Capabilities? && HasAs4(ps[1..][k].caps);
      assert ps[k + 1] == ps[1..][k];
    }
    if ParamAccepted(ps[0], peerAs) && ParamsAccepted(ps[1..], peerAs) {
      forall k | 0 <= k < |ps| ensures ParamAccepted(ps[k], peerAs) {
        if k > 0 { assert ps[k] == ps[1..][k - 1]; }
      }
    }
  }

  lemma CapsCons(cs: seq<Tlv>, peerAs: uint32)
    requires cs != []
    ensures CapsAgree(cs, peerAs) <==>
      (IsAs4(cs[0]) ==> U32(cs[0].value, 0) == peerAs) && CapsAgree(cs[1..], peerAs)
    ensures HasAs4(cs) <==> IsAs4(cs[0]) || HasAs4(cs[1..])
  {
    if HasAs4(cs) && !IsAs4(cs[0]) {
      var k :| 0 <= k < |cs| && IsAs4(cs[k]);
      assert cs[1..][k - 1] == cs[k];
    }
    if HasAs4(cs[1..]) {
      var k :| 0 <= k < |cs[1..]| && IsAs4(cs[1..][k]);
      assert cs[k + 1] == cs[1..][k];
    }
    if (IsAs4(cs[0]) ==> U32(cs[0].value, 0) == peerAs) && CapsAgree(cs[1..], peerAs) {
      forall k | 0 <= k < |cs| && IsAs4(cs[k]) ensures U32(cs[k].value, 0) == peerAs {
        if k > 0 { assert cs[k] == cs[1..][k - 1]; }
      }
    }
  }

  /** Where the first element of an encoded list sits. */
  lemma TlvAt(m: bytes, i: nat, end: nat, ts: seq<Tlv>)
    requires ShortTlvs(ts) && ts != []
    requires i <= end <= |m| && m[i..end] == EncodeTlvs(ts)
    ensures var v := ts[0].value;
      && i + 2 + |v| <= end
      && m[i] == ts[0].code && m[i + 1] == |v|
      && m[i + 2..i + 2 + |v|] == v
      && m[i + 2 + |v|..end] == EncodeTlvs(ts[1..])
  {
    var v := ts[0].value;
    var e := EncodeTlvs(ts);
    assert e == [ts[0].code, |v|] + v + EncodeTlvs(ts[1..]);
    assert m[i] == e[0] && m[i + 1] == e[1];
    SliceOfSlice(m, i, end, 2, 2 + |v|);
    SliceOfSlice(m, i, end, 2 + |v|, end - i);
    assert e[2..2 + |v|] == v && e[2 + |v|..] == EncodeTlvs(ts[1..]);
  }

  /** The listener accepts the OPEN it sends itself: the 4-octet AS
      capability names the local AS, so even AS_TRANS is backed. */
  lemma OwnOpenAccepted(localAs: uint32, hold: uint16, routerId: uint32, v6: bool)
    ensures var m := ReplyOpen(localAs, hold, routerId, v6);
      CheckOpen(m, |m|, localAs) == Verdict(Some(hold), true, true, |m|)
  {
    var cs := ReplyCapabilities(localAs, v6);
    var o := OpenMsg(4, ReplyAs(localAs), hold, routerId, [Capabilities(cs)]);
    assert ParamTlvs(o.params) == [Tlv(PARAM_CAPABILITIES, EncodeTlvs(cs))];
    assert TlvsSize(ParamTlvs(o.params)) == 14;
    assert EncodeOpenMsg(o) == ReplyOpen(localAs, hold, routerId, v6);
    assert IsAs4(cs[0]) && U32(cs[0].value, 0) == localAs;
    assert !IsAs4(cs[1]);
    assert HasAs4(cs) && CapsAgree(cs, localAs);
    assert AnnouncesAs4(o.params) && ParamsAccepted(o.params, localAs);
    CheckEncodedOpen(o, [], localAs);
    assert EncodeOpenMsg(o) + [] == EncodeOpenMsg(o);
  }
}
