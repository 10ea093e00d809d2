/** BGP-4 wire constants and the fixed-layout parts of a message: the
    19-octet header (section 4.1 of RFC 4271), the 10-octet fixed part of an
    OPEN (section 4.2 of RFC 4271), type/length/value lists for optional
    parameters and capabilities (section 4 of RFC 5492), and the OPEN and
    KEEPALIVE this listener sends (`p_main_peer_open`, src/p_piranha.c). */
module Wire {
  import opened Bytes

  const INPUT_BUFFER: nat := 1048576
  const OUTPUT_BUFFER: nat := 65536

  const BGP_HEADER_LEN: nat := 19
  const BGP_OPEN_LEN: nat := 10
  const BGP_ERROR_LEN: nat := 8
  const BGP_DEFAULT_HOLD: uint16 := 180

  const BGP_OPEN: uint8 := 1
  const BGP_UPDATE: uint8 := 2
  const BGP_ERROR: uint8 := 3
  const BGP_KEEPALIVE: uint8 := 4

  /** AS_TRANS, the 2-octet stand-in for a 4-octet AS (section 3 of RFC 6793). */
  const AS_TRANS: uint16 := 23456
  const PARAM_CAPABILITIES: uint8 := 2
  const CAP_MULTIPROTOCOL: uint8 := 1
  const CAP_AS4: uint8 := 65

  /** Sixteen 0xff octets. */
  function Marker(): (r: bytes)
    ensures |r| == 16 && forall i :: 0 <= i < 16 ==> r[i] == 0xff
  {
    seq(16, _ => 0xff)
  }

  datatype Header = Header(len: uint16, msgType: uint8)

  function EncodeHeader(h: Header): (r: bytes)
    ensures |r| == BGP_HEADER_LEN
    ensures r[..16] == Marker()
  {
    Marker() + Be16(h.len) + [h.msgType]
  }

  /** Reads the header at the front of a buffer holding at least 19 octets;
      the marker must be all ones (`memcmp` against the marker). */
  function DecodeHeader(b: bytes): (r: Option<Header>)
    requires |b| >= BGP_HEADER_LEN
    ensures r.Some? <==> b[..16] == Marker()
  {
    if b[..16] != Marker() then None else Some(Header(U16(b, 16), b[18]))
  }

  lemma HeaderRoundTrip(h: Header, rest: bytes)
    ensures DecodeHeader(EncodeHeader(h) + rest) == Some(h)
  {
    var b := EncodeHeader(h) + rest;
    assert b[..16] == Marker();
    assert b[16..18] == Be16(h.len)[0..2];
    assert b[18] == h.msgType;
  }

  /** A header that decodes is exactly the encoding of what it decodes to. */
  lemma HeaderDecodeEncode(b: bytes)
    requires |b| >= BGP_HEADER_LEN && DecodeHeader(b).Some?
    ensures EncodeHeader(DecodeHeader(b).value) == b[..BGP_HEADER_LEN]
  {
    var h := DecodeHeader(b).value;
    var e := EncodeHeader(h);
    assert e[16..18] == Be16(h.len);
    U16Slice(e, 16, Be16(h.len), 0);
    U16Injective(e, 16, b, 16);
    assert e == e[..16] + e[16..18] + [e[18]];
    assert b[..BGP_HEADER_LEN] == b[..16] + b[16..18] + [b[18]];
  }

  /** The fixed part of an OPEN message. */
  datatype Open = Open(version: uint8, asn: uint16, holdTime: uint16, bgpId: uint32, paramLen: uint8)

  function EncodeOpen(o: Open): (r: bytes)
    ensures |r| == BGP_OPEN_LEN
  {
    [o.version] + Be16(o.asn) + Be16(o.holdTime) + Be32(o.bgpId) + [o.paramLen]
  }

  function DecodeOpen(b: bytes, i: nat): Open
    requires i + BGP_OPEN_LEN <= |b|
  {
    Open(b[i], U16(b, i + 1), U16(b, i + 3), U32(b, i + 5), b[i + 9])
  }

  lemma OpenRoundTrip(o: Open, pre: bytes, rest: bytes)
    ensures DecodeOpen(pre + EncodeOpen(o) + rest, |pre|) == o
  {
    var b := pre + EncodeOpen(o) + rest;
    var i := |pre|;
    var e := EncodeOpen(o);
    assert b[i..i + 10] == e;
    assert b[i + 1..i + 3] == Be16(o.asn)[0..2];
    assert b[i + 3..i + 5] == Be16(o.holdTime)[0..2];
    assert b[i + 5..i + 9] == Be32(o.bgpId)[0..4];
  }

  lemma OpenDecodeEncode(b: bytes, i: nat)
    requires i + BGP_OPEN_LEN <= |b|
    ensures EncodeOpen(DecodeOpen(b, i)) == b[i..i + BGP_OPEN_LEN]
  {
    var s := b[i..i + BGP_OPEN_LEN];
    SliceOfSlice(b, i, i + BGP_OPEN_LEN, 1, 3);
    SliceOfSlice(b, i, i + BGP_OPEN_LEN, 3, 5);
    SliceOfSlice(b, i, i + BGP_OPEN_LEN, 5, 9);
    OpenDecodeEncodeAtZero(s);
  }

  lemma OpenDecodeEncodeAtZero(s: bytes)
    requires |s| == BGP_OPEN_LEN
    ensures EncodeOpen(DecodeOpen(s, 0)) == s
  {
    var o := DecodeOpen(s, 0);
    var e := EncodeOpen(o);
    assert e[1..3] == Be16(o.asn)[0..2] && e[3..5] == Be16(o.holdTime)[0..2];
    assert e[5..9] == Be32(o.bgpId)[0..4];
    U16Slice(e, 1, Be16(o.asn), 0);
    U16Slice(e, 3, Be16(o.holdTime), 0);
    U32Slice(e, 5, Be32(o.bgpId), 0);
    U16Injective(e, 1, s, 1);
    U16Injective(e, 3, s, 3);
    U32Injective(e, 5, s, 5);
    forall k | 0 <= k < BGP_OPEN_LEN
      ensures e[k] == s[k]
    {
      if 1 <= k < 3 {
        assert e[k] == e[1..3][k - 1] && s[k] == s[1..3][k - 1];
      } else if 3 <= k < 5 {
        assert e[k] == e[3..5][k - 3] && s[k] == s[3..5][k - 3];
      } else if 5 <= k < 9 {
        assert e[k] == e[5..9][k - 5] && s[k] == s[5..9][k - 5];
      }
    }
  }

  /** An optional parameter or a capability: one octet of type, one of
      length, then the value. */
  datatype Tlv = Tlv(code: uint8, value: bytes)

  predicate ShortTlvs(ts: seq<Tlv>)
  {
    forall i :: 0 <= i < |ts| ==> |ts[i].value| < 0x100
  }

  function TlvsSize(ts: seq<Tlv>): nat
  {
    if ts == [] then 0 else 2 + |ts[0].value| + TlvsSize(ts[1..])
  }

  function EncodeTlvs(ts: seq<Tlv>): (r: bytes)
    requires ShortTlvs(ts)
    ensures |r| == TlvsSize(ts)
  {
    if ts == [] then []
    else
      assert |ts[0].value| < 0x100;
      [ts[0].code, |ts[0].value|] + ts[0].value + EncodeTlvs(ts[1..])
  }

  /** The capability 1 value announcing AFI 1 or 2 with SAFI 1 (section 8
      of RFC 4760). */
  function AfiSafiUnicast(v6: bool): (r: bytes)
    ensures |r| == 4
    ensures r[0] == 0 && r[2] == 0 && r[3] == 1
    ensures r[1] == (if v6 then 2 else 1)
  {
    if v6 then [0, 2, 0, 1] else [0, 1, 0, 1]
  }

  /** The OPEN's 2-octet AS: the local AS when it fits, AS_TRANS otherwise
      (the corrected form of src/p_piranha.c:457; see `ReplyAsOctetsAsWritten`). */
  function ReplyAs(localAs: uint32): (r: uint16)
    ensures localAs <= 0xffff ==> r == localAs
    ensures localAs > 0xffff ==> r == AS_TRANS
  {
    if localAs > 0xffff then AS_TRANS else localAs
  }

  /** The single capabilities parameter of the reply OPEN: the 4-octet AS
      (capability 65) and unicast for the peer's family (capability 1). */
  function ReplyCapabilities(localAs: uint32, v6: bool): (r: seq<Tlv>)
    ensures ShortTlvs(r) && TlvsSize(r) == 12
  {
    var r := [Tlv(CAP_AS4, Be32(localAs)), Tlv(CAP_MULTIPROTOCOL, AfiSafiUnicast(v6))];
    assert TlvsSize(r[1..][1..]) == 0;
    r
  }

  function ReplyParams(localAs: uint32, v6: bool): (r: bytes)
    ensures |r| == 14
  {
    var caps := EncodeTlvs(ReplyCapabilities(localAs, v6));
    var ps := [Tlv(PARAM_CAPABILITIES, caps)];
    assert TlvsSize(ps[1..]) == 0;
    EncodeTlvs(ps)
  }

  /** The OPEN sent when a session starts: version 4, the local AS, the
      current send hold time and the router id, with one capabilities
      parameter. */
  function ReplyOpen(localAs: uint32, hold: uint16, routerId: uint32, v6: bool): (r: bytes)
    ensures |r| == BGP_HEADER_LEN + BGP_OPEN_LEN + 14
  {
    EncodeHeader(Header(BGP_HEADER_LEN + BGP_OPEN_LEN + 14, BGP_OPEN))
    + EncodeOpen(Open(4, ReplyAs(localAs), hold, routerId, 14))
    + ReplyParams(localAs, v6)
  }

  /** A KEEPALIVE: a bare header of type 4. */
  function Keepalive(): (r: bytes)
    ensures |r| == BGP_HEADER_LEN
  {
    EncodeHeader(Header(BGP_HEADER_LEN, BGP_KEEPALIVE))
  }

  lemma ReplyParamsLayout(localAs: uint32, v6: bool)
    ensures var p := ReplyParams(localAs, v6);
      p[0] == PARAM_CAPABILITIES && p[1] == 12
      && p[2] == CAP_AS4 && p[3] == 4 && p[4..8] == Be32(localAs)
      && p[8] == CAP_MULTIPROTOCOL && p[9] == 4 && p[10..14] == AfiSafiUnicast(v6)
  {
    var p := ReplyParams(localAs, v6);
    var caps := EncodeTlvs(ReplyCapabilities(localAs, v6));
    assert p == [2, 12] + caps + [];
    var tail := EncodeTlvs([Tlv(CAP_MULTIPROTOCOL, AfiSafiUnicast(v6))]);
    assert tail == [1, 4] + AfiSafiUnicast(v6) + [];
    assert caps == [65, 4] + Be32(localAs) + tail;
  }

  /** The reply OPEN reads back as what was meant: a header whose length is
      the message's own length, the fixed part, and the two capabilities
      with the local AS and the peer's family. */
  lemma ReplyOpenLayout(localAs: uint32, hold: uint16, routerId: uint32, v6: bool)
    ensures var r := ReplyOpen(localAs, hold, routerId, v6);
      DecodeHeader(r) == Some(Header(|r|, BGP_OPEN))
      && DecodeOpen(r, BGP_HEADER_LEN) == Open(4, ReplyAs(localAs), hold, routerId, 14)
      && r[29] == PARAM_CAPABILITIES && r[30] == 12
      && r[31] == CAP_AS4 && r[32] == 4 && U32(r, 33) == localAs
      && r[37] == CAP_MULTIPROTOCOL && r[38] == 4 && r[39..43] == AfiSafiUnicast(v6)
  {
    var r := ReplyOpen(localAs, hold, routerId, v6);
    var h := EncodeHeader(Header(43, BGP_OPEN));
    var o := EncodeOpen(Open(4, ReplyAs(localAs), hold, routerId, 14));
    var p := ReplyParams(localAs, v6);
    ReplyOpenHeaderAndFixed(h, o, p, Header(43, BGP_OPEN), Open(4, ReplyAs(localAs), hold, routerId, 14));
    ReplyParamsLayout(localAs, v6);
    assert r[29..] == p;
    SliceOfSlice(r, 29, 43, 4, 8);
    SliceOfSlice(r, 29, 43, 10, 14);
    assert Be32(localAs)[0..4] == Be32(localAs);
  }

  lemma ReplyOpenHeaderAndFixed(h: bytes, o: bytes, p: bytes, hd: Header, op: Open)
    requires h == EncodeHeader(hd) && o == EncodeOpen(op)
    ensures DecodeHeader(h + o + p) == Some(hd)
    ensures DecodeOpen(h + o + p, BGP_HEADER_LEN) == op
  {
    HeaderRoundTrip(hd, o + p);
    assert h + (o + p) == h + o + p;
    OpenRoundTrip(op, h, p);
  }

  /** A KEEPALIVE is recognised as one. */
  lemma KeepaliveLayout(rest: bytes)
    ensures DecodeHeader(Keepalive() + rest) == Some(Header(BGP_HEADER_LEN, BGP_KEEPALIVE))
  {
    HeaderRoundTrip(Header(BGP_HEADER_LEN, BGP_KEEPALIVE), rest);
  }

  /** The packed C structures have exactly the sizes of the length
      constants: `bgp_header` 16+2+1, `bgp_open` 1+2+2+4+1, `bgp_error`
      1+1+6. */
  lemma StructSizes(h: Header, o: Open, code: uint8, subcode: uint8, data: bytes)
    requires |data| == 6
    ensures |Marker() + Be16(h.len) + [h.msgType]| == BGP_HEADER_LEN
    ensures |[o.version] + Be16(o.asn) + Be16(o.holdTime) + Be32(o.bgpId) + [o.paramLen]| == BGP_OPEN_LEN
    ensures |[code, subcode] + data| == BGP_ERROR_LEN
  {
  }

  /** As src/p_piranha.c:457 writes it: AS_TRANS is stored into the
      network-order field without `htons`, so its octets come out in host
      order. */
  function ReplyAsOctetsAsWritten(localAs: uint32, littleEndianHost: bool): (r: bytes)
    ensures |r| == 2
    ensures localAs <= 0xffff ==> r == Be16(localAs)
  {
    if localAs <= 0xffff then Be16(localAs)
    else if littleEndianHost then [0xa0, 0x5b]
    else Be16(AS_TRANS)
  }

  /** On a little-endian host a local AS above 65535 is announced as 41051
      rather than as AS_TRANS 23456. */
  lemma ReplyAsTransByteSwapped(localAs: uint32)
    requires localAs > 0xffff
    ensures U16(ReplyAsOctetsAsWritten(localAs, true), 0) == 41051
    ensures U16(ReplyAsOctetsAsWritten(localAs, true), 0) != AS_TRANS
    ensures U16(Be16(ReplyAs(localAs)), 0) == AS_TRANS
  {
  }
}
