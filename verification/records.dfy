/** The binary event records of a dump file (src/p_dump.c). Every record is
    a 19-octet event header `{type: u8, length: u16, seconds: u64,
    microseconds: u64}` followed by `length` octets of payload, all integers
    big-endian. The layout is the one the writer produces; the session-type
    octet of a file header, the next hop, the microseconds and the large
    communities are part of it. */
module Records {
  import opened Bytes
  import opened Tools
  import opened Prefix

  const DUMP_OPEN: uint8 := 10
  const DUMP_CLOSE: uint8 := 11
  const DUMP_KEEPALIVE: uint8 := 12
  const DUMP_HEADER4: uint8 := 40
  const DUMP_ANNOUNCE4: uint8 := 41
  const DUMP_WITHDRAWN4: uint8 := 42
  const DUMP_HEADER6: uint8 := 60
  const DUMP_ANNOUNCE6: uint8 := 61
  const DUMP_WITHDRAWN6: uint8 := 62
  const DUMP_FOOTER: uint8 := 255

  const RECORD_HEADER_LEN: nat := 19

  /** Fixed part of an announcement: mask, prefix, origin, next hop, the
      one-octet AS-path count and the three two-octet list counts. */
  const ANNOUNCE4_FIXED: nat := 17
  const ANNOUNCE6_FIXED: nat := 41

  const EXT4_ENTRY: nat := 8
  const EXT6_ENTRY: nat := 20
  const LARGE_ENTRY: nat := 12

  /** A `struct timeval`; seconds are taken as non-negative. */
  datatype Stamp = Stamp(sec: uint64, usec: uint64)

  datatype Community = Community(asn: uint16, num: uint16)

  /** The optional path information of an announcement. Extended and large
      communities are kept as their raw entries. */
  datatype PathInfo = PathInfo(asPath: seq<uint32>, communities: seq<Community>,
                               extCommunities: seq<bytes>, largeCommunities: seq<bytes>)

  datatype Payload =
    | OpenRec
    | CloseRec
    | KeepaliveRec
    | FooterRec
    | Header4(ip: uint32, asn: uint32, kind: uint8)
    | Header6(ip6: Octets16, asn: uint32, kind: uint8)
    | Withdrawn4(w4: Prefix4)
    | Withdrawn6(w6: Prefix6)
    | Announce4(a4: Prefix4, origin: uint8, nextHop: uint32, path: PathInfo)
    | Announce6(a6: Prefix6, origin: uint8, nextHop6: Octets16, path: PathInfo)

  datatype Record = Record(ts: Stamp, payload: Payload)

  predicate IsHeader(p: Payload)
  {
    p.Header4? || p.Header6?
  }

  /** Open, close, keepalive, withdrawn and announce records: those that
      make a file worth keeping. */
  predicate IsEvent(p: Payload)
  {
    !IsHeader(p) && !p.FooterRec?
  }

  function TypeCode(p: Payload): uint8
  {
    match p
    case OpenRec => DUMP_OPEN
    case CloseRec => DUMP_CLOSE
    case KeepaliveRec => DUMP_KEEPALIVE
    case FooterRec => DUMP_FOOTER
    case Header4(_, _, _) => DUMP_HEADER4
    case Header6(_, _, _) => DUMP_HEADER6
    case Withdrawn4(_) => DUMP_WITHDRAWN4
    case Withdrawn6(_) => DUMP_WITHDRAWN6
    case Announce4(_, _, _, _) => DUMP_ANNOUNCE4
    case Announce6(_, _, _, _) => DUMP_ANNOUNCE6
  }

  /** The ten type codes are pairwise distinct, so the code of a record
      names its variant. */
  lemma TypeCodeNamesVariant(p: Payload, q: Payload)
    ensures TypeCode(p) == TypeCode(q) <==> SameVariant(p, q)
  {
  }

  predicate SameVariant(p: Payload, q: Payload)
  {
    && p.OpenRec? == q.OpenRec? && p.CloseRec? == q.CloseRec?
    && p.KeepaliveRec? == q.KeepaliveRec? && p.FooterRec? == q.FooterRec?
    && p.Header4? == q.Header4? && p.Header6? == q.Header6?
    && p.Withdrawn4? == q.Withdrawn4? && p.Withdrawn6? == q.Withdrawn6?
    && p.Announce4? == q.Announce4? && p.Announce6? == q.Announce6?
  }

  // ------------------------------------------------------- list encodings

  function Flatten(ss: seq<bytes>): (r: bytes)
  {
    if ss == [] then [] else ss[0] + Flatten(ss[1..])
  }

  predicate AllWidth(ss: seq<bytes>, w: nat)
  {
    forall k :: 0 <= k < |ss| ==> |ss[k]| == w
  }

  function AsChunks(s: seq<uint32>): (r: seq<bytes>)
    ensures |r| == |s| && AllWidth(r, 4)
  {
    seq(|s|, k requires 0 <= k < |s| => Be32(s[k]))
  }

  function CommunityChunks(s: seq<Community>): (r: seq<bytes>)
    ensures |r| == |s| && AllWidth(r, 4)
  {
    seq(|s|, k requires 0 <= k < |s| => Be16(s[k].asn) + Be16(s[k].num))
  }

  function ExtWidth(v6: bool): nat
  {
    if v6 then EXT6_ENTRY else EXT4_ENTRY
  }

  /** The four counts (the AS-path count in one octet, the others in two)
      followed by the four lists in that fixed order. */
  function EncodePath(p: PathInfo): (r: bytes)
  {
    PathCounts(p) + PathLists(p)
  }

  /** The counts, each cut to the width of its field. */
  function PathCounts(p: PathInfo): (r: bytes)
    ensures |r| == 7
  {
    [|p.asPath| % 0x100] + Be16(|p.communities| % 0x1_0000)
    + Be16(|p.extCommunities| % 0x1_0000) + Be16(|p.largeCommunities| % 0x1_0000)
  }

  function PathLists(p: PathInfo): bytes
  {
    Flatten(AsChunks(p.asPath)) + Flatten(CommunityChunks(p.communities))
    + Flatten(p.extCommunities) + Flatten(p.largeCommunities)
  }

  /** What the announcement writers put after the event header. */
  function EncodePayload(p: Payload): (r: bytes)
  {
    match p
    case OpenRec => []
    case CloseRec => []
    case KeepaliveRec => []
    case FooterRec => []
    case Header4(ip, asn, kind) => Be32(ip) + Be32(asn) + [kind]
    case Header6(ip6, asn, kind) => ip6 + Be32(asn) + [kind]
    case Withdrawn4(w) => [w.plen] + Be32(w.addr)
    case Withdrawn6(w) => [w.plen] + w.addr
    case Announce4(a, origin, nh, path) => [a.plen] + Be32(a.addr) + [origin] + Be32(nh) + EncodePath(path)
    case Announce6(a, origin, nh, path) => [a.plen] + a.addr + [origin] + nh + EncodePath(path)
  }

  /** The payload length the writer computes: fixed sizes for the plain
      records, and for an announcement the fixed part plus the entry sizes
      times the list counts. */
  function PayloadSize(p: Payload): nat
  {
    match p
    case Header4(_, _, _) => 9
    case Header6(_, _, _) => 21
    case Withdrawn4(_) => 5
    case Withdrawn6(_) => 17
    case Announce4(_, _, _, path) => ANNOUNCE4_FIXED + ListsSize(path, false)
    case Announce6(_, _, _, path) => ANNOUNCE6_FIXED + ListsSize(path, true)
    case _ => 0
  }

  function ListsSize(path: PathInfo, v6: bool): nat
  {
    4 * |path.asPath| + 4 * |path.communities| + ExtWidth(v6) * |path.extCommunities|
    + LARGE_ENTRY * |path.largeCommunities|
  }

  /** The length field of the event header: the computed size cut to
      16 bits. */
  function LengthField(p: Payload): uint16
  {
    PayloadSize(p) % 0x1_0000
  }

  function EncodeRecord(r: Record): (b: bytes)
    ensures |b| == RECORD_HEADER_LEN + |EncodePayload(r.payload)|
    ensures b[0] == TypeCode(r.payload)
  {
    [TypeCode(r.payload)] + Be16(LengthField(r.payload)) + Be64(r.ts.sec) + Be64(r.ts.usec)
    + EncodePayload(r.payload)
  }

  /** A dump file: its records written one after another. */
  function EncodeRecords(rs: seq<Record>): (b: bytes)
  {
    Flatten(Encoded(rs))
  }

  function Encoded(rs: seq<Record>): seq<bytes>
  {
    seq(|rs|, k requires 0 <= k < |rs| => EncodeRecord(rs[k]))
  }

  /** A path whose counts fit their fields and whose raw entries have the
      sizes the family prescribes. */
  predicate PathFits(p: PathInfo, v6: bool)
  {
    && |p.asPath| < 0x100 && |p.communities| < 0x1_0000
    && |p.extCommunities| < 0x1_0000 && |p.largeCommunities| < 0x1_0000
    && AllWidth(p.extCommunities, ExtWidth(v6)) && AllWidth(p.largeCommunities, LARGE_ENTRY)
  }

  /** A record the reader can take back: its lists fit their count fields
      and have the entry sizes the family prescribes, and its payload fits
      the 16-bit length field. */
  predicate Encodable(r: Record)
  {
    && (r.payload.Announce4? ==> PathFits(r.payload.path, false))
    && (r.payload.Announce6? ==> PathFits(r.payload.path, true))
    && PayloadSize(r.payload) < 0x1_0000
  }

  lemma {:induction false} FlattenLength(ss: seq<bytes>, w: nat)
    requires AllWidth(ss, w)
    ensures |Flatten(ss)| == w * |ss|
  {
    if ss != [] {
      FlattenLength(ss[1..], w);
    }
  }

  /** Where the `k`-th piece of a flattened list sits. */
  lemma {:induction false} FlattenAt(es: seq<bytes>, k: nat)
    requires k < |es|
    ensures var o := |Flatten(es[..k])|;
      && o + |es[k]| <= |Flatten(es)| && Flatten(es)[o..o + |es[k]|] == es[k]
      && |Flatten(es[..k + 1])| == o + |es[k]|
    decreases k
  {
    var f := Flatten(es);
    assert f == es[0] + Flatten(es[1..]);
    assert es[..1][1..] == [];
    if k == 0 {
      assert es[..0] == [];
      assert f[0..|es[0]|] == es[0];
    } else {
      var t := es[1..];
      FlattenAt(t, k - 1);
      assert es[..k][1..] == t[..k - 1] && es[..k + 1][1..] == t[..k];
      var o' := |Flatten(t[..k - 1])|;
      assert |Flatten(es[..k])| == |es[0]| + o';
      assert |Flatten(es[..k + 1])| == |es[0]| + |Flatten(t[..k])|;
      assert t[k - 1] == es[k];
      var o := |es[0]| + o';
      assert f[o..o + |es[k]|] == Flatten(t)[o'..o' + |es[k]|];
    }
  }

  /** For a fitting path the encoding has the computed size. */
  lemma PathLength(p: PathInfo, v6: bool)
    requires PathFits(p, v6)
    ensures |EncodePath(p)| == 7 + ListsSize(p, v6)
  {
    FlattenLength(AsChunks(p.asPath), 4);
    FlattenLength(CommunityChunks(p.communities), 4);
    FlattenLength(p.extCommunities, ExtWidth(v6));
    FlattenLength(p.largeCommunities, LARGE_ENTRY);
  }

  /** The size the writer computes is the size it writes, whenever the raw
      entries have their prescribed widths. */
  lemma PayloadSizeIsLength(p: Payload)
    requires p.Announce4? ==> PathFits(p.path, false)
    requires p.Announce6? ==> PathFits(p.path, true)
    ensures PayloadSize(p) == |EncodePayload(p)|
  {
    match p
    case Announce4(_, _, _, path) => PathLength(path, false);
    case Announce6(_, _, _, path) => PathLength(path, true);
    case _ =>
  }

  /** A size below 65536 is its own length field. */
  lemma LengthFieldOfSize(p: Payload)
    requires PayloadSize(p) < 0x1_0000
    ensures LengthField(p) == PayloadSize(p)
  {
  }

  /** The length field states the payload length of every encodable record. */
  lemma LengthFieldIsPayloadLength(r: Record)
    requires Encodable(r)
    ensures LengthField(r.payload) == |EncodePayload(r.payload)|
  {
    PayloadSizeIsLength(r.payload);
  }
}
