/** Reading a dump file back, record by record (`p_undump_readmsg`,
    src/p_undump.c). The reader keeps two flags: `head`, set by the one file
    header it accepts, and `end`, set by the footer; every call after the
    footer fails. A payload is read into a zero-filled 64 KiB buffer, so
    fields past the declared length read as zeros. */
module Undump {
  import opened Bytes
  import opened Tools
  import opened Prefix
  import opened Records

  const READ_BUFFER: nat := 0x1_0000

  /** `struct dump_file_ctx`: whether the file is open, how far it has been
      read, and the two flags. */
  datatype Ctx = Ctx(open: bool, pos: nat, head: bool, end: bool)

  /** The record read (None for the C's -1) and the context afterwards;
      a NULL context stays NULL. */
  datatype ReadResult = ReadResult(rec: Option<Record>, ctx: Option<Ctx>)

  /** The zero-filled read buffer holding a payload. */
  function Buffer(payload: bytes): (r: bytes)
    requires |payload| <= READ_BUFFER
    ensures |r| == READ_BUFFER && r[..|payload|] == payload
  {
    var r := payload + Zeros(READ_BUFFER - |payload|);
    assert r[..|payload|] == payload;
    r
  }

  /** `n` consecutive entries of `w` octets starting at `base`. */
  function Chunks(b: bytes, base: nat, w: nat, n: nat): (r: seq<bytes>)
    requires base + w * n <= |b|
    ensures |r| == n && AllWidth(r, w)
  {
    seq(n, k requires 0 <= k < n => Entry(b, base, w, n, k))
  }

  /** The `k`-th of those entries. */
  function Entry(b: bytes, base: nat, w: nat, n: nat, k: nat): (r: bytes)
    requires base + w * n <= |b| && k < n
    ensures |r| == w
  {
    SlotEnd(w, k, n);
    b[base + w * k..base + w * k + w]
  }

  function AsNumbers(cs: seq<bytes>): (r: seq<uint32>)
    requires AllWidth(cs, 4)
    ensures |r| == |cs|
  {
    seq(|cs|, k requires 0 <= k < |cs| => U32(cs[k], 0))
  }

  function Communities(cs: seq<bytes>): (r: seq<Community>)
    requires AllWidth(cs, 4)
    ensures |r| == |cs|
  {
    seq(|cs|, k requires 0 <= k < |cs| => Community(U16(cs[k], 0), U16(cs[k], 2)))
  }

  /** The counts at `j` and the four lists after them; None when the lists
      would run past the buffer. */
  function DecodePath(buf: bytes, j: nat, v6: bool): Option<PathInfo>
    requires j + 7 <= |buf|
  {
    DecodeLists(buf, j + 7, v6, buf[j] as nat, U16(buf, j + 1) as nat, U16(buf, j + 3) as nat, U16(buf, j + 5) as nat)
  }

  /** The AS path, community, extended and large community lists with the
      given counts, one after another from `base`. */
  function DecodeLists(buf: bytes, base: nat, v6: bool, a: nat, c: nat, e: nat, l: nat): Option<PathInfo>
  {
    var k1 := base + 4 * a;
    var k2 := k1 + 4 * c;
    var k3 := k2 + ExtWidth(v6) * e;
    if k3 + LARGE_ENTRY * l > |buf| then None
    else
      Some(PathInfo(AsNumbers(Chunks(buf, base, 4, a)), Communities(Chunks(buf, k1, 4, c)),
                    Chunks(buf, k2, ExtWidth(v6), e), Chunks(buf, k3, LARGE_ENTRY, l)))
  }

  /** The payload for type code `t`, if the type is accepted in the
      current `head` state: a file header only before any header, every
      other record only after one. */
  function DecodePayload(t: uint8, buf: bytes, head: bool): (r: Option<Payload>)
    requires |buf| == READ_BUFFER
    ensures r.Some? ==> TypeCode(r.value) == t && (IsHeader(r.value) <==> !head)
  {
    if t == DUMP_HEADER4 && !head then Some(Header4(U32(buf, 0), U32(buf, 4), buf[8]))
    else if t == DUMP_HEADER6 && !head then Some(Header6(buf[..16], U32(buf, 16), buf[20]))
    else if !head then None
    else if t == DUMP_OPEN then Some(OpenRec)
    else if t == DUMP_CLOSE then Some(CloseRec)
    else if t == DUMP_KEEPALIVE then Some(KeepaliveRec)
    else if t == DUMP_ANNOUNCE4 then
      match DecodePath(buf, 10, false)
      case None => None
      case Some(path) => Some(Announce4(Prefix4(buf[0], U32(buf, 1)), buf[5], U32(buf, 6), path))
    else if t == DUMP_ANNOUNCE6 then
      match DecodePath(buf, 34, true)
      case None => None
      case Some(path) => Some(Announce6(Prefix6(buf[0], buf[1..17]), buf[17], buf[18..34], path))
    else if t == DUMP_WITHDRAWN4 then Some(Withdrawn4(Prefix4(buf[0], U32(buf, 1))))
    else if t == DUMP_WITHDRAWN6 then Some(Withdrawn6(Prefix6(buf[0], buf[1..17])))
    else if t == DUMP_FOOTER then Some(FooterRec)
    else None
  }

  /** `p_undump_readmsg`. A missing context, a closed file, a missing output
      record or a read after the footer fail with nothing consumed; a short
      header or payload fails having consumed the rest of the file; a type
      not accepted in the current state fails having consumed the record. */
  function ReadMsg(f: bytes, c: Option<Ctx>, out: bool): (r: ReadResult)
    ensures c.None? ==> r == ReadResult(None, None)
    ensures c.Some? && (!c.value.open || !out || c.value.end) ==> r == ReadResult(None, c)
    ensures r.rec.Some? ==> c.Some? && r.ctx.Some? && c.value.pos + RECORD_HEADER_LEN <= r.ctx.value.pos <= |f|
    ensures r.rec.Some? ==> r.ctx.value == Ctx(true, r.ctx.value.pos, c.value.head || IsHeader(r.rec.value.payload),
                                               r.rec.value.payload.FooterRec?)
  {
    if c.None? then ReadResult(None, None)
    else
      var ctx := c.value;
      if !ctx.open || !out || ctx.end then ReadResult(None, c)
      else
        var rest := if ctx.pos <= |f| then f[ctx.pos..] else [];
        if |rest| < RECORD_HEADER_LEN then ReadResult(None, Some(ctx.(pos := ctx.pos + |rest|)))
        else
          var t, len := rest[0], U16(rest, 1);
          var ts := Stamp(U64(rest, 3), U64(rest, 11));
          if |rest| - RECORD_HEADER_LEN < len then ReadResult(None, Some(ctx.(pos := ctx.pos + |rest|)))
          else
            var next := ctx.pos + RECORD_HEADER_LEN + len;
            match DecodePayload(t, Buffer(rest[RECORD_HEADER_LEN..RECORD_HEADER_LEN + len]), ctx.head)
            case None => ReadResult(None, Some(ctx.(pos := next)))
            case Some(p) =>
              ReadResult(Some(Record(ts, p)), Some(Ctx(true, next, ctx.head || IsHeader(p), p.FooterRec?)))
  }

  /** Reading records until the first failure. */
  function ReadAll(f: bytes, c: Ctx): seq<Record>
    requires c.pos <= |f|
    decreases |f| - c.pos
  {
    var r := ReadMsg(f, Some(c), true);
    if r.rec.None? then [] else [r.rec.value] + ReadAll(f, r.ctx.value)
  }

  /** A file as read from its start. */
  function ReadFile(f: bytes): seq<Record>
  {
    ReadAll(f, Ctx(true, 0, false, false))
  }

  /** A record the reader accepts in the given `head` state. */
  predicate Allowed(p: Payload, head: bool)
  {
    if IsHeader(p) then !head else head
  }

  /** A run of records that reads back in full from the given state: each
      is encodable and allowed where it stands (after the first record a
      header has been read), and a footer can only come last. */
  predicate Readable(rs: seq<Record>, head: bool)
  {
    forall k | 0 <= k < |rs| ::
      && Encodable(rs[k]) && Allowed(rs[k].payload, head || k > 0)
      && (rs[k].payload.FooterRec? ==> k == |rs| - 1)
  }

  /** The context after `k` records of a readable run have been read from
      offset `i`. */
  function CtxAfter(rs: seq<Record>, i: nat, head: bool, k: nat): Ctx
    requires k <= |rs|
  {
    Ctx(true, i + |Flatten(Encoded(rs)[..k])|, head || k > 0, k > 0 && rs[k - 1].payload.FooterRec?)
  }

  // ----------------------------------------------------------- round trips

  /** Entries of width `w` laid out one after another read back as the
      same entries. */
  lemma ChunksAt(b: bytes, base: nat, w: nat, ss: seq<bytes>)
    requires AllWidth(ss, w) && base + |Flatten(ss)| <= |b| && b[base..base + |Flatten(ss)|] == Flatten(ss)
    ensures base + w * |ss| <= |b| && Chunks(b, base, w, |ss|) == ss
  {
    FlattenLength(ss, w);
    var r := Chunks(b, base, w, |ss|);
    forall k | 0 <= k < |ss|
      ensures r[k] == ss[k]
    {
      ChunkAt(b, base, w, ss, k);
    }
  }

  /** The `k`-th of those entries read back. */
  lemma ChunkAt(b: bytes, base: nat, w: nat, ss: seq<bytes>, k: nat)
    requires AllWidth(ss, w) && base + |Flatten(ss)| <= |b| && b[base..base + |Flatten(ss)|] == Flatten(ss)
    requires base + w * |ss| <= |b| && k < |ss|
    ensures Entry(b, base, w, |ss|, k) == ss[k]
  {
    var front := ss[..k];
    assert |front| == k && AllWidth(front, w);
    FlattenLength(front, w);
    FlattenAt(ss, k);
    var off := |Flatten(front)|;
    assert off == w * k;
    Within(b, base, Flatten(ss), off, ss[k]);
    assert |ss[k]| == w;
  }

  lemma AsNumbersOfChunks(s: seq<uint32>)
    ensures AsNumbers(AsChunks(s)) == s
  {
  }

  lemma CommunitiesOfChunks(s: seq<Community>)
    ensures Communities(CommunityChunks(s)) == s
  {
    var cs := CommunityChunks(s);
    forall k | 0 <= k < |s|
      ensures U16(cs[k], 0) == s[k].asn && U16(cs[k], 2) == s[k].num
    {
      assert cs[k][2..4] == Be16(s[k].num)[0..2];
      U16Slice(cs[k], 2, Be16(s[k].num), 0);
    }
  }

  /** The counts of a fitting path read back from its encoding. */
  lemma PathCountsRead(p: PathInfo, v6: bool, b: bytes, j: nat)
    requires PathFits(p, v6) && j + 7 <= |b| && b[j..j + 7] == PathCounts(p)
    ensures b[j] as nat == |p.asPath| && U16(b, j + 1) as nat == |p.communities|
      && U16(b, j + 3) as nat == |p.extCommunities| && U16(b, j + 5) as nat == |p.largeCommunities|
  {
    SmallMod(|p.asPath|, 0x100);
    SmallMod(|p.communities|, 0x1_0000);
    SmallMod(|p.extCommunities|, 0x1_0000);
    SmallMod(|p.largeCommunities|, 0x1_0000);
    var c := PathCounts(p);
    assert b[j] == c[0];
    var c1, c2, c3 := Be16(|p.communities|), Be16(|p.extCommunities|), Be16(|p.largeCommunities|);
    assert c[1..3] == c1 && c[3..5] == c2 && c[5..7] == c3;
    Within(b, j, c, 1, c1);
    Within(b, j, c, 3, c2);
    Within(b, j, c, 5, c3);
    U16Slice(b, j + 1, c1, 0);
    U16Slice(b, j + 3, c2, 0);
    U16Slice(b, j + 5, c3, 0);
  }

  /** A fitting path decodes from its encoding wherever it sits. */
  lemma PathRoundTrip(p: PathInfo, v6: bool, b: bytes, j: nat)
    requires PathFits(p, v6) && j + |EncodePath(p)| <= |b| && b[j..j + |EncodePath(p)|] == EncodePath(p)
    ensures DecodePath(b, j, v6) == Some(p)
  {
    var e, c7, ls := EncodePath(p), PathCounts(p), PathLists(p);
    assert e[..7] == c7 && e[7..] == ls;
    Within(b, j, e, 0, c7);
    Within(b, j, e, 7, ls);
    PathCountsRead(p, v6, b, j);
    ListsRoundTrip(p, v6, b, j + 7);
  }

  /** The four lists of a fitting path decode, with the path's own counts,
      from wherever they sit. */
  lemma ListsRoundTrip(p: PathInfo, v6: bool, b: bytes, base: nat)
    requires PathFits(p, v6) && base + |PathLists(p)| <= |b| && b[base..base + |PathLists(p)|] == PathLists(p)
    ensures DecodeLists(b, base, v6, |p.asPath|, |p.communities|, |p.extCommunities|, |p.largeCommunities|) == Some(p)
  {
    var k1, k2, k3 := ListsAt(b, base, AsChunks(p.asPath), CommunityChunks(p.communities),
                              p.extCommunities, p.largeCommunities, ExtWidth(v6));
    ListsOfChunks(p, v6, b, base, k1, k2, k3);
  }

  /** Four lists of entries, of widths 4, 4, `w` and `LARGE_ENTRY`, laid out
      one after another from `base`, read back as entries from where their
      lengths place them. */
  lemma ListsAt(b: bytes, base: nat, s0: seq<bytes>, s1: seq<bytes>, s2: seq<bytes>, s3: seq<bytes>, w: nat)
      returns (k1: nat, k2: nat, k3: nat)
    requires AllWidth(s0, 4) && AllWidth(s1, 4) && AllWidth(s2, w) && AllWidth(s3, LARGE_ENTRY)
    requires var e := Flatten(s0) + Flatten(s1) + Flatten(s2) + Flatten(s3);
      base + |e| <= |b| && b[base..base + |e|] == e
    ensures k1 == base + 4 * |s0| && k2 == k1 + 4 * |s1| && k3 == k2 + w * |s2| && k3 + LARGE_ENTRY * |s3| <= |b|
    ensures Chunks(b, base, 4, |s0|) == s0 && Chunks(b, k1, 4, |s1|) == s1
    ensures Chunks(b, k2, w, |s2|) == s2 && Chunks(b, k3, LARGE_ENTRY, |s3|) == s3
  {
    var n0, n1, n2, n3 := 4 * |s0|, 4 * |s1|, w * |s2|, LARGE_ENTRY * |s3|;
    FlattenLength(s0, 4);
    FlattenLength(s1, 4);
    FlattenLength(s2, w);
    FlattenLength(s3, LARGE_ENTRY);
    Split4(b, base, Flatten(s0), Flatten(s1), Flatten(s2), Flatten(s3), n0, n1, n2, n3);
    k1, k2, k3 := base + n0, base + n0 + n1, base + n0 + n1 + n2;
    ChunksOf(b, base, 4, |s0|, s0);
    ChunksOf(b, k1, 4, |s1|, s1);
    ChunksOf(b, k2, w, |s2|, s2);
    ChunksOf(b, k3, LARGE_ENTRY, |s3|, s3);
  }

  /** The lists decode once each sits, as entries, where its count places it. */
  lemma ListsOfChunks(p: PathInfo, v6: bool, b: bytes, base: nat, k1: nat, k2: nat, k3: nat)
    requires k1 == base + 4 * |p.asPath| && k2 == k1 + 4 * |p.communities|
    requires k3 == k2 + ExtWidth(v6) * |p.extCommunities| && k3 + LARGE_ENTRY * |p.largeCommunities| <= |b|
    requires Chunks(b, base, 4, |p.asPath|) == AsChunks(p.asPath)
    requires Chunks(b, k1, 4, |p.communities|) == CommunityChunks(p.communities)
    requires Chunks(b, k2, ExtWidth(v6), |p.extCommunities|) == p.extCommunities
    requires Chunks(b, k3, LARGE_ENTRY, |p.largeCommunities|) == p.largeCommunities
    ensures DecodeLists(b, base, v6, |p.asPath|, |p.communities|, |p.extCommunities|, |p.largeCommunities|) == Some(p)
  {
    AsNumbersOfChunks(p.asPath);
    CommunitiesOfChunks(p.communities);
  }

  /** `n` entries of width `w` found at `at` read back as those entries. */
  lemma ChunksOf(b: bytes, at: nat, w: nat, n: nat, ss: seq<bytes>)
    requires AllWidth(ss, w) && n == |ss| && at + w * n <= |b| && b[at..at + w * n] == Flatten(ss)
    ensures Chunks(b, at, w, n) == ss
  {
    FlattenLength(ss, w);
    ChunksAt(b, at, w, ss);
  }

  /** What the reader needs of a record: the length field states the
      payload length, and the payload decodes back from the read buffer. */
  predicate ReadsBack(r: Record, head: bool)
  {
    && LengthField(r.payload) == |EncodePayload(r.payload)| < READ_BUFFER
    && DecodePayload(TypeCode(r.payload), Buffer(EncodePayload(r.payload)), head) == Some(r.payload)
  }

  /** Every encodable payload decodes back from the read buffer, in the
      state that allows it. */
  lemma PayloadRoundTrip(r: Record, head: bool)
    requires Encodable(r) && Allowed(r.payload, head)
    ensures ReadsBack(r, head)
  {
    match r.payload
    case Header4(_, _, _) => Header4Back(r);
    case Header6(_, _, _) => Header6Back(r);
    case Withdrawn4(_) => Withdrawn4Back(r);
    case Withdrawn6(_) => Withdrawn6Back(r);
    case Announce4(_, _, _, _) => Announce4Back(r);
    case Announce6(_, _, _, _) => Announce6Back(r);
    case _ =>
  }

  /** The read buffer of a payload starts with the payload. */
  lemma BufferStarts(e: bytes)
    requires |e| < READ_BUFFER
    ensures Buffer(e)[0..|e|] == e
  {
    assert Buffer(e)[0..|e|] == Buffer(e)[..|e|];
  }

  lemma Header4Back(r: Record)
    requires r.payload.Header4?
    ensures ReadsBack(r, false)
  {
    var e := EncodePayload(r.payload);
    var buf := Buffer(e);
    BufferStarts(e);
    var ip, asn := r.payload.ip, r.payload.asn;
    assert e[0..4] == Be32(ip) && e[4..8] == Be32(asn) && buf[8] == e[8];
    Within(buf, 0, e, 0, Be32(ip));
    Within(buf, 0, e, 4, Be32(asn));
    U32Slice(buf, 0, Be32(ip), 0);
    U32Slice(buf, 4, Be32(asn), 0);
  }

  lemma Header6Back(r: Record)
    requires r.payload.Header6?
    ensures ReadsBack(r, false)
  {
    var e := EncodePayload(r.payload);
    var buf := Buffer(e);
    BufferStarts(e);
    var ip6, asn := r.payload.ip6, r.payload.asn;
    assert e[0..16] == ip6 && e[16..20] == Be32(asn) && buf[20] == e[20];
    Within(buf, 0, e, 0, ip6);
    Within(buf, 0, e, 16, Be32(asn));
    U32Slice(buf, 16, Be32(asn), 0);
    assert buf[..16] == buf[0..16];
  }

  lemma Withdrawn4Back(r: Record)
    requires r.payload.Withdrawn4?
    ensures ReadsBack(r, true)
  {
    var e := EncodePayload(r.payload);
    var buf := Buffer(e);
    BufferStarts(e);
    var w := r.payload.w4;
    assert e[1..5] == Be32(w.addr) && buf[0] == e[0];
    Within(buf, 0, e, 1, Be32(w.addr));
    U32Slice(buf, 1, Be32(w.addr), 0);
  }

  lemma Withdrawn6Back(r: Record)
    requires r.payload.Withdrawn6?
    ensures ReadsBack(r, true)
  {
    var e := EncodePayload(r.payload);
    var buf := Buffer(e);
    BufferStarts(e);
    var w := r.payload.w6;
    assert e[1..17] == w.addr && buf[0] == e[0];
    Within(buf, 0, e, 1, w.addr);
  }

  lemma Announce4Back(r: Record)
    requires r.payload.Announce4? && PathFits(r.payload.path, false) && PayloadSize(r.payload) < 0x1_0000
    ensures ReadsBack(r, true)
  {
    PayloadSizeIsLength(r.payload);
    var e := EncodePayload(r.payload);
    BufferStarts(e);
    var buf := Buffer(e);
    Announce4RoundTrip(r.payload.a4, r.payload.origin, r.payload.nextHop, r.payload.path, buf);
    Announce4Decodes(r.payload.a4, r.payload.origin, r.payload.nextHop, r.payload.path, buf);
    assert r.payload == Announce4(r.payload.a4, r.payload.origin, r.payload.nextHop, r.payload.path);
    assert TypeCode(r.payload) == DUMP_ANNOUNCE4;
    LengthFieldOfSize(r.payload);
  }

  lemma Announce6Back(r: Record)
    requires r.payload.Announce6? && PathFits(r.payload.path, true) && PayloadSize(r.payload) < 0x1_0000
    ensures ReadsBack(r, true)
  {
    PayloadSizeIsLength(r.payload);
    var e := EncodePayload(r.payload);
    BufferStarts(e);
    var buf := Buffer(e);
    Announce6RoundTrip(r.payload.a6, r.payload.origin, r.payload.nextHop6, r.payload.path, buf);
    Announce6Decodes(r.payload.a6, r.payload.origin, r.payload.nextHop6, r.payload.path, buf);
    assert r.payload == Announce6(r.payload.a6, r.payload.origin, r.payload.nextHop6, r.payload.path);
    assert TypeCode(r.payload) == DUMP_ANNOUNCE6;
    LengthFieldOfSize(r.payload);
  }

  /** An announcement decodes from a buffer holding its fields. */
  lemma Announce4Decodes(a: Prefix4, origin: uint8, nh: uint32, path: PathInfo, buf: bytes)
    requires |buf| == READ_BUFFER && DecodePath(buf, 10, false) == Some(path)
    requires buf[0] == a.plen && U32(buf, 1) == a.addr && buf[5] == origin && U32(buf, 6) == nh
    ensures DecodePayload(DUMP_ANNOUNCE4, buf, true) == Some(Announce4(a, origin, nh, path))
  {
  }

  lemma Announce6Decodes(a: Prefix6, origin: uint8, nh: Octets16, path: PathInfo, buf: bytes)
    requires |buf| == READ_BUFFER && DecodePath(buf, 34, true) == Some(path)
    requires buf[0] == a.plen && buf[1..17] == a.addr && buf[17] == origin && buf[18..34] == nh
    ensures DecodePayload(DUMP_ANNOUNCE6, buf, true) == Some(Announce6(a, origin, nh, path))
  {
  }

  lemma Announce4RoundTrip(a: Prefix4, origin: uint8, nh: uint32, path: PathInfo, buf: bytes)
    requires PathFits(path, false)
    requires var e := EncodePayload(Announce4(a, origin, nh, path)); |e| <= |buf| && buf[0..|e|] == e
    ensures |buf| >= 17 && DecodePath(buf, 10, false) == Some(path)
      && buf[0] == a.plen && U32(buf, 1) == a.addr && buf[5] == origin && U32(buf, 6) == nh
  {
    var e := EncodePayload(Announce4(a, origin, nh, path));
    Pieces([a.plen], Be32(a.addr), [origin], Be32(nh), EncodePath(path));
    Within(buf, 0, e, 10, EncodePath(path));
    PathRoundTrip(path, false, buf, 10);
    Within(buf, 0, e, 1, Be32(a.addr));
    Within(buf, 0, e, 6, Be32(nh));
    U32Slice(buf, 1, Be32(a.addr), 0);
    U32Slice(buf, 6, Be32(nh), 0);
    assert buf[0] == e[0] && buf[5] == e[5];
  }

  lemma Announce6RoundTrip(a: Prefix6, origin: uint8, nh: Octets16, path: PathInfo, buf: bytes)
    requires PathFits(path, true)
    requires var e := EncodePayload(Announce6(a, origin, nh, path)); |e| <= |buf| && buf[0..|e|] == e
    ensures |buf| >= 41 && DecodePath(buf, 34, true) == Some(path)
      && buf[0] == a.plen && buf[1..17] == a.addr && buf[17] == origin && buf[18..34] == nh
  {
    var e := EncodePayload(Announce6(a, origin, nh, path));
    Pieces([a.plen], a.addr, [origin], nh, EncodePath(path));
    Within(buf, 0, e, 34, EncodePath(path));
    PathRoundTrip(path, true, buf, 34);
    Within(buf, 0, e, 1, a.addr);
    Within(buf, 0, e, 18, nh);
    assert buf[0] == e[0] && buf[17] == e[17];
  }

  /** The event header fields and the payload at the start of `rest`. */
  predicate HeaderAt(rest: bytes, r: Record, payload: bytes)
  {
    && |rest| >= RECORD_HEADER_LEN + |payload| && rest[0] == TypeCode(r.payload)
    && U16(rest, 1) as nat == |payload| && U64(rest, 3) == r.ts.sec && U64(rest, 11) == r.ts.usec
    && rest[RECORD_HEADER_LEN..RECORD_HEADER_LEN + |payload|] == payload
  }

  /** The fields of an event header read back from wherever a record sits. */
  lemma RecordFieldsRead(f: bytes, i: nat, r: Record)
    requires LengthField(r.payload) == |EncodePayload(r.payload)|
    requires i + |EncodeRecord(r)| <= |f| && f[i..i + |EncodeRecord(r)|] == EncodeRecord(r)
    ensures HeaderAt(f[i..], r, EncodePayload(r.payload))
  {
    var e := EncodeRecord(r);
    var p := EncodePayload(r.payload);
    var rest := f[i..];
    assert rest[0..|e|] == e by {
      assert forall m :: 0 <= m < |e| ==> rest[m] == f[i..i + |e|][m];
    }
    var h1, h2, h3 := Be16(LengthField(r.payload)), Be64(r.ts.sec), Be64(r.ts.usec);
    Pieces([TypeCode(r.payload)], h1, h2, h3, p);
    Within(rest, 0, e, 1, h1);
    Within(rest, 0, e, 3, h2);
    Within(rest, 0, e, 11, h3);
    Within(rest, 0, e, RECORD_HEADER_LEN, p);
    U16Slice(rest, 1, h1, 0);
    U64Slice(rest, 3, h2, 0);
    U64Slice(rest, 11, h3, 0);
  }

  /** Reading a record whose header fields and payload are in place. */
  lemma ReadMsgOfFields(f: bytes, i: nat, r: Record, payload: bytes, head: bool, c': Ctx)
    requires i <= |f| && |payload| < READ_BUFFER && HeaderAt(f[i..], r, payload)
    requires DecodePayload(TypeCode(r.payload), Buffer(payload), head) == Some(r.payload)
    requires c' == Ctx(true, i + RECORD_HEADER_LEN + |payload|, head || IsHeader(r.payload), r.payload.FooterRec?)
    ensures ReadMsg(f, Some(Ctx(true, i, head, false)), true) == ReadResult(Some(r), Some(c'))
  {
  }

  /** A record that reads back, found where it was written: the reader
      returns it and steps over exactly its encoding. */
  lemma ReadMsgAt(f: bytes, i: nat, r: Record, head: bool, c': Ctx)
    requires ReadsBack(r, head)
    requires i + |EncodeRecord(r)| <= |f| && f[i..i + |EncodeRecord(r)|] == EncodeRecord(r)
    requires c' == Ctx(true, i + |EncodeRecord(r)|, head || IsHeader(r.payload), r.payload.FooterRec?)
    ensures ReadMsg(f, Some(Ctx(true, i, head, false)), true) == ReadResult(Some(r), Some(c'))
  {
    var p := EncodePayload(r.payload);
    assert |p| < READ_BUFFER && DecodePayload(TypeCode(r.payload), Buffer(p), head) == Some(r.payload);
    assert i + |EncodeRecord(r)| == i + RECORD_HEADER_LEN + |p|;
    RecordFieldsRead(f, i, r);
    ReadMsgOfFields(f, i, r, p, head, c');
  }

  /** One record read from wherever it sits in a file: the reader returns it,
      steps over exactly its encoding, sets `head` on a header and `end` on
      the footer. */
  lemma ReadMsgRoundTrip(f: bytes, i: nat, r: Record, head: bool)
    requires Encodable(r) && Allowed(r.payload, head)
    requires i + |EncodeRecord(r)| <= |f| && f[i..i + |EncodeRecord(r)|] == EncodeRecord(r)
    ensures ReadMsg(f, Some(Ctx(true, i, head, false)), true)
      == ReadResult(Some(r), Some(Ctx(true, i + |EncodeRecord(r)|, head || IsHeader(r.payload), r.payload.FooterRec?)))
  {
    PayloadRoundTrip(r, head);
    ReadMsgAt(f, i, r, head, Ctx(true, i + |EncodeRecord(r)|, head || IsHeader(r.payload), r.payload.FooterRec?));
  }

  /** Where the `k`-th record of a run sits in its encoding. */
  lemma RecordAt(f: bytes, i: nat, rs: seq<Record>, k: nat, o: nat, e: bytes)
    requires i <= |f| && f[i..] == EncodeRecords(rs) && k < |rs|
    requires o == |Flatten(Encoded(rs)[..k])| && e == EncodeRecord(rs[k])
    ensures i + o + |e| <= |f| && f[i + o..i + o + |e|] == e && |Flatten(Encoded(rs)[..k + 1])| == o + |e|
  {
    var es := Encoded(rs);
    assert es[k] == e;
    PieceAt(f, i, es, k);
  }

  /** Where the `k`-th piece of a flattened list sits in a file holding it
      from offset `i`. */
  lemma PieceAt(f: bytes, i: nat, es: seq<bytes>, k: nat)
    requires i <= |f| && f[i..] == Flatten(es) && k < |es|
    ensures var o := |Flatten(es[..k])|;
      && i + o + |es[k]| <= |f| && f[i + o..i + o + |es[k]|] == es[k] && |Flatten(es[..k + 1])| == o + |es[k]|
  {
    var fl := Flatten(es);
    FlattenAt(es, k);
    assert f[i..i + |fl|] == fl by {
      assert f[i..i + |fl|] == f[i..];
    }
    Within(f, i, fl, |Flatten(es[..k])|, es[k]);
  }

  /** The `k`-th read of a run returns its `k`-th record and leaves the
      reader where the next one starts, when that record is readable, sits
      where it was written and follows no footer. */
  lemma ReadKth(f: bytes, i: nat, rs: seq<Record>, head: bool, k: nat)
    requires i <= |f| && f[i..] == EncodeRecords(rs) && k < |rs|
    requires Encodable(rs[k]) && Allowed(rs[k].payload, head || k > 0)
    requires k > 0 ==> !rs[k - 1].payload.FooterRec?
    ensures ReadMsg(f, Some(CtxAfter(rs, i, head, k)), true) == ReadResult(Some(rs[k]), Some(CtxAfter(rs, i, head, k + 1)))
  {
    var o := |Flatten(Encoded(rs)[..k])|;
    var e := EncodeRecord(rs[k]);
    RecordAt(f, i, rs, k, o, e);
    var r := rs[k];
    var h := head || k > 0;
    var c, c' := CtxAfter(rs, i, head, k), CtxAfter(rs, i, head, k + 1);
    assert c == Ctx(true, i + o, h, false);
    assert c' == Ctx(true, i + o + |e|, h || IsHeader(r.payload), r.payload.FooterRec?);
    ReadStep(f, i + o, r, h, c, c');
  }

  /** `ReadMsgRoundTrip` with the contexts before and after named. */
  lemma ReadStep(f: bytes, j: nat, r: Record, h: bool, c: Ctx, c': Ctx)
    requires Encodable(r) && Allowed(r.payload, h)
    requires j + |EncodeRecord(r)| <= |f| && f[j..j + |EncodeRecord(r)|] == EncodeRecord(r)
    requires c == Ctx(true, j, h, false)
    requires c' == Ctx(true, j + |EncodeRecord(r)|, h || IsHeader(r.payload), r.payload.FooterRec?)
    ensures ReadMsg(f, Some(c), true) == ReadResult(Some(r), Some(c'))
  {
    ReadMsgRoundTrip(f, j, r, h);
  }

  /** After the last record the reader fails: at the end of the file, or
      because the footer was read. */
  lemma ReadPastLast(f: bytes, i: nat, rs: seq<Record>, head: bool)
    requires i <= |f| && f[i..] == EncodeRecords(rs)
    ensures ReadMsg(f, Some(CtxAfter(rs, i, head, |rs|)), true).rec == None
  {
    assert Encoded(rs)[..|rs|] == Encoded(rs);
    ReadAtEnd(f, CtxAfter(rs, i, head, |rs|));
  }

  /** Collecting reads that each return the next record, ending in a failed
      read, gives the records in order. */
  lemma {:induction false} ReadAllCollects(f: bytes, cs: seq<Ctx>, rs: seq<Record>)
    requires |cs| == |rs| + 1 && cs[0].pos <= |f|
    requires forall k | 0 <= k < |rs| :: ReadMsg(f, Some(cs[k]), true) == ReadResult(Some(rs[k]), Some(cs[k + 1]))
    requires ReadMsg(f, Some(cs[|rs|]), true).rec == None
    ensures ReadAll(f, cs[0]) == rs
    decreases |rs|
  {
    if rs != [] {
      assert ReadMsg(f, Some(cs[0]), true) == ReadResult(Some(rs[0]), Some(cs[1]));
      ReadAllCollects(f, cs[1..], rs[1..]);
      assert rs == [rs[0]] + rs[1..];
    }
  }

  /** A readable run of records, written one after another, reads back in
      full. */
  lemma ReadAllRoundTrip(f: bytes, i: nat, rs: seq<Record>, head: bool)
    requires Readable(rs, head) && i <= |f| && f[i..] == EncodeRecords(rs)
    ensures ReadAll(f, Ctx(true, i, head, false)) == rs
  {
    var cs := seq(|rs| + 1, k requires 0 <= k <= |rs| => CtxAfter(rs, i, head, k));
    EachReadInOrder(f, i, rs, head, cs);
    ReadPastLast(f, i, rs, head);
    assert cs[0] == Ctx(true, i, head, false);
    ReadAllCollects(f, cs, rs);
  }

  /** Every read of a readable run, from the context its predecessors leave,
      returns the next record. */
  lemma EachReadInOrder(f: bytes, i: nat, rs: seq<Record>, head: bool, cs: seq<Ctx>)
    requires Readable(rs, head) && i <= |f| && f[i..] == EncodeRecords(rs)
    requires |cs| == |rs| + 1 && forall k | 0 <= k <= |rs| :: cs[k] == CtxAfter(rs, i, head, k)
    ensures forall k | 0 <= k < |rs| :: ReadMsg(f, Some(cs[k]), true) == ReadResult(Some(rs[k]), Some(cs[k + 1]))
  {
    forall k | 0 <= k < |rs|
      ensures ReadMsg(f, Some(cs[k]), true) == ReadResult(Some(rs[k]), Some(cs[k + 1]))
    {
      ReadKth(f, i, rs, head, k);
    }
  }

  lemma ReadAllStep(f: bytes, c: Ctx, r: Record, c': Ctx)
    requires c.pos <= |f| && ReadMsg(f, Some(c), true) == ReadResult(Some(r), Some(c'))
    ensures ReadAll(f, c) == [r] + ReadAll(f, c')
  {
  }

  /** At the end of the file the reader fails. */
  lemma ReadAtEnd(f: bytes, c: Ctx)
    requires c.pos == |f|
    ensures ReadMsg(f, Some(c), true).rec == None
  {
  }

  /** A whole file — one header, events, one footer — reads back in full. */
  lemma ReadFileRoundTrip(rs: seq<Record>)
    requires Readable(rs, false)
    ensures ReadFile(EncodeRecords(rs)) == rs
  {
    var f := EncodeRecords(rs);
    assert f[0..] == f;
    ReadAllRoundTrip(f, 0, rs, false);
  }

  /** Once the footer has been read, every further call fails and leaves
      the context as it is. */
  lemma NothingAfterFooter(f: bytes, c: Ctx)
    requires c.end
    ensures ReadMsg(f, Some(c), true) == ReadResult(None, Some(c))
  {
  }
}
