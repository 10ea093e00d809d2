/** How the announce writers copy the path lists they are handed into the
    record (src/p_dump.c:246-288 and 354-397). The session passes pointers
    into the received UPDATE: the AS_PATH entries (four octets each for a
    peer that announced 4-octet AS support, two otherwise) and the
    COMMUNITY value; extended and large communities are raw entries of 8,
    20 and 12 octets. Each list is copied entry by entry into a fixed
    256-entry buffer and written out verbatim.

    The functions named `...AsWritten` follow the C statements literally;
    the others are the copies the record layout calls for, which the rest of
    the model uses. */
module Entries {
  import opened Bytes
  import opened Records
  import opened Undump

  /** Entries of the writer's fixed copy buffers. */
  const COPY_SLOTS: nat := 256

  // -------------------------------------------------------------- AS path

  /** The value of the `i`-th AS_PATH entry on the wire. */
  function AsAt(wire: bytes, at: nat, i: nat, as4: bool): uint32
    requires at + (if as4 then 4 else 2) * (i + 1) <= |wire|
  {
    if as4 then U32(wire, at + 4 * i) else U16(wire, at + 2 * i)
  }

  /** The four octets stored for that entry: the AS number, big-endian. */
  function AsEntry(wire: bytes, at: nat, i: nat, as4: bool): (r: bytes)
    requires at + (if as4 then 4 else 2) * (i + 1) <= |wire|
    ensures |r| == 4 && U32(r, 0) == AsAt(wire, at, i, as4)
  {
    Be32(AsAt(wire, at, i, as4))
  }

  /** A 4-octet entry is stored as the very octets received. */
  lemma As4EntryIsWireOctets(wire: bytes, at: nat, i: nat)
    requires at + 4 * (i + 1) <= |wire|
    ensures AsEntry(wire, at, i, true) == wire[at + 4 * i..at + 4 * i + 4]
  {
    var e := AsEntry(wire, at, i, true);
    assert U32(e, 0) == U32(wire, at + 4 * i);
    U32Injective(e, 0, wire, at + 4 * i);
    assert e == e[0..4];
  }

  /** `opt_aspath.data[i] = as4 ? *((uint32_t*)aspath+i) : *((uint16_t*)aspath+i)`
      followed by a raw `fwrite`: a 4-octet entry keeps its octets, a
      2-octet entry is read as a host `uint16_t`, widened, and stored in
      host byte order. */
  function AsEntryAsWritten(wire: bytes, at: nat, i: nat, as4: bool, littleEndianHost: bool): (r: bytes)
    requires at + (if as4 then 4 else 2) * (i + 1) <= |wire|
    ensures |r| == 4
  {
    if as4 then wire[at + 4 * i..at + 4 * i + 4]
    else if littleEndianHost then [wire[at + 2 * i], wire[at + 2 * i + 1], 0, 0]
    else [0, 0, wire[at + 2 * i], wire[at + 2 * i + 1]]
  }

  /** On a big-endian host the copy stores the intended octets. */
  lemma AsEntryAsWrittenBigEndian(wire: bytes, at: nat, i: nat, as4: bool)
    requires at + (if as4 then 4 else 2) * (i + 1) <= |wire|
    ensures AsEntryAsWritten(wire, at, i, as4, false) == AsEntry(wire, at, i, as4)
  {
    if as4 {
      As4EntryIsWireOctets(wire, at, i);
    } else {
      var e := AsEntryAsWritten(wire, at, i, false, false);
      assert U32(e, 0) == U16(wire, at + 2 * i);
      U32Injective(e, 0, AsEntry(wire, at, i, false), 0);
      assert e == e[0..4] && AsEntry(wire, at, i, false) == AsEntry(wire, at, i, false)[0..4];
    }
  }

  /** On a little-endian host a 2-octet AS number reads back from the file
      multiplied by 65536. */
  lemma As2EntryAsWrittenLittleEndian(wire: bytes, at: nat, i: nat)
    requires at + 2 * (i + 1) <= |wire|
    ensures U32(AsEntryAsWritten(wire, at, i, false, true), 0) == AsAt(wire, at, i, false) * 0x1_0000
  {
  }

  /** AS 1 from a 2-octet peer is recorded as AS 65536. */
  lemma As2EntryCounterexample()
    ensures AsAt([0, 1], 0, 0, false) == 1
    ensures U32(AsEntryAsWritten([0, 1], 0, 0, false, true), 0) == 0x1_0000
  {
    As2EntryAsWrittenLittleEndian([0, 1], 0, 0);
  }

  // ---------------------------------------------------------- communities

  /** The COMMUNITY value as `n` (asn, number) pairs. */
  function CopyCommunities(src: bytes, n: nat): (r: seq<Community>)
    requires 4 * n <= |src|
    ensures |r| == n
  {
    Communities(Chunks(src, 0, 4, n))
  }

  /** Copying the encoded communities gives them back, however many. */
  lemma CopyCommunitiesRoundTrip(cs: seq<Community>)
    ensures 4 * |cs| <= |Flatten(CommunityChunks(cs))|
    ensures CopyCommunities(Flatten(CommunityChunks(cs)), |cs|) == cs
  {
    var src := Flatten(CommunityChunks(cs));
    FlattenLength(CommunityChunks(cs), 4);
    assert src[0..4 * |cs|] == src;
    ChunksOf(src, 0, 4, |cs|, CommunityChunks(cs));
    CommunitiesOfChunks(cs);
  }

  /** The loop `for (i=0; i<communitylen; i++) opt_community.data[i] = ...`
      into a 256-entry buffer: past 256 entries it writes beyond the buffer,
      shown as None. */
  function CommunitiesAsWritten(src: bytes, n: nat): (r: Option<seq<Community>>)
    requires 4 * n <= |src|
    ensures r.Some? <==> n <= COPY_SLOTS
  {
    if n > COPY_SLOTS then None else Some(CopyCommunities(src, n))
  }

  /** A COMMUNITY attribute of 1028 octets (257 communities, well inside a
      4096-octet UPDATE) overruns the copy buffer. */
  lemma CommunitiesCounterexample()
    ensures CommunitiesAsWritten(Zeros(1028), 257).None?
    ensures |CopyCommunities(Zeros(1028), 257)| == 257
  {
  }

  // --------------------------------------------- extended and large entries

  /** Raw entries of width `w`, copied in order. */
  function CopyEntries(src: bytes, w: nat, n: nat): (r: seq<bytes>)
    requires w * n <= |src|
    ensures |r| == n && AllWidth(r, w)
  {
    Chunks(src, 0, w, n)
  }

  lemma CopyEntriesRoundTrip(ss: seq<bytes>, w: nat)
    requires AllWidth(ss, w)
    ensures w * |ss| <= |Flatten(ss)|
    ensures CopyEntries(Flatten(ss), w, |ss|) == ss
  {
    var src := Flatten(ss);
    FlattenLength(ss, w);
    assert src[0..w * |ss|] == src;
    ChunksOf(src, 0, w, |ss|, ss);
  }

  /** The large-community loop reads `*((uint32_t*)large + (i*12))`,
      `+(i*12)+1` and again `+(i*12)+1`: entry `i` starts 48·i octets in,
      and its third word repeats the second. None when the reads leave the
      source. */
  function LargeEntryAsWritten(src: bytes, i: nat): (r: Option<bytes>)
  {
    if 48 * i + 8 > |src| then None
    else Some(src[48 * i..48 * i + 4] + src[48 * i + 4..48 * i + 8] + src[48 * i + 4..48 * i + 8])
  }

  /** A single large community 1:2:3 is written as 1:2:2. */
  lemma LargeEntryCounterexample()
    ensures var src: bytes := [0, 0, 0, 1, 0, 0, 0, 2, 0, 0, 0, 3];
      && LargeEntryAsWritten(src, 0) == Some([0, 0, 0, 1, 0, 0, 0, 2, 0, 0, 0, 2])
      && CopyEntries(src, LARGE_ENTRY, 1) == [src]
  {
    var src: bytes := [0, 0, 0, 1, 0, 0, 0, 2, 0, 0, 0, 3];
    assert src[0..12] == src;
    assert src[0..4] == [0, 0, 0, 1] && src[4..8] == [0, 0, 0, 2];
    assert LargeEntryAsWritten(src, 0) == Some(src[0..4] + src[4..8] + src[4..8]);
    assert src[0..4] + src[4..8] + src[4..8] == [0, 0, 0, 1, 0, 0, 0, 2, 0, 0, 0, 2];
  }

  /** The IPv6 extended-community loop takes the type octets from `i*20`
      but the global part from `i*8+2` and the local part through a
      `uint16_t` pointer at `(i*8)+18` units, i.e. octet 16·i+36. None when
      a read leaves the source. */
  function Ext6EntryAsWritten(src: bytes, i: nat): (r: Option<bytes>)
  {
    if 20 * i + 2 > |src| || 8 * i + 18 > |src| || 16 * i + 38 > |src| then None
    else Some(src[20 * i..20 * i + 2] + src[8 * i + 2..8 * i + 18] + src[16 * i + 36..16 * i + 38])
  }

  /** Even a single 20-octet entry is read past its end. */
  lemma Ext6EntryCounterexample()
    ensures Ext6EntryAsWritten(Zeros(EXT6_ENTRY), 0).None?
    ensures |CopyEntries(Zeros(EXT6_ENTRY), EXT6_ENTRY, 1)| == 1
  {
  }
}
