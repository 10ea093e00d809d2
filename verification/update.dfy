/** The UPDATE branch of the session decoder (src/p_piranha.c:695-1160):
    the withdrawn routes, the path attributes, the IPv6 routes carried in
    MP_REACH_NLRI and MP_UNREACH_NLRI (section 3 and 4 of RFC 4760) and the
    trailing NLRI, turned into dump records in the order the C writes them.
    A read past the message, the withdrawn-routes field, the attribute
    section or an attribute's value ends the session; the records written
    before that point stay written. */
module Update {
  import opened Bytes
  import opened Prefix
  import opened Records
  import opened Undump
  import opened Entries
  import opened Wire
  import opened Attrs
  import opened Config

  /** The records an UPDATE produces, in order, and whether the session
      survives it. */
  datatype Decoding = Decoding(events: seq<Payload>, ok: bool)

  const FAILED: Decoding := Decoding([], false)
  const NOTHING: Decoding := Decoding([], true)

  /** `a` followed by `b`; `b` happens only when `a` left the session up. */
  function Then(a: Decoding, b: Decoding): (r: Decoding)
    ensures r.ok <==> a.ok && b.ok
    ensures |r.events| == |a.events| + (if a.ok then |b.events| else 0)
  {
    if a.ok then Decoding(a.events + b.events, b.ok) else a
  }

  /** What happened first stays. */
  lemma ThenKeeps(a: Decoding, b: Decoding)
    ensures Then(a, b).events[..|a.events|] == a.events
    ensures !a.ok ==> Then(a, b) == a
  {
    if a.ok {
      assert (a.events + b.events)[..|a.events|] == a.events;
    }
  }

  /** Only route records: what an UPDATE may add to a dump file. */
  predicate Routes(es: seq<Payload>)
  {
    forall k :: 0 <= k < |es| ==> es[k].Withdrawn4? || es[k].Announce4? || es[k].Withdrawn6? || es[k].Announce6?
  }

  /** What the path attributes give every announcement of the message. */
  datatype Path = Path(origin: uint8, info: PathInfo)

  function Withdrawals4(ps: seq<Prefix4>): (r: seq<Payload>)
    ensures |r| == |ps| && forall k :: 0 <= k < |ps| ==> r[k] == Withdrawn4(ps[k])
  {
    seq(|ps|, k requires 0 <= k < |ps| => Withdrawn4(ps[k]))
  }

  function Withdrawals6(ps: seq<Prefix6>): (r: seq<Payload>)
    ensures |r| == |ps| && forall k :: 0 <= k < |ps| ==> r[k] == Withdrawn6(ps[k])
  {
    seq(|ps|, k requires 0 <= k < |ps| => Withdrawn6(ps[k]))
  }

  /** IPv4 announcements: the session hands the writer no next hop, so the
      record's next hop is 0. */
  function Announcements4(ps: seq<Prefix4>, p: Path): (r: seq<Payload>)
    ensures |r| == |ps| && forall k :: 0 <= k < |ps| ==> r[k] == Announce4(ps[k], p.origin, 0, p.info)
  {
    seq(|ps|, k requires 0 <= k < |ps| => Announce4(ps[k], p.origin, 0, p.info))
  }

  function Announcements6(ps: seq<Prefix6>, p: Path): (r: seq<Payload>)
    ensures |r| == |ps| && forall k :: 0 <= k < |ps| ==> r[k] == Announce6(ps[k], p.origin, Zeros(16), p.info)
  {
    seq(|ps|, k requires 0 <= k < |ps| => Announce6(ps[k], p.origin, Zeros(16), p.info))
  }

  // ------------------------------------------------ multiprotocol values

  const AFI_IPV6: uint16 := 2
  const SAFI_UNICAST: uint8 := 1

  /** An MP_REACH_NLRI value: AFI, SAFI, next-hop length, the next hop, one
      reserved octet, then the prefixes. Only IPv6 unicast is read; another
      family yields nothing. */
  function Reach(v: bytes, p: Path): (r: Decoding)
    ensures Routes(r.events)
    ensures |v| < 4 ==> r == FAILED
    ensures |v| >= 4 && (U16(v, 0) != AFI_IPV6 || v[2] != SAFI_UNICAST) ==> r == NOTHING
    ensures forall k :: 0 <= k < |r.events| ==> r.events[k].Announce6? && r.events[k].path == p.info
  {
    if |v| < 4 then FAILED
    else if U16(v, 0) != AFI_IPV6 || v[2] != SAFI_UNICAST then NOTHING
    else
      var l := Prefixes6(v, 4 + v[3] as nat + 1, |v|);
      Decoding(Announcements6(l.items, p), l.complete)
  }

  /** An MP_UNREACH_NLRI value: AFI, SAFI, then the withdrawn prefixes. */
  function Unreach(v: bytes): (r: Decoding)
    ensures Routes(r.events)
    ensures |v| < 3 ==> r == FAILED
    ensures |v| >= 3 && (U16(v, 0) != AFI_IPV6 || v[2] != SAFI_UNICAST) ==> r == NOTHING
    ensures forall k :: 0 <= k < |r.events| ==> r.events[k].Withdrawn6?
  {
    if |v| < 3 then FAILED
    else if U16(v, 0) != AFI_IPV6 || v[2] != SAFI_UNICAST then NOTHING
    else
      var l := Prefixes6(v, 3, |v|);
      Decoding(Withdrawals6(l.items), l.complete)
  }

  function EncodeReach(nextHop: bytes, ps: seq<Prefix6>): bytes
    requires |nextHop| < 0x100 && forall k :: 0 <= k < |ps| ==> ps[k].plen <= 128
  {
    Be16(AFI_IPV6) + [SAFI_UNICAST, |nextHop| as uint8] + nextHop + [0] + EncodePrefixes6(ps)
  }

  function EncodeUnreach(ps: seq<Prefix6>): bytes
    requires forall k :: 0 <= k < |ps| ==> ps[k].plen <= 128
  {
    Be16(AFI_IPV6) + [SAFI_UNICAST] + EncodePrefixes6(ps)
  }

  /** An encoded MP_REACH_NLRI announces each of its prefixes, with its
      unused bits cleared, whatever the next hop. */
  lemma ReachRoundTrip(nextHop: bytes, ps: seq<Prefix6>, p: Path)
    requires |nextHop| < 0x100 && forall k :: 0 <= k < |ps| ==> ps[k].plen <= 128
    ensures Reach(EncodeReach(nextHop, ps), p) == Decoding(Announcements6(Canonical6(ps), p), true)
  {
    var v := EncodeReach(nextHop, ps);
    ReachLayout(nextHop, ps);
    Prefixes6Run(v, 5 + |nextHop|, |v|, ps);
  }

  lemma ReachLayout(nextHop: bytes, ps: seq<Prefix6>)
    requires |nextHop| < 0x100 && forall k :: 0 <= k < |ps| ==> ps[k].plen <= 128
    ensures var v := EncodeReach(nextHop, ps);
      && |v| >= 5 + |nextHop| && U16(v, 0) == AFI_IPV6 && v[2] == SAFI_UNICAST && v[3] as nat == |nextHop|
      && v[5 + |nextHop|..|v|] == EncodePrefixes6(ps)
  {
    var v := EncodeReach(nextHop, ps);
    var e := EncodePrefixes6(ps);
    var fixed: bytes := [SAFI_UNICAST, |nextHop| as uint8];
    Pieces(Be16(AFI_IPV6), fixed, nextHop, [0], e);
    assert v[0..2] == Be16(AFI_IPV6);
    U16Slice(v, 0, Be16(AFI_IPV6), 0);
    assert v[2..4] == fixed;
    assert v[2] == fixed[0];
    assert v[3] == fixed[1];
    assert v[5 + |nextHop|..|v|] == e;
  }

  lemma UnreachRoundTrip(ps: seq<Prefix6>)
    requires forall k :: 0 <= k < |ps| ==> ps[k].plen <= 128
    ensures Unreach(EncodeUnreach(ps)) == Decoding(Withdrawals6(Canonical6(ps)), true)
  {
    var v := EncodeUnreach(ps);
    UnreachLayout(ps);
    Prefixes6Run(v, 3, |v|, ps);
  }

  lemma UnreachLayout(ps: seq<Prefix6>)
    requires forall k :: 0 <= k < |ps| ==> ps[k].plen <= 128
    ensures var v := EncodeUnreach(ps);
      && |v| >= 3 && U16(v, 0) == AFI_IPV6 && v[2] == SAFI_UNICAST && v[3..|v|] == EncodePrefixes6(ps)
  {
    var v := EncodeUnreach(ps);
    assert v[0..2] == Be16(AFI_IPV6);
    U16Slice(v, 0, Be16(AFI_IPV6), 0);
    assert v[3..|v|] == EncodePrefixes6(ps);
  }

  // ------------------------------------------------- the attribute section

  /** ORIGIN, AS_PATH and COMMUNITY as far as they are exported; None when
      reading one ends the session. Extended communities are never
      extracted and large communities are not handed to the writer. */
  function ReadPath(sec: bytes, t: Table, exports: bv8, as4: bool): (r: Option<Path>)
    ensures r.Some? ==> r.value.info.extCommunities == [] && r.value.info.largeCommunities == []
    ensures r.Some? && exports & EXPORT_ORIGIN == 0 ==> r.value.origin == NO_ORIGIN
    ensures r.Some? && exports & EXPORT_ASPATH == 0 ==> r.value.info.asPath == []
    ensures r.Some? && exports & EXPORT_COMMUNITY == 0 ==> r.value.info.communities == []
  {
    var o := Origin(sec, t, exports & EXPORT_ORIGIN != 0);
    var a := AsPath(sec, t, exports & EXPORT_ASPATH != 0, as4);
    var c := CommunityList(sec, t, exports & EXPORT_COMMUNITY != 0);
    if o.None? || a.None? || c.None? then None
    else Some(Path(o.value, PathInfo(a.value, c.value, [], [])))
  }

  /** The MP_REACH_NLRI the table locates, read without regard to the
      export settings. */
  function ReachIn(sec: bytes, t: Table, p: Path): (r: Decoding)
    ensures !Present(t, ATTR_MP_REACH_NLRI) ==> r == NOTHING
    ensures Present(t, ATTR_MP_REACH_NLRI) && Value(sec, t[ATTR_MP_REACH_NLRI]).None? ==> r == FAILED
    ensures Routes(r.events)
  {
    if !Present(t, ATTR_MP_REACH_NLRI) then NOTHING
    else match Value(sec, t[ATTR_MP_REACH_NLRI])
      case None => FAILED
      case Some(v) => Reach(v, p)
  }

  function UnreachIn(sec: bytes, t: Table): (r: Decoding)
    ensures !Present(t, ATTR_MP_UNREACH_NLRI) ==> r == NOTHING
    ensures Present(t, ATTR_MP_UNREACH_NLRI) && Value(sec, t[ATTR_MP_UNREACH_NLRI]).None? ==> r == FAILED
    ensures Routes(r.events)
  {
    if !Present(t, ATTR_MP_UNREACH_NLRI) then NOTHING
    else match Value(sec, t[ATTR_MP_UNREACH_NLRI])
      case None => FAILED
      case Some(v) => Unreach(v)
  }

  /** Everything after the withdrawn routes: the attribute section `sec`
      and the NLRI entries that follow it. IPv6 announcements come first,
      then IPv6 withdrawals, then the IPv4 announcements. */
  function Attributes(sec: bytes, nlri: ListResult<Prefix4>, exports: bv8, as4: bool): (r: Decoding)
    ensures Routes(r.events)
    ensures TableOf(sec).None? ==> r == FAILED
  {
    match TableOf(sec)
    case None => FAILED
    case Some(t) =>
      match ReadPath(sec, t, exports, as4)
      case None => FAILED
      case Some(p) =>
        Then(ReachIn(sec, t, p), Then(UnreachIn(sec, t), Decoding(Announcements4(nlri.items, p), nlri.complete)))
  }

  /** The UPDATE message `m`, header included, exactly as long as its
      header declares. */
  function DecodeUpdate(m: bytes, exports: bv8, as4: bool): (r: Decoding)
    requires |m| >= BGP_HEADER_LEN
    ensures Routes(r.events)
    ensures |m| < BGP_HEADER_LEN + 2 ==> r == FAILED
  {
    if |m| < BGP_HEADER_LEN + 2 then FAILED
    else Withdrawn(m, BGP_HEADER_LEN + 2 + U16(m, BGP_HEADER_LEN), exports, as4)
  }

  /** The withdrawn routes are written first, each as it is decoded, and
      stay written whatever happens to the rest of the message; when they
      cannot all be decoded nothing else is written. */
  lemma WithdrawnFirst(m: bytes, exports: bv8, as4: bool)
    requires |m| >= BGP_HEADER_LEN + 2
    ensures var r := DecodeUpdate(m, exports, as4);
      var w := Prefixes4(m, BGP_HEADER_LEN + 2, BGP_HEADER_LEN + 2 + U16(m, BGP_HEADER_LEN));
      && |w.items| <= |r.events|
      && r.events[..|w.items|] == Withdrawals4(w.items)
      && (!w.complete ==> !r.ok && |r.events| == |w.items|)
  {
    var wend := BGP_HEADER_LEN + 2 + U16(m, BGP_HEADER_LEN);
    assert DecodeUpdate(m, exports, as4) == Withdrawn(m, wend, exports, as4);
    ThenKeeps(Decoding(Withdrawals4(Prefixes4(m, BGP_HEADER_LEN + 2, wend).items), Prefixes4(m, BGP_HEADER_LEN + 2, wend).complete),
              if wend + 2 > |m| then FAILED else Section(m, wend + 2, U16(m, wend), exports, as4));
  }

  /** The withdrawn routes, ending at `wend`, then the rest of the message. */
  function Withdrawn(m: bytes, wend: nat, exports: bv8, as4: bool): (r: Decoding)
    requires BGP_HEADER_LEN + 2 <= wend
  {
    var w := Prefixes4(m, BGP_HEADER_LEN + 2, wend);
    Then(Decoding(Withdrawals4(w.items), w.complete),
         if wend + 2 > |m| then FAILED else Section(m, wend + 2, U16(m, wend), exports, as4))
  }

  /** The attribute section of `alen` octets at `start`, then the NLRI up
      to the end of the message. */
  function Section(m: bytes, start: nat, alen: nat, exports: bv8, as4: bool): (r: Decoding)
  {
    if start + alen > |m| then FAILED
    else Attributes(m[start..start + alen], Prefixes4(m, start + alen, |m|), exports, as4)
  }

  // ------------------------------------------------- structured messages

  /** An UPDATE as a sender composes it. */
  datatype UpdateMsg = UpdateMsg(withdrawn: seq<Prefix4>, attrs: seq<Attr>, nlri: seq<Prefix4>)

  predicate ValidPrefixes4(ps: seq<Prefix4>)
  {
    forall k :: 0 <= k < |ps| ==> ps[k].plen <= 32
  }

  /** Every field fits its length field, and the whole fits the header's. */
  predicate Encodable(u: UpdateMsg)
  {
    && ValidPrefixes4(u.withdrawn) && ValidPrefixes4(u.nlri) && AllFit(u.attrs)
    && |EncodePrefixes4(u.withdrawn)| < 0x1_0000
    && |EncodeAttrs(u.attrs)| < 0xffff
    && BGP_HEADER_LEN + 4 + |EncodePrefixes4(u.withdrawn)| + |EncodeAttrs(u.attrs)| + |EncodePrefixes4(u.nlri)| < 0x1_0000
  }

  function EncodeUpdate(u: UpdateMsg): (m: bytes)
    requires Encodable(u)
    ensures |m| >= BGP_HEADER_LEN
  {
    var w := EncodePrefixes4(u.withdrawn);
    var a := EncodeAttrs(u.attrs);
    var n := EncodePrefixes4(u.nlri);
    EncodeHeader(Header(BGP_HEADER_LEN + 4 + |w| + |a| + |n|, BGP_UPDATE)) + Be16(|w|) + w + Be16(|a|) + a + n
  }

  /** The value of the last attribute with that code. */
  function LastValue(xs: seq<Attr>, code: uint8): (r: Option<bytes>)
    ensures r.Some? <==> exists k :: 0 <= k < |xs| && xs[k].code == code
  {
    match LastIndex(xs, code)
    case None => None
    case Some(k) => Some(xs[k].value)
  }

  /** The readings of ORIGIN, AS_PATH and COMMUNITY straight from the
      attributes, the last of each code counting. */
  function PathOf(xs: seq<Attr>, exports: bv8, as4: bool): Option<Path>
  {
    var o := if exports & EXPORT_ORIGIN == 0 then NO_ORIGIN
             else match LastValue(xs, ATTR_ORIGIN)
               case Some(v) => if |v| == 1 then v[0] else NO_ORIGIN
               case None => NO_ORIGIN;
    var a := if exports & EXPORT_ASPATH == 0 then Some([])
             else match LastValue(xs, ATTR_AS_PATH)
               case Some(v) => Segment(v, as4)
               case None => Some([]);
    var c := if exports & EXPORT_COMMUNITY == 0 then Some([])
             else match LastValue(xs, ATTR_COMMUNITY)
               case Some(v) => if |v| % 4 != 0 then None else Some(CopyCommunities(v, |v| / 4))
               case None => Some([]);
    if a.None? || c.None? then None else Some(Path(o, PathInfo(a.value, c.value, [], [])))
  }

  /** What the attributes and NLRI of a message amount to, read from the
      attributes themselves. */
  function AttributesOf(xs: seq<Attr>, nlri: seq<Prefix4>, exports: bv8, as4: bool): Decoding
  {
    match PathOf(xs, exports, as4)
    case None => FAILED
    case Some(p) =>
      var reach := match LastValue(xs, ATTR_MP_REACH_NLRI) case Some(v) => Reach(v, p) case None => NOTHING;
      var unreach := match LastValue(xs, ATTR_MP_UNREACH_NLRI) case Some(v) => Unreach(v) case None => NOTHING;
      Then(reach, Then(unreach, Decoding(Announcements4(nlri, p), true)))
  }

  /** The table of the encoded attributes locates the last value of each
      code. */
  predicate Describes(sec: bytes, t: Table, xs: seq<Attr>)
  {
    forall code: uint8 ::
      (Present(t, code) <==> LastIndex(xs, code).Some?)
      && (LastIndex(xs, code).Some? ==> Locates(sec, t[code], xs[LastIndex(xs, code).value]))
  }

  lemma ValueOfCode(sec: bytes, t: Table, xs: seq<Attr>, code: uint8)
    requires Describes(sec, t, xs)
    ensures Present(t, code) <==> LastValue(xs, code).Some?
    ensures Present(t, code) ==> Value(sec, t[code]) == LastValue(xs, code)
  {
  }

  lemma ReadPathOf(sec: bytes, t: Table, xs: seq<Attr>, exports: bv8, as4: bool)
    requires Describes(sec, t, xs)
    ensures ReadPath(sec, t, exports, as4) == PathOf(xs, exports, as4)
  {
    ValueOfCode(sec, t, xs, ATTR_ORIGIN);
    ValueOfCode(sec, t, xs, ATTR_AS_PATH);
    ValueOfCode(sec, t, xs, ATTR_COMMUNITY);
  }

  /** Decoding an encoded attribute section reads what the attributes say. */
  lemma AttributesRoundTrip(xs: seq<Attr>, nlri: seq<Prefix4>, exports: bv8, as4: bool)
    requires AllFit(xs) && |EncodeAttrs(xs)| < 0xffff
    ensures Attributes(EncodeAttrs(xs), ListResult(nlri, true), exports, as4) == AttributesOf(xs, nlri, exports, as4)
  {
    var sec := EncodeAttrs(xs);
    TableOfEncoded(xs);
    var t := TableOf(sec).value;
    assert Describes(sec, t, xs);
    ReadPathOf(sec, t, xs, exports, as4);
    ValueOfCode(sec, t, xs, ATTR_MP_REACH_NLRI);
    ValueOfCode(sec, t, xs, ATTR_MP_UNREACH_NLRI);
  }

  /** Where the parts of an encoded UPDATE lie, `wl` and `al` being the
      lengths of its withdrawn routes and its attribute section and `start`
      where the attribute section begins. */
  lemma UpdateLayout(u: UpdateMsg, m: bytes, wl: nat, al: nat) returns (start: nat)
    requires Encodable(u) && m == EncodeUpdate(u)
    requires wl == |EncodePrefixes4(u.withdrawn)| && al == |EncodeAttrs(u.attrs)|
    ensures start == BGP_HEADER_LEN + 4 + wl && |m| == start + al + |EncodePrefixes4(u.nlri)|
    ensures U16(m, BGP_HEADER_LEN) == wl && m[BGP_HEADER_LEN + 2..start - 2] == EncodePrefixes4(u.withdrawn)
    ensures U16(m, start - 2) == al && m[start..start + al] == EncodeAttrs(u.attrs)
    ensures m[start + al..|m|] == EncodePrefixes4(u.nlri)
  {
    var w := EncodePrefixes4(u.withdrawn);
    var a := EncodeAttrs(u.attrs);
    var n := EncodePrefixes4(u.nlri);
    var h := EncodeHeader(Header(BGP_HEADER_LEN + 4 + |w| + |a| + |n|, BGP_UPDATE));
    BodyLayout(h, w, a, n);
    start := BGP_HEADER_LEN + 4 + wl;
  }

  /** The same, for any 19-octet header. */
  lemma BodyLayout(h: bytes, w: bytes, a: bytes, n: bytes)
    requires |h| == BGP_HEADER_LEN && |w| < 0x1_0000 && |a| < 0x1_0000
    ensures var m := h + Be16(|w|) + w + Be16(|a|) + a + n;
      var start := BGP_HEADER_LEN + 4 + |w|;
      && |m| == start + |a| + |n|
      && U16(m, BGP_HEADER_LEN) == |w| && m[BGP_HEADER_LEN + 2..BGP_HEADER_LEN + 2 + |w|] == w
      && U16(m, start - 2) == |a| && m[start..start + |a|] == a
      && m[start + |a|..|m|] == n
  {
    var m := h + Be16(|w|) + w + Be16(|a|) + a + n;
    var start := BGP_HEADER_LEN + 4 + |w|;
    assert m[19..21] == Be16(|w|);
    U16Slice(m, 19, Be16(|w|), 0);
    assert m[21..21 + |w|] == w;
    assert m[start - 2..start] == Be16(|a|);
    U16Slice(m, start - 2, Be16(|a|), 0);
    assert m[start..start + |a|] == a;
    assert m[start + |a|..|m|] == n;
  }

  /** The decoder's path through a message whose withdrawn routes, `wl`
      octets, decode completely and whose attribute section is `al` octets
      long. */
  lemma DecodeUpdateSplit(m: bytes, exports: bv8, as4: bool, wl: nat, start: nat, al: nat)
    requires start == BGP_HEADER_LEN + 4 + wl && |m| >= start + al
    requires U16(m, BGP_HEADER_LEN) == wl && U16(m, start - 2) == al
    requires Prefixes4(m, BGP_HEADER_LEN + 2, start - 2).complete
    ensures DecodeUpdate(m, exports, as4)
      == Then(Decoding(Withdrawals4(Prefixes4(m, BGP_HEADER_LEN + 2, start - 2).items), true),
              Attributes(m[start..start + al], Prefixes4(m, start + al, |m|), exports, as4))
  {
    assert DecodeUpdate(m, exports, as4) == Withdrawn(m, start - 2, exports, as4);
  }

  /** The decoding of an encoded UPDATE: its withdrawn routes, then what its
      attributes and NLRI say, every prefix with its unused bits cleared. */
  function Expected(u: UpdateMsg, exports: bv8, as4: bool): Decoding
    requires ValidPrefixes4(u.withdrawn) && ValidPrefixes4(u.nlri)
  {
    Then(Decoding(Withdrawals4(Canonical4(u.withdrawn)), true), AttributesOf(u.attrs, Canonical4(u.nlri), exports, as4))
  }

  lemma UpdateRoundTrip(u: UpdateMsg, exports: bv8, as4: bool)
    requires Encodable(u)
    ensures DecodeUpdate(EncodeUpdate(u), exports, as4) == Expected(u, exports, as4)
  {
    var m := EncodeUpdate(u);
    var wl := |EncodePrefixes4(u.withdrawn)|;
    var al := |EncodeAttrs(u.attrs)|;
    var start := UpdateLayout(u, m, wl, al);
    DecodeParts(m, u, wl, start, al, exports, as4);
  }

  /** The decoding of octets laid out as `EncodeUpdate(u)` lays them out. */
  lemma DecodeParts(m: bytes, u: UpdateMsg, wl: nat, start: nat, al: nat, exports: bv8, as4: bool)
    requires ValidPrefixes4(u.withdrawn) && ValidPrefixes4(u.nlri) && AllFit(u.attrs)
    requires al == |EncodeAttrs(u.attrs)| < 0xffff
    requires start == BGP_HEADER_LEN + 4 + wl && |m| == start + al + |EncodePrefixes4(u.nlri)|
    requires U16(m, BGP_HEADER_LEN) == wl && m[BGP_HEADER_LEN + 2..start - 2] == EncodePrefixes4(u.withdrawn)
    requires U16(m, start - 2) == al && m[start..start + al] == EncodeAttrs(u.attrs)
    requires m[start + al..|m|] == EncodePrefixes4(u.nlri)
    ensures DecodeUpdate(m, exports, as4) == Expected(u, exports, as4)
  {
    BothLists(m, u, wl, start, al);
    DecodeLaidOut(m, u, wl, start, al, exports, as4);
  }

  /** The withdrawn routes and the NLRI of such octets decode completely. */
  lemma BothLists(m: bytes, u: UpdateMsg, wl: nat, start: nat, al: nat)
    requires ValidPrefixes4(u.withdrawn) && ValidPrefixes4(u.nlri)
    requires start == BGP_HEADER_LEN + 4 + wl && |m| == start + al + |EncodePrefixes4(u.nlri)|
    requires m[BGP_HEADER_LEN + 2..start - 2] == EncodePrefixes4(u.withdrawn)
    requires m[start + al..|m|] == EncodePrefixes4(u.nlri)
    ensures Prefixes4(m, BGP_HEADER_LEN + 2, start - 2) == ListResult(Canonical4(u.withdrawn), true)
    ensures Prefixes4(m, start + al, |m|) == ListResult(Canonical4(u.nlri), true)
  {
    PrefixesTo(m, BGP_HEADER_LEN + 2, start - 2, u.withdrawn);
    PrefixesTo(m, start + al, |m|, u.nlri);
  }

  /** A run of encoded prefixes found between `i` and `end` decodes
      completely. */
  lemma PrefixesTo(b: bytes, i: nat, end: nat, ps: seq<Prefix4>)
    requires ValidPrefixes4(ps) && i <= end <= |b| && b[i..end] == EncodePrefixes4(ps)
    ensures Prefixes4(b, i, end) == ListResult(Canonical4(ps), true)
  {
    Prefixes4Run(b, i, end, ps);
  }

  /** The decoding of octets whose parts decode as those of `u` do: the
      withdrawn routes end at `start - 2` and the attributes occupy `al`
      octets from `start`. */
  lemma DecodeLaidOut(m: bytes, u: UpdateMsg, wl: nat, start: nat, al: nat, exports: bv8, as4: bool)
    requires ValidPrefixes4(u.withdrawn) && ValidPrefixes4(u.nlri) && AllFit(u.attrs)
    requires al == |EncodeAttrs(u.attrs)| < 0xffff && start == BGP_HEADER_LEN + 4 + wl
    requires |m| >= start + al
    requires U16(m, BGP_HEADER_LEN) == wl && U16(m, start - 2) == al
    requires Prefixes4(m, BGP_HEADER_LEN + 2, start - 2) == ListResult(Canonical4(u.withdrawn), true)
    requires m[start..start + al] == EncodeAttrs(u.attrs)
    requires Prefixes4(m, start + al, |m|) == ListResult(Canonical4(u.nlri), true)
    ensures DecodeUpdate(m, exports, as4) == Expected(u, exports, as4)
  {
    DecodeUpdateSplit(m, exports, as4, wl, start, al);
    AttributesRoundTrip(u.attrs, Canonical4(u.nlri), exports, as4);
  }

  // ----------------------------------------------------------- AS_PATH

  /** An AS_SEQUENCE segment of 4-octet or 2-octet AS numbers. */
  function EncodeSequence(asns: seq<uint32>, as4: bool): (v: bytes)
    requires |asns| < 0x100
    requires !as4 ==> forall k :: 0 <= k < |asns| ==> asns[k] < 0x1_0000
  {
    [AS_SEQUENCE, |asns| as uint8] + Flatten(SequenceChunks(asns, as4))
  }

  function SequenceChunks(asns: seq<uint32>, as4: bool): (r: seq<bytes>)
    requires !as4 ==> forall k :: 0 <= k < |asns| ==> asns[k] < 0x1_0000
    ensures |r| == |asns| && AllWidth(r, if as4 then 4 else 2)
  {
    seq(|asns|, k requires 0 <= k < |asns| => if as4 then Be32(asns[k]) else Be16(asns[k] as uint16))
  }

  /** An AS_SEQUENCE reads back as its AS numbers, at either width. */
  lemma SequenceRoundTrip(asns: seq<uint32>, as4: bool)
    requires |asns| < 0x100
    requires !as4 ==> forall k :: 0 <= k < |asns| ==> asns[k] < 0x1_0000
    ensures Segment(EncodeSequence(asns, as4), as4) == Some(asns)
  {
    var w: nat := if as4 then 4 else 2;
    var cs := SequenceChunks(asns, as4);
    var v := EncodeSequence(asns, as4);
    FlattenLength(cs, w);
    assert v[2..2 + w * |asns|] == Flatten(cs);
    SequenceEntries(v, asns, as4, cs, w);
    assert |v| == 2 + w * |asns| && v[0] == AS_SEQUENCE && v[1] as nat == |asns|;
  }

  /** The entries after a segment's two-octet head are the AS numbers whose
      encodings were laid out there. */
  lemma SequenceEntries(v: bytes, asns: seq<uint32>, as4: bool, cs: seq<bytes>, w: nat)
    requires !as4 ==> forall k :: 0 <= k < |asns| ==> asns[k] < 0x1_0000
    requires cs == SequenceChunks(asns, as4) && w == (if as4 then 4 else 2)
    requires 2 + w * |asns| <= |v| && v[2..2 + w * |asns|] == Flatten(cs)
    ensures AsEntries(v, |asns|, as4) == asns
  {
    ChunksOf(v, 2, w, |asns|, cs);
    forall i | 0 <= i < |asns|
      ensures AsAt(v, 2, i, as4) == asns[i]
    {
      SlotEnd(w, i, |asns|);
      assert Chunks(v, 2, w, |asns|)[i] == v[2 + w * i..2 + w * i + w];
      if as4 {
        U32Slice(v, 2 + 4 * i, cs[i], 0);
      } else {
        U16Slice(v, 2 + 2 * i, cs[i], 0);
      }
    }
  }
}
