/** The path attributes of an UPDATE (section 4.3 of RFC 4271): the walk
    that records where each attribute code's value lies (src/p_piranha.c:
    796-837), and the reading of ORIGIN, AS_PATH and COMMUNITY from that
    table (839-937). A value is read only when it lies inside the attribute
    section; a read past it ends the session. */
module Attrs {
  import opened Bytes
  import opened Records
  import opened Undump
  import opened Entries

  const ATTR_ORIGIN: uint8 := 1
  const ATTR_AS_PATH: uint8 := 2
  const ATTR_NEXT_HOP: uint8 := 3
  const ATTR_COMMUNITY: uint8 := 8
  const ATTR_MP_REACH_NLRI: uint8 := 14
  const ATTR_MP_UNREACH_NLRI: uint8 := 15
  const ATTR_EXTCOMMUNITY: uint8 := 16

  /** The position the table gives a code that did not occur. */
  const ABSENT: uint16 := 0xffff

  /** ORIGIN when none is recorded. */
  const NO_ORIGIN: uint8 := 0xff

  const AS_SET: uint8 := 1
  const AS_SEQUENCE: uint8 := 2

  /** One entry of the table `a[256]`: the flags, and the offset and length
      of the value inside the attribute section. */
  datatype Slot = Slot(flags: uint8, pos: uint16, len: uint16)

  type Table = t: seq<Slot> | |t| == 256 witness Blank(256)

  /** `n` entries with position 0xffff. */
  function Blank(n: nat): (r: seq<Slot>)
    ensures |r| == n && forall k :: 0 <= k < n ==> r[k].pos == ABSENT
  {
    if n == 0 then [] else Blank(n - 1) + [Slot(0, ABSENT, 0)]
  }

  /** Every position set to 0xffff. */
  const EMPTY_TABLE: Table := Blank(256)

  /** The Extended Length bit `flags & 0x10`: a two-octet length. */
  predicate Extended(flags: uint8)
  {
    (flags as bv8) & 0x10 != 0
  }

  /** The walk over the attribute section `sec` from offset `at`. Each
      attribute overwrites its code's entry, so the last occurrence wins.
      None when an attribute's type or length octets lie past the section;
      a value that overruns the section is still recorded and ends the walk
      (reading it later ends the session). */
  function Walk(sec: bytes, at: nat, t: Table): (r: Option<Table>)
    decreases |sec| - at
  {
    if at >= |sec| then Some(t)
    else if at + 2 > |sec| then None
    else
      var flags := sec[at];
      var code := sec[at + 1];
      var lenOctets := if Extended(flags) then 2 else 1;
      var pos := at + 2 + lenOctets;
      if pos > |sec| || pos > 0xffff then None
      else
        var len := if Extended(flags) then U16(sec, at + 2) else sec[at + 2];
        Walk(sec, pos + len, Set(t, code, Slot(flags, pos, len)))
  }

  /** The table with one entry replaced. */
  function Set(t: Table, code: uint8, s: Slot): (r: Table)
  {
    t[code := s]
  }

  /** The table of a section. */
  function TableOf(sec: bytes): Option<Table>
  {
    Walk(sec, 0, EMPTY_TABLE)
  }

  /** The value an entry points at, when it lies inside the section. */
  function Value(sec: bytes, s: Slot): (r: Option<bytes>)
    ensures r.Some? ==> |r.value| == s.len
  {
    if s.pos + s.len <= |sec| then Some(sec[s.pos..s.pos + s.len]) else None
  }

  predicate Present(t: Table, code: uint8)
  {
    t[code].pos != ABSENT
  }

  // ------------------------------------------------------------ readers

  /** ORIGIN: taken only when it is exported and one octet long; 0xff
      otherwise. None when the octet lies past the section. */
  function Origin(sec: bytes, t: Table, exported: bool): (r: Option<uint8>)
    ensures !exported || !Present(t, ATTR_ORIGIN) || t[ATTR_ORIGIN].len != 1 ==> r == Some(NO_ORIGIN)
    ensures exported && Present(t, ATTR_ORIGIN) && t[ATTR_ORIGIN].len == 1 ==>
              (r.Some? <==> Value(sec, t[ATTR_ORIGIN]).Some?)
              && (r.Some? ==> Value(sec, t[ATTR_ORIGIN]) == Some([r.value]))
  {
    var s := t[ATTR_ORIGIN];
    if !exported || !Present(t, ATTR_ORIGIN) || s.len != 1 then Some(NO_ORIGIN)
    else match Value(sec, s)
      case None => None
      case Some(v) => assert v == [v[0]]; Some(v[0])
  }

  /** The AS numbers of the `n` entries after the segment header of an
      AS_PATH value, four or two octets each. */
  function AsEntries(v: bytes, n: nat, as4: bool): (r: seq<uint32>)
    requires 2 + (if as4 then 4 else 2) * n <= |v|
    ensures |r| == n
  {
    seq(n, i requires 0 <= i < n => AsAt(v, 2, i, as4))
  }

  /** The first segment of an AS_PATH value: an AS_SEQUENCE yields its AS
      numbers, an AS_SET or an empty value yields none, any other segment
      type ends the session (None). */
  function Segment(v: bytes, as4: bool): (r: Option<seq<uint32>>)
    ensures |v| == 0 ==> r == Some([])
    ensures |v| > 0 && v[0] == AS_SET ==> r == Some([])
    ensures |v| > 0 && v[0] != AS_SET && v[0] != AS_SEQUENCE ==> r.None?
    ensures r.Some? && r.value != [] ==> |v| >= 2 && v[0] == AS_SEQUENCE && |r.value| == v[1]
  {
    if |v| == 0 then Some([])
    else if v[0] == AS_SET then Some([])
    else if v[0] != AS_SEQUENCE then None
    else if |v| < 2 || 2 + (if as4 then 4 else 2) * v[1] > |v| then None
    else Some(AsEntries(v, v[1], as4))
  }

  /** AS_PATH, when exported and present; no AS numbers otherwise. */
  function AsPath(sec: bytes, t: Table, exported: bool, as4: bool): (r: Option<seq<uint32>>)
    ensures !exported || !Present(t, ATTR_AS_PATH) ==> r == Some([])
  {
    var s := t[ATTR_AS_PATH];
    if !exported || !Present(t, ATTR_AS_PATH) || s.len == 0 then Some([])
    else match Value(sec, s)
      case None => None
      case Some(v) => Segment(v, as4)
  }

  /** COMMUNITY, when exported and present: a length that is not a multiple
      of four ends the session; otherwise its length/4 communities. */
  function CommunityList(sec: bytes, t: Table, exported: bool): (r: Option<seq<Community>>)
    ensures !exported || !Present(t, ATTR_COMMUNITY) ==> r == Some([])
    ensures exported && Present(t, ATTR_COMMUNITY) && t[ATTR_COMMUNITY].len % 4 != 0 ==> r.None?
    ensures r.Some? && exported && Present(t, ATTR_COMMUNITY) ==> |r.value| == t[ATTR_COMMUNITY].len / 4
  {
    var s := t[ATTR_COMMUNITY];
    if !exported || !Present(t, ATTR_COMMUNITY) then Some([])
    else if s.len % 4 != 0 then None
    else match Value(sec, s)
      case None => None
      case Some(v) => Some(CopyCommunities(v, s.len / 4))
  }

  // ------------------------------------------------------------ encoding

  /** An attribute as a sender lays it out. */
  datatype Attr = Attr(flags: uint8, code: uint8, value: bytes)

  predicate AttrFits(a: Attr)
  {
    |a.value| < (if Extended(a.flags) then 0x1_0000 else 0x100)
  }

  predicate AllFit(xs: seq<Attr>)
  {
    forall k :: 0 <= k < |xs| ==> AttrFits(xs[k])
  }

  function EncodeAttr(a: Attr): (r: bytes)
    requires AttrFits(a)
  {
    [a.flags, a.code] + (if Extended(a.flags) then Be16(|a.value|) else [|a.value| as uint8]) + a.value
  }

  function EncodeAttrs(xs: seq<Attr>): (r: bytes)
    requires AllFit(xs)
  {
    if xs == [] then [] else EncodeAttr(xs[0]) + EncodeAttrs(xs[1..])
  }

  /** The index of the last attribute with that code. */
  function LastIndex(xs: seq<Attr>, code: uint8): (r: Option<nat>)
    ensures r.Some? ==> r.value < |xs| && xs[r.value].code == code
                        && forall j :: r.value < j < |xs| ==> xs[j].code != code
    ensures r.None? ==> forall j :: 0 <= j < |xs| ==> xs[j].code != code
  {
    if xs == [] then None
    else if xs[|xs| - 1].code == code then Some(|xs| - 1)
    else LastIndex(xs[..|xs| - 1], code)
  }

  /** An entry that points at exactly that attribute's value. */
  predicate Locates(sec: bytes, s: Slot, a: Attr)
  {
    s.flags == a.flags && s.pos != ABSENT && Value(sec, s) == Some(a.value)
  }

  /** The entry the walk leaves for a code: the last attribute of that
      code, or, if none, the entry it started with. */
  predicate Recorded(sec: bytes, xs: seq<Attr>, code: uint8, before: Slot, after: Slot)
  {
    match LastIndex(xs, code)
    case Some(k) => Locates(sec, after, xs[k])
    case None => after == before
  }

  /** Walking an encoded attribute list completes, and the table has, for
      every code, the flags and value of the last attribute with that code,
      and position 0xffff for a code that does not occur. */
  lemma TableOfEncoded(xs: seq<Attr>)
    requires AllFit(xs) && |EncodeAttrs(xs)| < 0xffff
    ensures var sec := EncodeAttrs(xs);
      && TableOf(sec).Some?
      && forall code: uint8 ::
           (Present(TableOf(sec).value, code) <==> LastIndex(xs, code).Some?)
           && (LastIndex(xs, code).Some? ==> Locates(sec, TableOf(sec).value[code], xs[LastIndex(xs, code).value]))
  {
    var sec := EncodeAttrs(xs);
    assert sec[0..] == sec;
    WalkRun(sec, 0, xs, EMPTY_TABLE);
    var t := TableOf(sec).value;
    forall code: uint8
      ensures Present(t, code) <==> LastIndex(xs, code).Some?
      ensures LastIndex(xs, code).Some? ==> Locates(sec, t[code], xs[LastIndex(xs, code).value])
    {
      assert Recorded(sec, xs, code, EMPTY_TABLE[code], t[code]);
    }
  }

  lemma {:induction false} WalkRun(sec: bytes, at: nat, xs: seq<Attr>, t: Table)
    requires AllFit(xs) && |sec| < 0xffff
    requires at <= |sec| && sec[at..] == EncodeAttrs(xs)
    ensures Walk(sec, at, t).Some?
    ensures forall code: uint8 :: Recorded(sec, xs, code, t[code], Walk(sec, at, t).value[code])
    decreases |xs|
  {
    if xs == [] {
      assert at == |sec|;
    } else {
      var next, s := WalkStep(sec, at, xs, t);
      var t' := Set(t, xs[0].code, s);
      WalkRun(sec, next, xs[1..], t');
      var r := Walk(sec, at, t).value;
      forall code: uint8
        ensures Recorded(sec, xs, code, t[code], r[code])
      {
        RecordedCons(sec, xs, code, t[code], t'[code], r[code]);
      }
    }
  }

  /** One step of the walk over an encoded list: it records the first
      attribute and continues where the rest of the list starts. */
  lemma WalkStep(sec: bytes, at: nat, xs: seq<Attr>, t: Table) returns (next: nat, s: Slot)
    requires AllFit(xs) && xs != [] && |sec| < 0xffff
    requires at <= |sec| && sec[at..] == EncodeAttrs(xs)
    ensures Locates(sec, s, xs[0])
    ensures next <= |sec| && sec[next..] == EncodeAttrs(xs[1..])
    ensures Walk(sec, at, t) == Walk(sec, next, Set(t, xs[0].code, s))
  {
    var a := xs[0];
    var pos := AttrAt(sec, at, xs);
    next := pos + |a.value|;
    s := Slot(a.flags, pos, |a.value|);
    assert Locates(sec, s, a) by {
      assert Value(sec, s) == Some(a.value);
    }
    WalkOnce(sec, at, t, s);
  }

  /** The walk reads the entry of the attribute at `at` and goes on after
      its value. */
  lemma WalkOnce(sec: bytes, at: nat, t: Table, s: Slot)
    requires at + 2 <= |sec| && s.flags == sec[at]
    requires s.pos as nat == at + 2 + (if Extended(sec[at]) then 2 else 1) <= |sec|
    requires s.len == if Extended(sec[at]) then U16(sec, at + 2) else sec[at + 2] as uint16
    ensures Walk(sec, at, t) == Walk(sec, s.pos as nat + s.len as nat, Set(t, sec[at + 1], s))
  {
  }

  /** The entry of the whole list follows from the entry of its tail,
      started from the first attribute's entry. */
  lemma RecordedCons(sec: bytes, xs: seq<Attr>, code: uint8, before: Slot, mid: Slot, after: Slot)
    requires xs != []
    requires code == xs[0].code ==> Locates(sec, mid, xs[0])
    requires code != xs[0].code ==> mid == before
    requires Recorded(sec, xs[1..], code, mid, after)
    ensures Recorded(sec, xs, code, before, after)
  {
    LastIndexCons(xs, code);
  }

  /** Where the first attribute of an encoded list sits: its value starts
      at the returned offset. */
  lemma AttrAt(sec: bytes, at: nat, xs: seq<Attr>) returns (pos: nat)
    requires AllFit(xs) && xs != [] && |sec| < 0xffff
    requires at <= |sec| && sec[at..] == EncodeAttrs(xs)
    ensures var a := xs[0];
      && at + 2 <= |sec| && sec[at] == a.flags && sec[at + 1] == a.code
      && pos == at + 2 + (if Extended(a.flags) then 2 else 1)
      && pos + |a.value| <= |sec|
      && (if Extended(a.flags) then U16(sec, at + 2) else sec[at + 2]) == |a.value|
      && sec[pos..pos + |a.value|] == a.value
      && sec[pos + |a.value|..] == EncodeAttrs(xs[1..])
  {
    var a := xs[0];
    var hl := if Extended(a.flags) then 2 else 1;
    var lf: bytes := if Extended(a.flags) then Be16(|a.value|) else [|a.value| as uint8];
    var e := EncodeAttrs(xs);
    assert e == [a.flags, a.code] + lf + a.value + EncodeAttrs(xs[1..]);
    pos := at + 2 + hl;
    assert sec[at] == e[0] && sec[at + 1] == e[1];
    if Extended(a.flags) {
      assert sec[at + 2..at + 4] == e[2..4] == lf;
      U16Slice(sec, at + 2, lf, 0);
    } else {
      assert sec[at + 2] == e[2];
    }
    InSuffix(sec, at, e, 2 + hl, 2 + hl + |a.value|);
    assert e[2 + hl..2 + hl + |a.value|] == a.value;
    assert e[2 + hl + |a.value|..] == EncodeAttrs(xs[1..]);
  }

  lemma LastIndexCons(xs: seq<Attr>, code: uint8)
    requires xs != []
    ensures LastIndex(xs, code) ==
      match LastIndex(xs[1..], code)
      case Some(k) => Some(k + 1)
      case None => if xs[0].code == code then Some(0) else None
  {
    var r := LastIndex(xs, code);
    match LastIndex(xs[1..], code)
    case Some(k) =>
      assert xs[k + 1] == xs[1..][k];
      assert forall j :: k + 1 < j < |xs| ==> xs[j] == xs[1..][j - 1];
      assert r.Some? && r.value >= k + 1;
    case None =>
      assert forall j :: 1 <= j < |xs| ==> xs[j] == xs[1..][j - 1];
  }

  // ------------------------------------------------ the walk as written

  /** As src/p_piranha.c:805-834 computes it: `attrpos` is a `uint16_t`, so
      a value length that carries it past 65535 wraps it around. Returns
      the next position. */
  function StepAsWritten(sec: bytes, at: uint16): (next: uint16)
    requires at as nat + 4 <= |sec|
  {
    var flags := sec[at];
    var lenOctets := if Extended(flags) then 2 else 1;
    var len := if Extended(flags) then U16(sec, at + 2) else sec[at + 2];
    (at + 2 + lenOctets + len) % 0x1_0000
  }

  /** A ten-octet section holding one attribute with the Extended Length bit
      and length 0xfffc brings `attrpos` back to 0: the C walk never ends,
      while the corrected walk records the attribute and stops. */
  lemma WalkWrapCounterexample()
    ensures var sec: bytes := [0x10, 99, 0xff, 0xfc, 0, 0, 0, 0, 0, 0];
      && StepAsWritten(sec, 0) == 0
      && TableOf(sec).Some?
      && TableOf(sec).value[99] == Slot(0x10, 4, 0xfffc)
  {
    var sec: bytes := [0x10, 99, 0xff, 0xfc, 0, 0, 0, 0, 0, 0];
    assert Extended(0x10);
    assert U16(sec, 2) == 0xfffc;
  }
}
