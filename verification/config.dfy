/** Loading the configuration (src/p_config.c): the directives of the file,
    taken here already split into words, update the global settings and the
    peer table; a pass afterwards drops the peers no longer listed and sets
    each session's type; finally the required settings are checked. */
module Config {
  import opened Bytes
  import opened Tools
  import opened Peers

  const EXPORT_ORIGIN: bv8 := 0x01
  const EXPORT_ASPATH: bv8 := 0x02
  const EXPORT_COMMUNITY: bv8 := 0x04
  const EXPORT_EXTCOMMUNITY: bv8 := 0x08
  const EXPORT_LARGECOMMUNITY: bv8 := 0x10
  const EXPORT_NEXT_HOP: bv8 := 0x20

  /** A user found by name: its uid and gid. */
  datatype UserIds = UserIds(uid: uint32, gid: uint32)

  /** The global settings the core reads. `user` is None for the `-1`
      uid/gid of an unknown or missing user. */
  datatype Settings = Settings(routerId: uint32, asn: uint32, exports: bv8, user: Option<UserIds>)

  /** One line of the file. `af` of a neighbor is 4 or 6 when its address
      parsed, 0 otherwise; `Other` stands for the listen, port, hold-time and
      comment lines, which the core does not read. */
  datatype Directive =
    | RouterId(id: uint32)
    | User(found: Option<UserIds>)
    | LocalAs(asn: uint32)
    | Export(word: string)
    | Neighbor(af: uint8, addr: Octets16, asn: uint32, key: string)
    | Other

  // -------------------------------------------------------------- export

  /** The flag an `export` keyword sets; 0 for an unknown keyword. */
  function ExportFlag(word: string): (f: bv8)
  {
    if word == "origin" then EXPORT_ORIGIN
    else if word == "aspath" then EXPORT_ASPATH
    else if word == "community" then EXPORT_COMMUNITY
    else if word == "extcommunity" then EXPORT_EXTCOMMUNITY
    else if word == "largecommunity" then EXPORT_LARGECOMMUNITY
    else if word == "nexthop" then EXPORT_NEXT_HOP
    else 0
  }

  predicate SingleBit(f: bv8)
  {
    f != 0 && f & (f - 1) == 0
  }

  /** The six keywords name six different single-bit flags, and every other
      word names none. */
  lemma ExportFlagsDistinctBits()
    ensures SingleBit(ExportFlag("origin")) && SingleBit(ExportFlag("aspath"))
    ensures SingleBit(ExportFlag("community")) && SingleBit(ExportFlag("extcommunity"))
    ensures SingleBit(ExportFlag("largecommunity")) && SingleBit(ExportFlag("nexthop"))
    ensures var fs := [ExportFlag("origin"), ExportFlag("aspath"), ExportFlag("community"),
                       ExportFlag("extcommunity"), ExportFlag("largecommunity"), ExportFlag("nexthop")];
      forall i, j | 0 <= i < j < |fs| :: fs[i] & fs[j] == 0
  {
  }

  /** An `export` line ORs its keyword's flag into the settings: that bit
      becomes set and no other bit changes. */
  lemma ExportSetsOneBit(s: Settings, word: string)
    ensures var e := Step(s, [], Export(word), 0).0.exports;
      && e & ExportFlag(word) == ExportFlag(word)
      && e & !ExportFlag(word) == s.exports & !ExportFlag(word)
  {
  }

  // -------------------------------------------------------------- peers

  /** `p_config_add_peer`: the allowed slot of that family and address, if
      any, is updated; otherwise the first free slot takes the peer. A peer
      with AS 0 or the all-zero address is ignored; with the table full the
      peer is lost. */
  function AddPeer(t: seq<Peer>, af: uint8, addr: Octets16, asn: uint32, key: string, now: uint64): (t': seq<Peer>)
    ensures |t'| == |t|
    ensures asn == 0 || Zero(af, addr) ==> t' == t
  {
    if asn == 0 || Zero(af, addr) then t
    else match Existing(t, af, addr, 0)
      case Some(a) => t[a := Refresh(t[a], asn, key, now)]
      case None =>
        match Free(t, 0)
        case Some(a) => t[a := Fill(t[a], af, addr, asn, key, now)]
        case None => t
  }

  /** `p_tools_ip4zero` / `p_tools_ip6zero` on the given address. */
  predicate Zero(af: uint8, addr: Octets16)
  {
    (af == 4 && Ip4Zero(Some(In4Of(addr)))) || (af == 6 && Ip6Zero(Some(In6(addr))))
  }

  /** An allowed slot of that family holding that address. */
  predicate Holds(p: Peer, af: uint8, addr: Octets16)
  {
    p.af == af && p.allow
    && ((af == 4 && SameIp4(In4Of(addr), In4Of(p.addr))) || (af == 6 && SameIp6(In6(addr), In6(p.addr))))
  }

  function Existing(t: seq<Peer>, af: uint8, addr: Octets16, k: nat): (r: Option<nat>)
    requires k <= |t|
    ensures r.Some? ==> k <= r.value < |t| && Holds(t[r.value], af, addr)
    ensures r.None? ==> forall b | k <= b < |t| :: !Holds(t[b], af, addr)
    ensures r.Some? ==> forall b | k <= b < r.value :: !Holds(t[b], af, addr)
    decreases |t| - k
  {
    if k == |t| then None
    else if Holds(t[k], af, addr) then Some(k)
    else Existing(t, af, addr, k + 1)
  }

  function Free(t: seq<Peer>, k: nat): (r: Option<nat>)
    requires k <= |t|
    ensures r.Some? ==> k <= r.value < |t| && !t[r.value].allow
    ensures r.None? ==> forall b | k <= b < |t| :: t[b].allow
    ensures r.Some? ==> forall b | k <= b < r.value :: t[b].allow
    decreases |t| - k
  {
    if k == |t| then None
    else if !t[k].allow then Some(k)
    else Free(t, k + 1)
  }

  /** An existing peer listed again: a changed AS or key takes the session
      down and restamps it. */
  function Refresh(p: Peer, asn: uint32, key: string, now: uint64): Peer
  {
    var p1 := if p.asn != asn then p.(asn := asn, cts := now, status := OFFLINE) else p;
    var p2 := if p1.key != key then p1.(key := key, cts := now, status := OFFLINE) else p1;
    p2.(newallow := true)
  }

  /** A new peer in a free slot. An IPv4 address fills the first four
      octets of the address union. */
  function Fill(p: Peer, af: uint8, addr: Octets16, asn: uint32, key: string, now: uint64): Peer
  {
    var store := if af == 4 then StoreIn4(p.addr, In4Of(addr)) else addr;
    p.(addr := store, af := af, asn := asn, allow := true, newallow := true, status := OFFLINE,
       sock := 0, cts := now, key := key)
  }

  /** After adding a peer that is not ignored, the table holds it, allowed,
      with that AS and key and marked as listed, unless the table was full;
      a full table is left unchanged. */
  lemma AddPeerHolds(t: seq<Peer>, af: uint8, addr: Octets16, asn: uint32, key: string, now: uint64)
    requires af == 4 || af == 6
    requires asn != 0 && !Zero(af, addr)
    ensures var t' := AddPeer(t, af, addr, asn, key, now);
      |t'| == |t|
      && ((exists a | 0 <= a < |t| :: Holds(t[a], af, addr) || !t[a].allow) ==>
            exists a | 0 <= a < |t'| :: Holds(t'[a], af, addr) && t'[a].asn == asn && t'[a].key == key && t'[a].newallow)
      && ((forall a | 0 <= a < |t| :: t[a].allow) && (forall a | 0 <= a < |t| :: !Holds(t[a], af, addr)) ==> t' == t)
  {
    match Existing(t, af, addr, 0)
    case Some(a) =>
      var p := Refresh(t[a], asn, key, now);
      assert AddPeer(t, af, addr, asn, key, now)[a] == p;
      assert Holds(p, af, addr) && p.asn == asn && p.key == key && p.newallow;
    case None =>
      match Free(t, 0)
      case Some(a) =>
        var p := Fill(t[a], af, addr, asn, key, now);
        assert AddPeer(t, af, addr, asn, key, now)[a] == p;
        if af == 6 {
          SameIp6Symmetric(In6(addr), In6(p.addr));
        }
        assert Holds(p, af, addr) && p.asn == asn && p.key == key && p.newallow;
      case None =>
  }

  /** Listing a known peer again changes only its slot, and takes its
      session down exactly when its AS or key changed. */
  lemma AddPeerKnown(t: seq<Peer>, af: uint8, addr: Octets16, asn: uint32, key: string, now: uint64, a: nat)
    requires af == 4 || af == 6
    requires asn != 0 && !Zero(af, addr)
    requires a < |t| && Holds(t[a], af, addr) && forall b | 0 <= b < a :: !Holds(t[b], af, addr)
    ensures var t' := AddPeer(t, af, addr, asn, key, now);
      && t' == t[a := t'[a]]
      && (t[a].asn == asn && t[a].key == key ==> t'[a] == t[a].(newallow := true))
      && (t[a].asn != asn || t[a].key != key ==>
            t'[a] == t[a].(asn := asn, key := key, cts := now, status := OFFLINE, newallow := true))
  {
    assert Existing(t, af, addr, 0) == Some(a);
  }

  // -------------------------------------------------------------- loading

  /** One directive applied to the settings and the table. */
  function Step(s: Settings, t: seq<Peer>, d: Directive, now: uint64): (Settings, seq<Peer>)
  {
    match d
    case RouterId(id) => (s.(routerId := id), t)
    case User(found) => (s.(user := found), t)
    case LocalAs(asn) => (s.(asn := asn), t)
    case Export(word) => (s.(exports := s.exports | ExportFlag(word)), t)
    case Neighbor(af, addr, asn, key) =>
      if af == 4 || af == 6 then (s, AddPeer(t, af, addr, asn, key, now)) else (s, t)
    case Other => (s, t)
  }

  function Steps(s: Settings, t: seq<Peer>, ds: seq<Directive>, now: uint64): (r: (Settings, seq<Peer>))
    ensures |r.1| == |t|
    decreases |ds|
  {
    if ds == [] then (s, t)
    else
      var st := Step(s, t, ds[0], now);
      Steps(st.0, st.1, ds[1..], now)
  }

  /** The pass after the file: a slot not listed again loses its permission
      and its session; every slot's type is iBGP exactly when its AS is the
      local AS. */
  function PostPass(t: seq<Peer>, localAs: uint32): (t': seq<Peer>)
    ensures |t'| == |t|
  {
    seq(|t|, a requires 0 <= a < |t| => Settle(t[a], localAs))
  }

  function Settle(p: Peer, localAs: uint32): Peer
  {
    var p1 := p.(kind := if p.asn == localAs then BGP_TYPE_IBGP else BGP_TYPE_EBGP);
    if p1.newallow then p1 else p1.(status := OFFLINE, allow := false)
  }

  /** The required settings: a router id, a local AS and a known user. */
  predicate Complete(s: Settings)
  {
    s.routerId != 0 && s.asn != 0 && s.user.Some?
  }

  /** `p_config_load`. `file` is None when the file cannot be opened. The
      settings and table are updated even when the result is a failure. */
  function Load(s: Settings, t: seq<Peer>, file: Option<seq<Directive>>, now: uint64): (r: (Settings, seq<Peer>, bool))
    ensures |r.1| == |t|
  {
    var t0 := seq(|t|, a requires 0 <= a < |t| => t[a].(newallow := false));
    var s0 := s.(user := None);
    match file
    case None => (s0, t0, false)
    case Some(ds) =>
      var st := Steps(s0, t0, ds, now);
      (st.0, PostPass(st.1, st.0.asn), Complete(st.0))
  }

  /** After a load that read the file: it succeeded exactly when the
      required settings are present; every slot's type follows its AS; and
      a slot keeps its permission only when the file listed it. */
  lemma LoadOutcome(s: Settings, t: seq<Peer>, ds: seq<Directive>, now: uint64)
    ensures var r := Load(s, t, Some(ds), now);
      && (r.2 <==> r.0.routerId != 0 && r.0.asn != 0 && r.0.user.Some?)
      && (forall a | 0 <= a < |r.1| :: r.1[a].kind == BGP_TYPE_IBGP <==> r.1[a].asn == r.0.asn)
      && (forall a | 0 <= a < |r.1| :: r.1[a].allow ==> r.1[a].newallow)
      && (forall a | 0 <= a < |r.1| :: !r.1[a].newallow ==> r.1[a].status == OFFLINE)
  {
  }

  /** A file that cannot be opened fails the load and leaves every slot
      unlisted, but touches nothing else of the table. */
  lemma LoadUnreadable(s: Settings, t: seq<Peer>, now: uint64)
    ensures var r := Load(s, t, None, now);
      && !r.2 && r.0.user.None? && r.0.asn == s.asn && r.0.routerId == s.routerId
      && forall a | 0 <= a < |t| :: r.1[a] == t[a].(newallow := false)
  {
  }
}
