/** The peer table (`struct peer_t` of inc/p_defs.h) and the slot lookup a
    new connection goes through (src/p_piranha.c:196-239). */
module Peers {
  import opened Bytes
  import opened Tools
  import opened Dump
  import opened Wire

  const MAX_PEERS: nat := 128
  const BGP_TYPE_IBGP: uint8 := 1
  const BGP_TYPE_EBGP: uint8 := 2

  /** `status`: 0 offline, 1 connected (our OPEN sent, the peer's awaited),
      2 established. */
  type Status = s: uint8 | s <= 2
  const OFFLINE: Status := 0
  const CONNECTED: Status := 1
  const ESTABLISHED: Status := 2

  /** The output buffer: the octets not yet sent (`olen` of them), or the
      failure mark `olen == -1`. */
  datatype Out = Pending(data: bytes) | SendFailed

  /** One slot. `addr` is the address union: an IPv4 peer keeps its address
      in the first four octets. `input` holds the `ilen` received octets not
      yet consumed. */
  datatype Peer = Peer(
    allow: bool, newallow: bool, status: Status,
    af: uint8, addr: Octets16, asn: uint32, key: string, kind: uint8,
    cts: uint64, sock: int,
    rhold: uint16, shold: uint16, rts: uint64, sts: uint64,
    rmsg: uint32, smsg: uint32, ucount: uint32, as4: bool,
    input: bytes, output: Out, writer: Writer)

  /** What a file header records about the peer. */
  function IdentityOf(p: Peer): Identity
  {
    Identity(p.af != 4, In4Of(p.addr).sAddr, p.addr, p.asn, p.kind)
  }

  /** The address a connection comes from. */
  datatype Remote = Remote4(ip4: In4) | Remote6(ip6: In6) | OtherFamily

  /** An allowed slot of the same family and address. */
  predicate Matches(p: Peer, remote: Remote)
  {
    match remote
    case Remote4(ip) => p.af == 4 && SameIp4(In4Of(p.addr), ip) && p.allow
    case Remote6(ip) => p.af == 6 && SameIp6(In6(p.addr), ip) && p.allow
    case OtherFamily => false
  }

  /** The first matching slot at or after `k`. */
  function FirstMatch(t: seq<Peer>, remote: Remote, k: nat): (r: Option<nat>)
    requires k <= |t|
    ensures r.Some? ==> k <= r.value < |t| && Matches(t[r.value], remote)
                        && forall b | k <= b < r.value :: !Matches(t[b], remote)
    ensures r.None? ==> forall b | k <= b < |t| :: !Matches(t[b], remote)
    decreases |t| - k
  {
    if k == |t| then None
    else if Matches(t[k], remote) then Some(k)
    else FirstMatch(t, remote, k + 1)
  }

  /** The session fields a slot is given when it takes a connection. */
  function Connect(p: Peer, sock: int, now: uint64): Peer
  {
    p.(sock := sock, status := CONNECTED, rhold := BGP_DEFAULT_HOLD, shold := BGP_DEFAULT_HOLD,
       input := [], output := Pending([]), rts := now, sts := now, cts := now,
       rmsg := 0, smsg := 0, writer := p.writer.(fh := None, filets := 0), ucount := 0, as4 := false)
  }

  /** The lookup of a new connection: the first allowed slot of the same
      family and address takes it if that slot is offline; an online first
      match, or no match, refuses the connection and changes nothing. */
  method Accept(t: seq<Peer>, remote: Remote, sock: int, now: uint64) returns (t': seq<Peer>, slot: Option<nat>)
    ensures |t'| == |t|
    ensures slot.Some? <==> FirstMatch(t, remote, 0).Some? && t[FirstMatch(t, remote, 0).value].status == OFFLINE
    ensures slot.Some? ==> slot == FirstMatch(t, remote, 0)
    ensures slot.None? ==> t' == t
    ensures slot.Some? ==> var a := slot.value;
      && t' == t[a := t'[a]]
      && t'[a].status == CONNECTED && t'[a].rhold == BGP_DEFAULT_HOLD && t'[a].shold == BGP_DEFAULT_HOLD
      && t'[a].input == [] && t'[a].output == Pending([]) && t'[a].rts == now && t'[a].sts == now && t'[a].cts == now
      && t'[a].rmsg == 0 && t'[a].smsg == 0 && t'[a].ucount == 0 && !t'[a].as4
      && t'[a].writer.fh.None? && t'[a].writer.filets == 0 && t'[a].sock == sock
      && IdentityOf(t'[a]) == IdentityOf(t[a]) && t'[a].allow && t'[a].key == t[a].key
  {
    var a := 0;
    while a < |t|
      invariant a <= |t|
      invariant FirstMatch(t, remote, 0) == FirstMatch(t, remote, a)
    {
      if Matches(t[a], remote) {
        if t[a].status == OFFLINE {
          t' := t[a := Connect(t[a], sock, now)];
          slot := Some(a);
        } else {
          t' := t;
          slot := None;
        }
        return;
      }
      a := a + 1;
    }
    t' := t;
    slot := None;
  }
}
