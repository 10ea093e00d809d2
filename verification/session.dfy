/** One BGP session as `p_main_peer_loop` and `p_main_peer_work` run it
    (src/p_piranha.c:275-406 and 496-1220): the input buffer is cut into
    messages, each message is dispatched on its type and the session state,
    its events go to the dump writer, and the output buffer is drained
    through `p_main_peer_send`. The clock, `recv()` and `send()` are
    parameters: `now` is the global `ts`, and `send` is the number `send()`
    returns when handed the pending octets. */
module Session {
  import opened Bytes
  import opened Wire
  import opened Records
  import opened Dump
  import opened Peers
  import opened Handshake
  import opened Update

  /** `x += k` on a uint32_t counter, one increment at a time. */
  function Add32(x: uint32, k: nat): (r: uint32)
    ensures x + k < 0x1_0000_0000 ==> r == x + k
  {
    (x + k) % 0x1_0000_0000
  }

  // ------------------------------------------------------------- framing

  /** What the front of the input buffer holds: not yet a whole message, a
      header whose marker is not all ones, or a whole message. */
  datatype Frame = Wait | BadMarker | Whole(h: Header)

  /** The framing tests at the top of the work loop. */
  function FrameOf(input: bytes): (f: Frame)
    ensures f.Whole? ==> |input| >= BGP_HEADER_LEN && f.h.len <= |input|
  {
    if |input| < BGP_HEADER_LEN then Wait
    else match DecodeHeader(input)
      case None => BadMarker
      case Some(h) => if |input| < h.len then Wait else Whole(h)
  }

  /** An encoded message frames as itself, whatever follows it. */
  lemma FrameEncoded(h: Header, body: bytes, rest: bytes)
    requires h.len == BGP_HEADER_LEN + |body|
    ensures FrameOf(EncodeHeader(h) + body + rest) == Whole(h)
  {
    HeaderRoundTrip(h, body + rest);
    assert EncodeHeader(h) + body + rest == EncodeHeader(h) + (body + rest);
  }

  /** Any proper prefix of an encoded message waits for more octets. */
  lemma PrefixWaits(h: Header, body: bytes, k: nat)
    requires h.len == BGP_HEADER_LEN + |body| && k < h.len
    ensures FrameOf((EncodeHeader(h) + body)[..k]) == Wait
  {
    var b := (EncodeHeader(h) + body)[..k];
    if k >= BGP_HEADER_LEN {
      var rest := (EncodeHeader(h) + body)[k..];
      HeaderRoundTrip(h, body);
      assert b[..16] == Marker();
      assert b[16..18] == (EncodeHeader(h) + body)[16..18];
      assert DecodeHeader(b) == DecodeHeader(EncodeHeader(h) + body) by {
        assert b[18] == (EncodeHeader(h) + body)[18];
      }
    }
  }

  /** A whole frame starts with the encoding of its header. */
  lemma WholeIsEncoded(input: bytes)
    requires FrameOf(input).Whole?
    ensures input[..BGP_HEADER_LEN] == EncodeHeader(FrameOf(input).h)
  {
    HeaderDecodeEncode(input);
  }

  // ---------------------------------------------------------------- events

  /** The events of one message, stamped with the current time. */
  function Stamped(es: seq<Payload>, now: Stamp): (rs: seq<Record>)
    ensures |rs| == |es|
    ensures forall k :: 0 <= k < |es| ==> rs[k].payload == es[k] && rs[k].ts == now
  {
    seq(|es|, k requires 0 <= k < |es| => Record(now, es[k]))
  }

  /** The dump writers called one after another while the session is up. */
  function Log(w: Writer, id: Identity, es: seq<Payload>, now: Stamp): (w': Writer)
    decreases |es|
  {
    if es == [] then w
    else Log(AddEvent(w, id, true, true, Record(now, es[0])), id, es[1..], now)
  }

  /** Every event of the list reaches the dump, in order, and the writer's
      invariant is kept. */
  lemma {:induction false} LogAppends(w: Writer, id: Identity, es: seq<Payload>, now: Stamp)
    requires Inv(w)
    requires forall k :: 0 <= k < |es| ==> IsEvent(es[k]) && Records.Encodable(Record(now, es[k]))
    ensures Inv(Log(w, id, es, now))
    ensures NameFree(w) && Unclaimed(w.kept, Bucket(now.sec)) ==>
      Events(Log(w, id, es, now)) == Events(w) + Stamped(es, now)
    decreases |es|
  {
    if es != [] {
      var r := Record(now, es[0]);
      AddEventInv(w, id, true, true, r);
      if NameFree(w) && Unclaimed(w.kept, Bucket(now.sec)) {
        AddEventLog(w, id, true, true, r);
        AddEventNames(w, id, true, true, r);
      }
      var w1 := AddEvent(w, id, true, true, r);
      LogAppends(w1, id, es[1..], now);
      assert Stamped(es, now) == [r] + Stamped(es[1..], now);
    }
  }

  // -------------------------------------------------------------- dispatch

  /** The fields the work loop never touches: the output side, the peer's
      identity and configuration, and the session's start. */
  predicate Untouched(p: Peer, q: Peer)
  {
    && q.output == p.output && IdentityOf(q) == IdentityOf(p)
    && q.smsg == p.smsg && q.sts == p.sts && q.cts == p.cts
    && q.allow == p.allow && q.key == p.key && q.sock == p.sock
  }

  /** The hold time of a received OPEN adopted: `rhold` takes it and
      `shold` drops to it when it is smaller. */
  function AdoptHold(p: Peer, hold: Option<uint16>): (q: Peer)
    ensures hold.Some? ==> q.rhold == hold.value && q.shold <= p.shold && q.shold <= hold.value
    ensures hold.Some? ==> q.shold == p.shold || q.shold == hold.value
    ensures hold.None? ==> q == p
    ensures q.(rhold := p.rhold, shold := p.shold) == p
  {
    match hold
    case None => p
    case Some(h) => p.(rhold := h, shold := if h < p.shold then h else p.shold)
  }

  /** The work loop over the input buffer: whole messages are handled and
      consumed one after another until the buffer holds no whole message,
      a header is broken, or a message ends the loop. Every message framed
      counts in `rmsg` and refreshes `rts`. A session that is down stays
      down and writes nothing. */
  function Work(p: Peer, now: Stamp, exports: bv8): (q: Peer)
    ensures Untouched(p, q) && |q.input| <= |p.input|
    ensures p.status == OFFLINE ==> q.status == OFFLINE && q.writer == p.writer && q.ucount == p.ucount
    decreases |p.input|, 3
  {
    match FrameOf(p.input)
    case Wait => p
    case BadMarker => p.(status := OFFLINE)
    case Whole(h) => Handle(Counted(p, now), h, now, exports)
  }

  /** A framed message counted: `rmsg` goes up and `rts` is refreshed. */
  function Counted(p: Peer, now: Stamp): Peer
  {
    p.(rmsg := Inc32(p.rmsg), rts := now.sec)
  }

  /** The branch of the work loop for the message framed by `h` at the front
      of the buffer. A message shorter than its header is not read past: it
      ends the session as the size check would. */
  function Handle(p: Peer, h: Header, now: Stamp, exports: bv8): (q: Peer)
    requires h.len <= |p.input|
    ensures Untouched(p, q) && |q.input| <= |p.input|
    ensures p.status == OFFLINE ==> q.status == OFFLINE && q.writer == p.writer && q.ucount == p.ucount
    decreases |p.input|, 2
  {
    if h.msgType == BGP_OPEN && p.status == CONNECTED then OnOpen(p, h, now, exports)
    else if h.msgType == BGP_UPDATE && p.status == ESTABLISHED then OnUpdate(p, h, now, exports)
    else if h.msgType == BGP_ERROR then
      Consume(p.(status := OFFLINE), h.len, BGP_HEADER_LEN + BGP_ERROR_LEN, now, exports)
    else if h.msgType == BGP_KEEPALIVE && p.status == ESTABLISHED then
      Consume(p.(writer := AddEvent(p.writer, IdentityOf(p), true, true, Record(now, KeepaliveRec))),
              h.len, BGP_HEADER_LEN, now, exports)
    else p.(status := OFFLINE)
  }

  /** An OPEN while the slot waits for one: the OPEN check decides; a hold
      time it read is adopted even when the session is refused. An accepted
      OPEN is logged before the size check, which then ends the session if
      the walk over the parameters stopped anywhere but at the end of the
      message. */
  function OnOpen(p: Peer, h: Header, now: Stamp, exports: bv8): (q: Peer)
    requires h.len <= |p.input|
    ensures Untouched(p, q) && |q.input| <= |p.input|
    decreases |p.input|, 1
  {
    var v := CheckOpen(p.input, h.len, p.asn);
    var q := AdoptHold(p, v.hold);
    if v.established then
      Consume(q.(status := ESTABLISHED, as4 := q.as4 || v.as4,
                 writer := AddEvent(q.writer, IdentityOf(p), true, true, Record(now, OpenRec))), h.len, v.next, now, exports)
    else q.(status := OFFLINE)
  }

  /** An UPDATE on an established session: its events are logged and
      counted as they are decoded, and a decoding failure ends the
      session. */
  function OnUpdate(p: Peer, h: Header, now: Stamp, exports: bv8): (q: Peer)
    requires h.len <= |p.input|
    ensures Untouched(p, q) && |q.input| <= |p.input|
    decreases |p.input|, 1
  {
    if h.len < BGP_HEADER_LEN then p.(status := OFFLINE)
    else
      var d := DecodeUpdate(p.input[..h.len], exports, p.as4);
      var q := p.(writer := Log(p.writer, IdentityOf(p), d.events, now), ucount := Add32(p.ucount, |d.events|));
      if d.ok then Consume(q, h.len, h.len, now, exports) else q.(status := OFFLINE)
  }

  /** The size check that ends every branch which does not return: a
      message read to any other length than its own ends the session;
      otherwise the buffer is used up or the loop goes on with what
      follows the message. */
  function Consume(q: Peer, len: nat, pos: nat, now: Stamp, exports: bv8): (r: Peer)
    requires pos >= BGP_HEADER_LEN
    ensures Untouched(q, r) && |r.input| <= |q.input|
    ensures q.status == OFFLINE ==> r.status == OFFLINE && r.writer == q.writer && r.ucount == q.ucount
    decreases |q.input|, 0
  {
    if len != pos then q.(status := OFFLINE)
    else if |q.input| <= len then q.(input := [])
    else Work(q.(input := q.input[len..]), now, exports)
  }

  // ------------------------------------------------------ whole messages

  /** A message read exactly to its length is consumed, and the loop goes
      on with what follows it. */
  lemma ConsumeGoesOn(q: Peer, len: nat, now: Stamp, exports: bv8)
    requires BGP_HEADER_LEN <= len <= |q.input|
    ensures Consume(q, len, len, now, exports) == Work(q.(input := q.input[len..]), now, exports)
  {
    if |q.input| <= len {
      assert q.input[len..] == [];
    }
  }

  /** A KEEPALIVE at the front of an established session's buffer is
      logged, counted and consumed. */
  lemma KeepaliveStep(p: Peer, rest: bytes, now: Stamp, exports: bv8)
    requires p.status == ESTABLISHED && p.input == Keepalive() + rest
    ensures Work(p, now, exports)
         == Work(Counted(p, now).(writer := AddEvent(p.writer, IdentityOf(p), true, true, Record(now, KeepaliveRec)),
                                  input := rest), now, exports)
  {
    var h := Header(BGP_HEADER_LEN, BGP_KEEPALIVE);
    assert p.input == EncodeHeader(h) + [] + rest;
    FrameEncoded(h, [], rest);
    var c := Counted(p, now);
    var q := c.(writer := AddEvent(c.writer, IdentityOf(c), true, true, Record(now, KeepaliveRec)));
    assert Work(p, now, exports) == Handle(c, h, now, exports) == Consume(q, BGP_HEADER_LEN, BGP_HEADER_LEN, now, exports);
    ConsumeGoesOn(q, BGP_HEADER_LEN, now, exports);
    assert q.input[BGP_HEADER_LEN..] == rest;
  }

  /** Whether the OPEN check lets a well-formed OPEN establish a session
      with a slot configured for AS `peerAs`: version 4, the slot's AS or
      AS_TRANS, every optional parameter acceptable, and AS_TRANS only
      with a 4-octet AS capability. */
  predicate OpenAccepted(o: OpenMsg, peerAs: uint32)
  {
    && o.version == 4 && (o.asn == AS_TRANS || o.asn == peerAs)
    && ParamsAccepted(o.params, peerAs)
    && (o.asn != AS_TRANS || AnnouncesAs4(o.params))
  }

  /** The slot once a received OPEN is accepted: counted, its hold time
      adopted, established, the 4-octet AS capability noted and the open
      event logged. */
  function Opened(p: Peer, o: OpenMsg, now: Stamp): (q: Peer)
    ensures q.status == ESTABLISHED && q.rhold == o.hold && q.shold == Min16(p.shold, o.hold)
    ensures q.as4 == (p.as4 || AnnouncesAs4(o.params)) && q.input == p.input
  {
    AdoptHold(Counted(p, now), Some(o.hold)).(
      status := ESTABLISHED, as4 := p.as4 || AnnouncesAs4(o.params),
      writer := AddEvent(p.writer, IdentityOf(p), true, true, Record(now, OpenRec)))
  }

  /** The smaller of two hold times. */
  function Min16(a: uint16, b: uint16): uint16
  {
    if b < a then b else a
  }

  /** An encoded OPEN starts with the header naming its own length. */
  lemma OpenFrames(o: OpenMsg, rest: bytes)
    requires Sendable(o)
    ensures var m := EncodeOpenMsg(o);
      FrameOf(m + rest) == Whole(Header(|m|, BGP_OPEN))
  {
    var m := EncodeOpenMsg(o);
    var h := Header(|m|, BGP_OPEN);
    assert m == EncodeHeader(h) + m[BGP_HEADER_LEN..];
    FrameEncoded(h, m[BGP_HEADER_LEN..], rest);
  }

  /** A well-formed OPEN received while the slot waits for one: when the
      OPEN check accepts it the session is established and the loop goes on
      after it; otherwise the session ends and nothing reaches the dump. */
  lemma OpenStep(p: Peer, o: OpenMsg, rest: bytes, now: Stamp, exports: bv8)
    requires p.status == CONNECTED && Sendable(o) && p.input == EncodeOpenMsg(o) + rest
    ensures OpenAccepted(o, p.asn) ==>
      Work(p, now, exports) == Work(Opened(p, o, now).(input := rest), now, exports)
    ensures !OpenAccepted(o, p.asn) ==>
      Work(p, now, exports).status == OFFLINE && Work(p, now, exports).writer == p.writer
  {
    OpenFrames(o, rest);
    OpenAt(p, EncodeOpenMsg(o), rest, now, exports);
    CheckEncodedOpen(o, rest, p.asn);
  }

  /** An OPEN `m` framed at the front of the buffer of a slot waiting for
      one: the OPEN check's verdict decides, and the hold time it read is
      adopted either way. An accepted OPEN is logged; the loop then goes on
      after it only when the walk over its parameters stopped at its end. */
  lemma OpenAt(p: Peer, m: bytes, rest: bytes, now: Stamp, exports: bv8)
    requires p.status == CONNECTED && p.input == m + rest && BGP_HEADER_LEN <= |m| < 0x1_0000
    requires FrameOf(p.input) == Whole(Header(|m|, BGP_OPEN))
    ensures var v := CheckOpen(p.input, |m|, p.asn);
      var q := AdoptHold(Counted(p, now), v.hold);
      var e := q.(status := ESTABLISHED, as4 := p.as4 || v.as4,
                  writer := AddEvent(p.writer, IdentityOf(p), true, true, Record(now, OpenRec)));
      Work(p, now, exports)
      == if !v.established then q.(status := OFFLINE)
         else if v.next != |m| then e.(status := OFFLINE)
         else Work(e.(input := rest), now, exports)
  {
    var h := Header(|m|, BGP_OPEN);
    var c := Counted(p, now);
    assert Work(p, now, exports) == Handle(c, h, now, exports) == OnOpen(c, h, now, exports);
    var v := CheckOpen(p.input, |m|, p.asn);
    if v.established {
      var q := AdoptHold(c, v.hold);
      var q' := q.(status := ESTABLISHED, as4 := q.as4 || v.as4,
                   writer := AddEvent(q.writer, IdentityOf(c), true, true, Record(now, OpenRec)));
      assert OnOpen(c, h, now, exports) == Consume(q', h.len, v.next, now, exports);
      if v.next == |m| {
        ConsumeGoesOn(q', h.len, now, exports);
        assert q'.input[h.len..] == rest;
      }
    }
  }

  /** An OPEN whose only parameter, of a type other than capabilities,
      declares a length running past the message: the session is
      established and the open event logged, and the size check then ends
      the session. */
  lemma OverrunOpenLogged(p: Peer, hold: uint16, id: uint32, code: uint8, plen: uint8, rest: bytes, now: Stamp, exports: bv8)
    requires p.status == CONNECTED && p.asn < 0x1_0000 && p.asn != AS_TRANS as uint32
    requires code != PARAM_CAPABILITIES && code <= 4 && plen > 1
    requires p.input == EncodeHeader(Header(32, BGP_OPEN)) + EncodeOpen(Open(4, p.asn as uint16, hold, id, 3)) + [code, plen, 0] + rest
    ensures Work(p, now, exports).status == OFFLINE
    ensures Work(p, now, exports).writer == AddEvent(p.writer, IdentityOf(p), true, true, Record(now, OpenRec))
  {
    var body := EncodeOpen(Open(4, p.asn as uint16, hold, id, 3)) + [code, plen, 0];
    var m := EncodeHeader(Header(32, BGP_OPEN)) + body;
    assert p.input == EncodeHeader(Header(32, BGP_OPEN)) + body + rest;
    FrameEncoded(Header(32, BGP_OPEN), body, rest);
    OverrunningParam(p.asn as uint16, hold, id, code, plen, rest);
    OpenAt(p, m, rest, now, exports);
  }

  /** The slot once a received UPDATE is decoded: counted, its events
      logged and their number added to `ucount`. */
  function Updated(p: Peer, d: Decoding, now: Stamp): (q: Peer)
    ensures q.input == p.input && q.status == p.status
  {
    Counted(p, now).(writer := Log(p.writer, IdentityOf(p), d.events, now), ucount := Add32(p.ucount, |d.events|))
  }

  /** An encoded UPDATE starts with the header naming its own length. */
  lemma UpdateFrames(u: UpdateMsg, rest: bytes)
    requires Update.Encodable(u)
    ensures var m := EncodeUpdate(u);
      FrameOf(m + rest) == Whole(Header(|m|, BGP_UPDATE))
  {
    var m := EncodeUpdate(u);
    var h := Header(|m|, BGP_UPDATE);
    assert m == EncodeHeader(h) + m[BGP_HEADER_LEN..];
    FrameEncoded(h, m[BGP_HEADER_LEN..], rest);
  }

  /** A well-formed UPDATE on an established session: its decoded events
      are logged and counted, and the loop goes on after it unless the
      decoding ended the session. */
  lemma UpdateStep(p: Peer, u: UpdateMsg, rest: bytes, now: Stamp, exports: bv8)
    requires p.status == ESTABLISHED && Update.Encodable(u) && p.input == EncodeUpdate(u) + rest
    ensures var d := Expected(u, exports, p.as4);
      Work(p, now, exports)
      == if d.ok then Work(Updated(p, d, now).(input := rest), now, exports)
         else Updated(p, d, now).(status := OFFLINE)
  {
    UpdateFrames(u, rest);
    UpdateRoundTrip(u, exports, p.as4);
    UpdateAt(p, EncodeUpdate(u), rest, now, exports);
  }

  /** An UPDATE `m` framed at the front of an established session's buffer
      is decoded, its events logged and counted, and the loop goes on after
      it unless the decoding failed. */
  lemma UpdateAt(p: Peer, m: bytes, rest: bytes, now: Stamp, exports: bv8)
    requires p.status == ESTABLISHED && p.input == m + rest && BGP_HEADER_LEN <= |m| < 0x1_0000
    requires FrameOf(p.input) == Whole(Header(|m|, BGP_UPDATE))
    ensures var d := DecodeUpdate(m, exports, p.as4);
      Work(p, now, exports)
      == if d.ok then Work(Updated(p, d, now).(input := rest), now, exports)
         else Updated(p, d, now).(status := OFFLINE)
  {
    var h := Header(|m|, BGP_UPDATE);
    var c := Counted(p, now);
    assert Work(p, now, exports) == Handle(c, h, now, exports) == OnUpdate(c, h, now, exports);
    assert c.input[..h.len] == m;
    var d := DecodeUpdate(m, exports, p.as4);
    var q := Updated(p, d, now);
    if d.ok {
      assert OnUpdate(c, h, now, exports) == Consume(q, h.len, h.len, now, exports);
      ConsumeGoesOn(q, h.len, now, exports);
      assert q.input[h.len..] == rest;
    }
  }

  /** `k` KEEPALIVE messages back to back. */
  function Keepalives(k: nat): (b: bytes)
    ensures |b| == BGP_HEADER_LEN * k
  {
    if k == 0 then [] else Keepalive() + Keepalives(k - 1)
  }

  /** One increment and then `k` more is `k + 1` increments. */
  lemma Add32Step(x: uint32, k: nat)
    ensures Add32(Inc32(x), k) == Add32(x, k + 1)
  {
    var m := 0x1_0000_0000;
    if x + 1 == m {
      assert m + k == (1 + k / m) * m + k % m;
      DivModUnique(m + k, m, 1 + k / m, k % m);
    }
  }

  /** The payloads of `k` KEEPALIVEs. */
  function KeepaliveEvents(k: nat): (es: seq<Payload>)
    ensures |es| == k && forall j :: 0 <= j < k ==> es[j] == KeepaliveRec
  {
    seq(k, _ => KeepaliveRec)
  }

  /** An established session handling `k` KEEPALIVEs stays established,
      empties its buffer, counts `k` messages and logs one keepalive record
      for each. */
  lemma {:induction false} WorkKeepalives(p: Peer, k: nat, now: Stamp, exports: bv8)
    requires p.status == ESTABLISHED && p.input == Keepalives(k)
    ensures Work(p, now, exports)
         == p.(input := [], rmsg := Add32(p.rmsg, k), rts := if k == 0 then p.rts else now.sec,
               writer := Log(p.writer, IdentityOf(p), KeepaliveEvents(k), now))
    decreases k
  {
    if k == 0 {
      assert p.rmsg + 0 < 0x1_0000_0000;
    } else {
      KeepaliveStep(p, Keepalives(k - 1), now, exports);
      var next := KeepaliveCounted(p, k, now);
      WorkKeepalives(next, k - 1, now, exports);
      KeepaliveCountedAfter(p, k, now);
    }
  }

  /** The slot after the first of `k` KEEPALIVEs has been handled. */
  function KeepaliveCounted(p: Peer, k: nat, now: Stamp): (q: Peer)
    requires k > 0
  {
    Counted(p, now).(writer := AddEvent(p.writer, IdentityOf(p), true, true, Record(now, KeepaliveRec)),
                     input := Keepalives(k - 1))
  }

  /** The first KEEPALIVE counted and logged, then `k - 1` more, is `k`
      counted and logged. */
  lemma KeepaliveCountedAfter(p: Peer, k: nat, now: Stamp)
    requires k > 0
    ensures var n := KeepaliveCounted(p, k, now);
      n.(input := [], rmsg := Add32(n.rmsg, k - 1), rts := if k - 1 == 0 then n.rts else now.sec,
         writer := Log(n.writer, IdentityOf(n), KeepaliveEvents(k - 1), now))
      == p.(input := [], rmsg := Add32(p.rmsg, k), rts := now.sec,
            writer := Log(p.writer, IdentityOf(p), KeepaliveEvents(k), now))
  {
    Add32Step(p.rmsg, k - 1);
    assert KeepaliveEvents(k)[1..] == KeepaliveEvents(k - 1);
  }

  /** The keepalive records reach the dump, in order, and keep the writer's
      invariant. */
  lemma KeepalivesLogged(p: Peer, k: nat, now: Stamp, exports: bv8)
    requires p.status == ESTABLISHED && p.input == Keepalives(k) && Inv(p.writer)
    ensures var q := Work(p, now, exports);
      && q.status == ESTABLISHED && q.input == [] && Inv(q.writer)
      && (NameFree(p.writer) && Unclaimed(p.writer.kept, Bucket(now.sec)) ==>
            Events(q.writer) == Events(p.writer) + Stamped(KeepaliveEvents(k), now))
  {
    WorkKeepalives(p, k, now, exports);
    LogAppends(p.writer, IdentityOf(p), KeepaliveEvents(k), now);
  }
}
