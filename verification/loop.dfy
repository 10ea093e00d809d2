/** The loop a peer's thread runs once its connection is accepted
    (src/p_piranha.c:260-493 and 1224-1269): our OPEN and first KEEPALIVE
    are queued and sent, then each pass receives, works the input, checks
    the hold and keepalive timers and drains the output buffer, until the
    session is down; the close time and the close record end it.
    `send()` is a parameter: the number it returns when handed the pending
    octets. What `recv()` delivered and the time are given per pass. */
module Loop {
  import opened Bytes
  import opened Wire
  import opened Records
  import opened Dump
  import opened Peers
  import opened Session
  import Config

  /** What `send()` returns: -1 on error, otherwise a count. */
  type SendResult = n: int | n >= -1

  /** A peer slot after a step, with the octets handed to `send()` during
      the step, in order. */
  datatype Sent = Sent(p: Peer, wire: bytes)

  /** The number of octets waiting in the output buffer. */
  function Backlog(out: Out): nat
  {
    if out.Pending? then |out.data| else 0
  }

  // ---------------------------------------------------------------- send

  /** `p_main_peer_send`: with octets pending, `send()` is offered the whole
      buffer; all of them sent empties it, some of them sent keeps the
      rest, and 0, -1 or a count larger than offered mark it failed. An
      empty or failed buffer is left alone. */
  function Send(out: Out, send: bytes -> SendResult): (r: Out)
    ensures out.SendFailed? ==> r.SendFailed?
    ensures Backlog(out) > 0 && r.Pending? ==> Backlog(r) < Backlog(out)
  {
    match out
    case SendFailed => out
    case Pending(d) =>
      if d == [] then out
      else
        var n := send(d);
        if n == |d| then Pending([])
        else if n == 0 || n == -1 then SendFailed
        else if n < |d| then Pending(d[n..])
        else SendFailed
  }

  /** The octets `send()` took in that call. */
  function Handed(out: Out, send: bytes -> SendResult): bytes
  {
    match out
    case SendFailed => []
    case Pending(d) =>
      if d == [] then [] else var n := send(d); if 0 < n <= |d| then d[..n] else []
  }

  /** A send loses and reorders nothing: what was handed over followed by
      what is still pending is what was pending; a failure hands over
      nothing; and the buffer fails exactly on 0, -1 or an impossible
      count. */
  lemma SendSplits(out: Out, send: bytes -> SendResult)
    ensures out.Pending? && Send(out, send).Pending? ==> Handed(out, send) + Send(out, send).data == out.data
    ensures Send(out, send).SendFailed? ==> Handed(out, send) == []
    ensures out.Pending? && out.data != [] ==>
      (Send(out, send).SendFailed? <==> var n := send(out.data); n <= 0 || n > |out.data|)
  {
    if out.Pending? && out.data != [] {
      var d := out.data;
      var n := send(d);
      if 0 < n <= |d| {
        assert d[..n] + d[n..] == d;
      }
    }
  }

  /** A message copied into the output buffer at `olen`, as intended:
      queued after what is pending, and nothing queued once a send has
      failed. */
  function Append(out: Out, msg: bytes): (r: Out)
    ensures Backlog(r) == if out.Pending? then Backlog(out) + |msg| else 0
  {
    match out
    case SendFailed => SendFailed
    case Pending(d) => Pending(d + msg)
  }

  /** A message copied into the output buffer, counted in `smsg`, and
      `send()` called once, as `p_main_peer_open` and the keepalive timer
      do, with a failed send ending the session as the sending loop does.
      Nothing is lost or reordered: unless the buffer failed, what was
      handed over followed by what is pending is what was pending followed
      by the message; a failed buffer stays failed and hands nothing
      over; and when `send()` takes everything offered, the buffer is
      emptied onto the wire. */
  function Queue(p: Peer, msg: bytes, send: bytes -> SendResult): (s: Sent)
    ensures p.output.Pending? && s.p.output.Pending? ==> s.wire + s.p.output.data == p.output.data + msg
    ensures p.output.SendFailed? ==> s.p.output.SendFailed? && s.wire == []
    ensures p.output.Pending? && send(p.output.data + msg) == |p.output.data + msg| ==>
      s.p.output == Pending([]) && s.wire == p.output.data + msg
    ensures s.p.output.SendFailed? ==> s.p.status == OFFLINE
    ensures s.p.output.Pending? ==> s.p.status == p.status
    ensures s.p == p.(output := s.p.output, smsg := Inc32(p.smsg), status := s.p.status)
  {
    var out := Append(p.output, msg);
    var sent := Send(out, send);
    SendSplits(out, send);
    Sent(p.(output := sent, smsg := Inc32(p.smsg), status := if sent.SendFailed? then OFFLINE else p.status),
         Handed(out, send))
  }

  /** The copy as written: `memcpy(obuf + olen, ...)` and `olen += len`
      with the failure mark `olen == -1` still in place. The message's first
      octet lands in front of the buffer, the rest at its start, and `olen`
      becomes one less than the message's length. */
  function AppendAsWritten(out: Out, msg: bytes): (r: Out)
    requires |msg| >= 1
    ensures r.Pending?
  {
    match out
    case SendFailed => Pending(msg[1..])
    case Pending(d) => Pending(d + msg)
  }

  /** After a failed send the code as written forgets the failure: a
      KEEPALIVE queued next becomes 18 pending octets that are handed to
      `send()` as they are, and those do not frame as a message. */
  lemma FailureForgotten(send: bytes -> SendResult)
    requires forall d: bytes :: send(d) == |d|
    ensures var out := AppendAsWritten(SendFailed, Keepalive());
      && out.Pending? && Handed(out, send) == Keepalive()[1..]
      && |Handed(out, send)| == BGP_HEADER_LEN - 1 && FrameOf(Handed(out, send)) == Wait
      && Send(out, send) == Pending([])
  {
    var out := AppendAsWritten(SendFailed, Keepalive());
    assert send(Keepalive()[1..]) == BGP_HEADER_LEN - 1;
  }

  /** Each message queued and then one send, in turn, as the keepalive
      timer does it: the buffer left and the octets handed over. */
  function QueueAndSend(out: Out, msgs: seq<bytes>, send: bytes -> SendResult): (r: (Out, bytes))
    decreases |msgs|
  {
    if msgs == [] then (out, [])
    else
      var q := Append(out, msgs[0]);
      var r := QueueAndSend(Send(q, send), msgs[1..], send);
      (r.0, Handed(q, send) + r.1)
  }

  /** As intended, a failed buffer stays failed whatever is queued and
      however often `send()` is called, and hands nothing over. */
  lemma {:induction false} FailureSticks(msgs: seq<bytes>, send: bytes -> SendResult)
    ensures QueueAndSend(SendFailed, msgs, send) == (SendFailed, [])
    decreases |msgs|
  {
    if msgs != [] {
      FailureSticks(msgs[1..], send);
    }
  }

  // -------------------------------------------------------------- timers

  /** `ts.tv_sec - x` for a `uint64_t` field `x`: the subtraction is done on
      unsigned 64-bit values, so a clock behind `x` wraps to a huge
      difference. */
  function Since(now: uint64, x: uint64): (d: uint64)
  {
    if x <= now then now - x else now - x + 0x1_0000_0000_0000_0000
  }

  /** `Since` is the subtraction modulo 2^64. */
  lemma SinceIsModular(now: uint64, x: uint64)
    ensures Since(now, x) == (now - x) % 0x1_0000_0000_0000_0000
  {
    var m := 0x1_0000_0000_0000_0000;
    if now < x {
      DivModUnique(now - x, m, -1, now - x + m);
    } else {
      DivModUnique(now - x, m, 0, now - x);
    }
  }

  /** The hold timer: a session that has heard nothing for more than its
      hold time is down; a hold time of 0 turns the check off. Within the
      hold time the session survives; once it has passed, or whenever the
      clock reads earlier than the last message (any clock value a
      `time_t` can hold), a session with a hold time is down. Nothing but
      the status changes. */
  function HoldCheck(p: Peer, now: uint64): (q: Peer)
    ensures p.rts <= now <= p.rts + p.rhold ==> q == p
    ensures p.rhold != 0 && p.rts + p.rhold < now ==> q.status == OFFLINE
    ensures p.rhold != 0 && now < p.rts < 0x8000_0000_0000_0000 ==> q.status == OFFLINE
    ensures q == p.(status := q.status)
  {
    if p.rhold != 0 && Since(now, p.rts) > p.rhold then p.(status := OFFLINE) else p
  }

  /** A KEEPALIVE is due when more than a third of the send hold time has
      passed since the last one; a hold time of 0 sends none. */
  predicate KeepaliveDue(p: Peer, now: uint64)
  {
    p.shold != 0 && Since(now, p.sts) > p.shold / 3
  }

  /** The keepalive timer: a due KEEPALIVE is queued, `sts` takes the time,
      the message is counted and `send()` is called once. It runs whatever
      the session's state. */
  function KeepaliveTimer(p: Peer, now: uint64, send: bytes -> SendResult): (s: Sent)
  {
    if KeepaliveDue(p, now) then Queue(p.(sts := now), Keepalive(), send) else Sent(p, [])
  }

  /** After the timer fires the next KEEPALIVE is due exactly when more than
      a third of the hold time has passed again (as long as the clock does
      not wrap). */
  lemma KeepaliveSpacing(p: Peer, now: uint64, later: uint64, send: bytes -> SendResult)
    requires KeepaliveDue(p, now) && now <= later
    ensures KeepaliveDue(KeepaliveTimer(p, now, send).p, later) <==> later - now > p.shold / 3
  {
  }

  // --------------------------------------------------------------- flush

  /** The sending loop: while octets are pending and the session is up, a
      send is counted and `send()` is offered the buffer; a failed send
      ends the session. */
  function Flush(p: Peer, send: bytes -> SendResult): (s: Sent)
    ensures p.status == OFFLINE || p.output.SendFailed? ==> s == Sent(p, [])
    ensures p.status != OFFLINE && p.output.Pending? ==>
      || (s.p.status == p.status && s.p.output == Pending([]) && s.wire == p.output.data)
      || (s.p.status == OFFLINE && s.p.output.SendFailed? && s.wire <= p.output.data)
    ensures s.p == p.(status := s.p.status, output := s.p.output, smsg := s.p.smsg)
    decreases Backlog(p.output)
  {
    if p.status == OFFLINE || p.output.SendFailed? || p.output.data == [] then Sent(p, [])
    else
      var q := p.(smsg := Inc32(p.smsg), output := Send(p.output, send));
      var h := Handed(p.output, send);
      SendSplits(p.output, send);
      if q.output.SendFailed? then Sent(q.(status := OFFLINE), h)
      else
        var r := Flush(q, send);
        Sent(r.p, h + r.wire)
  }

  // --------------------------------------------------------------- start

  /** The set-up of `p_main_peer_loop` and `p_main_peer_open`: both buffers
      emptied, our OPEN queued, counted and sent, then the first KEEPALIVE
      queued, `sts` set, counted and sent; a failed send ends the
      session. */
  function Start(p: Peer, cfg: Config.Settings, now: uint64, send: bytes -> SendResult): (s: Sent)
    ensures s.p.output.SendFailed? ==> s.p.status == OFFLINE
    ensures s.p.output.Pending? ==> s.p.status == p.status
    ensures s.p == p.(input := [], output := s.p.output, smsg := Inc32(Inc32(p.smsg)), sts := now, status := s.p.status)
  {
    var s0 := Queue(p.(input := [], output := Pending([])), ReplyOpen(cfg.asn, p.shold, cfg.routerId, p.af != 4), send);
    var s1 := Queue(s0.p.(sts := now), Keepalive(), send);
    Sent(s1.p, s0.wire + s1.wire)
  }

  /** Two messages queued one after the other on an empty buffer leave in
      that order, none of their octets lost, unless a send failed. */
  lemma TwoQueued(p: Peer, a: bytes, b: bytes, now: uint64, send: bytes -> SendResult)
    requires p.output == Pending([])
    ensures var s0 := Queue(p, a, send);
      var s1 := Queue(s0.p.(sts := now), b, send);
      s1.p.output.Pending? ==> s0.wire + s1.wire + s1.p.output.data == a + b
  {
    var s0 := Queue(p, a, send);
    var s1 := Queue(s0.p.(sts := now), b, send);
    if s1.p.output.Pending? {
      assert [] + a == a;
      assert s0.wire + s1.wire + s1.p.output.data == s0.wire + (s1.wire + s1.p.output.data);
      assert s0.wire + (s0.p.output.data + b) == (s0.wire + s0.p.output.data) + b;
    }
  }

  /** When every send takes everything, two messages queued on an empty
      buffer are both on the wire, in order, and nothing is pending. */
  lemma TwoQueuedAll(p: Peer, a: bytes, b: bytes, now: uint64, send: bytes -> SendResult)
    requires p.output == Pending([])
    requires forall d: bytes :: send(d) == |d|
    ensures var s0 := Queue(p, a, send);
      var s1 := Queue(s0.p.(sts := now), b, send);
      s1.p.output == Pending([]) && s0.wire + s1.wire == a + b
  {
    assert [] + a == a;
    assert send(a) == |a|;
    assert [] + b == b;
    assert send(b) == |b|;
  }

  /** Our OPEN and then the first KEEPALIVE leave in that order, none of
      their octets lost: unless a send failed, what was handed over
      followed by what is pending is exactly the two messages; when every
      send takes everything, both are on the wire and nothing is pending. */
  lemma StartSends(p: Peer, cfg: Config.Settings, now: uint64, send: bytes -> SendResult)
    ensures var s := Start(p, cfg, now, send);
      s.p.output.Pending? ==>
        s.wire + s.p.output.data == ReplyOpen(cfg.asn, p.shold, cfg.routerId, p.af != 4) + Keepalive()
    ensures (forall d: bytes :: send(d) == |d|) ==>
      var s := Start(p, cfg, now, send);
      s.wire == ReplyOpen(cfg.asn, p.shold, cfg.routerId, p.af != 4) + Keepalive() && s.p.output == Pending([])
  {
    var p0 := p.(input := [], output := Pending([]));
    TwoQueued(p0, ReplyOpen(cfg.asn, p.shold, cfg.routerId, p.af != 4), Keepalive(), now, send);
    if forall d: bytes :: send(d) == |d| {
      TwoQueuedAll(p0, ReplyOpen(cfg.asn, p.shold, cfg.routerId, p.af != 4), Keepalive(), now, send);
    }
  }

  // ----------------------------------------------------------------- pass

  /** What `recv()` gave in one pass: an error, or the octets read (none
      when the peer closed the connection). */
  datatype Received = RecvError | Got(data: bytes)

  /** The room left in the input buffer. */
  function Room(p: Peer): nat
  {
    if |p.input| <= INPUT_BUFFER then INPUT_BUFFER - |p.input| else 0
  }

  /** The `recv()` step: on an error the dump file is checked; otherwise
      the octets read are appended to the input buffer, `recv()` reading at
      most what fits, and a read of nothing means the connection is
      closed. */
  function Receive(p: Peer, rcv: Received, now: Stamp): (q: Peer)
    ensures Untouched(p, q) && (|p.input| <= INPUT_BUFFER ==> |q.input| <= INPUT_BUFFER)
    ensures rcv.RecvError? ==> q.input == p.input && q.status == p.status
    ensures rcv.Got? ==> q.writer == p.writer
    ensures rcv.Got? ==>
      || q.status == OFFLINE
      || (q.status == p.status && |p.input| < |q.input| && q.input[..|p.input|] == p.input
          && q.input[|p.input|..] <= rcv.data)
    ensures rcv == Got([]) ==> q.status == OFFLINE
  {
    match rcv
    case RecvError => p.(writer := CheckFile(p.writer, IdentityOf(p), p.status != OFFLINE, true, now))
    case Got(d) =>
      var took := if |d| <= Room(p) then d else d[..Room(p)];
      if took == [] then p.(status := OFFLINE) else p.(input := p.input + took)
  }

  /** The receive and work steps of a pass: the work loop runs when the
      input buffer holds anything. They leave the output side, the peer's
      identity and configuration alone, keep the input buffer within its
      size, and a closed connection ends the session. */
  function Work1(p: Peer, rcv: Received, now: Stamp, exports: bv8): (q: Peer)
    ensures Untouched(p, q)
    ensures |p.input| <= INPUT_BUFFER ==> |q.input| <= INPUT_BUFFER
    ensures rcv == Got([]) ==> q.status == OFFLINE
  {
    var p1 := Receive(p, rcv, now);
    if |p1.input| > 0 then Work(p1, now, exports) else p1
  }

  /** One pass of the peer loop, run while the session is not down. */
  function Iterate(p: Peer, rcv: Received, now: Stamp, exports: bv8, send: bytes -> SendResult): (s: Sent)
    requires p.status != OFFLINE
  {
    var k := KeepaliveTimer(HoldCheck(Work1(p, rcv, now, exports), now.sec), now.sec, send);
    var f := Flush(k.p, send);
    Sent(f.p, k.wire + f.wire)
  }

  /** One pass keeps the input buffer within its size, leaves the peer's
      identity and configuration alone, and ends the session when the peer
      closed the connection. */
  lemma IterateKeeps(p: Peer, rcv: Received, now: Stamp, exports: bv8, send: bytes -> SendResult)
    requires p.status != OFFLINE
    ensures var s := Iterate(p, rcv, now, exports, send);
      && (|p.input| <= INPUT_BUFFER ==> |s.p.input| <= INPUT_BUFFER)
      && IdentityOf(s.p) == IdentityOf(p) && s.p.allow == p.allow && s.p.key == p.key
      && s.p.sock == p.sock && s.p.cts == p.cts
      && (rcv == Got([]) ==> s.p.status == OFFLINE)
  {
    var k := KeepaliveTimer(HoldCheck(Work1(p, rcv, now, exports), now.sec), now.sec, send);
    assert k.p.input == Work1(p, rcv, now, exports).input;
  }

  /** The timer and the sending loop lose no octet on the way out: what
      was pending, plus the KEEPALIVE when one was due, is handed over or
      still pending, unless a send failed. */
  lemma TimerAndFlush(p: Peer, now: uint64, send: bytes -> SendResult)
    requires p.output.Pending?
    ensures var k := KeepaliveTimer(p, now, send);
      var f := Flush(k.p, send);
      f.p.output.Pending? ==>
        k.wire + f.wire + f.p.output.data == p.output.data + (if KeepaliveDue(p, now) then Keepalive() else [])
  {
    var k := KeepaliveTimer(p, now, send);
    var f := Flush(k.p, send);
    if f.p.output.Pending? {
      assert k.wire + f.wire + f.p.output.data == k.wire + (f.wire + f.p.output.data);
      if !KeepaliveDue(p, now) {
        assert k.wire + k.p.output.data == p.output.data;
      }
    }
  }

  /** A whole pass loses no octet on the way out. */
  lemma IterateSends(p: Peer, rcv: Received, now: Stamp, exports: bv8, send: bytes -> SendResult)
    requires p.status != OFFLINE && p.output.Pending?
    ensures var s := Iterate(p, rcv, now, exports, send);
      var w := HoldCheck(Work1(p, rcv, now, exports), now.sec);
      s.p.output.Pending? ==>
        s.wire + s.p.output.data == p.output.data + (if KeepaliveDue(w, now.sec) then Keepalive() else [])
  {
    TimerAndFlush(HoldCheck(Work1(p, rcv, now, exports), now.sec), now.sec, send);
  }

  /** A failed send never leaves the session up: the output buffer fails
      only together with the session. */
  predicate FailureEnds(p: Peer)
  {
    p.output.SendFailed? ==> p.status == OFFLINE
  }

  /** A pass whose keepalive send or flush fails ends the session, and a
      pass keeps a failed buffer from outliving the session. */
  lemma FailedSendEndsPass(p: Peer, rcv: Received, now: Stamp, exports: bv8, send: bytes -> SendResult)
    requires p.status != OFFLINE && FailureEnds(p)
    ensures FailureEnds(Iterate(p, rcv, now, exports, send).p)
  {
    var w := HoldCheck(Work1(p, rcv, now, exports), now.sec);
    assert w.output == p.output;
    var k := KeepaliveTimer(w, now.sec, send);
    assert FailureEnds(k.p);
  }

  // ------------------------------------------------------------- session

  /** One pass of the loop: what `recv()` gave and the time. */
  datatype Pass = Pass(rcv: Received, now: Stamp)

  /** The peer loop over the given passes, ending early when the session
      goes down. */
  function Run(p: Peer, passes: seq<Pass>, exports: bv8, send: bytes -> SendResult): (s: Sent)
    decreases |passes|
  {
    if p.status == OFFLINE || passes == [] then Sent(p, [])
    else
      var a := Iterate(p, passes[0].rcv, passes[0].now, exports, send);
      var b := Run(a.p, passes[1..], exports, send);
      Sent(b.p, a.wire + b.wire)
  }

  /** A whole run keeps the input buffer within its size and leaves the
      peer's identity and configuration alone. */
  lemma {:induction false} RunKeeps(p: Peer, passes: seq<Pass>, exports: bv8, send: bytes -> SendResult)
    requires |p.input| <= INPUT_BUFFER
    ensures var s := Run(p, passes, exports, send);
      && |s.p.input| <= INPUT_BUFFER && IdentityOf(s.p) == IdentityOf(p)
      && s.p.allow == p.allow && s.p.key == p.key && s.p.sock == p.sock && s.p.cts == p.cts
    decreases |passes|
  {
    if p.status != OFFLINE && passes != [] {
      IterateKeeps(p, passes[0].rcv, passes[0].now, exports, send);
      RunKeeps(Iterate(p, passes[0].rcv, passes[0].now, exports, send).p, passes[1..], exports, send);
    }
  }

  /** A run in which the peer closes the connection ends with the session
      down: nothing after the close is received. */
  lemma {:induction false} RunEndsOnClose(p: Peer, passes: seq<Pass>, k: nat, exports: bv8, send: bytes -> SendResult)
    requires k < |passes| && passes[k].rcv == Got([])
    ensures Run(p, passes, exports, send).p.status == OFFLINE
    decreases |passes|
  {
    if p.status != OFFLINE {
      var a := Iterate(p, passes[0].rcv, passes[0].now, exports, send);
      if k == 0 {
        IterateKeeps(p, passes[0].rcv, passes[0].now, exports, send);
        OfflineRun(a.p, passes[1..], exports, send);
      } else {
        RunEndsOnClose(a.p, passes[1..], k - 1, exports, send);
      }
    }
  }

  /** A session that is down runs no pass. */
  lemma OfflineRun(p: Peer, passes: seq<Pass>, exports: bv8, send: bytes -> SendResult)
    requires p.status == OFFLINE
    ensures Run(p, passes, exports, send) == Sent(p, [])
  {
  }

  /** Over a whole run, a failed send ends the session. */
  lemma {:induction false} FailedSendEndsRun(p: Peer, passes: seq<Pass>, exports: bv8, send: bytes -> SendResult)
    requires FailureEnds(p)
    ensures FailureEnds(Run(p, passes, exports, send).p)
    decreases |passes|
  {
    if p.status != OFFLINE && passes != [] {
      FailedSendEndsPass(p, passes[0].rcv, passes[0].now, exports, send);
      FailedSendEndsRun(Iterate(p, passes[0].rcv, passes[0].now, exports, send).p, passes[1..], exports, send);
    }
  }

  /** The end of a session: `cts` takes the time and the close record goes
      to the dump, written before the bucket check with the session down. */
  function Finish(p: Peer, now: Stamp): Peer
  {
    p.(cts := now.sec, writer := AddClose(p.writer, IdentityOf(p), false, true, now))
  }

  /** The close record is the last event of the session when a dump file
      was open, and nothing is written otherwise; the writer stays sound. */
  lemma FinishLogsClose(p: Peer, now: Stamp)
    requires Inv(p.writer)
    ensures Inv(Finish(p, now).writer)
    ensures NameFree(p.writer) ==>
      Events(Finish(p, now).writer) == Events(p.writer) + (if p.writer.fh.Some? then [Record(now, CloseRec)] else [])
  {
    AddCloseInv(p.writer, IdentityOf(p), false, true, now);
    if p.writer.fh.Some? && NameFree(p.writer) {
      AddCloseLog(p.writer, IdentityOf(p), false, true, now);
    }
  }

  /** As written, the file open at the end of a session stays open when the
      close falls in its minute: the check after the close record returns
      early, and the next connection drops the handle without closing it.
      That file, close record included, never becomes a kept file. */
  lemma LastFileLeaked(p: Peer, now: Stamp, sock: int, t: uint64)
    requires Inv(p.writer) && NameFree(p.writer) && p.writer.fh.Some? && Bucket(now.sec) == p.writer.filets
    ensures var f := Finish(p, now).writer;
      var q := Connect(p.(writer := f), sock, t).writer;
      && f.fh.Some? && Events(f) == Events(p.writer) + [Record(now, CloseRec)]
      && q.fh.None? && q.kept == p.writer.kept
      && |Events(q)| < |Events(f)|
  {
    FinishLogsClose(p, now);
    var f := Finish(p, now).writer;
    var q := Connect(p.(writer := f), sock, t).writer;
    assert Events(q) == FileEvents(p.writer.kept) + [];
    assert |Events(f)| == |FileEvents(p.writer.kept)| + |EventsOf(p.writer.fh.value)| + 1;
  }

  /** The intended end of a session: the close record is written and the
      file is then closed and renamed, as the bucket check does at the end
      of a minute. */
  function End(p: Peer, now: Stamp): Peer
  {
    var f := Finish(p, now);
    f.(writer := Retire(f.writer, now))
  }

  /** With the intended end, no file stays open, and when the open file's
      name is free every event of the session, the close record last, is in
      a kept file. */
  lemma EndKeepsEvents(p: Peer, now: Stamp)
    requires Inv(p.writer)
    ensures var w := End(p, now).writer;
      && Inv(w) && w.fh.None?
      && (NameFree(p.writer) ==>
            FileEvents(w.kept) == Events(p.writer) + (if p.writer.fh.Some? then [Record(now, CloseRec)] else []))
  {
    FinishLogsClose(p, now);
    var f := Finish(p, now).writer;
    assert NameFree(p.writer) ==> NameFree(f);
    RetireKeepsEvents(f, now);
  }
}
