/** The per-peer dump writer (src/p_dump.c). Each peer slot owns at most one
    open dump file, covering one 60-second bucket: `filets` is the bucket
    start, `empty` says that no event has been written since the file was
    opened. Every event writer first checks the bucket (rotating the file
    when the minute changed), except the session-close writer, which writes
    first and checks afterwards. A closed file is renamed to the name of its
    bucket, replacing any file of that name, and deleted again when it never
    received an event. */
module Dump {
  import opened Bytes
  import opened Tools
  import opened Records
  import opened Undump

  const DUMPINTERVAL: nat := 60

  /** A file renamed into place and not deleted: its bucket and the records
      written to it, in order. */
  datatype DumpFile = DumpFile(stamp: uint64, records: seq<Record>)

  /** What a file header says about the peer: address family, address,
      AS number and session type. */
  datatype Identity = Identity(v6: bool, ip4: uint32, ip6: Octets16, asn: uint32, kind: uint8)

  /** The writer fields of a peer slot. `fh` is None for a NULL handle and
      otherwise holds the records written to the temporary file; `kept` are
      the finished files left on disk, in the order they were renamed into
      place. */
  datatype Writer = Writer(fh: Option<seq<Record>>, filets: uint64, empty: bool, kept: seq<DumpFile>)

  /** The start of the 60-second bucket holding `sec`, counted out in whole
      intervals. */
  function Bucket(sec: uint64): (m: uint64)
    ensures m <= sec < m + DUMPINTERVAL && m % DUMPINTERVAL == 0
  {
    if sec < DUMPINTERVAL then 0 else Bucket(sec - DUMPINTERVAL) + DUMPINTERVAL
  }

  /** The bucket is the C's `ts - (ts % DUMPINTERVAL)`. */
  lemma BucketIsRoundedDown(sec: uint64)
    ensures Bucket(sec) == sec - sec % DUMPINTERVAL
  {
    var m := Bucket(sec);
    DivModUnique(sec, DUMPINTERVAL, m / DUMPINTERVAL, sec - m);
  }

  /** Two instants share a bucket exactly when they fall in the same minute
      counted from the epoch. */
  lemma SameBucket(a: uint64, b: uint64)
    ensures Bucket(a) == Bucket(b) <==> a / DUMPINTERVAL == b / DUMPINTERVAL
  {
    var ma, mb := Bucket(a), Bucket(b);
    DivModUnique(a, DUMPINTERVAL, ma / DUMPINTERVAL, a - ma);
    DivModUnique(b, DUMPINTERVAL, mb / DUMPINTERVAL, b - mb);
  }

  /** The file header record for the peer's address family. */
  function HeaderRecord(id: Identity, ts: Stamp): (r: Record)
    ensures IsHeader(r.payload) && r.ts == ts && Encodable(r)
    ensures r.payload.Header6? <==> id.v6
  {
    Record(ts, if id.v6 then Header6(id.ip6, id.asn, id.kind) else Header4(id.ip4, id.asn, id.kind))
  }

  /** `fwrite` of one record: nothing happens without an open file. */
  function Write(w: Writer, r: Record): Writer
  {
    if w.fh.None? then w else w.(fh := Some(w.fh.value + [r]))
  }

  /** `p_dump_open_file` followed by the header writer. The bucket and the
      empty mark are set whether or not `fopen` succeeds (`opens`); a file
      that opened holds just the header, and a failed open leaves a NULL
      handle, which the header writer then skips. */
  function StartFile(w: Writer, id: Identity, opens: bool, ts: Stamp): Writer
  {
    Writer(if opens then Some([HeaderRecord(id, ts)]) else None, Bucket(ts.sec), true, w.kept)
  }

  /** No kept file carries the name of bucket `b`. */
  predicate Unclaimed(fs: seq<DumpFile>, b: uint64)
  {
    forall k | 0 <= k < |fs| :: fs[k].stamp != b
  }

  /** The open file's bucket name is not yet taken by a kept file; it can
      be when the clock has stepped back a minute. */
  predicate NameFree(w: Writer)
  {
    w.fh.Some? ==> Unclaimed(w.kept, w.filets)
  }

  /** The kept files other than the one named after bucket `b`, in order. */
  function Without(fs: seq<DumpFile>, b: uint64): (r: seq<DumpFile>)
    ensures Unclaimed(r, b)
    ensures forall k | 0 <= k < |r| :: r[k] in fs
    ensures Unclaimed(fs, b) ==> r == fs
  {
    if fs == [] then []
    else (if fs[0].stamp == b then [] else [fs[0]]) + Without(fs[1..], b)
  }

  /** `p_dump_close_file`: the file is renamed to its bucket's name, which
      replaces a kept file of that name, and the name is then unlinked if
      the file is still empty, so an empty file leaves no file of that name
      at all. The handle is left as None. */
  function CloseFile(w: Writer): Writer
  {
    match w.fh
    case None => w
    case Some(recs) =>
      var others := Without(w.kept, w.filets);
      Writer(None, w.filets, w.empty, if w.empty then others else others + [DumpFile(w.filets, recs)])
  }

  /** The footer writer followed by `p_dump_close_file`: what the bucket
      check does to the file of a finished minute. Without an open file
      nothing happens. */
  function Retire(w: Writer, ts: Stamp): Writer
  {
    CloseFile(Write(w, Record(ts, FooterRec)))
  }

  /** `p_dump_check_file`; `up` is `status != 0` and `opens` says whether an
      `fopen` made here succeeds. A file is open afterwards exactly when the
      current bucket's file was already open or a live session opened one;
      after a failed open, the next check in the same bucket tries again. */
  function CheckFile(w: Writer, id: Identity, up: bool, opens: bool, ts: Stamp): (r: Writer)
    ensures r.fh.Some? <==> (w.fh.Some? && Bucket(ts.sec) == w.filets) || (up && opens)
    ensures up ==> r.filets == Bucket(ts.sec)
    ensures Bucket(ts.sec) == w.filets && w.fh.Some? ==> r == w
    ensures w.fh.None? && up && opens ==> r.fh == Some([HeaderRecord(id, ts)]) && r.empty
    ensures !up && w.fh.None? ==> r == w
  {
    var mts := Bucket(ts.sec);
    if mts == w.filets && w.fh.Some? then w
    else if mts != w.filets then
      var closed := Retire(w, ts);
      if up then StartFile(closed, id, opens, ts) else closed
    else if up then StartFile(w, id, opens, ts)
    else w
  }

  /** The open, keepalive, withdrawn and announce writers: check the bucket,
      then append the event if a file is open and mark the file non-empty.
      With no file open, for instance after a failed `fopen`, the event is
      dropped. */
  function AddEvent(w: Writer, id: Identity, up: bool, opens: bool, r: Record): (w': Writer)
    ensures w'.fh.Some? <==> (w.fh.Some? && Bucket(r.ts.sec) == w.filets) || (up && opens)
    ensures up ==> w'.filets == Bucket(r.ts.sec)
    ensures w'.fh.Some? ==> !w'.empty && |w'.fh.value| >= 1 && w'.fh.value[|w'.fh.value| - 1] == r
  {
    var c := CheckFile(w, id, up, opens, r.ts);
    if c.fh.None? then c else Write(c, r).(empty := false)
  }

  /** The session-close writer: nothing without an open file; otherwise the
      close record goes to the current file before the bucket is checked. */
  function AddClose(w: Writer, id: Identity, up: bool, opens: bool, ts: Stamp): (w': Writer)
    ensures w.fh.None? ==> w' == w
  {
    if w.fh.None? then w
    else CheckFile(Write(w, Record(ts, CloseRec)).(empty := false), id, up, opens, ts)
  }

  // ------------------------------------------------------------ invariant

  /** The temporary file: a header, then events only, and `empty` exactly
      when nothing follows the header. */
  predicate OpenOk(recs: seq<Record>, empty: bool)
  {
    && |recs| >= 1 && Readable(recs, false)
    && (forall k | 0 <= k < |recs| :: !recs[k].payload.FooterRec?)
    && (empty <==> |recs| == 1)
  }

  /** A kept file: a header, at least one event, and a closing footer. */
  predicate KeptOk(f: DumpFile)
  {
    |f.records| >= 3 && Readable(f.records, false) && f.records[|f.records| - 1].payload.FooterRec?
  }

  predicate Inv(w: Writer)
  {
    && (w.fh.Some? ==> OpenOk(w.fh.value, w.empty))
    && (forall k | 0 <= k < |w.kept| :: KeptOk(w.kept[k]))
  }

  /** The empty writer of a slot that has just accepted a connection. */
  lemma InitialInv(filets: uint64, empty: bool)
    ensures Inv(Writer(None, filets, empty, []))
  {
  }

  /** Appending a record that is allowed after a header keeps a run
      readable. */
  lemma ReadableSnoc(rs: seq<Record>, r: Record)
    requires |rs| >= 1 && Readable(rs, false) && !rs[|rs| - 1].payload.FooterRec?
    requires Encodable(r) && !IsHeader(r.payload)
    ensures Readable(rs + [r], false)
  {
    var s := rs + [r];
    forall k | 0 <= k < |s|
      ensures Encodable(s[k]) && Allowed(s[k].payload, k > 0) && (s[k].payload.FooterRec? ==> k == |s| - 1)
    {
      if k < |rs| {
        assert s[k] == rs[k];
      }
    }
  }

  /** Retiring a file keeps the writer sound and leaves no file open. */
  lemma RetireInv(w: Writer, ts: Stamp)
    requires Inv(w)
    ensures Inv(Retire(w, ts)) && Retire(w, ts).fh.None?
  {
    if w.fh.Some? {
      var recs := w.fh.value;
      ReadableSnoc(recs, Record(ts, FooterRec));
      var closed := Retire(w, ts);
      var others := Without(w.kept, w.filets);
      assert forall k | 0 <= k < |others| :: KeptOk(others[k]);
      assert forall k | 0 <= k < |closed.kept| :: KeptOk(closed.kept[k]) by {
        if !w.empty {
          assert closed.kept == others + [DumpFile(w.filets, recs + [Record(ts, FooterRec)])];
        }
      }
    }
  }

  lemma CheckFileInv(w: Writer, id: Identity, up: bool, opens: bool, ts: Stamp)
    requires Inv(w)
    ensures Inv(CheckFile(w, id, up, opens, ts))
  {
    RetireInv(w, ts);
  }

  lemma AddEventInv(w: Writer, id: Identity, up: bool, opens: bool, r: Record)
    requires Inv(w) && Encodable(r) && IsEvent(r.payload)
    ensures Inv(AddEvent(w, id, up, opens, r))
  {
    CheckFileInv(w, id, up, opens, r.ts);
    var c := CheckFile(w, id, up, opens, r.ts);
    if c.fh.Some? {
      ReadableSnoc(c.fh.value, r);
    }
  }

  lemma AddCloseInv(w: Writer, id: Identity, up: bool, opens: bool, ts: Stamp)
    requires Inv(w)
    ensures Inv(AddClose(w, id, up, opens, ts))
  {
    if w.fh.Some? {
      ReadableSnoc(w.fh.value, Record(ts, CloseRec));
      CheckFileInv(Write(w, Record(ts, CloseRec)).(empty := false), id, up, opens, ts);
    }
  }

  /** Every kept file reads back, record for record, through `ReadFile`:
      the state machine of src/p_undump.c applied to the layout this writer
      produces. */
  lemma KeptFilesReadBack(w: Writer)
    requires Inv(w)
    ensures forall k | 0 <= k < |w.kept| :: ReadFile(EncodeRecords(w.kept[k].records)) == w.kept[k].records
  {
    forall k | 0 <= k < |w.kept|
      ensures ReadFile(EncodeRecords(w.kept[k].records)) == w.kept[k].records
    {
      ReadFileRoundTrip(w.kept[k].records);
    }
  }

  // ------------------------------------------------------------ event log

  /** The events of a run of records, in order. */
  function EventsOf(rs: seq<Record>): (es: seq<Record>)
    ensures |es| <= |rs|
  {
    if rs == [] then []
    else (if IsEvent(rs[0].payload) then [rs[0]] else []) + EventsOf(rs[1..])
  }

  function FileEvents(fs: seq<DumpFile>): seq<Record>
  {
    if fs == [] then [] else FileEvents(fs[..|fs| - 1]) + EventsOf(fs[|fs| - 1].records)
  }

  /** Everything the writer has recorded: the events of the kept files, then
      those of the open file. */
  function Events(w: Writer): seq<Record>
  {
    FileEvents(w.kept) + (if w.fh.Some? then EventsOf(w.fh.value) else [])
  }

  lemma {:induction false} EventsOfAppend(a: seq<Record>, b: seq<Record>)
    ensures EventsOf(a + b) == EventsOf(a) + EventsOf(b)
    decreases |a|
  {
    if a == [] {
      assert a + b == b;
    } else {
      var ab := a + b;
      assert ab[0] == a[0] && ab[1..] == a[1..] + b;
      EventsOfAppend(a[1..], b);
      var h := if IsEvent(a[0].payload) then [a[0]] else [];
      calc {
        EventsOf(ab);
        h + EventsOf(a[1..] + b);
        h + (EventsOf(a[1..]) + EventsOf(b));
        (h + EventsOf(a[1..])) + EventsOf(b);
      }
    }
  }

  /** The events of a file that was kept or dropped at close: a dropped
      file held none, and the footer adds none. */
  lemma ClosedEvents(w: Writer, ts: Stamp)
    requires Inv(w) && w.fh.Some? && NameFree(w)
    ensures Events(Retire(w, ts)) == Events(w)
  {
    var recs := w.fh.value;
    var f := recs + [Record(ts, FooterRec)];
    EventsOfAppend(recs, [Record(ts, FooterRec)]);
    assert EventsOf([Record(ts, FooterRec)]) == [];
    if w.empty {
      assert recs == [recs[0]];
      assert EventsOf(recs) == [];
    } else {
      assert (w.kept + [DumpFile(w.filets, f)])[..|w.kept|] == w.kept;
    }
  }

  /** The bucket check loses no event: a rotated file is kept with its
      events, or dropped holding none, and a fresh file holds none. */
  lemma CheckFileEvents(w: Writer, id: Identity, up: bool, opens: bool, ts: Stamp)
    requires Inv(w) && NameFree(w)
    ensures Events(CheckFile(w, id, up, opens, ts)) == Events(w)
  {
    var mts := Bucket(ts.sec);
    assert EventsOf([HeaderRecord(id, ts)]) == [];
    if mts != w.filets && w.fh.Some? {
      ClosedEvents(w, ts);
    }
  }

  /** Appending an event to an open file adds it to the log. */
  lemma WriteEvent(c: Writer, r: Record)
    requires c.fh.Some? && IsEvent(r.payload)
    ensures Events(Write(c, r).(empty := false)) == Events(c) + [r]
  {
    var c' := Write(c, r).(empty := false);
    assert c'.kept == c.kept && c'.fh.value == c.fh.value + [r];
    EventsOfAppend(c.fh.value, [r]);
    assert [r][1..] == [];
    assert EventsOf([r]) == [r];
  }

  /** Events are never lost or reordered: an event reaches the log exactly
      when the current bucket's file is open or a live session manages to
      open one, and the log then grows by that event alone. An event that
      finds no file, because the session is down or `fopen` failed, is
      dropped. */
  lemma AddEventLog(w: Writer, id: Identity, up: bool, opens: bool, r: Record)
    requires Inv(w) && NameFree(w) && IsEvent(r.payload)
    ensures Events(AddEvent(w, id, up, opens, r))
      == Events(w) + (if (up && opens) || (w.fh.Some? && Bucket(r.ts.sec) == w.filets) then [r] else [])
  {
    CheckFileEvents(w, id, up, opens, r.ts);
    var c := CheckFile(w, id, up, opens, r.ts);
    if c.fh.Some? {
      WriteEvent(c, r);
    }
  }

  /** While the clock does not step back into a kept file's minute, an
      event leaves the open file's name free and its own minute unclaimed. */
  lemma AddEventNames(w: Writer, id: Identity, up: bool, opens: bool, r: Record)
    requires NameFree(w) && Unclaimed(w.kept, Bucket(r.ts.sec))
    ensures var w' := AddEvent(w, id, up, opens, r);
      NameFree(w') && Unclaimed(w'.kept, Bucket(r.ts.sec))
  {
  }

  /** The close record always reaches the file that was open, whatever the
      bucket check does next. */
  lemma AddCloseLog(w: Writer, id: Identity, up: bool, opens: bool, ts: Stamp)
    requires Inv(w) && NameFree(w) && w.fh.Some?
    ensures Events(AddClose(w, id, up, opens, ts)) == Events(w) + [Record(ts, CloseRec)]
  {
    var w1 := Write(w, Record(ts, CloseRec)).(empty := false);
    EventsOfAppend(w.fh.value, [Record(ts, CloseRec)]);
    assert [Record(ts, CloseRec)][1..] == [];
    assert Events(w1) == Events(w) + [Record(ts, CloseRec)];
    ReadableSnoc(w.fh.value, Record(ts, CloseRec));
    assert Inv(w1);
    CheckFileEvents(w1, id, up, opens, ts);
  }

  // -------------------------------------------------------------- rotation

  /** A bucket change closes the current file with a footer and keeps it
      exactly when an event was written to it, in place of any kept file of
      the same name, which goes in either case; a live session whose `fopen`
      succeeds then writes the new event into a fresh file right after its
      header, and otherwise the event is dropped with no file open. */
  lemma RotateOnEvent(w: Writer, id: Identity, up: bool, opens: bool, r: Record)
    requires Inv(w) && w.fh.Some? && Bucket(r.ts.sec) != w.filets
    ensures var w' := AddEvent(w, id, up, opens, r);
      && w'.kept == Without(w.kept, w.filets)
                    + (if w.empty then [] else [DumpFile(w.filets, w.fh.value + [Record(r.ts, FooterRec)])])
      && (NameFree(w) ==> (w'.kept == w.kept <==> w.empty))
      && (up && opens ==> w'.fh == Some([HeaderRecord(id, r.ts), r]))
      && (!(up && opens) ==> w'.fh.None?)
  {
    if !w.empty && NameFree(w) {
      assert |(w.kept + [DumpFile(w.filets, w.fh.value + [Record(r.ts, FooterRec)])])| == |w.kept| + 1;
    }
    if up && opens {
      assert [HeaderRecord(id, r.ts)] + [r] == [HeaderRecord(id, r.ts), r];
    }
  }

  /** A failed `fopen` drops the event but records the bucket, so the next
      event of the same minute retries the open and, when it succeeds, lands
      right after a fresh header. */
  lemma RetryAfterFailedOpen(w: Writer, id: Identity, r1: Record, r2: Record)
    requires Inv(w) && NameFree(w) && IsEvent(r1.payload) && Bucket(r2.ts.sec) == Bucket(r1.ts.sec)
    requires w.fh.None? || Bucket(r1.ts.sec) != w.filets
    ensures var w1 := AddEvent(w, id, true, false, r1);
      && w1.fh.None? && Events(w1) == Events(w)
      && AddEvent(w1, id, true, true, r2).fh == Some([HeaderRecord(id, r2.ts), r2])
  {
    AddEventLog(w, id, true, false, r1);
    var w1 := AddEvent(w, id, true, false, r1);
    assert w1.filets == Bucket(r2.ts.sec);
    var c := CheckFile(w1, id, true, true, r2.ts);
    assert c.fh == Some([HeaderRecord(id, r2.ts)]);
    assert [HeaderRecord(id, r2.ts)] + [r2] == [HeaderRecord(id, r2.ts), r2];
  }

  /** On a bucket change the close record is the last record before the
      footer of the file that was open. */
  lemma CloseBeforeRotation(w: Writer, id: Identity, up: bool, opens: bool, ts: Stamp)
    requires Inv(w) && w.fh.Some? && Bucket(ts.sec) != w.filets
    ensures var w' := AddClose(w, id, up, opens, ts);
      && w'.kept == Without(w.kept, w.filets) + [DumpFile(w.filets, w.fh.value + [Record(ts, CloseRec), Record(ts, FooterRec)])]
      && (up && opens <==> w'.fh.Some?)
  {
    var w1 := Write(w, Record(ts, CloseRec)).(empty := false);
    assert w1.fh.value + [Record(ts, FooterRec)] == w.fh.value + [Record(ts, CloseRec), Record(ts, FooterRec)];
  }

  /** Without an open file and with the session down, no writer changes
      anything. */
  lemma NoFileNoWrite(w: Writer, id: Identity, opens: bool, r: Record, ts: Stamp)
    requires w.fh.None?
    ensures AddEvent(w, id, false, opens, r) == w && AddClose(w, id, false, opens, ts) == w
  {
  }

  /** Retiring the open file keeps the writer sound and leaves no file
      open; when its name is free it loses no event, and every event the
      writer recorded is then in a kept file. */
  lemma RetireKeepsEvents(w: Writer, ts: Stamp)
    requires Inv(w)
    ensures Inv(Retire(w, ts)) && Retire(w, ts).fh.None?
    ensures NameFree(w) ==> FileEvents(Retire(w, ts).kept) == Events(w)
  {
    RetireInv(w, ts);
    if w.fh.Some? && NameFree(w) {
      ClosedEvents(w, ts);
    }
    assert Events(Retire(w, ts)) == FileEvents(Retire(w, ts).kept) + [];
  }

  /** The file kept at close holds an event, and an empty file is never
      kept; either way no earlier file of that bucket's name survives. */
  lemma CloseKeepsIffEvent(w: Writer)
    requires Inv(w) && w.fh.Some?
    ensures var e := exists k | 0 <= k < |w.fh.value| :: IsEvent(w.fh.value[k].payload);
      CloseFile(w).kept == Without(w.kept, w.filets) + (if e then [DumpFile(w.filets, w.fh.value)] else [])
    ensures NameFree(w) ==>
      (|CloseFile(w).kept| == |w.kept| + 1 <==> exists k | 0 <= k < |w.fh.value| :: IsEvent(w.fh.value[k].payload))
  {
    var recs := w.fh.value;
    if !w.empty {
      assert IsEvent(recs[1].payload);
    } else {
      assert |recs| == 1 && IsHeader(recs[0].payload);
    }
  }
}
