# piranha: a Dafny model of the passive BGP-4 listener

piranha accepts BGP-4 sessions from configured neighbours and never
announces a route itself. It sends its own OPEN and keepalives, then reads
each peer's UPDATE messages. It writes every OPEN, keepalive, withdrawal,
announcement and session close into one dump file per peer per minute.
A file is renamed into place when its minute ends and deleted when it holds
no event. The file open when a session ends is the exception: when the close
falls in that file's minute, nothing closes it, and the next connection drops
its handle (see "## Findings"). A separate reader walks the dump files back
record by record.

This project models that core as pure functions over immutable values:

- **Framing and dispatch** (`Session`): framing the input buffer into BGP
  messages, and the dispatch over OPEN, UPDATE, KEEPALIVE, NOTIFICATION and
  unknown types. It also covers the size check after each message and
  consuming the message from the buffer.
- **OPEN check** (`Handshake`): version, AS or AS_TRANS, the walk over the
  optional parameters and capabilities, and the 4-octet AS capability.
- **UPDATE decoding** (`Update`, `Attrs`, `Prefix`): withdrawn routes, the
  path-attribute table, ORIGIN, AS_PATH, COMMUNITY, MP_REACH_NLRI,
  MP_UNREACH_NLRI and the IPv4 NLRI.
- **Own messages** (`Wire`): the piranha's own OPEN (with its
  multiprotocol and 4-octet AS capabilities) and the keepalive.
- **Peer loop** (`Loop`): the send-buffer discipline, the hold and
  keepalive timers, the flush loop, and one receive–work–timers–flush pass
  of the loop.
- **Dump writer** (`Dump`, `Records`, `Entries`): the record encodings, the
  copy of the path lists into the writer's fixed buffers, the per-minute
  bucket, file rotation, the footer, and the deletion of empty files.
- **Dump reader** (`Undump`): `p_undump_readmsg` and its header, footer and
  order rules.
- **Configuration** (`Config`): the `export` flags, neighbour
  insertion, the post-pass over the table and the required settings.
- **Helpers** (`Tools`, `Peers`, `EasyTime`): the address helpers of
  `p_tools`, the slot match for a new connection, and the compact
  elapsed-time text of the status page.

`Bytes` holds the shared byte and big-endian helpers.

Every operation has a partner that the lemmas tie it to:

- each decoder has its encoder, and a round-trip lemma says that decoding
  the encoded form gives back the value;
- the dump writer has the reader, and every kept file reads back record for
  record;
- the walks of OPEN and UPDATE have independent reference readings of a
  well-formed message (`ParamsVerdict`, `Update.Expected`).

## Model

| member | source | states |
|---|---|---|
| Session.FrameOf | src/p_piranha.c:502-546 | a message is framed only when the buffer holds a whole header and at least the declared length |
| Session.FrameEncoded | src/p_piranha.c:502-546 | an encoded header with its body at the front of the buffer frames as exactly that header, whatever follows |
| Session.PrefixWaits | src/p_piranha.c:507-539 | any strict prefix of a correctly marked message makes the loop wait for more input rather than fail |
| Session.WholeIsEncoded | src/p_piranha.c:515-533 | a framed message's first 19 octets are the encoding of the header it was framed as |
| Session.Work | src/p_piranha.c:496-1219 | working a buffer never touches the slot's identity, configuration or output, never grows the buffer, and an offline slot stays offline with its dump and update count untouched |
| Session.Handle | src/p_piranha.c:553-1203 | the dispatch of one framed message keeps the slot's identity and configuration, and an offline slot is left alone |
| Session.OnOpen | src/p_piranha.c:553-694 | an OPEN on a connected slot keeps the slot's identity and never grows the buffer |
| Session.OnUpdate | src/p_piranha.c:695-1150 | an UPDATE on an established session keeps the slot's identity and never grows the buffer |
| Session.Consume | src/p_piranha.c:1192-1218 | the size check and the consumption of a message keep the slot's identity and never grow the buffer; an offline slot stays offline with its dump and update count untouched |
| Session.ConsumeGoesOn | src/p_piranha.c:1205-1218 | a message consumed at its declared length hands the rest of the buffer back to the framing loop |
| Session.AdoptHold | src/p_piranha.c:553-598 | the peer's hold time becomes the receive hold time, and the send hold time becomes the smaller of our own and the peer's |
| Session.KeepaliveStep | src/p_piranha.c:1170-1176 | a keepalive on an established session is logged, counted and consumed, and the loop goes on after it |
| Session.WorkKeepalives | src/p_piranha.c:1170-1218 | a buffer of k keepalives leaves the session established with an empty buffer, k keepalive records logged in order and the counters advanced by k |
| Session.KeepalivesLogged | src/p_piranha.c:1170-1176 | the writer's invariant is kept, and while no kept file has the current minute's name, those k keepalive records reach the dump in order |
| Session.LogAppends | src/p_dump.c:74-306 | logging a run of events keeps the writer's invariant; while no kept file has the open file's name or the current minute's name, it appends exactly those events, stamped with the current time and in order, to the writer's log |
| Session.Opened | src/p_piranha.c:553-694 | an accepted OPEN establishes the session with the peer's hold time, the smaller send hold time, and 4-octet AS when the peer's OPEN carries a 4-octet AS capability for the slot's AS |
| Session.OpenStep | src/p_piranha.c:553-694 | a well-formed OPEN is accepted exactly when the OPEN check's conditions hold; an accepted one establishes the session and work goes on after it; a refused one ends the session and writes nothing |
| Session.OpenAt | src/p_piranha.c:553-694 | for any framed OPEN: a refused OPEN ends the session with the hold time adopted; an accepted one is logged, and the session survives only when the parameter walk stopped exactly at the message end |
| Session.OverrunOpenLogged | src/p_piranha.c:613-692 | an OPEN whose last parameter claims more octets than the message holds is still logged as an Open record before the size check ends the session |
| Session.UpdateStep | src/p_piranha.c:695-1150 | a well-formed UPDATE logs and counts the events of its reference reading, and the loop goes on after it unless that reading fails |
| Session.UpdateAt | src/p_piranha.c:695-1218 | any framed UPDATE logs and counts its decoded events; the session ends exactly when the decoding failed |
| Handshake.Params | src/p_piranha.c:613-676 | the parameter walk ends at or past the declared length, never before it |
| Handshake.CheckOpen | src/p_piranha.c:553-690 | the hold time is read exactly when the message has a fixed part, version 4, and the slot's AS or AS_TRANS; establishing requires the declared length to be 29 plus the parameter length; AS_TRANS establishes only with a 4-octet AS capability |
| Handshake.CheckEncodedOpen | src/p_piranha.c:553-690 | an encoded OPEN with a wrong version or AS is refused outright; otherwise its hold time is taken, and the session is established exactly when every parameter is acceptable and AS_TRANS is backed by a 4-octet AS capability; the walk then ends at the message end |
| Handshake.StrayCapabilityOctet | src/p_piranha.c:625-660 | a capabilities parameter that ends with one stray octet is still accepted: the walk reads the next octet as a length and steps past the end |
| Handshake.OverrunningParam | src/p_piranha.c:613-676 | a parameter longer than the message establishes the session, with the walk ending past the message end |
| Handshake.ParamsRun | src/p_piranha.c:613-676 | the walk over encoded parameters agrees with the reference verdict over the parameter list, and stops at the end |
| Handshake.CapsRun | src/p_piranha.c:625-660 | the walk over encoded capabilities agrees with the reference verdict over the capability list |
| Handshake.ParamsVerdictMeaning | src/p_piranha.c:613-690 | the reference verdict accepts exactly when every parameter is acceptable, and reports exactly whether a 4-octet AS capability is announced |
| Handshake.CapsVerdictMeaning | src/p_piranha.c:625-660 | a capability list is accepted exactly when every 4-octet AS capability names the slot's AS |
| Handshake.OwnOpenAccepted | src/p_piranha.c:409-493 | the OPEN the listener sends would pass its own OPEN check, as 4-octet AS, when read by a slot configured for its own AS |
| Wire.DecodeHeader | src/p_piranha.c:515-517 | a header decodes exactly when its marker is sixteen 0xff octets |
| Wire.HeaderRoundTrip | inc/p_defs.h:171-303 | decoding an encoded BGP header gives the header back, whatever follows |
| Wire.HeaderDecodeEncode | inc/p_defs.h:171-303 | a header that decodes re-encodes to the very 19 octets it was read from |
| Wire.OpenRoundTrip | src/p_piranha.c:561-599 | the fixed part of an OPEN (version, AS, hold time, BGP identifier, parameter length) reads back from its encoding at any offset |
| Wire.OpenDecodeEncode | src/p_piranha.c:561-599 | any ten octets read as an OPEN fixed part re-encode to themselves |
| Wire.ReplyAs | src/p_piranha.c:457 | the AS field of the listener's OPEN is its AS when that fits in 16 bits, and AS_TRANS otherwise |
| Wire.AfiSafiUnicast | src/p_piranha.c:417-448 | the multiprotocol capability value is AFI 1 or 2 with SAFI 1 (unicast) |
| Wire.ReplyOpenLayout | src/p_piranha.c:409-493 | the listener's OPEN decodes as a 43-octet OPEN with version 4, its AS field, the hold time and the router id, and one capabilities parameter holding the 4-octet AS capability with the full local AS and the multiprotocol capability for the peer's family |
| Wire.KeepaliveLayout | src/p_piranha.c:350-364 | a keepalive decodes as a 19-octet header of type 4 |
| Wire.ReplyAsTransByteSwapped | src/p_piranha.c:457 | on a little-endian host with a local AS above 65535, the OPEN as written carries 41051 instead of AS_TRANS |
| Attrs.Value | src/p_piranha.c:836-1085 | a recorded entry's value is exactly its declared length when it lies inside the section |
| Attrs.Origin | src/p_piranha.c:836-857 | ORIGIN is taken only when exported, present and one octet long; otherwise it is 0xff |
| Attrs.Segment | src/p_piranha.c:858-920 | an empty path or an AS_SET yields no AS numbers; an unknown segment type fails; an AS_SEQUENCE yields exactly its count of numbers |
| Attrs.AsEntries | src/p_piranha.c:880-905 | an AS_SEQUENCE yields exactly as many AS numbers as its count octet says |
| Attrs.AsPath | src/p_piranha.c:858-920 | AS_PATH is read only when exported and present |
| Attrs.CommunityList | src/p_piranha.c:921-937 | COMMUNITY is read only when exported and present; a length that is not a multiple of 4 ends the session; otherwise it yields length/4 communities |
| Attrs.LastIndex | src/p_piranha.c:802-834 | the entry the walk keeps for a code belongs to the last attribute with that code |
| Attrs.TableOfEncoded | src/p_piranha.c:787-834 | walking an encoded attribute list completes; a code is present exactly when some attribute has it, and its entry points at the value of the last such attribute |
| Attrs.WalkRun | src/p_piranha.c:802-834 | the walk from any point of an encoded list completes, and every code's entry is the last occurrence after that point, or the earlier entry |
| Attrs.WalkWrapCounterexample | src/p_piranha.c:802-826 | a 10-octet section whose extended length wraps the 16-bit position back to 0 makes the walk as written return to its start |
| Update.Then | src/p_piranha.c:695-1150 | two parts of a decoding succeed together, and the second part's events are kept only when the first part succeeded |
| Update.Reach | src/p_piranha.c:946-1017 | MP_REACH_NLRI shorter than its fixed part fails; an AFI/SAFI other than IPv6 unicast yields nothing; otherwise every event is an IPv6 announce carrying the path |
| Update.Unreach | src/p_piranha.c:1019-1085 | MP_UNREACH_NLRI shorter than its fixed part fails; an AFI/SAFI other than IPv6 unicast yields nothing; otherwise every event is an IPv6 withdrawal |
| Update.ReachRoundTrip | src/p_piranha.c:946-1017 | an encoded MP_REACH_NLRI yields one IPv6 announce per prefix, in order, with the host bits cleared |
| Update.UnreachRoundTrip | src/p_piranha.c:1019-1085 | an encoded MP_UNREACH_NLRI yields one IPv6 withdrawal per prefix, in order, with the host bits cleared |
| Update.ReadPath | src/p_piranha.c:836-944 | an attribute that is not exported leaves its field empty, and extended and large communities are never filled in |
| Update.ReachIn | src/p_piranha.c:946-1017 | without MP_REACH_NLRI nothing is announced; one whose value lies outside the section ends the session |
| Update.UnreachIn | src/p_piranha.c:1019-1085 | without MP_UNREACH_NLRI nothing is withdrawn; one whose value lies outside the section ends the session |
| Update.Attributes | src/p_piranha.c:787-1149 | an attribute section whose walk fails ends the session |
| Update.DecodeUpdate | src/p_piranha.c:695-1150 | a message shorter than a header plus the withdrawn-length field fails; every event it yields is a route withdrawal or announcement |
| Update.WithdrawnFirst | src/p_piranha.c:708-777 | the withdrawn routes come first, and a failure there ends the decoding before any attribute is read |
| Update.LastValue | src/p_piranha.c:802-834 | a code has a value exactly when some attribute of the list carries it |
| Update.ValueOfCode | src/p_piranha.c:802-834 | on an encoded list, the table holds a code exactly when the list has it, with the last such attribute's value |
| Update.ReadPathOf | src/p_piranha.c:836-944 | the path read from an encoded section equals the reference path of the attribute list |
| Update.AttributesRoundTrip | src/p_piranha.c:787-1149 | decoding an encoded attribute section gives the reference reading of the attribute list |
| Update.UpdateLayout | src/p_piranha.c:695-786 | an encoded UPDATE lays out the withdrawn length, withdrawn routes, attribute length, attributes and NLRI at the offsets the decoder reads them from |
| Update.UpdateRoundTrip | src/p_piranha.c:695-1150 | decoding an encoded UPDATE gives its reference reading: the withdrawals, then the IPv6 routes, then the IPv4 announcements, each with host bits cleared |
| Update.SequenceRoundTrip | src/p_piranha.c:880-905 | an AS_SEQUENCE of 2- or 4-octet numbers reads back as the same numbers |
| Prefix.Octets4 | src/p_piranha.c:722-760 | an IPv4 prefix of length up to 32 takes (length+7)/8 octets |
| Prefix.Mask4Clears | src/p_piranha.c:755-765 | the host bits are cleared and the network bits kept |
| Prefix.DecodePrefix4 | src/p_piranha.c:716-776 | an IPv4 prefix decodes exactly when its length is at most 32 and its octets fit before the end, and the walk moves past exactly those octets |
| Prefix.Prefix4RoundTrip | src/p_piranha.c:716-776 | a prefix decodes from its encoding with its host bits cleared, at any offset |
| Prefix.Prefix4RoundTripCanonical | src/p_piranha.c:716-776 | a prefix whose host bits are already clear reads back unchanged |
| Prefix.Prefixes4RoundTrip | src/p_piranha.c:1087-1149 | a list of encoded IPv4 prefixes reads back completely, in order, with host bits cleared |
| Prefix.Octets6 | src/p_piranha.c:959-1000 | an IPv6 prefix takes (length+7)/8 octets, at most 16 for a valid length |
| Prefix.DecodePrefix6 | src/p_piranha.c:959-1000 | an IPv6 prefix decodes exactly when its length is at most 128 and its octets fit before the end |
| Prefix.DecodePrefix6Canon | src/p_piranha.c:959-1000 | a decoded IPv6 prefix is the canonical form of its covered octets |
| Prefix.Prefix6RoundTrip | src/p_piranha.c:959-1000 | an IPv6 prefix decodes from its encoding in canonical form, at any offset |
| Prefix.Canon6Idempotent | src/p_piranha.c:959-1000 | clearing the host bits twice changes nothing more |
| Prefix.Canon6OnlyCoveredOctets | src/p_piranha.c:959-1000 | the canonical form depends only on the octets the prefix length covers |
| Prefix.Prefixes6RoundTrip | src/p_piranha.c:959-1075 | a list of encoded IPv6 prefixes reads back completely, in order, in canonical form |
| Records.EncodeRecord | src/p_dump.c:74-145 | an encoded record is the 19-octet header followed by its payload, and starts with the payload's type code |
| Records.PayloadSizeIsLength | src/p_dump.c:221-227 | the computed payload size is the length of the encoded payload |
| Records.LengthFieldIsPayloadLength | src/p_dump.c:221-227 | for a record that fits, the 16-bit length field equals the length of its payload |
| Records.PathLength | src/p_dump.c:221-227 | the path part of an announce is the 7 count octets plus the sized lists |
| Dump.Bucket | src/p_dump.c:34-71 | the bucket of a time is the multiple of 60 at or below it |
| Dump.BucketIsRoundedDown | src/p_dump.c:42 | the bucket is the C's `ts - ts % 60` |
| Dump.SameBucket | src/p_dump.c:418-451 | two times share a bucket exactly when they fall in the same minute |
| Dump.HeaderRecord | src/p_dump.c:453-495 | a file header is IPv6 exactly when the peer is, and carries the given time |
| Dump.CheckFile | src/p_dump.c:418-451 | a file is open afterwards exactly when the current bucket's file was already open or a live session's `fopen` succeeded; with the session up the bucket is the current one even when the open failed; in the same bucket an open file is kept; after a failed open the next check opens a file holding just the header; with the session down no new file is opened |
| Dump.AddEvent | src/p_dump.c:74-416 | the event lands as the last record of a non-empty file exactly when the current bucket's file was open or a live session's `fopen` succeeded; otherwise no file is open and the event is dropped |
| Dump.AddClose | src/p_dump.c:93-109 | without an open file the close record is dropped |
| Dump.InitialInv | src/p_piranha.c:223-224 | a freshly connected slot's writer meets the writer invariant |
| Dump.CheckFileInv | src/p_dump.c:418-451 | the bucket check keeps the writer invariant |
| Dump.AddEventInv | src/p_dump.c:74-416 | writing an event keeps the writer invariant |
| Dump.AddCloseInv | src/p_dump.c:93-109 | writing the close keeps the writer invariant |
| Dump.KeptFilesReadBack | src/p_undump.c:68-241 | every file the writer kept reads back, record for record, through `Undump.ReadFile`: the state machine of `p_undump.c` applied to the writer's layout |
| Dump.CheckFileEvents | src/p_dump.c:418-516 | when the open file's name is not already taken, the bucket check loses no event: a rotated file is kept with its events, or dropped only when it held none |
| Dump.AddEventLog | src/p_dump.c:74-416 | an event reaches the log, alone and at its end, exactly when the current minute's file is open or a live session's `fopen` succeeds; an event that finds no file is dropped; with the open file's name not already taken, no event is lost or reordered |
| Dump.AddCloseLog | src/p_dump.c:93-109 | with the open file's name not already taken, the close record always reaches the file that was open |
| Dump.RotateOnEvent | src/p_dump.c:418-451 | a bucket change closes the current file with a footer; the kept files lose any file of that name and gain the closed file exactly when it held an event; a live session whose `fopen` succeeds writes the event right after a new header, and otherwise no file is open |
| Dump.RetryAfterFailedOpen | src/p_dump.c:418-451 | a failed `fopen` drops the event but records the bucket, so the next event of the same minute retries the open and lands right after a fresh header |
| Dump.RetireKeepsEvents | src/p_dump.c:497-516 | writing the footer and closing the file keeps the writer sound and leaves no file open; when the file's name was free, every recorded event is in a kept file |
| Dump.CloseBeforeRotation | src/p_dump.c:93-109 | on a bucket change the close record is the last event before the footer of the file that replaces any kept file of its name, and a file is open afterwards exactly when a live session's `fopen` succeeded |
| Dump.NoFileNoWrite | src/p_dump.c:74-109 | without an open file and with the session down, no writer changes anything |
| Dump.Without | src/p_dump.c:497-516 | removing the file of one bucket name leaves only files of other names, each one a file that was kept, and changes nothing when no file has that name |
| Dump.AddEventNames | src/p_dump.c:418-451 | while the clock does not step back into a kept minute, an event leaves the open file's name free and its own minute unclaimed |
| Dump.CloseKeepsIffEvent | src/p_dump.c:497-516 | closing removes any kept file of the same name, then keeps the file exactly when it holds an event, so an empty file leaves no file of that name |
| Entries.AsEntry | src/p_dump.c:246-258 | the four octets stored for an AS_PATH entry are the AS number in big-endian order |
| Entries.As4EntryIsWireOctets | src/p_dump.c:249-252 | a 4-octet entry is stored as the very octets received |
| Entries.AsEntryAsWrittenBigEndian | src/p_dump.c:249-254 | on a big-endian host the copy as written stores the intended octets |
| Entries.As2EntryAsWrittenLittleEndian | src/p_dump.c:254 | on a little-endian host a 2-octet AS number is stored shifted into the upper half, reading back as AS times 65536 |
| Entries.As2EntryCounterexample | src/p_dump.c:254 | AS 1 from a 2-octet peer is recorded as AS 65536 |
| Entries.CopyCommunities | src/p_dump.c:259-267 | the COMMUNITY value is copied as exactly n (asn, number) pairs |
| Entries.CopyCommunitiesRoundTrip | src/p_dump.c:259-267 | copying encoded communities gives them back, however many |
| Entries.CommunitiesAsWritten | src/p_dump.c:261-264 | the copy as written succeeds exactly when there are at most 256 communities |
| Entries.CommunitiesCounterexample | src/p_dump.c:261-264 | 257 communities, which fit a 1028-octet attribute, overflow the 256-entry buffer as written but copy fine as intended |
| Entries.CopyEntries | src/p_dump.c:269-288 | extended and large entries are copied as n entries of their width |
| Entries.CopyEntriesRoundTrip | src/p_dump.c:269-288 | copying encoded entries of one width gives them back |
| Entries.LargeEntryCounterexample | src/p_dump.c:282-287 | the large community 1:2:3 is written as 1:2:2, while the intended copy keeps it |
| Entries.Ext6EntryCounterexample | src/p_dump.c:379-386 | even a single 20-octet IPv6 extended community is read past its end as written, while the intended copy takes it |
| Undump.Buffer | src/p_undump.c:103-106 | the payload is read into a zero-filled buffer of fixed size |
| Undump.DecodePayload | src/p_undump.c:112-234 | a decoded record's type code is the one read, and a header appears exactly when none has been seen |
| Undump.ReadMsg | src/p_undump.c:68-241 | nothing is read without a context, after the footer, or from a closed file; a record read advances the position past its header and marks the header and footer seen |
| Undump.PayloadRoundTrip | src/p_undump.c:112-234 | every payload that fits decodes back from the reader's buffer in a state that allows it: a header before any header, anything else after one |
| Undump.ReadMsgRoundTrip | src/p_undump.c:68-241 | reading at an encoded record gives that record and moves past it |
| Undump.ReadAllRoundTrip | src/p_undump.c:68-241 | reading from an encoded run of records gives the run back |
| Undump.EachReadInOrder | src/p_undump.c:68-241 | the k-th read of an encoded run gives its k-th record |
| Undump.ReadFileRoundTrip | src/p_undump.c:68-241 | a file of a header, events and a footer reads back as exactly those records |
| Undump.NothingAfterFooter | src/p_undump.c:83-84 | once the footer is read, no further record is read |
| Loop.Send | src/p_piranha.c:1221-1273 | a failed buffer stays failed, and a partial send strictly shrinks the backlog |
| Loop.SendSplits | src/p_piranha.c:1232-1262 | what send took and what remains make up the buffer; a failure hands nothing over; a complete send takes the whole buffer |
| Loop.Append | src/p_piranha.c:358-359 | queuing on a pending buffer grows the backlog by the message length; a failed buffer has no backlog |
| Loop.Queue | src/p_piranha.c:350-364 | after queue and send, what went out and what remains are the old backlog plus the message; a failed send ends the session; otherwise the session status is kept |
| Loop.AppendAsWritten | src/p_piranha.c:358-359 | the C's append after a failed send yields a pending buffer again |
| Loop.FailureForgotten | src/p_piranha.c:358-364 | after a failed send, the keepalive as written forgets the failure and leaves an 18-octet backlog |
| Loop.FailureSticks | src/p_piranha.c:1221-1273 | with the intended rule, once a send has failed nothing more is sent |
| Loop.SinceIsModular | src/p_piranha.c:339-350 | elapsed time is the 64-bit unsigned difference of the two times |
| Loop.HoldCheck | src/p_piranha.c:339-346 | within the hold time nothing changes; past it, or with a clock that went backwards, the session ends; nothing else changes |
| Loop.KeepaliveSpacing | src/p_piranha.c:350-364 | after a keepalive the next is due exactly when more than a third of the send hold time has passed |
| Loop.Flush | src/p_piranha.c:368-383 | an offline or failed slot sends nothing; otherwise either everything pending goes out with the session kept, or a send fails, only a prefix went out and the session ends |
| Loop.Start | src/p_piranha.c:283-295 | starting the loop empties the input, counts two sent messages and stamps the send time; a failed send ends the session, and nothing else changes |
| Loop.StartSends | src/p_piranha.c:409-493 | what went out plus what is pending is the listener's OPEN followed by a keepalive; with a send that takes everything both go out and nothing remains |
| Loop.Receive | src/p_piranha.c:300-328 | a receive error keeps the buffer and the status; received octets are appended after the buffer, within the input buffer's size; a read of nothing ends the session |
| Loop.Work1 | src/p_piranha.c:300-335 | receiving and working keep the slot's identity and the input bound, and a closed connection ends the session |
| Loop.IterateKeeps | src/p_piranha.c:297-406 | one pass keeps the slot's identity and configuration and the input bound, and a read of nothing ends the session |
| Loop.TimerAndFlush | src/p_piranha.c:350-383 | unless a send fails, no octet is lost: what was pending plus a due keepalive is handed over or still pending |
| Loop.IterateSends | src/p_piranha.c:297-406 | unless a send fails, a whole pass loses no outgoing octet: what was pending plus a due keepalive is handed over or still pending |
| Loop.FailedSendEndsPass | src/p_piranha.c:1221-1273 | after any pass, a failed send has ended the session |
| Loop.RunKeeps | src/p_piranha.c:297-406 | any number of passes keeps the slot's identity and configuration |
| Loop.RunEndsOnClose | src/p_piranha.c:319-328 | a closed connection in any pass leaves the session offline at the end |
| Loop.OfflineRun | src/p_piranha.c:297 | the loop does nothing for an offline slot |
| Loop.FailedSendEndsRun | src/p_piranha.c:1221-1273 | after any number of passes, a failed send has ended the session |
| Loop.FinishLogsClose | src/p_piranha.c:258-267 | after the loop the writer invariant holds, and with the open file's name free the close record is the last event when a file was open and nothing is written otherwise |
| Loop.LastFileLeaked | src/p_piranha.c:224-260 | as written, a session closing in its file's minute leaves that file open; the next connection drops the handle, and the file's events, close record included, never reach a kept file |
| Loop.EndKeepsEvents | src/p_dump.c:497-516 | with the footer and close applied at the end of a session, no file stays open and when that file's name was free every event of the session, the close record last, is in a kept file |
| Peers.FirstMatch | src/p_piranha.c:196-239 | the match is the first allowed slot of the same family and address |
| Peers.Accept | src/p_piranha.c:196-254 | a connection takes the first matching slot exactly when that slot is offline; only that slot changes, to a connected session with default hold times, empty buffers, zero counters and no file; otherwise the table is unchanged |
| Config.ExportSetsOneBit | src/p_config.c:175-202 | an `export` line sets its keyword's bit and leaves every other bit as it was |
| Config.AddPeer | src/p_config.c:323-382 | the table keeps its size; an AS of 0 or a zero address changes nothing |
| Config.Existing | src/p_config.c:335-360 | the slot found is the first allowed slot of that family and address |
| Config.Free | src/p_config.c:362-381 | the slot found is the first slot that is not allowed |
| Config.AddPeerHolds | src/p_config.c:323-382 | after adding a neighbour the table holds it, allowed, with that AS and key and marked as listed, unless the table was full, when nothing changes |
| Config.AddPeerKnown | src/p_config.c:335-358 | listing a known neighbour again changes only its slot, and takes its session down exactly when its AS or key changed |
| Config.Steps | src/p_config.c:58-279 | the directives never change the size of the peer table |
| Config.PostPass | src/p_config.c:281-298 | the pass keeps the table's size |
| Config.Load | src/p_config.c:36-320 | the table keeps its size |
| Config.LoadOutcome | src/p_config.c:281-319 | the load succeeds exactly when a router id, a local AS and a user are set; a slot is iBGP exactly when its AS is the local AS; a slot not listed again is disallowed and offline |
| Config.LoadUnreadable | src/p_config.c:41-57 | an unreadable file fails the load, clears every slot's listing and the user, and touches nothing else |
| Tools.Ip4Zero | src/p_tools.c:38-43 | an IPv4 address is zero exactly when it is present and 0 |
| Tools.SameIp4 | src/p_tools.c:57-63 | two IPv4 addresses are the same exactly when they are equal |
| Tools.SameIp6IsEquality | src/p_tools.c:65-74 | comparing the four 32-bit words is exactly octet equality |
| Tools.Ip6ZeroIsAllZeroOctets | src/p_tools.c:45-55 | an IPv6 address is zero exactly when all sixteen octets are zero |
| Tools.In4KeyIsFirstFourOctets | src/p_tools.c:57-63 | the IPv4 key of a slot depends only on the first four octets of its address storage |
| Tools.StoreIn4 | src/p_config.c:366-367 | writing an IPv4 address into a slot stores it and leaves the rest of the storage alone |
| EasyTime.Decompose | src/p_log.c:70-91 | the seconds, minutes, hours, days and 16-bit weeks are the remainders of the time in those units |
| EasyTime.Recompose | src/p_log.c:70-91 | the parts put back together give the time again, as long as the weeks fit in 16 bits |
| EasyTime.Choose | src/p_log.c:93-96 | the pair shown starts at the largest non-zero unit, or at minutes when weeks, days and hours are zero, and goes on with the next smaller unit; every larger unit is zero |
| EasyTime.ChooseUnique | src/p_log.c:93-96 | those conditions single out one pair: any pair meeting them is the one chosen |
| EasyTime.ChooseAdjacent | src/p_log.c:93-96 | the pair shown is a unit and the next smaller one, and the first is zero only for minutes within less than a minute past a whole week |
| EasyTime.DecimalRoundTrip | src/p_log.c:93-96 | `%u` digits read back as the number |
| EasyTime.FormatZero | src/p_log.c:96 | zero seconds print as "0m0s" |
| EasyTime.FormatReadsBack | src/p_log.c:93-96 | the text starts with the larger number and its unit letter, and the digits after it read back as the smaller number |

## Left out

- **Effects the model does not perform.**
  - Sockets, threads, the accept loop and the status page are not modelled.
  - So are the log file, `sleep`, and the reconnection wait after a session. `Loop.Finish` writes the close record and stamps `cts`; the status toggling around the wait is left out.
  - The file system is a value: a kept file is the record list it holds, named by its bucket. A rename onto a name replaces the kept file of that name, and an unlink removes it.
  - Whether `fopen` succeeds is the `opens` parameter of the `Dump` writers; `mkdir`, `fwrite`, `rename` and `unlink` always succeed.
- **Session and Loop pass `opens` as true: the session model assumes the dump file opens.** The `Dump` writers model a failed open. The session-level lemmas do not take an `opens` parameter, so the dropped events after a failed open are stated only at the `Dump` level.
- **Parameters instead of effects.**
  - `send()` is a function parameter returning the count taken, 0 or -1.
  - `recv()` is a `Received` value.
  - The clock is a `Stamp` parameter.
  - The peer loop runs a finite list of passes.
- **Output and input bounds.**
  - The 65536-octet output buffer is not bounded. Only the listener's own OPEN and keepalives are queued there, and they stay far below it.
  - `recv` may fill the 1 MiB input buffer, as in the C. The `TEMP_BUFFER` cap the C computes and never uses is not modelled.
- **Records are stamped with a full `Stamp` (seconds and microseconds).**
  - The C call sites pass `ts.tv_sec` where the writers declare a `struct timeval *` (for example `src/p_piranha.c:260` and `692`).
  - Taken literally, that call is undefined. The model writes the time the writer evidently means.
- **The record layout follows the writer.**
  - The layout is `src/p_dump.c`: a 19-octet header of type, 16-bit length, 64-bit seconds and 64-bit microseconds, all big-endian.
  - An announce has this fixed part: mask, prefix, origin, next hop, then the counts. The AS count is 1 octet. The community, extended and large counts are 2 octets each, big-endian.
  - The reader is modelled on this same layout. The reader in `src/p_undump.c`, the structs in `inc/p_defs.h:171-303` and the prototypes in `inc/p_dump.h` describe an older layout without next hop, microseconds and large communities. The layout without those fields is not part of this model.
- **Announcements from the session use the 16-parameter writers.**
  - The session passes 12 arguments (`src/p_piranha.c:1142-1145`, `994`).
  - In the model, the IPv4 next hop is 0, the IPv6 next hop is sixteen zero octets, and the extended and large communities are empty. The extended community is never read (`src/p_piranha.c:939-944`).
- **Constants the source uses but does not define** have chosen values:
  - `EXPORT_LARGECOMMUNITY` = 0x10;
  - `EXPORT_NEXT_HOP` = 0x20;
  - `BGP_TYPE_IBGP` = 1 and `BGP_TYPE_EBGP` = 2.
- **Update.Reach, Update.Unreach and Update.DecodeUpdate end the session** at a read past the value or message they walk.
  - The C reads on in these cases: into the octets that follow, or into stale buffer contents. Examples are an IPv6 prefix running past `codelen` (`src/p_piranha.c:959-1000`, `1031-1075`) and withdrawn routes past the message.
  - Its `uint16_t` withdrawn counter can wrap there (`src/p_piranha.c:716-750`), and its NLRI loop `while(len - pos)` never ends once `pos` passes the length (`1087`).
  - Those values are whatever memory holds, so they are not modelled. The round-trip lemmas cover every well-formed message.
- **Handshake.CheckOpen refuses an OPEN only when a parameter walk would read past the octets received.** The C would read stale input-buffer contents there instead.
- **Handshake.CheckOpen does not adopt a hold time** from an OPEN shorter than its 29-octet fixed part. The C reads the hold time from stale buffer contents.
- **Prefix.DecodePrefix4 and Prefix.DecodePrefix6 refuse longer prefixes and end the session.** The limits are 32 bits for IPv4 and 128 for IPv6.
  - For IPv4 the C shifts a 32-bit value by a negative amount, which is undefined.
  - For IPv6 it copies up to 32 octets into a 16-octet array.
- **Dump.CheckFileEvents, Dump.AddEventLog, Dump.AddCloseLog, Dump.RetireKeepsEvents, Dump.RetryAfterFailedOpen, Session.LogAppends, Session.KeepalivesLogged, Loop.FinishLogsClose and Loop.EndKeepsEvents state "no event is lost" only while the open file's bucket name is free** (`Dump.NameFree`, and for a run of events `Dump.Unclaimed` at the current minute).
  - The name can be taken only when the clock steps back a minute into a bucket that already has a kept file.
  - The rename at `src/p_dump.c:510` then replaces that earlier file, and the unlink at `512-515` deletes it when the new file is empty. Its events are lost.
  - `Dump.RotateOnEvent`, `Dump.CloseBeforeRotation` and `Dump.CloseKeepsIffEvent` state that replacement for every input.
- **Dump.CloseFile sets the handle to none.** `p_dump_close_file` leaves it dangling until the slot is reset (`src/p_piranha.c:224`). No writer runs in between, so nothing can observe the difference.
- **EasyTime.Decompose takes a non-negative time.** A negative `time_t` (a clock before the epoch) is not modelled.
- **Session.LogAppends, Session.KeepalivesLogged and Dump.AddEventInv require every record to fit a 16-bit length.** Here is a case that does not:
  - a 65535-octet UPDATE from a 2-octet-AS peer;
  - it carries 255 AS numbers (stored as 4 octets each) and about 16000 communities;
  - the announce payload is then over 65535 octets;
  - the C's 16-bit length wraps, and the file no longer reads back.
  - The model keeps the wrap in `Records.LengthField`. The invariant and read-back lemmas cover the records that fit.
- **The NOTIFICATION message is only dispatched.** It ends the session, and its code and data are not decoded, as in the C.
- **Not part of this model:** `p_ptoa.c`, `p_socket.c`, the text parsing of the configuration file, and the address printing and hex dump of `p_tools`.
  - The directive list stands for the parsed file; names resolve to a uid and gid.

## Findings

| source | as written | input that shows it | evidently intended | confidence | as-written member | corrected member |
|---|---|---|---|---|---|---|
| src/p_piranha.c:802-826 | `attrpos` is a `uint16_t`; an Extended Length attribute of length 0xfffc advances it by 4 + 0xfffc and wraps it back to 0 | a 10-octet attribute section `10 63 ff fc 00 00 00 00 00 00` | an attribute whose value runs past the section ends the walk | not executed | Attrs.WalkWrapCounterexample | Attrs.TableOfEncoded |
| src/p_dump.c:254, src/p_dump.c:362 | a 2-octet AS number is copied through a `uint16_t` load into a `uint32_t` entry that is written in host order | AS 1 from a 2-octet peer on a little-endian host | the entry holds the AS number, big-endian like the rest of the record | not executed | Entries.As2EntryCounterexample | Entries.AsEntry |
| src/p_dump.c:261-264, src/p_dump.c:369-372 | the copy into `data[256]` runs for every community | a COMMUNITY attribute of 1028 octets (257 communities) | every community is copied | not executed | Entries.CommunitiesCounterexample | Entries.CopyCommunitiesRoundTrip |
| src/p_dump.c:282-287, src/p_dump.c:391-396 | the large-community loops of the IPv4 and IPv6 writers index `uint32_t` words by `i*12` and read `local2` from the word of `local1` | the single large community 1:2:3 | entry i is the 12 octets at offset 12*i | not executed | Entries.LargeEntryCounterexample | Entries.CopyEntriesRoundTrip |
| src/p_dump.c:379-386 | the IPv6 extended-community loop takes the type from `i*20` but the global part from `i*8+2` and the local part past the entry | a single 20-octet entry | entry i is the 20 octets at offset 20*i | not executed | Entries.Ext6EntryCounterexample | Entries.CopyEntriesRoundTrip |
| src/p_piranha.c:457 | `23456` is stored without `htons` | a local AS above 65535 on a little-endian host: the OPEN carries AS 41051 | the OPEN carries AS_TRANS | not executed | Wire.ReplyAsTransByteSwapped | Handshake.OwnOpenAccepted |
| src/p_piranha.c:358-364, src/p_piranha.c:465-491 | after a failed send sets `olen` to -1, the keepalive copies its header to `obuf - 1` and `olen` becomes 18, so the failure is forgotten | a send that returns 0, then a due keepalive | a failed send ends the session | not executed | Loop.FailureForgotten | Loop.FailedSendEndsRun |
| src/p_piranha.c:224, src/p_piranha.c:258-260, src/p_dump.c:93-108 | after the loop, the close record is written and the bucket check returns early when the minute has not changed, so the file stays open; the next connection sets `fh` to NULL without closing it, and the next `fopen` truncates `temp.dump` | a session that writes an event and closes within the same minute, then a reconnection | the session's last file gets its footer and is renamed into place | not executed | Loop.LastFileLeaked | Loop.EndKeepsEvents |
