# MiniSniffer's reassembly engine and stream decoders, modelled and verified

MiniSniffer turns captured packets into application metadata. Between the packets and the metadata stands a bounded
engine: fragments of IPv4 datagrams are put together, TCP segments are put in order per flow direction, and decoders
for HTTP, TLS and DNS run again and again on the growing prefix of each stream until one of them names the flow. This
project models that engine and proves what it promises, over every arrival order and every run:

- **TCP streams** (`SerialNumbers`, `StreamBuffers`, `TcpReassembly`, `TcpOffsets`, `TcpStream`, `TcpSplice`,
  `TcpCoverage`, `TcpRoom`, `TcpTruncation`, `TcpPending`). Sequence numbers are naturals modulo 2^32, compared as in
  section 3.4 of RFC 9293. A segment is a slice of an unbounded source; the theorems relate wrapped numbers to
  unbounded offsets, so the buffered stream is always a contiguous piece of the source, and without loss it is exactly
  the contiguous coverage.
- **IPv4 fragments** (`Ipv4Fragments`, `Ipv4Table`, `Ipv4Provenance`, `Ipv4Reassembly`, `Ipv4Order`, `Ipv4Timing`,
  `Ipv4RoundTrip`, `Ipv4Wire`). Whatever arrives, every byte of a rebuilt datagram has a source; a datagram cut into
  fragments comes back whole in any order amid any other traffic; the rebuilt packet parses as an unfragmented
  datagram (section 3.2 of RFC 791).
- **Decoders** (`DnsNames`, `DnsDecoder`, `DnsRoundTrip`, `DnsFinality`, `HttpDecoder`, `HttpRoundTrip`, `TlsDecoder`,
  `TlsRoundTrip`, `TlsSoundness`, `AlpnFilter`, `AppDecoder`, `StreamRouting`, `StreamFinality`). Verdicts are final
  under extension, with the exact exceptions; names, requests, queries and ClientHellos survive encoding and decoding
  (section 4.1.4 of RFC 1035, section 4.1.2 of RFC 8446, section 3 of RFC 6066, section 3.1 of RFC 7301).
- **Flows** (`FlowDecode`, `FlowLifecycle`, `Classification`, `FlowKeys`, `FlowTables`, `FlowStore`,
  `FlowTableTheorems`, `FlowHistories`, `FlowTiming`, `FlowTallies`). One step of a flow, what a flow is classified
  as, what a flow table keeps, conserves and bounds, and that each flow in it is what its own packets make of it.

Code that changes state in place is a class or a method here (`StreamBuffer`, `PendingStore`, `ReassemblyDirection`,
`Flow`, `FlowEntry`, `FlowTable`, `PartialDatagram`, `FragmentTable`, and the loops of the decoders). Each is proved
equal to a function on values, and the theorems are about those functions.

## How the theorems fit together

`TcpReassembly.ReassemblyDirection.ProcessSegment` refines `Processed`. About runs of it, `TcpSplice.NoSplice` proves
soundness, `TcpCoverage.MaximalContiguousCoverage` completeness, `TcpRoom.NothingIsDroppedExactly` when completeness
applies, and `TcpTruncation.StreamIsWhatIsCovered` what becomes of streams longer than the buffer.
`AppDecoder.SuccessIsFinal` says that a decoded prefix settles the verdict. `Classification` composes these with
`FlowDecode.Step`: while a flow is unclassified, each of its directions is what its own payloads make of it
(`Classification.DirectionIsFed`). `FlowHistories.FlowIsItsHistory` carries this into the flow table: a flow there is
what its own packets since its creation make of a new flow, whatever the other flows do.

`FlowDecode.Flow.DecodeStreamApp` refines `Step`, `FlowStore.FlowTable.CapturePacket` refines `FlowTables.Captured`,
about which `FlowTableTheorems` and `FlowHistories` speak, and `Ipv4Table.FragmentTable.Process` refines
`Ipv4Fragments.Processed`, about which `Ipv4Provenance`, `Ipv4Reassembly`, `Ipv4Order`, `Ipv4Timing`, `Ipv4RoundTrip`
and `Ipv4Wire` speak.

What the functions on values come to is stated from outside as well, without them: a segment in unbounded offsets
(`TcpOffsets`), messages as lines, labels, vectors and literal bytes (`HttpRoundTrip`, `DnsRoundTrip`, `TlsRoundTrip`,
`TlsSoundness`, `Ipv4Wire`), decoders by port number (`StreamRouting`), and flows and datagrams by the times, sizes
and flags of their packets (`FlowTiming`, `FlowTallies`, `Ipv4Timing`). For HTTP and DNS these descriptions cover
every input, for TLS every input that decodes.

## Where the code departs from its description

- `docs/architecture.md:95-99` says FIN and RST are tracked for every TCP segment in a flow. A payload segment on a
  direction that is poisoned and not classified is refused before its flags are read (`src/tcp_reassembly.c:236-238`),
  and a flag seen before the first payload of a direction is erased when that direction is initialised
  (`src/flow.c:434-438`). `FlowLifecycle.FlagsAfterStep` states exactly when a flag is kept; `PoisonHidesReset` and
  `FinBeforePayloadIsForgotten` are the two runs. In the flow table RST is never erased, since a flow that has seen it
  meets no further packet (`FlowHistories.ResetIsNeverLost`), and FIN only by such an initialisation
  (`FlowHistories.FinIsLostOnlyByInitialisation`).
- Pending segments lie strictly in the future of the expected byte in every run of a flow
  (`FlowLifecycle.PendingStaysInTheFutureOverRuns`). The segment processor does not ensure it by itself: called
  directly with a bare FIN, it can move the expected number onto a pending segment.
  `TcpPending.PendingStaysInTheFuture` says that this is its only exception, and `src/capture.c:484-496` never makes
  that call.
- Verdicts on stream bytes are not always final, and the exact conditions are these. MALFORMED: unless it is the
  verdict on `HT`, `HTT` or `HTTP`, the beginnings of a response, on an HTTP port
  (`AppDecoder.MalformedIsFinalUnlessCutResponse`). NO_MATCH: unless the bytes are one of these beginnings or can
  still become a DNS message with a name (`StreamFinality.NoMatchIsFinal`). NEED_MORE of TLS: for ever, if the
  ClientHello is longer than its record, so one that is spread over two records is never classified
  (`TlsDecoder.NeedMoreIsForeverWhenExceeding`). MALFORMED of a bare DNS message: if its name is refused on the bytes
  that are there (`DnsFinality.MessageMalformedIsFinalWhenRefused`).
- `docs/architecture.md:86-87` promises correctness across a 32-bit wrap-around. Soundness and completeness of the
  stream both hold when no looked-at segment reaches a whole number space away from the buffered window
  (`TcpSplice.Unambiguous`); `TcpSplice.SplicesExactlyWhereNumbersAlias` says exactly where splicing begins.
  Completeness asks besides that a segment which covers a byte the buffer can hold lies within half the number space
  (`TcpCoverage.Comparable`), where the wrapped comparisons are exact (`SerialNumbers.SerialOrderIsExactOnlyThere`).
  At the buffer sizes a flow table accepts and the payload sizes a 16-bit total length allows, every segment does
  (`FlowHistories.ProgramSizesAreComparable`). Only a direct call with a buffer and a segment of about 2^31 bytes does
  not (`TcpSplice.MissedOutsideTheWindow`).
- A ClientHello is refused as malformed, its server name included, when its protocols before the last already fill the
  255 bytes kept of them (`src/app_tls.c:116-119`, `TlsRoundTrip.ClientHelloRoundTrip`).
- The header of a rebuilt datagram is that of the offset-0 fragment; each fragment is bounded with its own header, so
  that header and the whole payload can exceed 65535 bytes although no fragment does. Then the code drops the datagram
  with its last fragment (`Ipv4Reassembly.Whole`).

## Model

| member | source | states |
|---|---|---|
| SerialNumbers.SerialOrderIsExact | src/tcp_reassembly.c:12-18 | within half the number space the wrapped comparisons are the comparisons of the unbounded offsets |
| SerialNumbers.SerialOrderIsExactOnlyThere | src/tcp_reassembly.c:12-18 | of offsets less than a number space apart, the comparison is right if and only if they lie within half of it |
| SerialNumbers.TrimIsShorterThanSegment | src/tcp_reassembly.c:91-113 | for every pair of 32-bit numbers that passes the guards, the trim is strictly shorter than the segment, so the flush subtraction cannot underflow and the whole-segment branch is dead |
| StreamBuffers.StreamBuffer.CompactBuffer | src/stream_buffer.c:10-28 | moving the unread bytes to the front cannot be observed by a reader |
| StreamBuffers.StreamBuffer.Append | src/stream_buffer.c:63-88 | succeeds exactly when unread and new bytes fit the capacity together; otherwise nothing changes |
| StreamBuffers.StreamBuffer.Consume | src/stream_buffer.c:90-112 | drops exactly a prefix of the unread bytes |
| StreamBuffers.StreamBuffer.Clear | src/stream_buffer.c:138-145 | all unread bytes go, the capacity stays |
| StreamBuffers.FirstInFirstOut | src/stream_buffer.c:63-145 | over every run of appends, consumes and clears, the accepted bytes are those that have left followed by the unread ones, within the capacity |
| TcpReassembly.PendingStore.RemoveAt | src/tcp_reassembly.c:37-54 | the later segments close the gap and the byte count falls by the removed length |
| TcpReassembly.PendingStore.Add | src/tcp_reassembly.c:128-151 | stores a segment exactly when a slot and the byte cap allow it, and otherwise changes nothing |
| TcpReassembly.ReassemblyDirection.Init | src/tcp_reassembly.c:157-171 | fails exactly on a zero size, otherwise leaves a direction with nothing seen |
| TcpReassembly.ReassemblyDirection.TrackFlags | src/tcp_reassembly.c:192-208 | sticky FIN and RST, everything else unchanged |
| TcpReassembly.ReassemblyDirection.ReleaseBuffers | src/tcp_reassembly.c:210-228 | stream and pending memory go, flags and counters stay |
| TcpReassembly.ReassemblyDirection.AppendBestEffort | src/tcp_reassembly.c:67-76 | appends the longest prefix that fits, keeping what was there |
| TcpReassembly.ReassemblyDirection.FlushPendingSegments | src/tcp_reassembly.c:82-126 | the restarting loop over the pending array terminates and equals the recursive flush |
| TcpReassembly.ReassemblyDirection.ProcessSegment | src/tcp_reassembly.c:230-330 | the in-place operation equals its specification on values, result code included; what that is, field by field, `TcpOffsets` says |
| TcpOffsets.ArrivalInOffsets | src/tcp_reassembly.c:230-330 | one segment on a usable direction, every field and the result from unbounded offsets: an old one adds one retransmission and is ignored; one ahead adds one out-of-order segment and one gap and is buffered if fewer than 8 wait and its bytes are free, else dropped; one that reaches the expected byte adds one overlap if it begins behind it and lengthens the stream; when it does not fit, the buffer is full to the last byte, the direction unusable, and the result ACCEPTED unless the buffer was full before; a bare FIN at the expected byte is consumed |
| TcpOffsets.FlushInOffsets | src/tcp_reassembly.c:82-122 | one step of the flush from unbounded offsets: the first held segment that is reached adds one retransmission, or one overlap if it begins behind the expected byte, and lengthens the stream if it fits and poisons the direction if not |
| TcpOffsets.NothingReachedNothingFlushed | src/tcp_reassembly.c:82-122 | a flush with nothing to deliver succeeds and changes nothing |
| TcpOffsets.FirstSegmentIsTheBaseline | src/tcp_reassembly.c:247-254 | the first segment of a direction makes its own payload the expected byte |
| TcpOffsets.RefusedPayload | src/tcp_reassembly.c:263-266 | a missing payload with a length, or one of 2^32 bytes, poisons the direction, is dropped, and leaves stream, pending store and counters alone |
| TcpReassembly.ProcessKeepsBounds | src/tcp_reassembly.c:128-151 | for every input at most 8 pending segments, pending bytes equal to the sum of their lengths and within the cap, the stream within its capacity |
| TcpReassembly.ProcessExtends | src/tcp_reassembly.c:230-330 | the stream only grows at its end, counters only grow, a poisoned direction does not change |
| TcpStream.ComparisonsAreExact | src/tcp_reassembly.c:268-304 | inside the window every comparison and every trim of the code is that of the unbounded offsets, across wrap-around |
| TcpSplice.NoSplice | src/tcp_reassembly.c:67-76 | in every run, with drops, a full store, truncation or poisoning, the stream is a piece of the source that starts at the first arrival and fits the buffer, if each arrival that meets a usable direction lies within a whole number space of the window |
| TcpStream.PoisonIsForever | src/tcp_reassembly.c:236-238 | once unusable a direction never changes again |
| TcpCoverage.MaximalContiguousCoverage | src/tcp_reassembly.c:82-126 | when nothing was dropped, the stream is the source from the first arrival up to the first offset no arrival covers, or up to the capacity; arrivals are unambiguous in the whole number space, and comparable where they cover a byte the buffer can hold |
| TcpStream.FirstUncoveredIsLeast | src/tcp_reassembly.c:82-126 | that offset is the least one not covered |
| TcpCoverage.ArrivalOrderDoesNotMatter | src/tcp_reassembly.c:230-330 | two orders of the same segments with the same first offset and nothing dropped build the same stream |
| TcpRoom.NothingIsDroppedExactly | src/tcp_reassembly.c:128-151 | for segments that end within the buffer, nothing is dropped if and only if each finds a slot: at most eight that start beyond the first uncovered offset at a time, together within the cap; then the stream is the source up to that offset and the pending store is what lies beyond it, in order of arrival |
| TcpTruncation.StreamIsWhatIsCovered | src/tcp_reassembly.c:306-319 | when each segment is empty, or starts no later than the first uncovered offset (and may run past the buffer), or finds one of 8 slots and ends inside the buffer, the stream is the source up to the first uncovered offset or the capacity; nothing is asked of the results |
| TcpTruncation.GrowthIsNotDropped | src/tcp_reassembly.c:306-319 | in such a run no segment that lengthens the stream is reported as dropped, the one cut off at the capacity included |
| TcpTruncation.RoomIsPlace | src/tcp_reassembly.c:128-151 | segments that end within the buffer and find a slot each are such a run |
| TcpSplice.SplicesExactlyWhereNumbersAlias | src/tcp_reassembly.c:12-18 | with nothing pending and room to spare, foreign bytes are appended for some source if and only if another offset with the expected sequence number lies inside the segment, less than half the number space from both its ends |
| TcpSplice.MissedOutsideTheWindow | src/tcp_reassembly.c:12-18 | direct calls with a buffer and a segment of about 2^31 bytes, which a flow table excludes, that drop nothing and miss a byte |
| TcpSplice.SpliceOutsideTheWindow | src/tcp_reassembly.c:12-18 | a run that splices: the byte 2^32 after the expected one |
| TcpPending.FlushReachesFixpoint | src/tcp_reassembly.c:82-126 | a flush that does not poison the direction leaves only segments that lie strictly in the future |
| TcpPending.PendingStaysInTheFuture | src/tcp_reassembly.c:246-266 | after one call that does not poison the direction all pending segments lie strictly in the future, if and only if the call was not a bare FIN that landed on one |
| FlowLifecycle.PendingStaysInTheFutureOverRuns | src/capture.c:484-506 | over every run of a flow each direction is poisoned or all its pending segments lie strictly in the future: the flow step never makes that call |
| TcpPending.BareFinOvertakesPending | src/tcp_reassembly.c:255-261 | three direct calls that reach the exception, which no run of a flow makes |
| DnsNames.ParseDnsName | src/app_dns.c:30-104 | the loop over cursor, depth and output buffer equals the recursive reader; the output is terminated inside its 256 bytes |
| DnsNames.ParsesExactlyTheNames | src/app_dns.c:30-104 | succeeds if and only if a name with at most 16 pointer hops and at most 253 dotted bytes stands at the offset; yields its labels joined by dots (a single dot for the root) and the offset past the first terminator or pointer |
| DnsNames.NameIsUnique | src/app_dns.c:40-97 | at most one name stands at an offset |
| DnsNames.NameRoundTrip | src/app_dns.c:30-104 | an encoded name is read back as its dotted form wherever it stands in a message |
| DnsNames.NameSurvivesExtension | src/app_dns.c:30-104 | a name once read is read the same after bytes are appended |
| DnsDecoder.DecodeDnsMessage | src/app_dns.c:120-181 | the decoder with its name buffer equals the specification |
| DnsDecoder.FrameVerdictIsFinal | src/app_dns.c:205-225 | OK and MALFORMED of a framed message stand under extension, with the same metadata; what the frame has to do with its message, `DnsRoundTrip.FrameIsItsMessage` says |
| DnsDecoder.MessageSuccessIsFinal | src/app_dns.c:120-181 | OK of a bare message stands under extension |
| DnsFinality.MessageMalformedIsFinalWhenRefused | src/app_dns.c:155-168 | MALFORMED of a bare message is final if and only if its name is refused on the bytes that are there: an unknown label type, a text past 253 bytes or a 17th pointer, for each value of a missing pointer byte; a cut name, type or class can be completed |
| DnsDecoder.MessageMalformedIsNotFinal | src/app_dns.c:155-168 | a message with a cut question that completes |
| DnsRoundTrip.QueryRoundTrip | src/app_dns.c:120-181 | decoding a query gives back its header fields, name, type and class |
| DnsRoundTrip.HeaderSpeaksForItself | src/app_dns.c:106-150 | fewer than 12 bytes need more; more than 64 questions or 512 records of a kind are no match; without a question the identification, response bit, opcode and result code of the header are reported, each from its own bits |
| DnsRoundTrip.QuestionIsRequired | src/app_dns.c:155-181 | a message that announces a question decodes if and only if a name within the bounds and four more bytes stand behind the header, and is MALFORMED otherwise |
| DnsRoundTrip.QuestionSpeaksForItself | src/app_dns.c:155-181 | and then reports that name dotted and the two 16-bit values behind it, beside the header fields and the question count |
| DnsRoundTrip.FrameIsItsMessage | src/app_dns.c:205-225 | a message of 1 to 65535 bytes behind its length, most significant byte first, decodes as the message, whatever follows the frame |
| DnsRoundTrip.BeginningOfAFrameNeedsMore | src/app_dns.c:209-222 | every non-empty proper beginning of a frame is NEED_MORE |
| DnsRoundTrip.EmptyFrameIsMalformed | src/app_dns.c:217-219 | a frame of length zero is MALFORMED |
| DnsRoundTrip.FramedQueryRoundTrip | src/app_dns.c:205-225 | a framed query comes back, whatever follows it |
| HttpDecoder.DecodeHttp | src/app_http.c:236-273 | the pointer-advancing decoder equals the specification on values; what that makes of every input, `HttpRoundTrip` says from lines and literal bytes |
| HttpDecoder.ScanHeaders | src/app_http.c:200-234 | the header loop equals the recursive reading of the lines; which values that keeps, `HttpRoundTrip.RequestRoundTrip` and `HttpRoundTrip.ResponseRoundTrip` say |
| HttpDecoder.VerdictIsFinal | src/app_http.c:236-273 | OK and MALFORMED stand under extension, with the same metadata |
| HttpDecoder.NoMatchIsFinalUnlessCut | src/app_http.c:29-54 | NO_MATCH on non-empty input is final if and only if the input is not one of HT, HTT, HTTP |
| HttpRoundTrip.RequestRoundTrip | src/app_http.c:84-273 | every message whose first line is three words (one that begins with one of nine literal method names, a path, an HTTP version of at least 8 bytes), whatever its lines and whatever follows its blank line, decodes to these words and to the value of the last line that spells host, user-agent or content-type in any letter case; all without the blanks (bytes 9 to 13 and 32) around them, method and version up to 15 bytes, the rest up to 255 |
| HttpRoundTrip.ResponseRoundTrip | src/app_http.c:84-273 | every message whose first line is an HTTP version, a space, three digits and a tail decodes to the version, the number, the tail as reason if a space announces one, and the headers, likewise |
| HttpRoundTrip.PaddedTextIsHeld | src/app_http.c:84-106 | for a core that neither begins nor ends with a blank, between blanks, a field holds the text exactly when it is the core up to the limit |
| HttpRoundTrip.OtherFirstLines | src/app_http.c:129-273 | a message with any other first line is MALFORMED if that begins with HTTP/ or a method name and NO_MATCH if not |
| HttpRoundTrip.EveryMessageSplits | src/app_http.c:56-78 | every input with CR LF CR LF in it is a first line, non-empty lines, a blank line and a body, so the three rows above cover it |
| HttpRoundTrip.WithoutBlankLine | src/app_http.c:29-50 | every other input is NEED_MORE if it begins with HTTP/ or a method name or is the beginning of a method name, and NO_MATCH if not |
| TlsDecoder.DecodeClientHello | src/app_tls.c:250-311 | the decoder, with a cursor over the body and offset loops over the extensions, equals the one on enclosed slices, so no vector read leaves its enclosing vector |
| TlsDecoder.SkipVectors | src/app_tls.c:207-238 | the cursor passes session id, cipher suites and compression methods exactly where the enclosed reading does |
| TlsDecoder.ParseExtensions | src/app_tls.c:163-205 | the extension loop equals the recursive reading of the block |
| TlsDecoder.ParseSniExtension | src/app_tls.c:79-109 | the first host name of a well-formed list, or failure |
| TlsDecoder.ParseAlpnExtension | src/app_tls.c:132-161 | the protocols of a well-formed list joined onto the text, or failure |
| TlsDecoder.VerdictIsFinal | src/app_tls.c:250-311 | OK, MALFORMED, and NO_MATCH on a whole record header, stand under extension |
| TlsDecoder.NeedMoreIsForeverWhenExceeding | src/app_tls.c:262-301 | NEED_MORE stays so under every extension if and only if the record header is there and announces a ClientHello that exceeds its record whatever its missing length bytes |
| TlsRoundTrip.ClientHelloRoundTrip | src/app_tls.c:79-311 | for every ClientHello in one record, with ignored bytes behind its extensions, its handshake message and its record, decoding reports its versions, its first host name that does not begin with a NUL cut to 255 bytes and its joined protocols cut to 255 bytes, if those before the last leave room in the field, and refuses it otherwise |
| TlsSoundness.OnlyTheWrittenDecode | src/app_tls.c:79-311 | conversely every record that decodes is a written ClientHello: all vector lengths are what they enclose, host names and protocols are not empty, and bytes are left over only where they are ignored |
| TlsSoundness.RecordSpeaksForItself | src/app_tls.c:250-311 | the verdict from the nine header bytes: 22 and major version 3 or no match, the record and the handshake inside it there or need more, at least four bytes, a ClientHello or no match; and both reported versions |
| TlsRoundTrip.AppendedInClosedForm | src/app_tls.c:111-130 | appending protocols one by one yields the joined text cut to the field, or fails, exactly by the length of those before the last |
| TlsRoundTrip.FilterSeesOfferedProtocols | src/filters.c:93-117 | when the joined protocols fit the field, the filter accepts a protocol of the decoded list if and only if the client offered it |
| AlpnFilter.AppHasAlpn | src/filters.c:93-117 | the cursor loop finds exactly an element of the comma-separated list |
| AlpnFilter.MatchesExactlyTheMembers | src/filters.c:93-117 | on joined protocol names a non-empty name matches if and only if it is one of them |
| AppDecoder.DecodeStream | src/app_decoder.c:230-252 | the stream decoder equals the choice of decoder by port; which port chooses which, `StreamRouting.PortsDecide` says |
| StreamRouting.PortsDecide | src/app_decoder.c:230-252 | with 80, 8080 or 8000 on either side the HTTP decoder decides, else with 443 or 8443 the TLS one, else with 53 the framed DNS one; NO_MATCH of it becomes MALFORMED |
| StreamRouting.WithoutPortsAllAreTried | src/app_decoder.c:70-148 | on all other ports the first of HTTP and TLS that decodes or waits is taken, else a bare DNS message with a question whose name does not begin with a NUL, else no match |
| StreamRouting.RequestOnItsPort | src/app_decoder.c:230-252 | a request as in `HttpRoundTrip.RequestRoundTrip` is reported on an HTTP port and on none that is known |
| StreamRouting.ResponseOnItsPort | src/app_decoder.c:230-252 | and a response |
| StreamRouting.ClientHelloOnItsPort | src/app_decoder.c:230-252 | a ClientHello as in `TlsRoundTrip.ClientHelloRoundTrip` is reported on a TLS port and on none that is known |
| StreamRouting.FramedQueryOnItsPort | src/app_decoder.c:245-247 | a framed query is reported on port 53 |
| StreamRouting.BareQueryWithoutPorts | src/app_decoder.c:120-148 | a bare query is reported without a known port unless its first bytes begin an HTTP message or a TLS record |
| AppDecoder.SniffedSuccessIsFinal | src/app_decoder.c:132-147 | a sniffed success stands under extension: no decoder tried earlier takes over |
| AppDecoder.SuccessIsFinal | src/app_decoder.c:230-252 | on every port a success stands under extension with the same metadata |
| AppDecoder.MalformedIsFinalUnlessCutResponse | src/app_decoder.c:79-89 | MALFORMED is final if and only if it is not the verdict on HT, HTT or HTTP on an HTTP port |
| StreamFinality.SniffedNoMatchIsFinal | src/app_decoder.c:132-147 | NO_MATCH without a port hint is final if and only if the bytes do not begin a response and can no longer become a DNS message with plausible counts, a question and a name that does not begin with a NUL |
| StreamFinality.NoMatchIsFinal | src/app_decoder.c:230-252 | on stream bytes NO_MATCH comes from sniffing alone and is final under that condition |
| FlowDecode.Flow.DecodeStreamApp | src/capture.c:466-535 | the step on the flow object equals the step on values, status and return value included |
| FlowDecode.Flow.Reassemble | src/flow.c:426-443 | a direction without a buffer is initialised before its payload is processed; fails exactly when it cannot be |
| FlowLifecycle.StatusMeans | src/capture.c:499-533 | a payload step: DECODED exactly when the segment was not dropped and the stream decodes, the flow then classified as it says and all memory released; TRUNCATED exactly when the segment was dropped or more is needed of a packet longer than its window; else the verdict on the stream |
| FlowLifecycle.NothingToDecode | src/capture.c:474-497 | a step without bytes, or on a classified flow, records FIN and RST of its direction and nothing else; without a sequence number, nothing |
| FlowLifecycle.PacketLocalDecodeClassifies | src/capture.c:771-785 | a packet that decodes by itself classifies an unclassified flow and releases its memory, and never reclassifies one |
| Classification.DirectionIsFed | src/capture.c:484-516 | while a flow is unclassified, each direction is, but for its teardown flags, what its own payloads make of a fresh one, however the other is interleaved |
| Classification.ClassifiedAsTheWholeStream | src/capture.c:504-533 | a flow that a stream classified carries what decoding the whole source of that direction from its first payload byte yields, whatever was lost, reordered, interleaved or truncated; only segments that met a usable, unclassified direction have to be unambiguous |
| Classification.SegmentationDoesNotMatter | src/capture.c:466-535 | two flows classified by streams of one source, from one first payload byte and on the same ports, agree on the metadata |
| Classification.ClassifiedOnceCovered | src/capture.c:466-535 | if k bytes of a direction decode, nothing of it was dropped and its segments, unambiguous and comparable, cover those k bytes, the flow is classified, and if by this direction, as those bytes say |
| Classification.ClassifiedWhenCovered | src/capture.c:504-533 | if k bytes of a direction decode and fit the buffer, and its segments cover them and find their places (`TcpTruncation.EnoughPlace`), the flow is classified, and if by this direction, as those bytes say; the last segment may run past the buffer, and nothing is asked of the result codes |
| FlowLifecycle.StepKeepsOk | src/capture.c:466-535 | the conversation invariant, including zero counters in a direction without a buffer, holds after every step, and no counter falls |
| FlowLifecycle.ClassifiedForGood | src/capture.c:525-533 | in every continuation of a classified flow the metadata is unchanged and no stream or pending memory is held |
| FlowLifecycle.FlagsAfterStep | src/tcp_reassembly.c:187-208 | FIN and RST after one packet, exactly: the seen flags survive unless the direction is initialised again, the packet's are recorded unless a poisoned direction refuses it |
| FlowLifecycle.FinBeforePayloadIsForgotten | src/flow.c:434-438 | the loss by initialisation happens |
| FlowLifecycle.PoisonHidesReset | src/tcp_reassembly.c:236-238 | the refusal happens: RST on a payload segment of a poisoned direction goes unseen |
| FlowLifecycle.MemoryIsBounded | src/tcp_reassembly.c:157-171 | a direction holds at most one buffer and as many pending bytes; nothing once classified |
| FlowKeys.CompareEndpointIsAnOrder | src/flow.c:58-84 | the comparison is zero exactly on equal endpoints and antisymmetric |
| FlowKeys.CompareEndpointIsTransitive | src/flow.c:58-84 | and transitive |
| FlowKeys.KeyIsTheUnorderedPair | src/flow.c:175-220 | two TCP packets share a key if and only if they join the same unordered pair of endpoints |
| FlowKeys.ReverseTravelsTheOtherWay | src/flow.c:175-220 | a packet and its reverse share a key, in opposite directions if and only if the endpoints differ |
| FlowKeys.IdentityNamesTheSender | src/flow.c:175-220 | key and direction together give back sender and receiver |
| FlowKeys.KeyIsNormalised | src/flow.c:175-216 | a packet has a key exactly when ports, transport and both addresses are known; TCP puts the endpoint first that is smaller by family, address bytes and port, UDP keeps the order of the packet |
| FlowTables.InitAcceptsWhatFits | src/flow.c:131-139 | the guard with its two floor divisions holds if and only if four buffers for each flow fit 134217728 bytes, within the two maxima |
| FlowStore.InitFlowTable | src/flow.c:131-154 | a table exactly under that condition, empty and with all counters zero |
| FlowStore.FlowTable.RemoveFlowAt | src/flow.c:110-125 | the gap is closed in order and the counters of the leaving flow are folded in |
| FlowStore.FlowTable.Sweep | src/flow.c:222-302 | the in-place sweep keeps exactly the flows the policy does not hit, in order, and credits each that leaves once |
| FlowStore.FlowTable.EvictOldestFlow | src/flow.c:356-376 | removes the first of the least recently seen flows, credited to capacity |
| FlowStore.FlowTable.GetOrCreate | src/flow.c:378-424 | the in-place lookup equals the one on values, position included, and a new flow shares no object with others |
| FlowStore.FlowEntry.Handle | src/capture.c:739-785 | one packet updates times, traffic, directions and classification of its flow in place, as on values; what the times and counts come to, `FlowTiming.FlowRecordsItsPackets` says |
| FlowStore.FlowTable.CapturePacket | src/capture.c:739-785 | looking up, counting, reassembling and classifying in place, on the objects of the flow alone, equals the capture step on values; who stays and who leaves by it, `FlowTiming.LiveFlowStays` and `FlowTiming.DeadFlowLeaves` say |
| FlowStore.FlowTable.SnapshotStats | src/flow.c:308-350 | the summing loop equals the snapshot of the table |
| FlowTableTheorems.SweepIsAFilter | src/flow.c:222-302 | a sweep treats every flow by itself and keeps the order |
| FlowTableTheorems.SweepIsConservative | src/flow.c:99-125 | an idle or closed sweep keeps the invariant and leaves the reported totals unchanged |
| FlowTableTheorems.OldestIsConservative | src/flow.c:356-376 | capacity eviction removes one flow, the least recently seen, and leaves the reported totals unchanged |
| FlowTableTheorems.LocatingIsConservative | src/flow.c:378-424 | a lookup, with whatever it evicts and creates, keeps the invariant and the reported totals |
| FlowTableTheorems.LocatingRefinesAMap | src/flow.c:378-424 | on the map from keys to flows: the result is the surviving flow of the key or a new one, never a closed one; every other key keeps its surviving flow unless it is the one victim |
| FlowTableTheorems.VictimIsLeastRecentlySeen | src/flow.c:356-376 | that victim was last seen no later than any surviving flow |
| FlowTableTheorems.CaptureKeepsOk | src/capture.c:739-785 | one packet keeps the table invariant and lowers no reported total |
| FlowTableTheorems.FlowsAreConserved | src/flow.c:308-350 | over every run, created = active + closed by FIN + closed by RST + evicted idle + evicted by capacity, with distinct keys and at most the configured flows |
| FlowTableTheorems.TotalsNeverDecrease | src/flow.c:99-125 | over every run the reported retransmission, out-of-order, overlap and gap totals never fall |
| FlowTableTheorems.MemoryStaysBounded | src/flow.c:131-150 | over every run all stream capacities and pending bytes together stay within 134217728, and the reported bytes in use are the allocated capacities |
| FlowHistories.FlowIsItsHistory | src/capture.c:739-785 | over every capture a flow in the table is a new flow after the packets of its own key since it was created, whatever other flows did and was evicted |
| FlowTiming.FlowRecordsItsPackets | src/flow.c:445-456 | over every capture a flow in the table was created by the first packet of its history, was last seen at the time of the last packet of its key, and counts the packets and bytes of its history, in all and each way |
| FlowTiming.LiveFlowStays | src/flow.c:222-241 | over every capture a flow whose last packet is less than the timeout ago, without RST and with FIN one way at most, is the same flow after the next packet; only a table full of such flows gives it up for a new key, and then none was seen less recently |
| FlowTiming.DeadFlowLeaves | src/flow.c:222-302 | any other flow is gone after the next packet, and replaced by a new one if that is its own |
| FlowTiming.FinalSweepTakesTheClosed | src/flow.c:280-302 | the closing sweep takes exactly the flows with RST, or with FIN both ways, and leaves the others as they are |
| FlowTallies.CountsAreExact | src/flow.c:222-372 | over every capture each count of the snapshot is how often its reason occurred: packets that found no live flow of their key; departures of flows idle for the timeout, of those with RST, of those with FIN both ways and no RST; and new flows in a table full of live ones |
| FlowTallies.TotalsAreExact | src/flow.c:99-125 | with each packet the reported retransmissions, out-of-order segments, overlaps and gaps grow by what its flow gains, whatever leaves the table at the same time |
| FlowHistories.ClassifiedInTheTable | src/capture.c:739-760 | over every capture without packet-local decodes, a classified flow in the table carries what decoding the source of one of its two directions yields |
| FlowHistories.ClassifiedInTheTableOnceCovered | src/capture.c:739-760 | over every capture, at the sizes of the program: a flow in the table is classified once the segments of a direction cover a prefix that decodes and none was dropped |
| FlowHistories.ClassifiedInTheTableWhenCovered | src/capture.c:739-760 | the same with a condition on the segments alone, for streams longer than the buffer too |
| FlowHistories.ProgramSizesAreComparable | src/flow.c:133-136 | a buffer size the table accepts and payloads of at most 65535 bytes make every segment comparable |
| FlowHistories.ResetIsNeverLost | src/flow.c:249-264 | over every capture a direction of a flow in the table has seen RST if and only if one of its packets since creation carried it and was not refused by a poisoned direction |
| FlowHistories.ResetFlowMeetsNoPacket | src/flow.c:378-390 | a flow that has seen RST is gone before any packet is handed to it |
| FlowHistories.FinishedFlowMeetsNoPacket | src/flow.c:249-264 | nor does a packet meet one that has seen FIN both ways |
| FlowHistories.FinIsLostOnlyByInitialisation | src/flow.c:426-443 | a FIN seen by a flow that stays in the table is lost only when a payload initialises a direction without a buffer |
| FlowHistories.FinIsForgottenOnlyByInitialisation | src/flow.c:426-443 | over every capture a direction of a flow in the table has seen FIN if and only if one of its packets since creation recorded it and no later payload initialised the direction |
| Ipv4Table.InitFragmentTable | src/ipv4_frag.c:54-72 | a table exactly when both limits are within their maxima, empty |
| Ipv4Table.PartialDatagram.AddRange | src/ipv4_frag.c:171-187 | shifting in place inserts the range before the first that starts later, and fails exactly when 64 are held |
| Ipv4Table.PartialDatagram.CoverageIsComplete | src/ipv4_frag.c:189-211 | the scan equals the recursive statement of gapless coverage up to the total |
| Ipv4Table.PartialDatagram.Build | src/ipv4_frag.c:257-282 | the three writes into the copied header yield the rebuilt packet |
| Ipv4Table.FragmentTable.RemoveDatagramAt | src/ipv4_frag.c:32-52 | the later datagrams move up and the bytes are given back |
| Ipv4Table.FragmentTable.Expire | src/ipv4_frag.c:88-110 | the in-place scan removes exactly what the recursive one does |
| Ipv4Table.FragmentTable.Process | src/ipv4_frag.c:288-395 | the operation on datagram objects, with growing data arrays, keeps the table invariant and equals its specification on values, outcome and packet included |
| Ipv4Provenance.ProcessingKeepsOk | src/ipv4_frag.c:288-395 | every fragment, however malformed, leaves ranges sorted, non-empty and disjoint, keys distinct, and the accounted bytes equal to the allocated ones within the budget, so no subtraction saturates |
| Ipv4Provenance.EveryByteHasASource | src/ipv4_frag.c:343-369 | over every run each range of each datagram was covered by one fragment that arrived for its key, and holds its bytes |
| Ipv4Provenance.ReassembledIsCompleted | src/ipv4_frag.c:371-391 | a reassembled packet is that of a datagram whose coverage is complete |
| Ipv4Provenance.ReassembledFromAdjoiningFragments | src/ipv4_frag.c:371-391 | its payload is the concatenation of adjoining fragments of one key that arrived, without gap or overlap, and its header is that of the offset-0 one |
| Ipv4Provenance.MemoryStaysBounded | src/ipv4_frag.c:213-236 | over every run the allocated bytes equal the accounted ones and stay within the limit |
| Ipv4Timing.WellFormedExactly | src/ipv4_frag.c:132-157 | a fragment is accepted by itself exactly when it is version 4, has 20 to 60 header bytes and a payload, in units of 8 bytes unless it is the last, and stays within 65535 bytes |
| Ipv4Timing.OnlyTheWellFormedAreHeld | src/ipv4_frag.c:288-325 | packets that are no fragments change nothing; malformed ones are reported and only expire |
| Ipv4Timing.LastSeenIsTheLastFragment | src/ipv4_frag.c:325-345 | over every run the time of a datagram is that of the last well-formed fragment of its key |
| Ipv4Timing.OthersStayUntilTheTimeout | src/ipv4_frag.c:88-110 | over every run a datagram that the next fragment is not about stays as it is exactly if its last fragment is less than the timeout ago |
| Ipv4Timing.LatePiecesAreForgotten | src/ipv4_frag.c:88-110 | over every run a fragment that comes the timeout or more after the last of its key meets nothing of it: what is kept, or reassembled, is its own bytes under its own header |
| Ipv4Timing.TimelyDatagramIsMet | src/ipv4_frag.c:325-391 | a fragment of a datagram that is still there is MALFORMED, and ends it, if and only if it overlaps a range or would be the 65th; when it is queued, every range keeps its bytes, its own are added, and the datagram is not complete |
| Ipv4Reassembly.CoverageMeansBytes | src/ipv4_frag.c:189-211 | the scan succeeds if and only if every byte below the total lies in a range |
| Ipv4Reassembly.CompleteWhenAllCollected | src/ipv4_frag.c:189-211 | while the fragments of a datagram arrive, coverage is complete if and only if all of them have |
| Ipv4Order.ArrivalOrderDoesNotMatter | src/ipv4_frag.c:288-395 | every permutation of a cut of a datagram into at most 64 fragments, mixed with any fragments of other datagrams, in time and where each finds room, is queued up to the last and yields on it the original payload behind the header of the offset-0 fragment, or a drop when that is longer than 65535 bytes |
| Ipv4Order.AnyOrderReassembles | src/ipv4_frag.c:288-395 | with nothing else arriving, a slot and the payload's bytes at the start are room enough |
| Ipv4Reassembly.ForeignArrives | src/ipv4_frag.c:288-395 | a fragment of another datagram, whatever it is, leaves the collected parts where they are |
| Ipv4RoundTrip.ParsedHeaderMatches | src/parser.c:381-462 | a parsed packet's header says its own length and carries the key's addresses, protocol and identification |
| Ipv4RoundTrip.RebuiltPacketParses | src/ipv4_frag.c:257-282 | parsing a rebuilt packet yields no fragment, its own length as total length, and the datagram's key, header length and payload; the 16-bit length does not wrap |
| Ipv4RoundTrip.ReassembledPacketParses | src/ipv4_frag.c:371-391 | over every run of fragments whose headers are their keys', a reassembled packet parses as an unfragmented datagram with the header length of the offset-0 fragment and the payload of adjoining fragments that arrived |
| Ipv4RoundTrip.ParsedIsFromWire | src/parser.c:381-462 | what the parser hands to the fragment table is such a fragment |
| Ipv4RoundTrip.CapturedFragmentsReassemble | src/parser.c:381-462 | from captured packets to a packet: parsing what the table rebuilds from any sequence of parsed packets yields an unfragmented datagram of the last one's key, its own total length, and the payload and header length of fragments parsed from captured packets |
| Ipv4Wire.PacketSpeaksForItself | src/parser.c:381-462 | which bytes a packet has to have to be read, and each parsed field from its own bytes: the offset is 8 times the lower 13 bits, more-fragments the bit above |
| Ipv4Wire.PacketRoundTrip | src/parser.c:381-462 | a written packet is parsed to what was written, whatever follows it |
| Ipv4Wire.CutDatagramComesBack | src/ipv4_frag.c:288-395 | from wire to wire: a datagram cut into 2 to 64 packets, captured in any order with any trailers, in time and with room at the start, comes back with the last of them: the packet rebuilt parses to the key and payload of the datagram |

## Left out

- libpcap capture, link layers, BPF expressions, signals, files, command line, configuration, CSV, JSON and text output, logging: calls into code that is not visible here or plumbing with easy facts.
- DHCP and QUIC decoders, ARP, ICMP, IPv6: forward scans that would add only bounds.
- Text forms of addresses and domain names (inet_ntop, inet_pton, IDNA): addresses are bytes with a family tag; a packet whose address does not parse has none.
- Allocation failure and freeing: allocation succeeds, released memory is a null or empty buffer.
- Overflow of statistics counters and of time: naturals. Sequence numbers, 16-bit lengths and byte values keep their width.
- Packet statistics (`PacketStats`): the fragment and flow results are modelled, their tallies are not.
- Summary strings of the decoders, and what a failed decode leaves in the caller's structure: metadata is a value that comes with the verdict. Text fields of TLS and HTTP are the bytes up to the copied length; of a host name, those before a NUL.
- Decoding of a single packet by itself (`app_decode_packet`, and `app_decode_buffer` with a preferred protocol): in the capture step it is a parameter, the metadata such a decode yielded, if any. Segmentation independence is claimed for stream decoding only, since this path can classify a flow from the middle of a stream.
- UDP flows: keys of UDP packets are modelled, but only TCP packets reach the flow table's steps.
- Ipv4Table.FragmentTable.Process: the table is a sequence of datagram objects, not an array of structures moved by memmove; the shape of each datagram, its range array and its growing data array are in place.
- TcpReassembly.ReassemblyDirection.ProcessSegment: the embedded pending store and stream buffer are objects of their own rather than members of one structure.
- FlowStore.FlowTable.CapturePacket: the array holds references to flow objects instead of structures, so memmove moves references; unused slots hold a placeholder.
- TcpCoverage.MaximalContiguousCoverage: requires `Comparable`, without which `TcpSplice.MissedOutsideTheWindow` refutes it for direct calls.
- TcpTruncation.StreamIsWhatIsCovered: of segments that wait it requires that they end inside the buffer, since one that does not poisons the direction when its turn comes.
- TcpRoom.NothingIsDroppedExactly: requires the half window `TcpStream.Plausible` of all segments, since an old one that is taken for a future one costs a slot.
- TlsRoundTrip.ClientHelloRoundTrip: protocol names without NUL, at which the original's text ends.
- TcpSplice.NoSplice: requires `Unambiguous`, without which `TcpSplice.SpliceOutsideTheWindow` refutes it.
- Ipv4Order.ArrivalOrderDoesNotMatter: requires of each fragment that it finds a slot and bytes when it arrives, since other datagrams share both.
