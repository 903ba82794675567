# The Scapy engine in Dafny

This project models the hard parts of the packet engine in `scapy/`, and the one real parser of
`ai_pcap_analyst/`, and proves what they are for: that builders and dissectors undo each other, that
streams come out the same however they were cut, that questions and answers are matched without losing a
packet, that caches tell the truth, that concurrent threads do not meet an empty queue, and that printed
addresses are canonical and read back.

`dafny verify dfyconfig.toml` checks everything.

## What is where

* **Wire codecs.** `Bits`, `BitField`, `BitGroups` and `BitLayouts` follow a partial byte from field to
  field, in both byte orders: `addfield` and `getfield` are loops over bytes, specified by bit strings, and a
  group of fields comes back from the wire exactly when its two byte-reversal marks are balanced. `ByteOrder`
  says which numbers are on the wire, lowest or highest byte first.
  `ExtendedField`, `StrNullField`, `ByteNumbers` and `ContainerFields` are the codecs that find their own end,
  and the fields made from other fields.
* **Streams.** `StringBuffer` is the reassembly buffer, shown to be a sparse map from sequence numbers to
  bytes. `TcpSession` is the message framer of application mode on top of it.
* **Matching.** `SentTable` is the hash-bucketed table of packets awaiting an answer, `SndRcv` the sender, the
  receiver and the retry loop as atomic steps in any order, `SndRcvHandler` the object they share. `SndRcvScan`
  takes the receiver's search apart into small steps and shows that each search still acts as one, and
  `SndRcvRetry` says when the loop gives up and what it sends again. `PacketListSr` is the matcher that deletes
  from a list while it scans it, and `PacketListGreedy` says which pairs it makes.
* **Packets.** `FieldsDesc` is a layer's list of fields, whose presence and layout may depend on the fields
  before them. `PacketCache` is the cache of the bytes a packet was dissected from, and `Packet` the object
  with its shared, mutable field values. `Layers` is the search that threads a counter through the layers, and
  `LayerOrder` says which layers it meets, and in which order.
* **Concurrency and time.** `ObjectPipe` is a queue beside an OS pipe, under every interleaving of any number
  of threads. `Timers` are the countdown timers of an automaton.
* **Small algorithms.** `Inet6Groups`, `Inet6` and `Inet6Text` print and read IPv6 addresses, and
  `Inet6Grammar` says which texts are read, and as what. `Oid` counts through ranges. `Route` chooses from the
  routing table, `RouteMemo` answers through its memo, `RouteTable` is the table in place, and `RouteMeaning`
  tells what all of that means for the rows' own fields. `AsPath` walks a raw BGP AS_PATH.

Code that changes state in the original is a class or a method with loops here. Each such method is tied to a
function of the old state, and the theorems are about those functions: over every run of operations, every
interleaving, every input. What the functions compute is told a second time without them, by positions, sums
of digits, places in a tree, the last operation on a field, and the like. `Bytes` holds the shared types; `Err` and `None` stand for exceptions.

Some promises hold only under a condition. Where one does, the condition is proved exact, in both directions,
or there is a concrete input that breaks the promise without it:

* little-endian bit-field groups survive exactly when their marks agree and cover the group or nothing
  (`BitGroups.MarksExact`), and the documented declaration does exactly when its first and last field do not
  fill two or more bytes of their own (`BitLayouts.LittleEndianExactly`): 16 + 8 bits with a total of 3 do not;
* segments can arrive in any order exactly when they agree where they overlap
  (`StringBuffers.OrderMattersExactly`), and data without a sequence number lands at the end of the buffer
  exactly when the offset is -1, or 0 with an empty buffer (`StringBuffers.AppendsAtEndExactly`);
* `sr` leaves no question with its answer exactly when the lookahead reaches from the first packet to the last
  (`PacketListSr.MaximalExactly`);
* the counters of `SndRcvHandler` stop the sniffer too early, or not at all, under exact conditions on
  `noans`, `notans` and the packets lost (`SndRcv.StopsExactly`), never too early if the first round was not cut
  short, and with a run that shows it otherwise (`SndRcv.CutRoundStopsNextRound`);
* after a dissection that raises over the bytes of an earlier one, the old bytes are built, rightly exactly when
  each value they hold is the one read anew or, if the dissection did not reach that field, the one set before
  (`PacketCache.FailedDissectionExactly`, `PacketCache.FailedDissectionShows`);
* a peek at an `ObjectPipe` fails exactly when, since its test, as many objects were taken as the queue held
  and was given (`ObjectPipes.PeekFailsExactly`, with `ObjectPipes.PeekCanFail`); the read of `clear` waits exactly
  when, since its test, each object has been taken or belongs to a thread in the middle of a call
  (`ObjectPipes.ClearWaitsExactly`, with `ObjectPipes.ClearCanWait`);
* `recv` of an application-mode session yields all messages exactly when there is at most one
  (`TcpSessions.YieldsAllExactly`, with `TcpSessions.SecondMessageStays`), so over a run the messages delivered lag
  behind those that have arrived by an exact amount (`TcpSessions.DeliveryLags`);
* sleeping until the next running timer is right exactly when no periodic timer is behind
  (`Timers.UntilNextExactly`), and reloads count periods exactly when no step ends two of them
  (`Timers.CountsPeriodsExactly`);
* the routing memo can be trusted exactly when no source address is passed on through two gateways
  (`RouteMemo.MemoExactly`, with `RouteMemo.ChainMisleads`).

Where code and documentation differ, the code is followed. The documentation of `TCPSession` says that the
buffer is discarded when a packet is returned; the code keeps the bytes of the packet's padding, and so does
the model. The loop of its `recv` goes on after a message because there might be more, but by then it has cleared
the class it would need, and ends. `PacketList.sr` documents its lookahead as the number of packets between
query and answer; in the code the answer is at most that many places further on, so there is one packet less
between them. The reader of IPv6 text takes some texts that are no addresses: a single colon at an end, or no
text at all, stands for zeros like "::", and a group may have more than four digits if their number is even.

Modelling choices. Bit operations on disjoint bits (`|` after a shift) are additions; shifts and masks are
division and remainder by powers of two. Dictionaries that are iterated are lists of entries in insertion
order. 32-bit numbers of the routing table are bit strings, most significant bit first. Times are real
numbers. `answers` and `hashret`, `tcp_reassemble`, the codec of a single field, `inet_aton`, and the reading of
destination text are parameters; what is assumed of them stands in the `requires` of the theorems that need it.

## Model

| member | source | states |
|---|---|---|
| BitFields.EmitBytes | scapy/fields.py:2395-2398 | the loop that emits high bytes keeps all bits in order, ends with fewer than eight, and keeps the carry below 2^bitsdone |
| BitFields.ShiftIn | scapy/fields.py:2392-2394 | the value, masked to its size, follows the carried bits |
| BitFields.Addfield | scapy/fields.py:2380-2405 | the builder appends exactly the field's bits, and reverses the last bytes when it ends a marked group on a byte boundary |
| BitFields.AddField | scapy/fields.py:2380-2405 | the new state has size more bits, a carry below 2^bitsdone, and when no reversal applies its bits are the old ones followed by the field's |
| BitFields.ReadNumber | scapy/fields.py:2424-2429 | the bytes taken are one big-endian number |
| BitFields.ReadValue | scapy/fields.py:2420-2435 | mask and shift leave exactly the field's bits, whatever bits were used up before it |
| BitFields.Getfield | scapy/fields.py:2407-2444 | the dissector reads the leading bits, after the reversal a marked group asks for, and fails exactly when bits are missing |
| BitFields.GetField | scapy/fields.py:2407-2444 | succeeds exactly when enough bits are left |
| BitGroups.PlainBuild | scapy/fields.py:2380-2405 | folding the builder over any fields without effective marks lays out all masked values, bit after bit, behind what was there |
| BitGroups.PlainDissect | scapy/fields.py:2407-2444 | folding the dissector over the fields reads their values off any bits, and leaves the rest |
| BitGroups.GroupBuild | scapy/fields.py:2380-2405 | a marked group is built as its plain layout with the last bytes reversed by its end mark |
| BitGroups.GroupDissect | scapy/fields.py:2407-2444 | a marked group is read from the input with its first bytes reversed by its start mark |
| BitGroups.BalancedSurvives | scapy/fields.py:2380-2444 | with balanced marks each value comes back modulo 2^size, and the bytes before and after are untouched |
| BitGroups.MarksExact | scapy/fields.py:2360-2444 | a group survives for all values, prefixes and suffixes if and only if its two marks are equal and are 1 or the group's length |
| BitLayouts.LayoutRoundTrips | scapy/fields.py:2380-2444 | several groups, one after the other, come back together |
| BitLayouts.GroupRebuilds | scapy/fields.py:2380-2444 | building what was dissected gives the same bytes |
| BitLayouts.BigEndianRoundTrips | scapy/fields.py:2360-2444 | ordinary fields that sum to whole bytes always come back |
| BitLayouts.LittleEndianRoundTrips | scapy/fields.py:2319-2376 | the documented declaration, total on the first field and end total on the last, comes back when neither field fills two or more bytes of its own |
| BitLayouts.LittleEndianExactly | scapy/fields.py:2319-2405 | and only then: the size of such a field is taken as its other total, and turns its bytes around |
| ByteOrder.NegativeSizeIsLittleEndian | scapy/fields.py:2319-2444 | a field of size -8k puts the k bytes of its value, lowest first, behind whatever was built, and reads any k bytes that way; its value comes back modulo 256^k |
| ByteOrder.PositiveSizeIsBigEndian | scapy/fields.py:2360-2444 | a field of size 8k does the same with the highest byte first, whatever its totals |
| ByteOrder.GroupOnWire | scapy/fields.py:2337-2405 | the documented little-endian group is on the wire as the number of its values, each behind the one before it, lowest byte first |
| ByteOrder.PlainIsBigEndian | scapy/fields.py:2327-2405 | without reversals it is that number with the highest byte first |
| ExtendedField.Addfield | scapy/fields.py:3959-3973 | the loop appends the 7-bit digits, least significant first, with the extension bit on all but the last |
| ExtendedField.Getfield | scapy/fields.py:3975-3990 | the loop reads digits up to the first byte without the extension bit, or to the end of the bytes |
| ExtendedField.RoundTrips | scapy/fields.py:3959-3990 | every natural number comes back, at both positions, and any suffix is untouched |
| ExtendedField.EncodedLength | scapy/fields.py:3959-3973 | the encoding has at most n bytes if and only if the number is below 128^n |
| ExtendedField.RebuildsExactly | scapy/fields.py:3959-3990 | building what was read gives the same bytes if and only if the field ended and its last digit was not a useless zero |
| ExtendedField.Unterminated | scapy/fields.py:3981-3990 | when every byte announces another, all are read, without an error |
| ExtendedField.EncodedByte | scapy/fields.py:3959-3973 | byte i holds v / 128^i % 128, and the extension bit on top or at the bottom on all bytes but the last |
| ExtendedField.DecodedSum | scapy/fields.py:3975-3990 | any bytes are read up to the first without the extension bit, or to the end, and the value is the sum of their digits times powers of 128 |
| StrNullField.Find | scapy/fields.py:2229 | the first occurrence of the delimiter from an index on, aligned or not |
| StrNullField.Getfield | scapy/fields.py:2221-2240 | the search loop ends; the value is what stands before the first aligned delimiter and what follows it remains, or, when there is none, the value is all the bytes and nothing remains |
| StrNullField.NothingLost | scapy/fields.py:2221-2240 | value, delimiter and rest together are all the bytes, or there is no delimiter and the value is |
| StrNullField.RoundTripsExactly | scapy/fields.py:2217-2240 | a value comes back, whatever follows, if and only if it fills whole delimiter lengths and holds no aligned delimiter |
| ContainerFields.NumberToBytes | scapy/fields.py:1125-1132 | the loop writes the big-endian bytes of any integer, negative ones included |
| ContainerFields.BytesToNumber | scapy/fields.py:1134-1141 | the weighted sum is the big-endian number |
| ByteNumbers.NumberOfBytes | scapy/fields.py:1125-1141 | what is read back differs from what was written by a multiple of 256^sz |
| ByteNumbers.NumberInRange | scapy/fields.py:1125-1157 | a number in range is read back as it is |
| ByteNumbers.BytesOfNumber | scapy/fields.py:1125-1157 | writing the number read gives the same bytes |
| ByteOrder.ByteAt | scapy/fields.py:1125-1132 | the byte at place i from the end is x / 256^i % 256 |
| ContainerFields.PadRoundTripsExactly | scapy/fields.py:637-658 | a padded field comes back, whatever follows, if and only if no padding is needed or the padding is a single byte repeated |
| ContainerFields.PadAligns | scapy/fields.py:637-658 | with single-byte padding the field ends at a multiple of the alignment |
| ContainerFields.PadContent | scapy/fields.py:636-658 | what is added is the filler over and over, once for each byte missing to the next multiple of the alignment |
| ContainerFields.PadDrops | scapy/fields.py:636-647 | reading drops the least number of bytes that reaches a multiple of the alignment, as far as there are any |
| ContainerFields.Getfield | scapy/fields.py:2144-2178 | the loop of a list field reads items until the bytes, the count or the limit run out, the limit being an error; a negative length counts from the end |
| ContainerFields.ListRoundTripsExactly | scapy/fields.py:2133-2178 | a list told its count or its length comes back, whatever follows, if and only if it has no more items than the limit |
| ContainerFields.ListMeans | scapy/fields.py:2144-2178 | of any bytes, up to the length if one is given, the items are read one after the other until no bytes are left or there are as many as asked for, and it fails exactly when one can not be read before that or they are more than the limit |
| StringBuffers.StringBuffer.Append | scapy/sessions.py:106-131 | one append stretches the window to hold the data and writes it, whether it lies before, within or after what is there |
| StringBuffers.StringBuffer.ShiftLeft | scapy/sessions.py:133-136 | drops bytes as the slice does; the length stays right exactly for 0 <= i <= content_len |
| StringBuffers.SliceMeans | scapy/sessions.py:133-136 | from i on the slice drops i bytes, from -i on it keeps the last i |
| StringBuffers.StringBuffer.Clear | scapy/sessions.py:143-145 | back to the empty buffer |
| StringBuffers.AppendTo | scapy/sessions.py:106-131 | the length always fits the content; empty data changes nothing; other data is on top of what was there |
| StringBuffers.IsSparseMap | scapy/sessions.py:99-131 | after any appends each sequence number holds the byte of the last append covering it, or zero, on the smallest window holding them all |
| StringBuffers.OrderDoesNotMatter | scapy/sessions.py:93-131 | segments that agree where they overlap leave the same buffer in any order and any number of times |
| StringBuffers.OrderMattersExactly | scapy/sessions.py:106-131 | all orders of a list of segments leave the same buffer if and only if the segments agree wherever they overlap |
| StringBuffers.AppendsAtEndExactly | scapy/sessions.py:109-113 | data without a sequence number lands at the end, for all data, if and only if the offset is -1, or 0 with an empty buffer |
| StringBuffers.AppendAtEnd | scapy/sessions.py:106-131 | and that remains so after every such append |
| TcpSessions.TCPSession.ProcessApp | scapy/sessions.py:269-299 | one call of application mode, with the class given or else the packet's own: what is returned, what stays in the buffer, and what becomes of the metadata |
| TcpSessions.CallUses | scapy/sessions.py:277-299 | what one call makes of any answer of its class: a message is returned and class and metadata forgotten, bare padding is kept back with both, and exactly the padding stays in the buffer |
| TcpSessions.LaterClassesIgnored | scapy/sessions.py:272-279 | once a call has waited its class is used, whatever class later calls come with |
| TcpSessions.NextMessageNextClass | scapy/sessions.py:272-279 | behind a message the class that comes with the next call is used |
| TcpSessions.OneCall | scapy/sessions.py:269-299 | a call returns the first message of the buffered and new bytes if there is one, and keeps exactly the bytes behind it |
| TcpSessions.ParseResumes | scapy/sessions.py:269-299 | the messages before and after any cut are those of the whole stream |
| TcpSessions.DeliveredThenBuffered | scapy/sessions.py:269-299 | after any calls, the messages delivered, then those in the buffer, are those of all bytes fed in |
| TcpSessions.BufferIsEndOfStream | scapy/sessions.py:269-299 | at every moment the bytes used up followed by the buffer are the bytes fed in |
| TcpSessions.DrainedMeansParsed | scapy/sessions.py:269-299 | once a call returns nothing, the messages delivered are all those of the stream |
| TcpSessions.ChunkingDoesNotMatter | scapy/sessions.py:269-299 | two ways to cut the same stream, once drained, deliver the same messages and leave the same bytes |
| TcpSessions.EmptyCallsDrain | scapy/supersocket.py:528-546 | one call without bytes more than there are bytes in the buffer drains any state, without changing the stream |
| TcpSessions.TCPSession.Recv | scapy/sessions.py:410-422 | the loop of `recv` ends with at most one message, and does no more than its first call of `process` |
| TcpSessions.YieldsAllExactly | scapy/sessions.py:410-422 | a packet received yields all messages that the buffer and it hold if and only if they hold at most one |
| TcpSessions.SecondMessageStays | scapy/sessions.py:410-422 | a packet with two messages of which one is yielded |
| TcpSessions.DeliveryLags | scapy/sessions.py:410-422 | with one call for each packet, the number of messages delivered is the least, over all moments, of those that had arrived by then plus the calls since |
| TcpSessions.LengthPrefixedIsFramer | scapy/sessions.py:186-204 | a reassembler for length-prefixed messages meets the assumption of these theorems |
| TcpSessions.RememberingIsFramer | scapy/sessions.py:186-204 | so does one that keeps the length in the metadata, although its answers depend on them |
| TcpSessions.WholeShowsChunks | scapy/sessions.py:165-176 | a class without `tcp_reassemble` does not: every call is a message of its own |
| SentTable.ScanAgrees | scapy/sendrecv.py:314-336 | a search by hash and a scan of all packets agree if and only if the first packet answered has the answer's hash |
| SentTable.AddRepresents | scapy/sendrecv.py:278-280 | registering a packet appends it to the packets outstanding, in send order |
| SentTable.PickRepresents | scapy/sendrecv.py:320-336 | the bucket's search finds what the scan of all outstanding packets finds among those with the hash, and its deletion keeps bucket and list in step |
| SentTable.PickIsScan | scapy/sendrecv.py:320-336 | when an answer always has its query's hash, the bucket's search picks what a scan in send order picks |
| SndRcv.RunKeeps | scapy/sendrecv.py:172-231 | an invariant of counters, table, positions and rounds, kept by every interleaving of sender, receiver and retry loop |
| SndRcv.EveryRunConserves | scapy/sendrecv.py:172-343 | in every run the packets are, as a multiset, those answered, those unanswered and those a cut-short round dropped; each pair is an answer; `noans` and `nbrecv` count what was answered and received |
| SndRcv.NotansCountsSent | scapy/sendrecv.py:282-305 | over every run the published `notans` is the number of packets of the first round sent without an error, up to the test for a breakout behind each, however the round ended |
| SndRcv.StopsExactly | scapy/sendrecv.py:259-305 | once the first round is sent: the sniffer is told to stop exactly when as many were answered as were sent in it, too early if and only if that is less than the packets not lost, and not although all is answered if and only if it is more; if the first round was not cut short, it is told to stop if and only if all is answered and none was lost |
| SndRcv.NeverStuck | scapy/sendrecv.py:180-231 | while the loop is on, the sender can go on, or the packet in hand be counted, or the round end |
| SndRcv.CutRoundStopsNextRound | scapy/sendrecv.py:284-305 | after a first round cut short by the sniffer, the next can be told to stop while its one packet awaits an answer |
| SndRcv.EveryRunPicksFirstSent | scapy/sendrecv.py:314-336 | in every run an arriving packet is paired with the first outstanding query, in send order, that it answers |
| SndRcv.EveryRunIsBounded | scapy/sendrecv.py:172-231 | whatever the network does there are at most retry + 1 rounds, or, when a negative retry is renewed by progress, at most \|retry\| rounds for each packet and one more |
| SndRcv.ResultsAreComplete | scapy/sendrecv.py:216-257 | when the loop ends, the answers and the unanswered hold every packet if and only if no cut-short round lost one |
| SndRcvRetry.GivesUpExactly | scapy/sendrecv.py:172-231 | after a round the loop is left if and only if nothing remains, or retry + 1 rounds have passed, or for a negative retry as many idle ones as its size since the last that answered some and not all |
| SndRcvRetry.SendsAgainInOrder | scapy/sendrecv.py:216-229 | what is sent again are the packets without an answer, hash by hash in the order in which the hashes came first in this round, those of a hash in the order sent |
| SndRcvScan.EveryRunRefines | scapy/sendrecv.py:314-336 | looking at one entry of the bucket after the other, appending the answer, and deleting the entry, with the sender's appends in between, is the one step of `Match` at the moment the search ends, in every run |
| SndRcvScan.EveryScanConserves | scapy/sendrecv.py:314-336 | in every run of small steps the packets are conserved, the one in hand counting as answered and as in its bucket |
| SndRcvHandlers.SndRcvHandler.Send | scapy/sendrecv.py:268-307 | the sender's steps on the shared fields: register, transmit, look for a breakout, publish `notans`, finish |
| SndRcvHandlers.SndRcvHandler.Receive | scapy/sendrecv.py:314-336 | the loop over the bucket pairs the packet with the first query it answers and deletes that query |
| SndRcvHandlers.SndRcvHandler.CountPacket | scapy/sendrecv.py:329-342 | the counting that follows |
| SndRcvHandlers.SndRcvHandler.Finish | scapy/sendrecv.py:216-231 | the end of a round: what remains is put together, and the retry counter is renewed or used up |
| SndRcvHandlers.SndRcvHandler.Rounds | scapy/sendrecv.py:180-231 | the retry loop ends under every schedule, and where it ends is where some run of the steps leads |
| SndRcvHandlers.SndRcvHandler.constructor | scapy/sendrecv.py:119-178 | the starting state, with a negative retry turned into an automatic one |
| PacketListSr.Scan | scapy/plist.py:761-776 | the inner loop finds the first packet behind the query, within the lookahead, that answers it |
| PacketListSr.Sr | scapy/plist.py:744-779 | the nested loops, deleting from the list they scan, end with the pairs and the rest of the matching |
| PacketListSr.MatchSound | scapy/plist.py:755-779 | every position is in one pair or in the rest, the rest keeps its order, and every pair is an answer behind its query |
| PacketListSr.PacketsConserved | scapy/plist.py:755-779 | the packets paired and left are those given, as often as given |
| PacketListSr.MatchMaximal | scapy/plist.py:758-777 | with a lookahead of one less than the list, nothing left over is answered by a later packet left over |
| PacketListSr.SrGuarantees | scapy/plist.py:744-779 | all of this for what `sr` returns, for every lookahead; no lookahead, or zero, is the length of the list |
| PacketListSr.MaximalExactly | scapy/plist.py:756-763 | every list of n packets, under every `answers`, is matched without such a pair left over if and only if n <= 1 or the lookahead is at least n - 1 |
| PacketListSr.WholeList | scapy/plist.py:758-759 | without a lookahead, or with zero, nothing left over is answered by a later packet left over |
| PacketListGreedy.MatchesFirst | scapy/plist.py:755-779 | for every list and lookahead, the pairs come in the order of their queries, each query takes the first answer among the packets then left, at most `lookahead` places further on, and a packet is left over when none of those answers it at its turn |
| FieldsDesc.BuildDissects | scapy/packet.py:773-789 | what is built dissects to the values it was built from and leaves any suffix, for fields whose presence and layout depend on earlier ones |
| FieldsDesc.DissectPrefix | scapy/packet.py:1078-1100 | dissection takes a prefix, and takes it the same way before any other bytes |
| FieldsDesc.BuildsInOrder | scapy/packet.py:773-789 | what is built is the bytes of the fields in their declared order, each encoded given the values before it, fields that are not there adding nothing |
| FieldsDesc.DissectsInOrder | scapy/packet.py:1078-1100 | dissection reads the fields in that order, each from what the one before it left, up to the end or to the first that raises; the values read by then are set |
| PacketCache.EveryRunHolds | scapy/packet.py:550-590 | over every run the value of a field is what the last operation on it left: what a dissection read, what was assigned, an edit in place, or after a deletion the default |
| PacketCache.EveryRunCaches | scapy/packet.py:550-789 | over every run the bytes of a dissection are kept until an assignment, a deletion or a build that finds a copy to differ, and are what is built exactly while they are kept and no copy differs |
| PacketCache.ApplyKeeps | scapy/packet.py:550-590 | every dissection, assignment, deletion, edit in place and build keeps cache and values coherent, but for a dissection that raises over the bytes of an earlier one |
| PacketCache.BuiltIsCurrent | scapy/packet.py:756-789 | what a coherent packet builds, cached or not, dissects to its current values |
| PacketCache.EveryRunBuildsCurrent | scapy/packet.py:756-789 | after any run of operations what `self_build` returns dissects to the current values, and so does what it would return without the cache, unless bytes from before a dissection that raised are still there: no assignment, deletion, dissection or cache-dropping build since |
| PacketCache.FailedDissectionExactly | scapy/packet.py:1078-1100 | after a dissection that raises over the bytes of an earlier one the old bytes are built, which is right if and only if each value they hold is the one read anew or, where none was read, the one set before |
| PacketCache.FailedDissectionShows | scapy/packet.py:1078-1100 | two one-byte fields and two dissections for which it is not |
| PacketCache.UnchangedBuildsInput | scapy/packet.py:756-771 | a packet that was not changed builds to exactly the bytes it was dissected from |
| Packets.Packet.SetFieldVal | scapy/packet.py:550-571 | an assignment stores the object given and drops the cache |
| Packets.Packet.DelFieldVal | scapy/packet.py:582-590 | a deletion removes the entry, which brings the default back, and drops the cache |
| Packets.Packet.DoDissect | scapy/packet.py:1078-1100 | dissection fills the fields, keeps copies of the values that can change in place, and caches exactly the bytes used; when a field raises, the values before it are set and the cached bytes stay |
| Packets.Packet.CopiesHold | scapy/packet.py:763-770 | the loop tells whether every copy still equals its value |
| Packets.Packet.CheckCache | scapy/packet.py:760-771 | the cache is dropped exactly when a value was changed in place |
| Packets.Packet.BuildFields | scapy/packet.py:772-789 | the loop builds from the values set, or else the defaults |
| Packets.Packet.SelfBuild | scapy/packet.py:756-789 | the cached bytes if they still hold, a fresh build otherwise |
| Layers.GetLayer | scapy/packet.py:1360-1418 | returns the nb-th match of the preorder flattening, or raises when a filter that can not be read is met first; when there is neither, `_track` holds nb less the matches passed |
| Layers.NthMeans | scapy/packet.py:1393-1401 | the nb-th match is found exactly when it is there with only matches before it, and the search raises exactly when a failing test is met first |
| LayerOrder.FieldOfFirst | scapy/packet.py:512-521 | the value of a field is that of the first layer, from the one asked on inwards, that has it, and there is none exactly when no such layer has it |
| LayerOrder.PassesMeans | scapy/packet.py:1394-1396 | the filters pass exactly when every field has the value asked for, and raise exactly when a field is nowhere and all filters before it hold |
| LayerOrder.MeetsInOrder | scapy/packet.py:1360-1418 | the search meets exactly the layers of the class asked for, or of a subclass where a layer on the way asks for that, whose filters hold or raise; each once, a layer before all below it, the packets in its fields in order and before its payload |
| Layers.GetInFields | scapy/packet.py:1403-1416 | the loop over the packets in the fields hands the count from one search to the next |
| Layers.HasLayer | scapy/packet.py:1332-1358 | holds exactly when the first match exists |
| Layers.SplitAt | scapy/packet.py:1403-1418 | the flattening of a list of packets, cut at any of them |
| ObjectPipes.EveryRunKeeps | scapy/automaton.py:198-246 | in every interleaving the queue has an object for each byte in the pipe and each thread about to write or to pop, no pop meets an empty queue, and what was taken followed by the queue is what was appended, in order |
| ObjectPipes.WaitsExactlyWhenEmpty | scapy/automaton.py:218-230 | with no call under way, a receiver has to wait if and only if the queue is empty |
| ObjectPipes.NothingIsStuck | scapy/automaton.py:198-230 | while there is an object, there is a byte to read or a thread able to go on |
| ObjectPipes.PeekCanFail | scapy/automaton.py:221-225 | a peek can find the queue empty between its test and its access |
| ObjectPipes.PeekFailsExactly | scapy/automaton.py:221-225 | it does if and only if at least as many objects were taken since as were there and were added |
| ObjectPipes.ClearCanWait | scapy/automaton.py:236-240 | another thread can take what `clear` saw, whose read then waits in an empty pipe |
| ObjectPipes.ClearWaitsExactly | scapy/automaton.py:236-240 | the read of `clear` waits if and only if each object there at its test or added since has been taken or is in the hands of a thread in the middle of a call; with no such thread, if and only if the queue is empty |
| ObjectPipes.ObjectPipe.Send | scapy/automaton.py:198-204 | appends the object, then a byte |
| ObjectPipes.ObjectPipe.Recv | scapy/automaton.py:226-230 | takes a byte, then the oldest object |
| ObjectPipes.ObjectPipe.PopLeft | scapy/automaton.py:229 | the oldest object; there always is one |
| ObjectPipes.ObjectPipe.Clear | scapy/automaton.py:236-240 | takes an object for each byte, in order, and then waits if and only if some thread is in the middle of a call |
| Timers.Timer.Decrement | scapy/automaton.py:333-344 | one step of a timer: a periodic one keeps the overshoot, a one-shot one stops at zero |
| Timers.NoDrift | scapy/automaton.py:315-344 | after k reloads and any steps of total length T since the reset, the remaining time is (k+1)*timeout - T |
| Timers.ReloadsAreMadeUp | scapy/automaton.py:333-344 | the number of reloads is the least, over all earlier moments, of the periods passed by then plus the steps since: none is early, none is lost, one is made up per step |
| Timers.CountsPeriodsExactly | scapy/automaton.py:333-344 | the reloads equal the elapsed periods, rounded down, all along if and only if no step ends two periods |
| Timers.ShortStepsCount | scapy/automaton.py:333-344 | steps no longer than the timeout are such steps |
| Timers.PeriodsIsFloor | scapy/automaton.py:333-344 | the elapsed periods are the quotient of elapsed time and timeout, rounded down |
| Timers.OneShotFiresOnce | scapy/automaton.py:333-344 | a one-shot timer fires at the first step that reaches the timeout and at no other |
| Timers.ReportsWhatFired | scapy/automaton.py:321-323 | a collection reports a timer exactly when it fired since the one before |
| Timers.OneShotReportedOnce | scapy/automaton.py:386-392 | a one-shot timer is reported at most once after its reset |
| Timers.ReportOrder | scapy/automaton.py:386-392 | a collection reports exactly the marked timers, each once, highest priority first, equal ones in list order |
| Timers.TimerList.Expired | scapy/automaton.py:386-392 | returns the timers of that order and clears all marks |
| Timers.TimerList.Decrement | scapy/automaton.py:381-384 | every timer is decremented once for each time it was added |
| Timers.TimerList.Reset | scapy/automaton.py:376-379 | every timer is restarted |
| Timers.TimerList.UntilNext | scapy/automaton.py:394-399 | the least remaining time among running timers, or none |
| Timers.UntilNextExactly | scapy/automaton.py:394-399 | it tells exactly which steps make some timer fire if and only if no unexpired timer is at or below zero |
| Timers.EveryRunForetells | scapy/automaton.py:315-399 | and so at every moment after the timers were created or reset |
| Oid.Iter | scapy/base_classes.py:339-353 | the nested loops end, and the n-th combination yielded is the one of mixed-radix number n, up to the product of the sizes |
| Oid.EveryCombinationOnce | scapy/base_classes.py:339-357 | every combination is yielded once, in order, the first component running fastest |
| Oid.RankInjective | scapy/base_classes.py:339-353 | different combinations have different numbers |
| Oid.RankOrders | scapy/base_classes.py:339-353 | the numbers follow the order of the combinations |
| Oid.RankBounds | scapy/base_classes.py:355-357 | every number is below the number of yields that `__iterlen__` gives |
| Oid.InvertedRangeCountsOnce | scapy/base_classes.py:355-357 | an inverted range counts once, and no ranges at all give one combination |
| RouteTables.RouteTable.Lookup | scapy/route.py:168-228 | one lookup: memo, rows that apply, choice, source of the gateway, and what the memo then holds |
| RouteTables.RouteTable.IfAdd | scapy/route.py:159-166 | empties the memo, and appends the interface's network unless its address can not be read |
| RouteTables.RouteTable.IfDel | scapy/route.py:149-157 | empties the memo and removes exactly the rows of the interface |
| RouteTables.RouteTable.IfChange | scapy/route.py:131-147 | empties the memo and changes exactly the rows of the interface, directly connected ones with their network |
| Routes.MaskIsPrefix | scapy/utils.py:819-821 | agreeing under the mask of a prefix length is agreeing on that many leading bits |
| Routes.MaskOrder | scapy/utils.py:819-821 | the longer prefix has the greater mask |
| Routes.ChoosesLongestMatch | scapy/route.py:199-222 | of all rows that apply, as networks or as the destination's own address, the one with the greatest mask is chosen, then the least metric, then the earliest |
| Routes.LongestPrefixWins | scapy/route.py:199-222 | a lookup that does not find the destination's own address answers from a network that holds it, and no usable row shares a longer prefix with it (longest match, section 5.2.4.3 of RFC 1812) |
| Routes.NoAnswer | scapy/route.py:198-217 | a lookup fails exactly when text can not be read, and finds nothing exactly when no row applies |
| RouteMemo.LookupTruthful | scapy/route.py:187-228 | one lookup through a coherent memo answers as the table does and keeps the memo coherent |
| RouteMemo.EveryRunTruthful | scapy/route.py:131-228 | over every run of lookups and interface changes, each answer is that of the table of the moment |
| RouteMemo.MemoExactly | scapy/route.py:187-228 | all sequences of lookups are answered truthfully if and only if no source is passed on through two gateways |
| RouteMemo.ChainMisleads | scapy/route.py:223-228 | a table of three rows and two lookups for which the memo gives the wrong source |
| RouteMemo.SourcedRunsTruthful | scapy/route.py:131-228 | with a source in every row, every run is truthful, interface changes included |
| RouteMeaning.AnswersBest | scapy/route.py:199-222 | the answer is that of a row in use whose network agrees with the destination on every bit of its mask, or the loopback interface for a row's own address, which counts as a full mask with metric 1: the greatest mask, then the least metric, then the earliest row |
| RouteMeaning.NoRouteAnswer | scapy/route.py:213-217 | when no row applies the device asked for, or loopback, is answered with 0.0.0.0 twice |
| RouteMeaning.SourceOfGateway | scapy/route.py:223-228 | interface and gateway are those of the row, and so is the source, unless it is 0.0.0.0; then it is the source that a lookup of the gateway gives |
| RouteMeaning.NoDestination | scapy/route.py:181 | no destination, or an empty one, is looked up as 0.0.0.0 |
| RouteMeaning.IfChangeMeans | scapy/route.py:131-147 | the rows of the interface take the address; those without a gateway take its network, the others keep theirs; rows of other interfaces stay |
| RouteMeaning.IfAddMeans | scapy/route.py:159-166 | one row more, without a gateway, with metric 1, for the network of the address |
| RouteMeaning.IfDelMeans | scapy/route.py:149-157 | exactly the rows of other interfaces are left, in their order |
| RouteMeaning.MaskIsShift | scapy/utils.py:819-821 | the mask of a prefix, past 32 too, is thirty-two ones with as many zeros behind them shifted right by its length |
| RouteMeaning.NetworkHolds | scapy/utils.py:819-821 | such a network holds exactly the addresses that share the prefix |
| Inet6Groups.GroupBack | scapy/pton_ntop.py:107-112 | a printed group has no leading zeros and, padded, reads back as its two bytes |
| Inet6.FindsRuns | scapy/pton_ntop.py:21 | the matches of the regular expression are exactly the runs of two or more zero groups, left to right |
| Inet6Text.PrintsCanonical | scapy/pton_ntop.py:100-124 | no leading zeros, a single zero group is not compressed, and the leftmost longest run is written "::" (sections 4.1, 4.2.2 and 4.2.3 of RFC 5952) |
| Inet6Text.Inet6Pton | scapy/pton_ntop.py:25-74 | the loop over the parts, with the place of "::", reads what the recursive reading does, and any result has 16 bytes |
| Inet6Text.RoundTrip | scapy/pton_ntop.py:25-124 | every address of 16 bytes is read back from its printed form |
| Inet6Text.PrintsSixteen | scapy/pton_ntop.py:100-105 | anything but sixteen bytes is refused |
| Inet6Grammar.PrintsSmallLetters | scapy/pton_ntop.py:107-112 | printed groups have small letters (section 4.3 of RFC 5952) |
| Inet6Grammar.DigitsListed | scapy/pton_ntop.py:58-65 | the value of a digit is its place among "0123456789abcdef", capitals alike, and no other character is a digit |
| Inet6Grammar.GroupMeans | scapy/pton_ntop.py:58-65 | a group is read as two bytes, or half as many as it has digits if they are more than four, whose number is the sum of its digits times powers of sixteen; it fails exactly when a character is no digit or more than four are odd in number |
| Inet6Grammar.PtonExactly | scapy/pton_ntop.py:25-74 | a text is read as an address if and only if it is spelled as groups around at most one gap, the last possibly dotted with three dots, that make sixteen bytes, or fewer with a gap, which zeros fill up |
| AsPath.Walk | ai_pcap_analyst/bgp_hijack.py:126-142 | on every byte string the walk ends, without reading past the end, with the last number of the last non-empty AS_SEQUENCE of the segments the bytes hold, or 0 |
| AsPath.OriginMeans | ai_pcap_analyst/bgp_hijack.py:126-142 | that origin is the last number of the last segment of type 2 with numbers, and 0 without one (section 4.3 of RFC 4271) |
| AsPath.HoldsUniquely | ai_pcap_analyst/bgp_hijack.py:127-142 | there is only one way to read bytes as segments of four-byte numbers and an incomplete tail (section 4.3 of RFC 4271, section 4.1 of RFC 6793) |
| AsPath.Advance | ai_pcap_analyst/bgp_hijack.py:131-141 | one complete segment further, and its last number is where the walk reads it |

## Left out

* I/O plumbing: sockets, sniffing, `select`, threads as such, Windows events, timeouts, files and
  subprocesses. Only the atomic steps they perform on shared state are modelled.
* Network clients and foreign libraries (`ForwardMachine`, TLS, certificates, RPKI requests, language models,
  exports), statistics in floating point, and threshold scoring: nothing exact to state.
* ASN.1 and CBOR packets, display code, metaclasses and configuration hooks.
* The branch of `TCPSession.process` outside application mode, which rests on IP defragmentation.
* `Route.add` and `Route.delt`: without a device they look a route up between emptying the memo and changing
  the table, so an old answer can stay in the memo. `Route6`, `resync` and the text of `*` and `-`
  destinations, which one parameter turns into a number.
- SndRcv.EveryRunConserves: flooding, `multi`, `first`, a bare packet instead of a list, and exceptions from `hashret` or `answers` are not modelled.
- ContainerFields.Getfield: lists of bit fields that end inside a byte are not modelled.
- PacketCache.EveryRunBuildsCurrent: packet-valued fields, whose copies are shallow, payloads, `RawVal` values, overloaded fields and `MayEnd` are not modelled; conditions of fields read the values dissected before them only.
- Layers.GetLayer: a class given as text with a field ("Class.field") is not modelled; the search in fields and payload drops the field name. Overloaded and deprecated field names are not either.
- PacketListSr.Sr: `multi` is not modelled, where packets are marked and filtered instead of deleted.
- BitGroups.MarksExact: groups with effective marks on byte boundaries inside the group are not covered.
- ExtendedField.Addfield: negative numbers, for which the loop of the source does not end, are excluded.
- StrNullField.Getfield: the UTF-16 variant's decoding of the bytes found is not modelled, only where they end.
- ContainerFields.PadRoundTripsExactly: the reversed padding of `ReversePadField` is not modelled.
- Layers.HasLayer: takes a query without filters, since `haslayer` has none.
- ObjectPipes.EveryRunKeeps: closing the pipe, and waiting with `select`, are not modelled.
- ObjectPipes.ObjectPipe.Clear: the other threads stay where they are while it runs; `ClearWaitsExactly` is about those that move.
- Timers.NoDrift: rounding of floating-point times is not modelled, nor a change of the timeout between reset and expiry.
- Oid.Iter: yields the numbers; putting them into the text of the identifier, and parsing it, are not modelled.
- Inet6Text.RoundTrip: the IPv4 tail is read by a parameter, and the `$` of the expression is the end of the text, since printed addresses hold no newline.
- AsPath.Walk: the search for the attribute in the update, and the reading of prefixes, are not modelled.
