# Peppamon Cisco telemetry collector: a verified model

The collector receives streaming telemetry from Cisco IOS-XE devices over gRPC. Each message is an
envelope whose data bytes carry a recursive protocol-buffer message. The collector decodes it, keeps a
cache of Prometheus metrics per node and YANG path, and writes inventory reports into database tables.
This project models the four parts of that program that are hard to get right and proves what they
promise.

**The protocol-buffer codec.** `Wire`, `Skipping`, `Messages`, `Codec` and `Encoding` define, on
sequences of bytes, what the generated code computes: base-128 varints cut off at 64 bits, zigzag, tags,
length-delimited fields, groups, the skipper of unknown fields, and the decoder and encoder of the five
message types. A run-time panic of the Go code is the outcome `Err(OutOfRange)`. `Buffers`,
`FieldMessage`, `DialoutMessage` and `TelemetryMessage` are the imperative code itself: loops over an
`array<byte>` with offsets, and classes with `Size`, `MarshalTo` and `Unmarshal`, each proved equal to
the definition on sequences. `RoundTrip`, `LastOneWins`, `Acceptance` and `Totality` hold the theorems
about whole messages.

**Reconciliation.** `FoundIndexes`, `MetaTables` and `Reconciliation` model how a persist brings a
database table in line with a report: it fetches the node's rows, collects the indexes of the reported
ones in report order, deletes those that a binary search does not find, and upserts the report. One
class, generic in the key, stands for the five tables.

**The metric cache.** `MetricCache` is a step system: streams that replace and remove groups under the
lock, handler goroutines that append at any time, scrapes that hold the lock. Its theorems are about
every run. `CollectorCache` and `DialoutServer` are the objects and the receive loop as they are
written, each method tied to the steps it takes.

**The hardware walk.** `HardwareObjects` builds the objects of a hardware message from its fields.
`HardwareWalk` models the recursive walk over the message, the two unbuffered channels it sends on, and
the goroutines that drain them, under every schedule. `InventoryUpdate` carries its result into the
inventory table. `Natives` is the conversion of field values that the walk and the cache share.

## What the proofs found

* The skipper can succeed with a negative count: a declared length near 2^63 wraps the index around.
  `Skipping.SkipProgress` says exactly when, `Skipping.SkipCanGoBackwards` gives ten bytes that do it.
* The decoder itself panics on such a length. `Totality.DecodePanicsIff` says exactly on which bytes,
  for nested messages and fields inside groups too, and `Totality.LargestLengthPanics` gives ten.
* The skipper does not compare the field numbers of the start and the end of a group
  (`Skipping.GroupNumbersMayDiffer`); the grammar `Skipping.WellFormed` does not ask for it either.
* A oneof holding nil bytes is not written at all (`Acceptance.NilBytesNotWritten`).
  `RoundTrip.NormIsIdentity` says that exactly the trees
  without one come back unchanged.
* The list that the sanitize step searches need not be sorted. Then reported rows are deleted as well
  (`FoundIndexes.UnsortedDeletesReported`); the deletes are exactly the unreported rows if and only if the
  search finds every index in the list (`FoundIndexes.DeletesExactlyIffAllFound`), which for a report
  without repeated keys means that the list ascends (`FoundIndexes.DeletesExactlyIffAscending`). The upserts bring the others back, so the
  table is right in the end (`Reconciliation.MetaTable.Persist`), because every column outside the key
  is in the SET list (`MetaTables.UpdateIsInsertIffComplete`).
* A sanitize step compares keys without the device. An entry about another device therefore shields a
  row of the node (`Reconciliation.ForeignEntryKeepsRow`), and an inventory child named `node` can make
  such an entry (`HardwareObjects.NodeKeptIff`). A persist replaces the node's rows if and only if every row
  it keeps, in the order the rows were fetched, is reported for the node (`Reconciliation.ReplacesIff`).
  For a report without repeated keys it does so in every fetch order if and only if the report covers
  the node's rows (`Reconciliation.ReplacesInEveryOrderIff`).
* When a connection fails only the source of the stream's last message is removed from the cache.
  Earlier sources of the same stream stay (`MetricCache.DisconnectLeavesEarlierSource`,
  `DialoutServer.StreamAlone`); `MetricCache.DisconnectLeavesIff` says exactly when, for every run.
* A disconnect can remove a group that another, still connected stream put under the source
  (`MetricCache.DisconnectRemovesAnother`), exactly when what is cached there is not its own
  (`MetricCache.DisconnectSparesOthersIff`).
* A message with an unsupported path ends its stream but leaves its empty group in the cache
  (`MetricCache.OneMessageRun`, `DialoutServer.StreamAlone`).
* Inventory and system objects can make the database layer panic: a child named `timestamps` may replace
  the time by a string, the flag may be of any type, and a system time that is missing stays an `int`
  (`HardwareObjects.PersistableIff` and `HardwareObjects.SystemPersistableIff` say exactly when,
  `HardwareWalk.TimeAsTextPanics` and `HardwareWalk.MissingTimePanics` give objects).

## Model

| member | source | states |
|---|---|---|
| `Wire.VarintRoundTrip` | proto/telemetry/telemetry.pb.go:1110-1118 | for every uint64 and any bytes behind it, reading an encoded varint gives the value back and stops exactly behind it, within ten bytes |
| `Wire.VarintPrefixFree` | proto/telemetry/telemetry.pb.go:1110-1118 | no varint encoding is a proper prefix of another |
| `Wire.VarintMinimal` | proto/telemetry/telemetry.pb.go:1325-1334 | no byte string that decodes to a value is shorter than the encoding of that value |
| `Wire.VarintPrefix` | proto/telemetry/telemetry.pb.go:1343-1357 | bytes behind a varint do not change what is read |
| `Wire.OrShiftIsSum` | proto/telemetry/telemetry.pb.go:1343-1357 | or-ing a shifted number into an accumulator with no bit there, on words of any width, is adding it, cut off at the same width |
| `Buffers.OrShiftedIsSum` | proto/telemetry/telemetry.pb.go:1353 | so one turn of the 64-bit loop adds seven bits, cut off at 64 |
| `Wire.OrShifted32IsSum` | proto/telemetry/telemetry.pb.go:1786 | and one turn of a 32-bit loop adds them cut off at 32, however far they are shifted |
| `Wire.Loop32IsLowBits` | proto/telemetry/telemetry.pb.go:1772-1791 | the loop that accumulates into 32 bits gives the low 32 bits of what the 64-bit loop gives |
| `Wire.XorSign` | proto/telemetry/telemetry.pb.go:1019-1026 | exclusive or with all zeros changes nothing, with all ones it is the complement, on words of any width |
| `Wire.ZigZagMeaning` | proto/telemetry/telemetry.pb.go:1015-1028 | the shift-and-xor expressions of both widths number the integers 0, -1, 1, -2, ... |
| `Wire.UnZigZagMeaning` | proto/telemetry/telemetry.pb.go:1831-1852 | the decoder's shift-and-xor expressions halve, an odd number giving a negative one |
| `Wire.ZigZag32Inverse` | proto/telemetry/telemetry.pb.go:1816-1832 | the decoder undoes 32-bit zigzag for every int32 |
| `Wire.UnZigZag32Inverse` | proto/telemetry/telemetry.pb.go:1816-1832 | every uint32 is the zigzag of what it decodes to |
| `Wire.ZigZag64Inverse` | proto/telemetry/telemetry.pb.go:1837-1853 | the decoder undoes 64-bit zigzag for every int64 |
| `Wire.UnZigZag64Inverse` | proto/telemetry/telemetry.pb.go:1837-1853 | every uint64 is the zigzag of what it decodes to |
| `Wire.ZigZagWidthsAgree` | proto/telemetry/telemetry.pb.go:1254-1271 | the 64-bit zigzag used for sizing an int32 is the 32-bit one that is written |
| `Wire.LittleEndianRoundTrip` | proto/telemetry/telemetry.pb.go:1029-1044 | fixed-width bits come back from their little-endian bytes |
| `Skipping.SkipProgress` | proto/telemetry/telemetry.pb.go:2140-2238 | a successful skip moves forward if and only if the declared length does not wrap around |
| `Skipping.SkipCanGoBackwards` | proto/telemetry/telemetry.pb.go:2178-2198 | ten bytes on which the skipper succeeds with a negative count |
| `Skipping.GroupNumbersMayDiffer` | proto/telemetry/telemetry.pb.go:2199-2227 | a group that starts with field 1 and ends with field 2 is skipped |
| `Skipping.SkipPrefix` | proto/telemetry/telemetry.pb.go:2140-2238 | bytes behind a skipped field do not change how far the skip goes |
| `Skipping.SkipExact` | proto/telemetry/telemetry.pb.go:2140-2238 | on every well-formed field, groups nested to any depth included, the skip is exactly its length |
| `Skipping.SkippedIsField` | proto/telemetry/telemetry.pb.go:2140-2238 | whatever the skipper passes over, unless it is a lone end-group tag, is a well-formed field |
| `Skipping.SkipIffField` | proto/telemetry/telemetry.pb.go:2140-2238 | the skipper answers n if and only if the first n bytes are a well-formed field |
| `Messages.ItemPrefix` | proto/telemetry/telemetry.pb.go:1341-1377 | bytes behind a complete field do not change what the decoding loop finds |
| `Messages.ItemAnywhere` | proto/telemetry/telemetry.pb.go:1341-1377 | the position of a field decides only which error an overrun reports |
| `Codec.MergeLaw` | proto/telemetry/telemetry.pb.go:1338-2139 | decoding a ++ b is decoding b into the result of decoding a, for all five message types |
| `Codec.DecodeAnywhere` | proto/telemetry/telemetry.pb.go:1338-2139 | the position in the slice affects no decoded message |
| `Codec.UnknownIsInvisible` | proto/telemetry/telemetry.pb.go:1907-1919 | a well-formed field with an undeclared number is decoded as if it were not there |
| `Codec.UnknownFieldTransparency` | proto/telemetry/telemetry.pb.go:1907-1919 | such a field may be inserted at any field boundary of a message without changing the result |
| `LastOneWins.DecodeReads` | proto/telemetry/telemetry.pb.go:1338-2139 | last one wins, for all bytes that decode and any message they are decoded into: each scalar and oneof is that of the last record for it and stays as it was without one, each list is continued by one element for each record, in order, and the embedded table by all its records |
| `LastOneWins.NarrowValues` | proto/telemetry/telemetry.pb.go:1751-1832 | a varint of any length gives a boolean by being zero or not, and a 32-bit value by its low bits |
| `Acceptance.DecodesIff` | proto/telemetry/telemetry.pb.go:1338-2238 | the decoder accepts exactly the concatenations of well-formed fields with positive numbers, where declared numbers have their wire types and nested messages decode |
| `Acceptance.FieldsAreRead` | proto/telemetry/telemetry.pb.go:1338-2139 | such fields decode into any message and are read field by field, undeclared ones being passed over |
| `Acceptance.DeclaredIffWritten` | proto/telemetry/telemetry.pb.go:1366-1594 | a number is declared with a wire type exactly when some message of that type writes it |
| `Acceptance.RecordsOrdered` | proto/telemetry/telemetry.pb.go:837-1108 | every message writes its fields in the order of their numbers |
| `Acceptance.NilBytesNotWritten` | proto/telemetry/telemetry.pb.go:971-980 | a oneof that holds nil bytes is written like one that is not set |
| `Encoding.ScanRecord` | proto/telemetry/telemetry.pb.go:1618-1660 | the decoding loop finds in an encoded record its number and its payload, and stops exactly behind it |
| `Encoding.DecodeRecords` | proto/telemetry/telemetry.pb.go:1615-1927 | decoding the bytes of declared records applies them one after the other |
| `RoundTrip.RoundTripField` | proto/telemetry/telemetry.pb.go:933-1044 | a field tree of any depth, encoded and decoded, comes back with nil-bytes oneofs made absent |
| `RoundTrip.RoundTripRow` | proto/telemetry/telemetry.pb.go:1085-1108 | rows come back unchanged |
| `RoundTrip.RoundTripTable` | proto/telemetry/telemetry.pb.go:1055-1073 | tables come back unchanged |
| `RoundTrip.RoundTripTelemetry` | proto/telemetry/telemetry.pb.go:837-921 | a telemetry message with all its parts comes back normalised |
| `RoundTrip.RoundTripDialout` | proto/mdt_grpc_dialout/mdt_grpc_dialout.pb.go:212-235 | the envelope comes back unchanged, for every request id including negative ones |
| `RoundTrip.RoundTripOnto` | proto/telemetry/telemetry.pb.go:827-2139 | for all five message types: decoding an encoded message into any message replaces what it writes, appends to the lists and to the embedded table, and keeps the rest |
| `RoundTrip.FieldOnto` | proto/telemetry/telemetry.pb.go:933-1044 | the same for field trees of any depth |
| `RoundTrip.RoundTripAll` | proto/telemetry/telemetry.pb.go:827-2139 | the same for all five message types, decoded into an empty message |
| `RoundTrip.TwoLayerRoundTrip` | proto/mdt_grpc_dialout/mdt_grpc_dialout.pb.go:212-407 | a telemetry message sent inside an envelope arrives through both layers |
| `RoundTrip.EncodeNorm` | proto/telemetry/telemetry.pb.go:971-980 | normalising a message does not change its bytes |
| `RoundTrip.EncodeInjective` | proto/telemetry/telemetry.pb.go:827-1108 | two messages have the same bytes if and only if they are equal up to normalising |
| `RoundTrip.NormIsIdentity` | proto/telemetry/telemetry.pb.go:971-980 | exactly the trees without a oneof of nil bytes come back unchanged |
| `Totality.SkipPanicsIff` | proto/telemetry/telemetry.pb.go:2140-2238 | the skipper indexes out of range if and only if, field by field, it comes to one inside a group whose declared end does not fit in an int; it reaches the panic behind its loop if and only if there is nothing to skip |
| `Totality.GroupPanicsIff` | proto/telemetry/telemetry.pb.go:2200-2226 | the same from any boundary inside a group |
| `Totality.ItemPanicsIff` | proto/telemetry/telemetry.pb.go:1341-1377 | one turn of a decoding loop panics if and only if its field wraps around and the wrapped index is used |
| `Totality.KindDecides` | proto/telemetry/telemetry.pb.go:1338-2139 | what a message already holds has no say in whether bytes decode into it, or in the error |
| `Totality.DecodePanicsIff` | proto/telemetry/telemetry.pb.go:1338-2238 | for every message and all bytes a slice can hold, decoding, however nested, panics if and only if it comes to a field whose declared end wraps around; it never calls the skipper on nothing |
| `Totality.LargestLengthPanics` | proto/telemetry/telemetry.pb.go:1367-1396 | ten bytes on which the decoder panics |
| `Buffers.EncodeVarintAt` | proto/telemetry/telemetry.pb.go:1110-1118 | the writing loop puts exactly the varint at the offset, touches nothing else and returns the offset behind it |
| `Buffers.Sov` | proto/telemetry/telemetry.pb.go:1325-1334 | the sizing loop gives the length of the varint |
| `Buffers.Soz` | proto/telemetry/telemetry.pb.go:1335-1337 | the length of the varint of the zigzag |
| `Buffers.PutLittleEndian` | proto/telemetry/telemetry.pb.go:1029-1044 | the fixed-width bytes are written at the offset and nothing else changes |
| `Buffers.DecodeVarint` | proto/telemetry/telemetry.pb.go:1343-1357 | the accumulating loop, with its overflow and end-of-input exits, reads exactly a varint |
| `Buffers.Skip` | proto/telemetry/telemetry.pb.go:2140-2238 | the skipping code on a slice computes the specified skip |
| `Buffers.SkipToEndGroup` | proto/telemetry/telemetry.pb.go:2199-2227 | the loop of the group case, with its bounds check one turn late, computes the specified rest of a group |
| `Buffers.NextField` | proto/telemetry/telemetry.pb.go:1341-1377 | one turn of a decoding loop finds the specified field and stays in the slice |
| `Buffers.DecodePayload` | proto/telemetry/telemetry.pb.go:1615-1906 | reading a payload of the declared wire type gives the specified payload, or its error |
| `FieldMessage.SizeValue` | proto/telemetry/telemetry.pb.go:1205-1289 | the size of a oneof is the length of what is written for it |
| `FieldMessage.PutValue` | proto/telemetry/telemetry.pb.go:971-1044 | each of the nine oneof cases writes exactly its record |
| `FieldMessage.TelemetryField.constructor` | proto/telemetry/telemetry.pb.go:1902 | a new field is the empty field |
| `FieldMessage.TelemetryField.Size` | proto/telemetry/telemetry.pb.go:1180-1204 | the size of a tree is exactly the number of bytes written for it |
| `FieldMessage.TelemetryField.MarshalTo` | proto/telemetry/telemetry.pb.go:933-969 | in a buffer with Size() bytes left it never indexes out of range, writes exactly the encoding there, leaves the rest alone and returns the end |
| `FieldMessage.TelemetryField.Marshal` | proto/telemetry/telemetry.pb.go:923-931 | a new buffer of exactly the encoding |
| `FieldMessage.TelemetryField.SetScalar` | proto/telemetry/telemetry.pb.go:1644-1875 | a scalar or oneof case overwrites that field of the message and no other |
| `FieldMessage.TelemetryField.UnmarshalChild` | proto/telemetry/telemetry.pb.go:1902-1906 | a child is appended and decoded from its slice |
| `FieldMessage.TelemetryField.Unmarshal` | proto/telemetry/telemetry.pb.go:1615-1927 | succeeds exactly when the bytes decode, with the same error otherwise, and then holds the decoded message, merged into what it was |
| `DialoutMessage.MdtDialoutArgs.Size` | proto/mdt_grpc_dialout/mdt_grpc_dialout.pb.go:246-264 | the exact size of the envelope |
| `DialoutMessage.MdtDialoutArgs.MarshalTo` | proto/mdt_grpc_dialout/mdt_grpc_dialout.pb.go:212-235 | writes exactly the envelope's encoding and nothing else |
| `DialoutMessage.MdtDialoutArgs.Marshal` | proto/mdt_grpc_dialout/mdt_grpc_dialout.pb.go:202-210 | a new buffer of exactly the encoding |
| `DialoutMessage.MdtDialoutArgs.Unmarshal` | proto/mdt_grpc_dialout/mdt_grpc_dialout.pb.go:279-407 | decodes the envelope as specified |
| `TelemetryMessage.TelemetryRowGPB.Size` | proto/telemetry/telemetry.pb.go:1305-1324 | the exact size of a row |
| `TelemetryMessage.TelemetryRowGPB.MarshalTo` | proto/telemetry/telemetry.pb.go:1085-1108 | writes exactly the row's encoding and nothing else |
| `TelemetryMessage.TelemetryRowGPB.Unmarshal` | proto/telemetry/telemetry.pb.go:2009-2139 | decodes a row as specified |
| `TelemetryMessage.TelemetryGPBTable.Size` | proto/telemetry/telemetry.pb.go:1290-1304 | the exact size of a table |
| `TelemetryMessage.TelemetryGPBTable.MarshalTo` | proto/telemetry/telemetry.pb.go:1055-1073 | writes exactly the table's encoding and nothing else |
| `TelemetryMessage.TelemetryGPBTable.Unmarshal` | proto/telemetry/telemetry.pb.go:1928-2008 | decodes a table as specified, appending its rows to those it has |
| `TelemetryMessage.Telemetry.Size` | proto/telemetry/telemetry.pb.go:1119-1179 | the exact size of a telemetry message |
| `TelemetryMessage.Telemetry.MarshalTo` | proto/telemetry/telemetry.pb.go:837-921 | writes exactly the message's encoding and nothing else |
| `TelemetryMessage.Telemetry.Marshal` | proto/telemetry/telemetry.pb.go:827-835 | a new buffer of exactly the encoding |
| `TelemetryMessage.Telemetry.UnmarshalField` | proto/telemetry/telemetry.pb.go:1511-1541 | a key-value field is appended and decoded from its slice |
| `TelemetryMessage.Telemetry.UnmarshalTable` | proto/telemetry/telemetry.pb.go:1542-1574 | the embedded table is merged into the one that is there, or into a new one |
| `TelemetryMessage.Telemetry.Unmarshal` | proto/telemetry/telemetry.pb.go:1338-1614 | decodes a telemetry message as specified |
| `FoundIndexes.BinarySearch` | metadb/meta_db.go:152-159 | the loop of the binary search gives the specified answer on any list, sorted or not |
| `FoundIndexes.FoundIsMember` | metadb/meta_db.go:152-159 | a hit is always a member; on an ascending list every member is a hit |
| `FoundIndexes.CompleteIffAscending` | metadb/meta_db.go:152-159 | on a list without repetitions every member is found if and only if the list ascends |
| `FoundIndexes.CollectFound` | metadb/bgp_meta.go:330-346 | the nested loops collect the indexes of the matches of each reported key, in report order |
| `FoundIndexes.FoundListDistinct` | metadb/bgp_meta.go:330-346 | distinct rows and distinct reported keys give an index list without repetitions |
| `FoundIndexes.OrderedReportAscends` | metadb/ip_sla_model.go:175-193 | rows fetched in key order and a report ascending in the key give an ascending index list |
| `FoundIndexes.DeletesUnreported` | metadb/bgp_meta.go:348-358 | in any order every unreported row is deleted; when the indexes ascend, nothing else is |
| `FoundIndexes.DeletesExactlyIffAllFound` | metadb/bgp_meta.go:322-361 | for every report, exactly the unreported rows are deleted if and only if the search finds every collected index |
| `FoundIndexes.DeletesExactlyIffAscending` | metadb/bgp_meta.go:322-361 | for a report without repeated keys, that is so if and only if the indexes ascend |
| `FoundIndexes.RepeatedKeyStillFound` | metadb/device_hw_model.go:174-191 | a report that repeats a key: the indexes do not ascend, and all of them are found |
| `FoundIndexes.UnsortedDeletesReported` | metadb/interface_model.go:166-201 | two interfaces reported in the other order: one is deleted although reported |
| `MetaTables.StatementOf` | metadb/bgp_meta.go:111-121 | for all five tables, sanitizing compares exactly the conflict key besides the device, and every other column is in the SET list |
| `MetaTables.UpdateIsInsertIffComplete` | metadb/device_hw_model.go:32-44 | an update equals delete and insert, for all rows, if and only if the SET list names every column |
| `MetaTables.LastEntryWins` | metadb/bgp_meta.go:127-140 | the last report entry of a key decides its row |
| `MetaTables.UpsertAllOverlays` | metadb/bgp_meta.go:127-143 | a batch of upserts leaves the old rows overlaid with the last reported ones |
| `MetaTables.AboutCovers` | metadb/bgp_meta.go:330-346 | a report about the node covers its rows: each row whose key is reported is reported for the node |
| `MetaTables.ReplaceForgets` | metadb/bgp_meta.go:97-140 | a report leaves nothing of an earlier report about the node |
| `MetaTables.ReplaceIsLocal` | metadb/bgp_meta.go:97-140 | the rows of other nodes are untouched |
| `MetaTables.ReplaceMeaning` | metadb/bgp_meta.go:97-143 | after the replacement each reported key has the row of its last entry, the node has no other rows, and those of other nodes are as before |
| `MetaTables.HistoryIndependence` | metadb/bgp_meta.go:97-140 | after any history of reports about any nodes, the rows of each node depend only on the last report about it |
| `Reconciliation.MetaTable.FetchAll` | metadb/bgp_meta.go:167-217 | lists the node's keys, each once, in an arbitrary order |
| `Reconciliation.MetaTable.Delete` | metadb/bgp_meta.go:268-293 | removes one row and says whether there was one |
| `Reconciliation.MetaTable.Sanitize` | metadb/device_hw_model.go:166-206 | deletes exactly the rows that the search does not find, without an error |
| `Reconciliation.MetaTable.SendBatch` | metadb/ip_sla_model.go:55-94 | executes the upserts in the order they were queued |
| `Reconciliation.MetaTable.Persist` | metadb/bgp_meta.go:97-165 | a persist deletes the node's rows that the search does not find in the order fetched, and overlays the rest with the last report entries; that replaces the node's rows if and only if every row kept is reported for the node, and always when the report covers them or is about the node |
| `Reconciliation.ReplacesIff` | metadb/bgp_meta.go:322-361 | for every table, report and fetch order: deleting and upserting is replacing the node's rows if and only if every row whose index the search finds is reported for the node |
| `Reconciliation.CoversKept` | metadb/bgp_meta.go:330-358 | a report that covers the node's rows covers those kept, in every order |
| `Reconciliation.ReplacesInEveryOrderIff` | metadb/bgp_meta.go:97-143 | a report without repeated keys covers the node's rows if and only if a persist replaces them in whatever order the database answers |
| `Reconciliation.ForeignEntryKeepsRow` | metadb/device_hw_model.go:166-206 | in every table an entry about another device shields the node's row with the same key: nothing is deleted and the row stays |
| `Reconciliation.DeletesAllUnreported` | metadb/interface_model.go:166-201 | the deleted rows are the node's own and include all unreported ones |
| `Reconciliation.FetchAllIPSLA` | metadb/ip_sla_model.go:107-148 | lists the node's entries in ascending order |
| `Reconciliation.SanitizeIPSLA` | metadb/ip_sla_model.go:175-207 | no unreported row is left; with a report ascending in the entry number exactly the unreported rows go |
| `MetricCache.InvKept` | main.go:182-303 | every step of every interleaving keeps the invariant of cache, groups, streams and scrapes |
| `MetricCache.ScrapeIsSnapshot` | metrics/collector.go:78-97 | a scrape returns, for exactly the sources live when it took the lock, a prefix of the metrics, message and value, that the append steps of the run make for the group live then, with all those appended before; all from one message for that source |
| `MetricCache.GroupsHoldAppended` | metrics/collector.go:114-124 | in every run a group holds exactly the metrics, message and value, of the append steps for it, in order |
| `MetricCache.HandlersAreDispatched` | main.go:292-299 | in every run the record functions running are exactly those of the supported dispatches, each for the message and group its stream had installed |
| `MetricCache.ScrapesAreRecorded` | metrics/collector.go:78-97 | what a scrape recorded when it took the lock is the state of the run at that moment |
| `MetricCache.StaysGone` | main.go:188-193 | a group that was superseded or removed never comes back |
| `MetricCache.NeverScrapedAgain` | metrics/collector.go:122-124 | appends for a superseded or removed message appear in no scrape that begins later |
| `MetricCache.CacheHoldsLatest` | main.go:223-242 | a source is cached exactly when its last event is an install, and then with the group of that install |
| `MetricCache.GroupsAreSingleMessage` | main.go:223-242 | no group is under two sources, and all its metrics come from the one message it was made for |
| `MetricCache.OneMessageRun` | main.go:223-316 | one message puts an empty group under its source and starts its record function if and only if its path is supported; if not, the stream ends |
| `MetricCache.StandingIsCached` | main.go:182-242 | in every run the cache is exactly the installs with no later event for their source |
| `MetricCache.DisconnectLeavesIff` | main.go:182-199 | in every run a disconnect leaves groups of the stream if and only if an install of its own, under another source than its last, has no later event |
| `MetricCache.DisconnectSparesOthersIff` | main.go:187-193 | in every run a disconnect spares the groups of all other streams if and only if what is cached under its last source, if anything, is its own |
| `MetricCache.DisconnectLeavesEarlierSource` | main.go:182-199 | a stream that reported two sources leaves the first one behind |
| `MetricCache.DisconnectRemovesAnother` | main.go:188-193 | two streams with one source: the first one's disconnect removes the group of the second, which is still connected |
| `Natives.ExtractNative` | metrics/collector.go:128-158 | each native value comes from the oneof case of its type and carries its value, a double unchanged; nothing results exactly for an absent value, or a non-numeric one where a number is asked for |
| `CollectorCache.Collector.constructor` | metrics/collector.go:46-54 | a new collector is the initial state |
| `CollectorCache.Collector.Install` | main.go:234-242 | the locked region takes exactly the replace step and leaves the new group under the source |
| `CollectorCache.Collector.Remove` | main.go:187-193 | the locked region takes exactly the disconnect step |
| `CollectorCache.Collector.CreatePromMetric` | metrics/collector.go:100-125 | appends one metric with the value given to its group, cached or not, and skips what is no float64 |
| `CollectorCache.Collector.Collect` | metrics/collector.go:78-97 | an undisturbed scrape takes the steps of a scrape that reads every source once, and returns all their metrics in that order |
| `DialoutServer.HighObsSrv.MdtDialout` | main.go:152-320 | the receive loop takes exactly the steps of its stream, from decoding to dispatch and removal, and ends with the stated status |
| `DialoutServer.HighObsSrv.Accept` | main.go:228-316 | one message: a new group under its source, and a record function for it and that group if and only if the path is registered |
| `DialoutServer.HighObsSrv.Unmarshal` | main.go:202-225 | a message's data decode as specified, and give its source |
| `DialoutServer.StreamAlone` | main.go:152-320 | a stream can always take its steps; it leaves a group for each source it reported, less only the last one if its connection failed, and has started a record function for exactly the supported messages |
| `DialoutServer.StreamEnds` | main.go:173-318 | a stream runs on while it takes in messages; the first thing it does not take in ends it with the status for that thing |
| `DialoutServer.SourceOfSent` | main.go:223-225 | the source of a telemetry message that was sent is its node, if it names one, and its path |
| `HardwareObjects.OverriddenSnoc` | metrics/hw_inventory.go:157-171 | overwriting entries one after the other gives the last word to each |
| `HardwareObjects.BuildHardware` | metrics/hw_inventory.go:145-172 | an inventory object has the defaults, overridden by the last child that says something about each entry |
| `HardwareObjects.BuildSystem` | metrics/hw_inventory.go:176-214 | a system object has the defaults, overridden by the last child that says something about each entry; only a time that parses is an int64 |
| `HardwareObjects.HardwareEntries` | metrics/hw_inventory.go:145-172 | every entry of an inventory object from the children of its field: last non-empty text or the default, the time of the message, the last flag |
| `HardwareObjects.SystemEntries` | metrics/hw_inventory.go:176-214 | every entry of a system object from the children of its field: the version found in the last version text, the last time that parses |
| `HardwareObjects.PersistableIff` | metadb/device_hw_model.go:50-64 | an inventory object passes the type assertions of the persist if and only if no child overwrites the time and the last flag is a boolean |
| `HardwareWalk.TimeAsTextPanics` | metrics/hw_inventory.go:143-173 | an inventory field for which the walk sends an object that fails them |
| `HardwareObjects.NodeKeptIff` | metrics/hw_inventory.go:145-172 | an inventory object is about the node of its message if and only if the last non-empty string child named node, if any, repeats it |
| `HardwareObjects.SystemPersistableIff` | metadb/device_sys_data_model.go:33-43 | a system object passes the type assertions of its persist if and only if both times are given by a child that parses |
| `HardwareWalk.MissingTimePanics` | metrics/hw_inventory.go:174-215 | a system field without children, for which the walk sends an object that fails them |
| `HardwareWalk.RecursiveHWInfo` | metrics/hw_inventory.go:138-222 | the recursion sends the objects of the strict descendants in pre-order: on one channel those of all inventory fields, on the other those of all system fields |
| `HardwareWalk.SendOne` | metrics/hw_inventory.go:143-216 | what is sent for one field, and on which channel |
| `HardwareWalk.SentObjects` | metrics/hw_inventory.go:143-215 | each channel carries the objects of the fields with its name, all of them and in order |
| `HardwareWalk.BrokenIff` | metrics/hw_inventory.go:184-214 | an object cannot be built exactly when a system field has a version or time child that is no string |
| `HardwareWalk.PreOrderLaws` | metrics/hw_inventory.go:141-221 | the pre-order of a forest is that of its trees in turn, and of a tree its root and then that of its children, whatever the root is called |
| `HardwareWalk.PreOrderIsClosed` | metrics/hw_inventory.go:218-220 | the walk reaches the children of every field it reaches, matching or not |
| `HardwareWalk.InvKept` | metrics/hw_inventory.go:66-112 | every step of every schedule keeps the order of the walk and loses or doubles no object |
| `HardwareWalk.EveryStepCounts` | metrics/hw_inventory.go:66-112 | every step lowers a measure, so no schedule runs on for ever |
| `HardwareWalk.EverySchedule` | metrics/hw_inventory.go:66-112 | every run keeps the invariant and has a bounded length |
| `HardwareWalk.NoDeadlock` | metrics/hw_inventory.go:66-112 | nothing can happen any more if and only if the walk has finished or panicked |
| `HardwareWalk.SlicesArePrefixes` | metrics/hw_inventory.go:79-99 | at every moment each slice is a beginning of its pre-order list |
| `HardwareWalk.WalkOutcome` | metrics/hw_inventory.go:61-112 | under every schedule the walk ends with one slice holding the objects of all inventory fields and the other those of all system fields among the strict descendants, in pre-order, or panics, the latter if and only if some object cannot be built |
| `HardwareWalk.CarriesOn` | metrics/hw_inventory.go:66-112 | every schedule can be carried on until the walk is over |
| `InventoryUpdate.PersistInventory` | metadb/device_hw_model.go:48-64 | the slice of objects is persisted as a report, field by field of each object; an empty slice leaves the table alone |
| `InventoryUpdate.EntryColumns` | metadb/device_hw_model.go:50-64 | every part of the key and every column of the row for an accepted inventory field, from its children |
| `InventoryUpdate.AcceptedReport` | metadb/device_hw_model.go:48-64 | objects that pass the assertions and keep their node make a report about the node, with all columns |
| `InventoryUpdate.InventoryAfterMessage` | metrics/hw_inventory.go:61-122 | whatever the schedule of the walk, persisting its slice leaves in the table exactly the inventory fields of the message, the last one in pre-order for each key, when all objects can be built and are accepted |

## Left out

- FieldMessage.TelemetryField.Unmarshal: after an error it promises a valid message but not which one, because the receive loop drops it; the same holds for the other `Unmarshal` methods.
- FieldMessage.TelemetryField.MarshalTo: assumes an encoding below 2^63 bytes, as Go's lengths do; the same holds for the other encoders and the round trips.
- MetricCache.ScrapeIsSnapshot: the read of one group's slice is a single step; data races on a slice header are not modelled.
- DialoutServer.HighObsSrv.MdtDialout: the loop alone, undisturbed by other streams; the interleavings are those of `MetricCache`, whose steps it takes.
- CollectorCache.Collector.Collect: the scrape alone, undisturbed by appends; the interleavings are those of `MetricCache`.
- Reconciliation.MetaTable.Persist: queries do not fail or time out, persists of one table and node do not interleave, and rows and reports have exactly the table's columns. An empty batch, for which the code reports an error after deleting, is the replacement by nothing.
- HardwareObjects.BuildSystem: asks for string values where the code asserts them; in the step system such a field is a panic.
- HardwareObjects.SystemPersistableIff: a system object with a non-string version or time is never built, so for it the statement is about an object that is not sent.
- InventoryUpdate.InventoryAfterMessage: for messages all of whose inventory objects are accepted; what happens otherwise is said by `HardwareWalk.WalkOutcome`, `HardwareObjects.PersistableIff` and `Reconciliation.MetaTable.Persist` one by one. A message without inventory fields is not persisted.
- Floating-point values are kept as bit patterns; the conversion of other numbers to float64 is a parameter.
- The version pattern and the RFC 3339 parser are parameters.
- Nil and empty slices are told apart only in the bytes oneof; nil children and typed nil oneof wrappers do not occur.
- The generated code repeats the varint, skip and payload loops for every field and file; each is modelled once as a shared method, with the envelope's copies among them.
- Which paths have record functions is left to the step `Dispatch`; a handler may append at any time and is never said to end.
- The parsers of the other YANG paths, the reflection helpers of the oneofs, getters, descriptors and `Describe`.
- Persists without a sanitize step: CPU, memory, license and system data.
- gRPC, HTTP, TLS, signals, Redis, logging and the registration of metrics.
