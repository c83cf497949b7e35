# The data plane of the Ultipa Go driver

This project models the part of the driver that does not touch the network, and proves what it promises:
typed values become bytes and come back, rows travel by position under their schema's header, batches
are grouped and their errors mapped back, streamed replies are folded into one, plans are rebuilt from a
flat list, types and commands are printed and parsed, and the connection pool keeps its lists straight.

| module | what it models |
|---|---|
| `Wire` | the protobuf form of `ListData` and `SetData`, byte by byte |
| `Codec`, `CodecLaws`, `ForeignKinds` | the value codec, its in-band null patterns, and what values of a foreign kind become |
| `DateTime` | the packed 64-bit datetime word |
| `Rows`, `RowLaws` | checking, encoding and decoding of rows |
| `Batches`, `Remapping`, `BatchLaws` | grouping by schema and error remapping, once for nodes and edges |
| `Conversion` | the row goroutines that share one `err`, as an interleaving machine |
| `Reply`, `ReplyLaws` | merging of replies, on objects in place and as values |
| `Response`, `StreamLaws` | the collecting and the streaming reader of a record stream |
| `Explain` | the explain-plan parser and its level-by-level printer |
| `Pool` | probing, throttling and round robin of the connection pool |
| `PropertyText` | the property-type grammar |
| `Uql` | the UQL maker and parser |
| `SchemaCompare` | schema comparison over a map of unknown order |
| `FileKeys` | the open-ended loop over a job's output files |
| `Base`, `Types`, `Decimal` | shared vocabulary, property types, decimal text |

Code that changes things step by step is written as classes and methods with loops, each proved equal to
a function of its inputs; the laws are proved about those functions. Random choices of the Go runtime
(map order, the order in which probes or goroutines finish) are left open, so every result holds for all
of them. `dafny verify dfyconfig.toml` checks the project.

## Where the code falls short

The model follows the code. Where a promise fails, the exact condition is proved and an example is given.

- A plain Go `int` is sent as four bytes, so a 64-bit property reads it back as 0 (`CodecLaws.PlainIntIsLost`),
  and a 64-bit number under a 32-bit type arrives as its high half. `CodecLaws.SurvivesExactly` says which values
  come back, and `ForeignKinds.NumberBecomes` what the others become.
- A reply with a nil section ends the merge early: rows of later aliases are dropped, or the second reply
  replaces the first (`ReplyLaws.NilSectionLosesRows`). An alias the list repeats is merged again, and an
  entry that was taken over is then doubled (`ReplyLaws.RepeatDoublesRows`). `ReplyLaws.MergeConcatenatesExactly`
  says exactly when neither happens.
- A reported local index that its batch does not have is written to row 0. Which rows are blamed:
  `BatchLaws.BlamesOnlyReportedRowsExactly`; with which messages: `BatchLaws.RemapTrueExactly`; an example:
  `BatchLaws.StrayMessageWins`.
- The goroutines of a batch share `err`, so a nil error may hide a row that was not converted or that
  failed its check (`BatchLaws.NodeErrorCanBeLost`, `BatchLaws.NodeCheckCanBeMissed`).
  `Conversion.NilErrorExactly` says for which batches a nil error can be trusted.
- The probes of a refresh share the loop variable they index their errors with: with two or more hosts, a
  refresh that reached nobody may return no error. `Pool.SilenceExactly` says for which outcomes an error is
  certain. An error, when there is one, is right (`Pool.AllSetExactly`).
- Years below 100 do not survive the datetime word, except 70 (`DateTime.RoundTripExactly`).
- A plan list without a balanced prefix leaves nil children, and printing panics after the last node
  (`Explain.Printer.PrintExplain`, `Explain.PrintsTheListInOrder`, `Explain.MissingChildIsNil`).
- A property that already has an element type prints that one whatever it is told later
  (`PropertyText.OldElementTypeIsPrinted`, `PropertyText.PrintedOverOldExactly`).
- `set()` of an unknown element type does not read back as a set (`PropertyText.PrintedReadsBackExactly`).
- A nil server schema passes the fit comparison and reports nothing to create (`SchemaCompare.NilSchemaClosesExactly`).

## Model

| member | source | states |
|---|---|---|
| `Wire.ReadVarintInverts` | rpc/ultipa.proto:415-422 | a base 128 varint of any number that fits its remaining bytes reads back, and nothing after it is touched |
| `Wire.UnmarshalInverts` | rpc/ultipa.proto:415-422 | every list message that is written is read back, with its values in order and its null flag |
| `Wire.MessageBytes` | rpc/ultipa.proto:415-422 | the bytes of a message outright: key 10 and the length before each value, key 16 and 1 for the null flag |
| `Wire.UnknownFieldsAreSkipped` | rpc/ultipa.proto:415-422 | fields of any other number or wire type are skipped, whatever they hold; keys without a valid number and groups are refused |
| `Wire.VarintIsBounded` | rpc/ultipa.proto:415-422 | nothing is read as a number of more than 64 bits |
| `Wire.VarintExample` | rpc/ultipa.proto:415-422 | 300 is written as 172, 2 |
| `Wire.CutPayloadsAreRefused` | rpc/ultipa.proto:415-422 | a payload that is cut short is refused |
| `Codec.PutUint` | sdk/utils/serilizer.go:364-390 | filling the buffer from its end leaves the big-endian bytes of the number |
| `Codec.ConvertInterfaceToBytes` | sdk/utils/serilizer.go:364-398 | the buffers filled in place hold the word, width and wrap-around of each Go type; other types are errors |
| `Codec.SerializeElems` | sdk/utils/serilizer.go:276-323 | the loop encodes every element in order and stops at the first failure with its error |
| `Codec.DeserializeElems` | sdk/utils/serilizer.go:98-139 | the loop decodes every element in order and stops at the first failure with its error |
| `CodecLaws.NullExactly` | sdk/utils/null.go:13-88 | for every scalar type, timestamps and decimals included: the bytes of a value are its type's null pattern if and only if it is the one colliding value |
| `CodecLaws.PointIsNeverNull` | sdk/utils/null.go:42-47 | a point, which is sent as text, is never taken for the null point |
| `CodecLaws.ScalarRoundTrip` | sdk/utils/serilizer.go:26-95 | a scalar of its type's own kind, or nil, always encodes and decodes to itself, or to nil if it collides with null |
| `CodecLaws.RoundTrip` | sdk/utils/serilizer.go:142-323 | the same for every well-typed value, lists and sets included, element by element through the protobuf message |
| `CodecLaws.OnlyNilIsTheNullList` | sdk/utils/null.go:62-71 | no list that is there is ever sent as the null list |
| `CodecLaws.ElemsEncodable` | sdk/utils/serilizer.go:289-296 | a collection encodes if and only if each of its elements does |
| `CodecLaws.SurvivesExactly` | sdk/utils/serilizer.go:142-231 | for a value of any Go kind under any type, decimals, timestamps and points included: it comes back unchanged if and only if a condition on the value alone holds |
| `CodecLaws.PlainIntIsLost` | sdk/utils/serilizer.go:371-373 | an `int` under a 64-bit type decodes to 0 whatever it was |
| `ForeignKinds.NumberBecomes` | sdk/utils/serilizer.go:364-398 | any of the seven Go number kinds under any of the eight word types: always sent, and read back as its two's-complement word, cut to its high half or zeroed when the widths differ, or as nil for the null word |
| `ForeignKinds.PlainIntComesBack` | sdk/utils/serilizer.go:371-373 | an `int` that fits 32 bits comes back as itself under INT32 and modulo 2^32 under UINT32 and TIMESTAMP, apart from the ones that read as null |
| `ForeignKinds.ShortBytesReadAsZero` | sdk/utils/serilizer.go:400-440 | bytes too few for a word read as zero, and no bytes at all as nil for times |
| `ForeignKinds.NumberAsBytes` | sdk/utils/serilizer.go:228-230 | under a text or blob type a number arrives as its big-endian bytes |
| `ForeignKinds.TextsAreSentAsTheyAre` | sdk/utils/serilizer.go:374-375 | texts and byte slices are sent unchanged by every type that does not parse them |
| `ForeignKinds.TextUnderBool` | sdk/utils/serilizer.go:213-226 | bools are sent as 1 and 0; a text is sent if and only if it is one of twelve, as the bool it names |
| `ForeignKinds.BoolDecodes` | sdk/utils/serilizer.go:87-92 | what any bytes mean under BOOL |
| `ForeignKinds.IntegerUnderDecimal` | sdk/utils/serilizer.go:233-268 | an integer of any kind arrives as its decimal text: a sign, digits without leading zeros, and their value |
| `ForeignKinds.MomentBecomes` | sdk/utils/serilizer.go:181-212 | texts, datetimes and timestamps under DATETIME and TIMESTAMP, each way: the moment they name arrives, or the text is refused |
| `ForeignKinds.PointsAreSentAsText` | sdk/utils/serilizer.go:162-179 | a point is sent as its text, and a text as the text of the point it names |
| `ForeignKinds.PointDecodes` | sdk/utils/serilizer.go:447-460 | two doubles decode to a point, latitude first; NaN gives nil, an infinity or another length an error |
| `ForeignKinds.CollectionDecodes` | sdk/utils/serilizer.go:98-139 | what any bytes mean under LIST and SET, element by element |
| `ForeignKinds.NilBytes` | sdk/utils/null.go:13-76 | what nil is sent as under every type, byte by byte |
| `ForeignKinds.EncodesExactly` | sdk/utils/serilizer.go:142-231 | a value of any Go kind under any type, collections included, can be sent if and only if a condition on kind and type holds |
| `ForeignKinds.RefusalExactly` | sdk/utils/serilizer.go:142-231 | which error a value gets that cannot be sent |
| `ForeignKinds.SliceRefusal` | sdk/utils/serilizer.go:276-323 | a slice is refused without an element type, or with the error of its first element that is |
| `DateTime.UltipaTime.Uint64ToTime` | sdk/utils/time.go:366-383 | the fields written are the digits of the word, with the two-digit-year rule |
| `DateTime.TimeToUltipaTime` | sdk/utils/time.go:429-472 | the object keeps the fields and carries the very word TimeToUint64 computes; nil means the epoch |
| `DateTime.PackIsMix` | sdk/utils/time.go:406-427 | the bitwise or of the shifted fields is their sum: no field overlaps another, and the year and month keep 18 bits |
| `DateTime.UnpackOfPack` | sdk/utils/time.go:366-427 | the clock fields always come back; the year and month lose everything above 17 bits |
| `DateTime.RoundTripExactly` | sdk/utils/time.go:366-427 | all seven fields come back if and only if the year is 70 or at least 100 and year and month fit 17 bits |
| `DateTime.FourDigitYears` | sdk/utils/time.go:366-389 | every date of the years 100 to 10081 comes back, with bit 63 clear |
| `DateTime.TwoDigitYears` | sdk/utils/time.go:369-375 | a year under 70 comes back plus 2000, 71 to 99 plus 1900, and 70 as it is |
| `DateTime.RepackExactly` | sdk/utils/time.go:366-427 | packing what a word decodes to gives that word if and only if bit 63 is clear and its year is not rewritten |
| `DateTime.PackOrdered` | sdk/utils/time.go:406-427 | packed words compare exactly as the dates do, field by field, whenever the dates do not differ above the 18 bits kept of year and month, as in all years below 20164 |
| `Rows.CheckValuesAndProperties` | sdk/api/check.rows.go:17-55 | the loops decide as the specification does, with the first reason in the order of the source |
| `RowLaws.RefusalExactly` | sdk/api/check.rows.go:17-55 | which error a row gets: by the number of its keys, then by the first stored name that is none of them |
| `RowLaws.EdgeRefusalExactly` | sdk/api/check.rows.go:57-89 | which error an edge gets for its endpoints, where an id counts unless it is empty, nil or null and a uuid unless it is 0 |
| `RowLaws.OnlyPseudoColumnsAreSkipped` | sdk/structs/property.go:109-130 | columns of the seven pseudo types, listed by name, are skipped wherever they stand, and every other column is kept at its place |
| `RowLaws.PseudoColumnsChangeNothing` | sdk/api/check.rows.go:21-24 | such a column changes neither check nor header nor converted row |
| `PropertyText.StoredExactly` | sdk/structs/property.go:41-62 | they are the types whose name begins with an underscore |
| `Rows.CheckEdgeRows` | sdk/api/check.rows.go:57-89 | endpoints must come in pairs and one pair must be there, after the values check |
| `RowLaws.CheckAcceptsExactly` | sdk/api/check.rows.go:17-55 | with distinct names, a row is accepted if and only if its keys are exactly the stored names (by counting) |
| `RowLaws.EdgeAcceptedExactly` | sdk/api/check.rows.go:57-89 | the exact condition on values and endpoints under which an edge passes |
| `Rows.EncodeRow` | sdk/api/insert.nodes.go:190-204 | the conversion loop fills the columns in schema order and reports the first one that fails |
| `Rows.BuildHeader` | sdk/api/insert.nodes.go:85-105 | the header lists the stored properties in order and nothing else |
| `Rows.ConvertSdkNodeRow` | sdk/api/insert.nodes.go:165-206 | check, then convert: the row's identity, the schema's name and the encoded columns |
| `Rows.ConvertSdkEdgeRow` | sdk/api/insert.edges.go:168-218 | the same for edges, with both endpoints by id and uuid |
| `RowLaws.CheckedRowsConvert` | sdk/api/insert.nodes.go:184-206 | when every stored name is there, conversion succeeds if and only if every value encodes, and otherwise names a value that does not |
| `RowLaws.NothingIsMissingAfterTheCheck` | sdk/api/insert.nodes.go:176-206 | a checked row never fails on a missing property |
| `RowLaws.EncodedValuesExactly` | sdk/api/insert.nodes.go:184-206 | column i is the encoding of its own value; the first missing or unserializable column decides the error |
| `RowLaws.RowsCarryIdentity` | sdk/api/insert.nodes.go:165-182 | what a converted node or edge carries beside its columns |
| `Rows.TableToEntities` | sdk/http/dataitem.go:29-75 | the table loop skips null rows, decodes the others by position and keeps the last entity of each uuid |
| `Rows.ReadRowValues` | sdk/http/dataitem.go:58-67 | values are decoded under the header at their position; too many values or an unknown schema is a panic |
| `RowLaws.DecodedValuesExactly` | sdk/http/dataitem.go:58-67 | for any number of columns under any header: readable if and only if every column is and none is beyond the header; each name has its last column's value, and the first failure is the error |
| `RowLaws.RowIsReadUnderItsSchema` | sdk/http/dataitem.go:32-56 | a row is read under the last schema of its name, and without one only if it has no columns |
| `RowLaws.LastOfEachUuid` | sdk/http/dataitem.go:69-72 | the map by uuid holds the last entity of each uuid |
| `Rows.NodeTableToUUIDs` | sdk/http/dataitem.go:77-89 | the uuids of the rows that are not null, in order |
| `RowLaws.UuidsOfDecoded` | sdk/http/dataitem.go:29-89 | those are the uuids of the decoded nodes, position by position |
| `RowLaws.NormalValuesMeaning` | sdk/http/dataitem.go:57-67 | a decoded row has exactly the stored names, each with the normal form of its own value |
| `RowLaws.ValuesRoundTrip` | sdk/http/dataitem.go:57-67 | columns encoded in schema order decode, under the same headers, to the normal values |
| `RowLaws.NodeRoundTrip` | sdk/api/insert.nodes.go:94-105 | a checked, well-typed node converts and decodes under its batch's header to the same id, uuid, schema and normal values |
| `RowLaws.EdgeRoundTrip` | sdk/api/insert.edges.go:187-218 | the same for edges, endpoints included |
| `RowLaws.BatchRoundTrip` | sdk/http/dataitem.go:44-72 | a whole table decodes to all its nodes, in order |
| `RowLaws.EdgeBatchRoundTrip` | sdk/http/dataitem.go:106-137 | a whole table decodes to all its edges, in order |
| `Batches.GroupRows` | sdk/api/insert.nodes.go:247-280 | after every row each batch is the in-order conversion of its schema's rows, with its index map; batch sizes sum to the rows; fails exactly at the first row that cannot be converted |
| `Batches.PositionsMeaning` | sdk/api/insert.edges.go:252-286 | a batch's positions are strictly increasing and are exactly its schema's rows |
| `BatchLaws.RowsArePartitioned` | sdk/api/insert.nodes.go:247-280 | every row is in exactly one batch at one local index; the index maps are increasing, one-to-one, and disjoint across schemas |
| `BatchLaws.RowConvertsUnderItsSchema` | sdk/api/insert.nodes.go:255-263 | a row converts under the first schema of its name, or reports that there is none |
| `Remapping.NewNodesInsertResponse` | sdk/http/response.insert.go:92-119 | each reported index carries the name of its last code; reports of unequal length are dropped |
| `Remapping.NewEdgesInsertResponse` | sdk/http/response.insert.go:121-143 | the same without that guard: too few codes panic |
| `Remapping.CodesAreNamed` | sdk/http/response.insert.go:58-91 | the table from codes to names and the one from names to codes undo each other on exactly fourteen codes; any other code has no name |
| `Remapping.NamesAreCoded` | sdk/http/response.insert.go:58-91 | the same from names: a name with a code is the name of that code |
| `BatchLaws.MessagesNameCodes` | sdk/api/insert.nodes.go:282-353 | end to end: a row carries a message if and only if the server sent a code for its place in its batch, and it names the last such code |
| `Remapping.RemapErrors` | sdk/api/insert.nodes.go:282-353 | the map is what one order of all reports writes, each report once and batch by batch, at its target; costs are summed |
| `BatchLaws.WrittenIsRemapped` | sdk/api/insert.nodes.go:345-349 | whatever the order, every report is written at its target and every entry comes from a report |
| `BatchLaws.RemappedIsWritten` | sdk/api/insert.nodes.go:345-349 | conversely, every such map is what some order of batches and items writes |
| `BatchLaws.RemapExactly` | sdk/api/insert.nodes.go:345-349 | whatever the order: row g carries message v if and only if its own batch reported v at its local index; only row 0 can also be hit by an index no batch has |
| `BatchLaws.RemapTrueExactly` | sdk/api/insert.nodes.go:345-349 | in every order of batches and items each row carries exactly the message its own batch reported for it, if and only if every report without a row repeats row 0's own message |
| `BatchLaws.OrderFreeExactly` | sdk/api/insert.nodes.go:282-349 | the result is the same in every visiting order if and only if all reports written to row 0 say the same |
| `BatchLaws.RemapIsOrderFree` | sdk/api/insert.edges.go:352-358 | no visiting order changes which rows are blamed, nor, with all indexes in range, the result |
| `BatchLaws.StrayMessageWins` | sdk/api/insert.nodes.go:346-348 | one row and two reports: the row ends with the message of the report that has no row |
| `BatchLaws.BlamesOnlyReportedRowsExactly` | sdk/api/insert.nodes.go:346-348 | which rows are blamed: only reported ones if and only if no index is out of range or row 0 was itself reported |
| `BatchLaws.BatchComesBack` | sdk/api/insert.nodes.go:247-323 | grouped, converted and sent under its header, a schema's batch decodes to that schema's nodes in order |
| `BatchLaws.EdgeBatchComesBack` | sdk/api/insert.edges.go:252-329 | the same for edges |
| `Conversion.SlotsHoldOwnRows` | sdk/api/insert.nodes.go:137-154 | in every reachable state of every interleaving a slot is empty or holds its own row's conversion |
| `Conversion.StepsDecrease` | sdk/api/insert.nodes.go:139-161 | every step uses up rank, so no run is endless |
| `Conversion.RunCompletes` | sdk/api/insert.nodes.go:139-162 | every run can be continued until the caller has its answer |
| `Conversion.GoodRowsConvert` | sdk/api/insert.nodes.go:132-163 | if all rows check and convert, every complete run returns no error and rows[i] is row i's conversion |
| `Conversion.CleanExactly` | sdk/api/insert.edges.go:133-166 | every complete run is clean if and only if every row checks and converts |
| `Conversion.NilErrorExactly` | sdk/api/insert.nodes.go:132-163 | for any mix of failures: a nil error means all rows were checked and converted if and only if all are good, or row 0 fails its check, or row 0 fails to convert and is the only row or followed by a failed check |
| `Conversion.CheckedNilErrorExactly` | sdk/api/insert.nodes.go:145-161 | when all rows check: a nil error means filled slots if and only if all convert or there is at most one row |
| `Conversion.ConvertibleNilErrorExactly` | sdk/api/insert.edges.go:140-166 | when all rows convert: a failed check never ends in a nil error if and only if there is none or it is row 0's |
| `Conversion.ErrorCanBeLost` | sdk/api/insert.nodes.go:148-152 | a run in which a failed row leaves an empty slot and no error |
| `Conversion.CheckCanBeMissed` | sdk/api/insert.nodes.go:140-151 | a run in which a row that fails its check is converted and no error is returned |
| `BatchLaws.NodeErrorCanBeLost` | sdk/api/insert.nodes.go:132-163 | two nodes of a one-column schema, the first with an unserializable value: no error and an empty slot |
| `BatchLaws.NodeCheckCanBeMissed` | sdk/api/insert.nodes.go:132-163 | two nodes, the second with a value too many: no error, and it is sent without that value |
| `BatchLaws.EdgeCheckCanBeMissed` | sdk/api/insert.edges.go:133-166 | two edges, the second without a target: no error, and it is sent |
| `BatchLaws.JobsExactly` | sdk/api/insert.edges.go:133-166 | what the goroutines of a batch check and convert, row by row, for nodes and edges |
| `BatchLaws.EveryRunComesBack` | sdk/api/insert.nodes.go:132-163 | however the goroutines interleave, the table sent for checked, well-typed nodes decodes to exactly those nodes |
| `BatchLaws.EveryEdgeRunComesBack` | sdk/api/insert.edges.go:133-166 | the same for edges |
| `Reply.MergeUQLReply` | sdk/utils/merge.reply.go:127-365 | for any alias list, repeats included: merging objects in place (entries taken over and then shared, appended rows, early returns) shows the merge of the two replies as values |
| `Reply.TakeRows` | sdk/utils/merge.reply.go:161-165 | appending to the found entry in place changes that alias only; the second reply changes only if it shares the entry |
| `ReplyLaws.StepJoins` | sdk/utils/merge.reply.go:149-165 | the step for one alias joins its two entries and leaves every other alias alone |
| `ReplyLaws.MergeTurns` | sdk/utils/merge.reply.go:127-365 | what a merge does to every alias, whatever sections are missing and however often the list repeats it |
| `ReplyLaws.MergeJoins` | sdk/utils/merge.reply.go:127-365 | without repeats: the two entries are joined up to the first gap and left alone behind it |
| `ReplyLaws.MergeConcatenatesExactly` | sdk/utils/merge.reply.go:137-148 | for any alias list: every alias gets the rows of both replies in order if and only if a check on the two replies' sections, tables and repeats holds |
| `ReplyLaws.NilSectionLosesRows` | sdk/utils/merge.reply.go:140-148 | two concrete replies whose merge drops a row |
| `ReplyLaws.RepeatDoublesRows` | sdk/utils/merge.reply.go:156-165 | an alias listed twice doubles the row only the second reply has |
| `StreamLaws.FoldConcatenates` | sdk/http/response.query.go:44-87 | folding any number of records leaves under each alias of the first one exactly all its rows in order, when every record has the sections and tables that list needs; later alias lists are not read |
| `StreamLaws.RunConcatenatesExactly` | sdk/http/response.query.go:68-77 | over any run, whatever alias list each record has: an alias ends with all its rows in order if and only if every single merge passed the check |
| `StreamLaws.RecordsConcatenateExactly` | sdk/http/response.query.go:44-87 | the same with a condition on the records alone: the sections, entries and rows of each record and the list of the one that was not replaced |
| `StreamLaws.LaterListIsNotRead` | sdk/utils/merge.reply.go:137-138 | two concrete records: the second has no alias list and still adds its row |
| `Response.FindAliasDataInReply` | sdk/utils/merge.reply.go:19-62 | the loop over the alias list finds the entry and type the specification names |
| `StreamLaws.AliasDataFinds` | sdk/http/response.query.go:122-130 | with entries listed under their own type, looking an alias up gives the first entry of its own section |
| `StreamLaws.UnreadableData` | sdk/http/dataitem.go:141-183 | what AsNodes and AsEdges say to an alias of another kind, an Attr alias, an entry without a table, and an alias without an entry |
| `StreamLaws.UnknownNameReadsNothing` | sdk/utils/merge.reply.go:19-30 | a name that no alias has is unset data and reads as no rows |
| `Response.NewUQLResponse` | sdk/http/response.query.go:33-98 | exactly when it returns an error (a broken stream, or statistics of the first record that cannot be read); otherwise the reply is the fold of the records read, the status and its message are those of the last of them that has one, and success sets the alias list |
| `Response.Recv` | sdk/http/responseStream.go:27-89 | the callback sees the records in order up to the first one that fails or cannot be read, or that it refuses; no error if and only if there was none and the stream did not break |
| `StreamLaws.DecodeRowsAppend` | sdk/http/dataitem.go:44-72 | tables of one schema list can be cut anywhere: decoding the parts gives the whole |
| `StreamLaws.StreamedIsCollected` | sdk/http/dataitem.go:141-183 | what the callbacks read under an alias, concatenated, is what the folded reply reads, whenever the records lose nothing under it |
| `StreamLaws.ReadersAgree` | sdk/http/responseStream.go:35-86 | for an all-success stream that ends well both readers take every record, and agree on every node or edge alias under which the records lose nothing |
| `Explain.BuildTree` | sdk/printers/explain.printer.go:35-51 | draining the channel builds the tree the specification names and leaves what it leaves |
| `Explain.BuildExactly` | sdk/printers/explain.printer.go:35-51 | the whole list is used without a nil child if and only if the pending count stays positive on every proper prefix and ends at zero |
| `Explain.BuildOfPreorder` | sdk/printers/explain.printer.go:35-51 | parsing any plan tree's preorder list gives that tree and touches nothing after it |
| `Explain.PreorderOfBuild` | sdk/printers/explain.printer.go:40-48 | a balanced list is the preorder list of the tree it builds |
| `Explain.NilFreeExactly` | sdk/printers/explain.printer.go:35-51 | the tree has no nil child if and only if some prefix is balanced; the rest of the list is ignored |
| `Explain.MissingChildIsNil` | sdk/printers/explain.printer.go:40-48 | one node that announces a child the list lacks gets a nil child |
| `Explain.Printer.Traverse` | sdk/printers/explain.printer.go:53-68 | appending to the shared list adds the tree's entries up to its first nil, where it panics |
| `Explain.Printer.PrintExplain` | sdk/printers/explain.printer.go:17-33 | the entries of the parsed tree are appended to the list kept from earlier calls; it panics if and only if the list is not empty and has no balanced prefix |
| `Explain.PrintsTheListInOrder` | sdk/printers/explain.printer.go:35-68 | for any list, balanced or not: the texts appended are those of its nodes in order, all that the parser took, even when printing panics |
| `Explain.TraverseByDepth` | sdk/printers/explain.printer.go:53-68 | four lines per node; group k belongs to the node at the k-th position of the tree |
| `Explain.LineByDepth` | sdk/printers/explain.printer.go:53-68 | line 4k + j outright: its level is the starting level plus the depth of the k-th position, its text the alias, number of children, uql or infos of the node there |
| `Explain.PathsInOrder` | sdk/printers/explain.printer.go:65-67 | positions are in document order: a node before its descendants, earlier children first, none twice |
| `Explain.PathsExactly` | sdk/printers/explain.printer.go:65-67 | the positions visited are all positions of the tree and no others |
| `Pool.ConnectionPool.CreateConnections` | sdk/connection/connection.pool.go:72-81 | one new connection per distinct host: the machine's fresh state |
| `Pool.ConnectionPool.RefreshActivesWithSeconds` | sdk/connection/connection.pool.go:83-175 | in any order of probes the refresh is a run of the machine; when the last one ended at most 5 seconds ago and all connections are active nothing happens; otherwise every connection is marked as its probe ended and is active exactly if greeted, and the error is the one its outcomes and writes determine |
| `Pool.ConnectionPool.Complete` | sdk/connection/connection.pool.go:111-152 | one probe's goroutine is one step of the machine |
| `Pool.AllSetExactly` | sdk/connection/connection.pool.go:106-174 | all error slots are set if and only if every probe failed and each goroutine wrote while the shared index, which only grows, was still its own |
| `Pool.SilenceExactly` | sdk/connection/connection.pool.go:106-174 | for any outcomes: a refresh with them always returns an error if and only if a password was refused, or nobody was greeted and there is at most one connection |
| `Pool.StepKeepsInv` | sdk/connection/connection.pool.go:83-153 | every step keeps Actives a duplicate-free list of exactly the probed, live connections |
| `Pool.RunsAreSafe` | sdk/connection/connection.pool.go:83-153 | so it holds after every run of refreshes and picks, in mid-refresh too |
| `Pool.StartsExactly` | sdk/connection/connection.pool.go:83-93 | after any run: a refresh probes if and only if the last one ended more than 5 seconds ago or some connection is not active, and otherwise is skipped |
| `Pool.ActivesInOrder` | sdk/connection/connection.pool.go:135-138 | Actives lists the greeted connections in the order in which their probes came back |
| `Pool.SkipMissesNothing` | sdk/connection/connection.pool.go:86-89 | when the throttle skips because the lengths match, every connection is active and alive |
| `Pool.ConnectionPool.GetRandomConn` | sdk/connection/connection.pool.go:364-377 | the connection at the next tick modulo their number; an error exactly when none is active |
| `Pool.ServedEvenly` | sdk/connection/connection.pool.go:371-372 | from any tick, m calls serve each of n connections m/n times or one more; k rounds serve each exactly k times |
| `Pool.ServedAlive` | sdk/connection/connection.pool.go:364-377 | picks serve only known connections marked alive |
| `PropertyText.PropertyCell.SetTypeByString` | sdk/structs/property.go:133-191 | the branches of the parser, with appended element types and the unchecked first Atoi error |
| `PropertyText.PropertyCell.GetStringType` | sdk/structs/property.go:193-219 | the printed text or the error of the specification; a decimal without digits is a nil dereference |
| `PropertyText.NameReadsBack` | sdk/structs/property.go:41-87 | the two name tables are inverse on their 22 types, and the four others read as unset |
| `PropertyText.PrintedReadsBackExactly` | sdk/structs/property.go:133-219 | printing and parsing on a fresh property restores type, element type and digits if and only if the kind is readable |
| `PropertyText.ParsedIsStableExactly` | sdk/structs/property.go:133-219 | for any text: printing what was parsed and parsing again changes nothing, except for a set of an unknown type |
| `PropertyText.BlanksDoNotMatter` | sdk/structs/property.go:138 | a blank anywhere in the text makes no difference |
| `PropertyText.SetInAngles` | sdk/structs/property.go:148-163 | set<x> means what set(x) means |
| `PropertyText.SetIsFoundBehind` | sdk/structs/property.go:148-163 | a set is found behind any text without an s, whatever follows it |
| `PropertyText.UnclosedSetIsNoSet` | sdk/structs/property.go:148-163 | without its closing bracket there is no set |
| `PropertyText.DigitsBeyondInt` | sdk/structs/property.go:172-187 | for any digits: a scale beyond 64 bits leaves the old digits, a precision beyond them is cut without an error |
| `PropertyText.UnprintableExactly` | sdk/structs/property.go:193-219 | which kinds cannot be printed, and with which error |
| `PropertyText.PrintedOverOldExactly` | sdk/structs/property.go:133-219 | on any property, parsing and printing gives what a fresh one would give if and only if the old element type prints alike and old digits are not met by bare decimal; and what it prints otherwise |
| `PropertyText.OldElementTypeIsPrinted` | sdk/structs/property.go:141-145 | a list of strings told to be a list of int32 still prints as strings |
| `Uql.UQLMAKER.AddParam` | sdk/utils/uql.maker.go:102-146 | what is appended for every key and value: booleans, nil, filter, policies and JSON text |
| `Uql.AddedExactly` | sdk/utils/uql.maker.go:102-146 | what each kind of value becomes, outright |
| `Uql.FilterGoesToBoth` | sdk/utils/uql.maker.go:115-119 | a filter goes to nodes and edges, and nil to neither |
| `Uql.UQLMAKER.SetCommandParams` | sdk/utils/uql.maker.go:86-101 | nil and values without JSON leave the command's parameter alone |
| `Uql.UQLMAKER.ToString` | sdk/utils/uql.maker.go:147-158 | joining the parameters with dots gives the chain of groups |
| `Uql.UQL.Parse` | sdk/utils/uql.maker.go:167-190 | the first match is the command, the others fill the map in order, all values trimmed |
| `Uql.CharacterClasses` | sdk/utils/uql.maker.go:168-181 | the letters of a name, the characters of a value and the trimmed ones, listed |
| `Uql.ParseOfWritten` | sdk/utils/uql.maker.go:147-190 | for any names without an opening bracket, every parameter is found in order under the letters its name ends in |
| `Uql.ParseUndoesWritingExactly` | sdk/utils/uql.maker.go:147-190 | the parser gives back what was written, in order, if and only if names are letters and values are clean |
| `Uql.CallerGetsBackExactly` | sdk/utils/uql.maker.go:167-190 | with distinct names, command, parameter and map come back if and only if everything is clean |
| `Uql.CallsComeBack` | sdk/utils/uql.maker.go:102-190 | from any AddParam calls with clean strings, filters and repeated names included, to the parser: command, parameter, and for every name the value of its last call |
| `SchemaCompare.CompareSchemas` | sdk/structs/schema.go:85-137 | in any map order: the verdict is whether some stored property fails, and the list is each missing property once |
| `SchemaCompare.OrderDoesNotMatter` | sdk/structs/schema.go:114-136 | two comparisons agree on the verdict and on the properties returned, as a multiset |
| `SchemaCompare.CreatingMissingCloses` | sdk/structs/schema.go:131-133 | creating the returned properties makes the strict comparison succeed |
| `SchemaCompare.ClosesExactly` | sdk/structs/schema.go:122-133 | properties under new names close the gap if and only if they cover every missing one with its type and nothing clashed |
| `SchemaCompare.StrictExactly` | sdk/structs/schema.go:122-128 | strict succeeds if and only if fit does and returns nothing |
| `SchemaCompare.NilSchemaClosesExactly` | sdk/structs/schema.go:93-100 | the empty list returned for a nil schema is enough if and only if the first schema stores nothing |
| `FileKeys.RunIsBounded` | sdk/api/download.file.go:131-144 | different numbers give different keys, so an unbroken run is no longer than the map |
| `FileKeys.KeysAreNumbered` | sdk/api/download.file.go:131-137 | the first key has no number, key i ends in the digits of i |
| `FileKeys.GetFilesByJobId` | sdk/api/download.file.go:115-151 | the loop ends within one look more than the map has entries, with the files of the longest unbroken run, or the right error |
| `FileKeys.LongestRunIsLongest` | sdk/api/download.file.go:131-144 | no unbroken run is longer and the answer is unique |

## Left out

- What Go's libraries and the request's time zone compute is a parameter of the codec (`Codec.Library`): times and points read from text, datetime words against seconds, and the texts of floats and points. A timestamp is its seconds, and a point read back from 16 bytes is not computed; points are sent as text and never come back.
- MAP values, which the encoder refuses.
- Floats are their bit patterns; a nil and an empty byte slice are the same byte sequence, except that types without a null pattern never match it.
- `Wire`: groups (wire types 3 and 4) in unknown fields are refused instead of skipped.
- Datetimes are seven numbers; time zones, `time.Date` and layouts are not part of this model.
- `Batches.GroupRows`: rows are values, so a nil row is not modelled; sending, statuses and messages of the replies are left out.
- `Conversion.NilErrorExactly`: steps are single reads and writes of shared variables in one order seen by all goroutines; weaker memory orders are not modelled, and nothing is said about which error is returned.
- `Reply.MergeUQLReply`: tables outside the Attr section are required to be there, since the source dereferences them.
- `StreamLaws.RecordsConcatenateExactly`: over several merges alias lists without repeats are required; with repeats, rows lost in one merge can be made up by rows doubled in another.
- The five sections of a reply are one map from result type to entries, because the source handles them alike; an absent key is a nil slice. A result type the source does not know makes it panic.
- `Response.NewUQLResponse`: an empty stream that ends without an error leaves a nil reply, which the source dereferences; the contents of statistics and explain plans, and path, table and Attr decoding, are not modelled.
- `StreamLaws.ReadersAgree`: only rows are merged, not schemas, so all chunks of an alias are required to carry one schema list, without which the tables themselves cannot be read alike.
- `Pool.ConnectionPool.RefreshActivesWithSeconds`: each probe completion is one atomic step, although the append in line 137 takes no lock of its own, and it writes its error where the loop variable shared by all goroutines has got to; error texts are not modelled.
- Dialling, certificates, timeouts and contexts; every dial is taken to succeed. `RandomTick` is unbounded.
- `PropertyText`: the Lte, Read, Write and description fields of a property; Go ints are 64 bits wide.
- `Uql`: JSON text of other values is a parameter; `replace_doller` is part of it.
- `SetStatsByGraphCount`, `orderedmap`, the other printers and the table decoders that copy columns to fields would only add easy members.
