# Verified models of the agent's stream-handling core

This project models, in Dafny, the parts of the agent that take byte streams apart and the structures
those parts rest on, and proves that they do what callers count on:

- **CSV reader** (`CsvSpec`, `CsvReader`, `CsvStream`, `CsvRoundTrip`). The resumable reader is a class whose
  saved field, offset and state survive between calls. It is proved equal to an automaton that reads one byte at a
  time, so neither the cuts between buffers nor the absence of a callback changes fields, record ends or counts. A
  printer in the style of section 2 of RFC 4180 is undone by it, through any buffers; it also prints what the RFC has no
  place for, lone CRs and text behind a closing quote.
- **Chunked HTTP bodies** (`CNumbers`, `Chunked`, `ChunkText`, `ChunkLines`, `InPlaceDecoder`, `InPlaceResponse`,
  `AppendDecoder`, `ChunkedDownload`). The older client decodes inside its receive buffer, the newer one moves whole chunks to a body.
  Both are proved against one specification of what can be known from the first `n` bytes of a body (section 7.1 of
  RFC 9112), for every division into reads, every limit and growth of the buffer and every way the caller takes payload.
- **Hash table** (`OrderedMap`, `HashTable`, `MapHistory`, `MapLives`) and its users: request headers (`RequestHeaders`) and
  environment templates (`EnvTemplate`, `Environment`). Chains, counters and the global list refine an
  insertion-ordered map with hits, expiry and three eviction modes, in every run; who is evicted and what has expired is
  then told from the operations alone. The hash is an arbitrary function.
- **Base64** (`Base64`, `Base64Text`, `Base64Layout`, `Base64Codec`; section 4 of RFC 4648). Two-pass decoding with a
  32-bit accumulator that is never cleared.
- **Incoming connections** (`ConnectionProtocol`, `Downstream`). A state machine over interleaved accept, traffic,
  timeout, release and destroy steps, and classes whose methods refine its steps.
- **Gzip** (`GzipHeader`, `GzipCodec`, `GzipMembers`, `GzipStages`, `GzipStreaming`, `GzipFlagged`,
  `DecompressionWindow`, `GzipFile`; sections 2.2 and 2.3 of RFC 1952). Raw inflate is a parameter with laws that name what the framing
  code asks of it; `MarkedLawful` shows that the laws can be met. One-shot decompression of concatenated members and
  the stateful decompressor with its window are both proved to give the data back.

`Bytes` and `DivMod` hold shared definitions. C code that loops over or updates state is modelled by classes and
methods whose contracts tie the new state to a specification function. Network reads, clocks, random numbers, the OS
environment and files read by variables are parameters. Integers are unbounded except where the width matters and is
written out: sixteen-bit lengths in the stateful gzip headers, the 32-bit base64 accumulator, 32-bit gzip sizes, `size_t`
in the base64 encoder and in the appending decoder, `strtol` and `strtoull` ranges, 64-bit hit counts.

## What turned out not to hold

- *Taking the whole payload of a chunk.* When the response buffer has to grow, the payload pointer is carried over to a
  moved block only if the payload is not empty. A caller that takes all of a reported payload can be left with a stale
  pointer. `InPlaceResponse.Response.ReadMore` states exactly when: the buffer is nearly full and may grow, the payload was
  emptied, the block moves. `InPlaceResponse.LoopLoses` says the same of a whole read loop: the pointer is lost if and only
  if one of its turns loses it. `ChunkedDownload.TakingAllLosesPayload` is a run of a client with the usual 4096 bytes that
  ends well with the pointer stale. `ChunkedDownload.DownloadInPlace` lets the caller take any amounts; it stops where the
  pointer is lost, and never gets there if no block moves from the first take on that leaves nothing behind.
- *Chunk sizes at the end of their type.* The in-place decoder adds two to the size in a `long`, which has no defined
  result for the two largest sizes; `InPlaceDecoder.SizeLimit` says that these are exactly the sizes concerned, and
  `InPlaceDecoder.LargestSize` gives one. The appending decoder adds header and trailer in a `size_t`, which wraps;
  `AppendDecoder.SizeLimit` says when a wrapped length lets a chunk through that is not there, and
  `AppendDecoder.LargestSize` gives one. The models stop there and say so in their result.
- *A last chunk of several zeros.* Section 7.1 of RFC 9112 lets a last chunk be any number of zeros. The in-place decoder
  looks for its end at fixed places and takes it only if there are one or three of them, calling the body malformed
  otherwise; the appending decoder takes any number (`ChunkLines.LastChunkZeros`).
- *Text behind the last variable.* The translator keeps all text around the variables it expands if and only if it expands
  none or no further "${" stands behind the last of them (`EnvTemplate.KeepsTail`, with inputs in `EnvTemplate.DropsText`;
  `EnvTemplate.DropsExactly` says what is lost). Templates of literals without
  "${" or "}" are never affected (`EnvTemplate.TranslateTemplate`).
- *Streaming gzip, cut anywhere.* "Too little data" and "success" are the same number, so neither the check for an empty
  window nor the end of a header stops the stateful decompressor from going on to the body. With room for output, a call
  fails exactly when it gets there with nothing to show to an inflater that cannot do without: the window holds the ten
  header bytes and no more, or it is empty before a body (`GzipStreaming.DispatchMoves`, for every place in a stream of
  members, every window and every room). `GzipStreaming.HeaderAloneBreaks` and `GzipStreaming.EmptyWindowBreaks` are the
  two cases from a fresh context. `GzipFile.ReadFile`, which like its source never calls with an empty window, gives all the
  data if and only if no round comes to a header with exactly ten bytes in the window. Pieces of more than ten bytes and a
  buffer of more than twenty rule that out, a first piece of ten bytes brings it about.
- *Streaming gzip with optional header fields.* The stateful decompressor finds the body behind a header with optional fields
  if and only if the extra field is shorter than 65534 bytes, the name is neither empty nor longer than 65534 bytes, there
  is no comment, and a header checksum agrees with that of the ten fixed bytes with the other flags cleared
  (`GzipFlagged.FlaggedExactly`). A comment leaves its NUL in front of the body (`GzipFlagged.CommentStays`), an empty name
  makes it wait forever (`GzipFlagged.EmptyNameWaits`). The one-shot decompressor takes all of these
  (`GzipMembers.MemberComesBack`).
- *A limit without eviction.* A table with a positive maximum stays within it in every run if and only if it has an
  eviction mode (`MapHistory.BoundedExactly`); without one, n adds of different keys leave n entries
  (`MapHistory.AddsStay`). Eviction runs before the key is looked up, so a full table can
  evict the very entry that is being replaced; `OrderedMap.AddAsMap` covers this.

## Model

| member | source | states |
|---|---|---|
| CsvSpec.RunAppend | source/src/flb_csv.c:217-307 | reading two pieces one after the other gives the same events and state as reading them joined, for any bytes |
| CsvSpec.RunCloseField | source/src/flb_csv.c:289-293 | a field is over before the byte that ends it is used up, and reading goes on with that byte |
| CsvSpec.RunCloseRecord | source/src/flb_csv.c:239-268 | LF is part of the record end; after a CR any other byte is left for the next record |
| CsvReader.Reader.ResetState | source/src/flb_csv.c:41-51 | everything about the open field is forgotten, the record's count and what was delivered are not |
| CsvReader.Reader.InvokeFieldCallback | source/src/flb_csv.c:53-88 | a raw field that spells a value, quotes doubled, is delivered as that value; the un-escaping loop stays inside the field |
| CsvReader.Reader.ParseSimple | source/src/flb_csv.c:90-108 | stops exactly at the first delimiter or at the end of the buffer, with the outcome of the automaton on the rest unchanged |
| CsvReader.Reader.ParseQuoted | source/src/flb_csv.c:110-139 | stops behind the closing quote, or at the end inside the quotes or after one quote, the doubled quotes so far accounted for |
| CsvReader.Reader.OpenOrResume | source/src/flb_csv.c:151-170 | a resumed field's buffer is the saved bytes followed by the new ones, the offset the number already scanned |
| CsvReader.Reader.ScanField | source/src/flb_csv.c:172-182 | the open field is scanned to its end, its length leaving out the closing quote, or to the end of the buffer |
| CsvReader.Reader.ParseCsvField | source/src/flb_csv.c:141-203 | a field that does not end is saved whole, so that offset and saved buffer agree; one that does ends where the automaton's does |
| CsvReader.Reader.ReadField | source/src/flb_csv.c:271-293 | one field turn keeps the outcome of the whole rest of the input, and uses up a byte unless it resumed a field |
| CsvReader.Reader.EndField | source/src/flb_csv.c:195-200 | the field delivered is the value the automaton holds, and the reader is ready for the next |
| CsvReader.Reader.SkipCr | source/src/flb_csv.c:233-238 | a CR delivers nothing by itself and changes no outcome |
| CsvReader.Reader.SkipComma | source/src/flb_csv.c:246-258 | a comma closes an empty field unless it follows a parsed one; the outcome is kept |
| CsvReader.Reader.FinishRecord | source/src/flb_csv.c:239-306 | the last event is a record end with the number of fields and the stream position, nothing but fields before it |
| CsvReader.Reader.ParseRecord | source/src/flb_csv.c:217-307 | on any buffer: events so far followed by the automaton's events on what is left never change; returns at the first record end with its count, or having used everything; terminates though a resumed field can end without using a byte |
| CsvStream.Call | source/src/flb_csv.c:217-307 | with a callback a call adds its fields and record end to the trace; without one, the record end only |
| CsvStream.ReadStream | source/src/flb_csv.c:217-307 | any stream through any windows gives the events of the whole stream read at once; without a callback exactly its record ends with the same counts and positions; two non-empty windows per byte are always enough |
| CsvRoundTrip.ReadPrinted | source/src/flb_csv.c:217-307 | printed rows, quoted or plain cells, any bytes in quotes, CRLF, LF or a lone CR, read back as the same fields, row lengths and row ends; plain text behind a closing quote comes back as a field of its own |
| CsvRoundTrip.ReadPrintedStream | source/src/flb_csv.c:53-307 | the same of the reader itself, through any windows |
| CNumbers.PlainDigits | source/src/flb_http_client.c:316-326 | `strtol` and `strtoull` in base 16 agree with the value of plain digits, alone or before a CR |
| ChunkText.SpelledValue | source/src/flb_http_client.c:316-326 | a number printed with the digits 0-9, a-f and A-F, in any case and with any leading zeros, has that number as its value |
| ChunkText.EverySpelling | source/src/flb_http_client.c:316-326 | every run of digits is some number printed, with leading zeros and a case for each digit |
| ChunkText.ReadBack | source/src/flb_http_client.c:316-326 | `strtol` and `strtoull` give a printed number back behind blanks, sign and "0x", up to where its digits end, or say that it is out of range |
| ChunkText.EveryText | source/src/flb_http_client.c:316-326 | every text is blanks, a sign, "0x" and a printed number, or reads as zero for want of digits |
| Chunked.KnownAll | source/src/flb_http_client.c:288-413 | all of a body is known exactly when all bytes of its encoding are there, and it is then the chunks' data joined |
| Chunked.KnownResume | source/src/flb_http_client.c:288-413 | what is known from more bytes is what was known, followed by what is known of the chunks left |
| ChunkText.PrintedBody | source/src/flb_http_client.c:288-413 | data printed piece by piece with its size, "\r\n" and a last "0\r\n\r\n" is a well-formed body that means the data joined |
| ChunkText.EveryBody | source/src/flb_http_client.c:288-413 | every well-formed body is some data printed so |
| InPlaceDecoder.DrainShape | source/src/flb_http_client.c:355-413 | chunks are reported available only with nothing undecoded left and something decoded; decoding never makes data |
| InPlaceDecoder.DrainAppend | source/src/flb_http_client.c:288-413 | decoding in two goes is decoding in one, for any bytes, well-formed or not, sizes the arithmetic cannot hold included |
| InPlaceDecoder.DrainKnown | source/src/flb_http_client.c:288-413 | on every prefix of a well-formed body the decoder finds exactly what can be known, and is done only at the last byte |
| InPlaceDecoder.SizeLimit | source/src/flb_http_client.c:316-342 | a size in plain digits is beyond the decoder's arithmetic if and only if it is one of the two largest of its type |
| InPlaceDecoder.LargestSize | source/src/flb_http_client.c:316-342 | 7FFFFFFFFFFFFFFF is such a size, whatever follows it |
| ChunkLines.ScanLine | source/src/flb_http_client.c:300-372 | what the in-place decoder makes of any line and anything behind it: which are malformed, which overflow, which wait and which are chunks |
| ChunkLines.NoLine | source/src/flb_http_client.c:300-303 | without a line end before any NUL the in-place decoder waits |
| InPlaceResponse.Response.DecodeChunk | source/src/flb_http_client.c:300-392 | one complete chunk loses header and trailer in place, its data joining what is decoded; an incomplete, malformed or overflowing one changes nothing |
| InPlaceResponse.Response.ProcessChunkedData | source/src/flb_http_client.c:288-413 | in any buffer, every complete chunk is decoded in place and the undecoded rest kept; payload size counts from the header end |
| InPlaceResponse.Response.ProcessData | source/src/flb_http_client.c:473-506 | the body phase: marks where the payload starts the first time there is any, and decodes |
| InPlaceResponse.Response.Receive | source/src/flb_http_client.c:1588-1612 | after any bytes the buffer holds, behind what the caller took, exactly what is decoded from everything received; payload pointer and size are those the bytes received so far determine |
| InPlaceResponse.Response.Consume | source/src/flb_http_client.c:1528-1542 | the bytes taken are the first of the payload, the rest moves up, more than there is is refused and changes nothing |
| InPlaceResponse.Response.IncreaseBuffer | source/src/flb_http_client.c:946-1009 | grows unless the maximum is reached, never beyond it; the payload pointer goes stale exactly if the block moves while the payload is empty |
| InPlaceResponse.Response.ReadMore | source/src/flb_http_client.c:1545-1618 | one turn takes a prefix of the wire, conserves every byte, fails exactly for malformed bytes or if it starts with the limit reached and at most two bytes of room, and states exactly when the payload pointer is lost, how much is read and how the buffer grows; all of it is determined by the bytes received |
| InPlaceResponse.Response.ReadLoop | source/src/flb_http_client.c:1545-1618 | over any sequence of reads nothing is lost or repeated and a finished body is reported as finished; outcome, bytes left, payload and buffer are those of the specified loop, so more is asked for only when the reads run out |
| InPlaceResponse.Response.GetResponseData | source/src/flb_http_client.c:1507-1621 | a call with any amount consumed: taken bytes and buffer together are the decoded form of all bytes received; over-consumption is refused and changes nothing; any other outcome is that of the specified loop |
| InPlaceResponse.TurnExact | source/src/flb_http_client.c:1545-1618 | a turn is an error if and only if it starts full or meets malformed bytes, and loses the pointer if and only if it starts with an empty payload, has to grow and may, and the block moves |
| InPlaceResponse.LoopExact | source/src/flb_http_client.c:1545-1618 | a read loop asks for more if and only if every read was made and each asked for more; else its outcome is that of the first turn that does not |
| InPlaceResponse.LoopLoses | source/src/flb_http_client.c:1545-1618 | a read loop loses the payload pointer if and only if one of its turns starts with an empty payload in a nearly full buffer that may grow, and the block moves |
| AppendDecoder.Session.ShiftLeft | source/src/flb_http_client_http1.c:72-93 | drops that many bytes from the front, everything if there are not more |
| AppendDecoder.Session.ProcessData | source/src/flb_http_client_http1.c:246-298 | whole chunks move to the end of the body, the rest is kept, the read offset grows by what left the input; lengths are those of a `size_t` |
| AppendDecoder.Session.Ingest | source/src/flb_http_client_http1.c:303-340 | bytes that arrive are appended and decoded while data is expected, and only kept otherwise |
| AppendDecoder.AbsorbKnown | source/src/flb_http_client_http1.c:246-298 | on every prefix of a well-formed body the appending decoder, too, finds exactly what can be known |
| AppendDecoder.SizeLimit | source/src/flb_http_client_http1.c:262-274 | a size in plain digits wraps if and only if its chunk with header and trailer exceeds a `size_t` and the wrapped length is there |
| AppendDecoder.LargestSize | source/src/flb_http_client_http1.c:262-274 | sixteen Fs and at least one byte behind the line end are such a size |
| ChunkLines.AbsorbLine | source/src/flb_http_client_http1.c:252-276 | what the appending decoder makes of any bytes: it waits for a CR, refuses a number that is too large, and takes as many bytes as the number says |
| ChunkLines.LastChunkZeros | source/src/flb_http_client.c:345-371 | a last chunk of k zeros ends the body for the appending decoder always, for the in-place one if and only if k is one or three |
| ChunkedDownload.PartDecoded | source/src/flb_http_client.c:288-413 | of a part of a body no error is reported, and the end is reported for all of it only |
| ChunkedDownload.Turn | source/src/flb_http_client.c:1507-1621 | one reader call during a download, under any limit, after any amount taken: what the caller has taken and what stands behind the head together are what is known of the body so far, decoded or not; an error means a full buffer at its limit; a lost pointer means that the payload was emptied and a block moved |
| ChunkedDownload.DownloadInPlace | source/src/flb_http_client.c:288-413 | any body, any first size and limit of the buffer, any division into calls and reads, any amounts taken in between, any blocks moving: whatever the outcome no byte is lost; done exactly when nothing is left on the wire, and then pieces taken and last payload are the body; an error only with the limit used up to two bytes, never with room for head and encoding; the pointer is never lost if no block moves from the first take on that leaves nothing; enough non-empty reads finish, run into the limit or lose the pointer |
| ChunkedDownload.AbsorbStep | source/src/flb_http_client_http1.c:246-298 | the appending decoder, given what it kept and any further bytes, adds exactly what is newly known |
| ChunkedDownload.DownloadAppend | source/src/flb_http_client_http1.c:246-340 | any body in reads of any sizes ends up in the response body, ready exactly at the last byte |
| ChunkedDownload.BothClients | source/src/flb_http_client_http1.c:246-298 | fed independently in any way, the two clients end with the same bytes, the body, unless the limit of the in-place one is too small or its caller lets the payload pointer go |
| ChunkedDownload.PrintedDecoded | source/src/flb_http_client.c:288-413 | on data printed as a chunked body both decoders end with the data joined; on any part of it neither ends and both know the same |
| ChunkedDownload.DownloadPrinted | source/src/flb_http_client.c:288-413 | data printed as a chunked body in any way reaches the callers of both clients whole, however it is fed, unless the limit is too small or the pointer lost |
| ChunkedDownload.TakingAllLosesPayload | source/src/flb_http_client.c:985-1005 | a concrete well-formed download of a client with the usual buffer and no limit: the caller takes all of a payload, the download ends well, the pointer is stale |
| OrderedMap.LeastUsed | source/src/flb_hash_table.c:245-262 | the earliest among the entries with the fewest hits |
| OrderedMap.CaseFolding | source/src/flb_hash_table.c:31-54 | folding takes A-Z to a-z and changes no other byte |
| OrderedMap.DistinctRun | source/src/flb_hash_table.c:401-494 | in no run are there two entries with the same folded key |
| OrderedMap.RunBounded | source/src/flb_hash_table.c:414-428 | with an evicting mode and a positive maximum no run exceeds the maximum |
| MapHistory.BoundedExactly | source/src/flb_hash_table.c:414-428 | a positive maximum bounds every run if and only if the table has an eviction mode |
| MapHistory.AddsStay | source/src/flb_hash_table.c:414-428 | without an eviction mode, n adds of different keys leave n entries in their order, whatever the maximum |
| OrderedMap.AddAsMap | source/src/flb_hash_table.c:401-494 | an add loses at most the victim's binding and sets its own, also when the victim is the key being replaced |
| OrderedMap.FindRemoved | source/src/flb_hash_table.c:85-97 | removing an entry unbinds its key and no other |
| OrderedMap.FindPut | source/src/flb_hash_table.c:430-443 | storing binds the key in every spelling and changes no other |
| HashTable.Table.SetCaseSensitivity | source/src/flb_hash_table.c:217-224 | the table stays sound if and only if its entries stand where the new comparison looks for them and none fall together; always so for an empty table |
| HashTable.Table.ChainAnswers | source/src/flb_hash_table.c:313-345 | a match in the key's chain is the only match in the table, none there means none anywhere; rests on equal folded keys sharing a bucket |
| HashTable.Table.HashGetEntry | source/src/flb_hash_table.c:272-355 | finds the map's entry for the key in any spelling; the shortcut for a chain of one answers like the scan |
| HashTable.Table.EntryFree | source/src/flb_hash_table.c:85-97 | an entry leaves its chain and the global list, counters following; all others keep their places |
| HashTable.Table.EvictLessUsed | source/src/flb_hash_table.c:245-262 | the loop removes the earliest entry with the fewest hits |
| HashTable.Table.EvictRandom | source/src/flb_hash_table.c:226-243 | the loop removes the entry at the drawn number modulo the number of entries |
| HashTable.Table.EvictForRoom | source/src/flb_hash_table.c:414-428 | a full table loses the victim of its mode, any other table nothing |
| HashTable.Table.SetValue | source/src/flb_hash_table.c:357-399 | a replaced value keeps its entry's place, spelling and hits, and is stamped anew |
| HashTable.Table.Append | source/src/flb_hash_table.c:445-493 | a new entry goes last in its chain and in the global list, with no hits |
| HashTable.Table.Add | source/src/flb_hash_table.c:401-494 | refines the ordered map's add, eviction first; returns the bucket of the folded key, or -1 for an empty key |
| HashTable.Table.Get | source/src/flb_hash_table.c:496-522 | refines the map's lookup: an expired entry is removed and missing, a live one is counted and returned |
| HashTable.Table.GetPtr | source/src/flb_hash_table.c:591-603 | looks up and counts without regard to expiry |
| HashTable.Table.Exists | source/src/flb_hash_table.c:525-544 | true exactly if some entry of the whole table has the hash, though one chain is searched |
| HashTable.Table.ChainEntry | source/src/flb_hash_table.c:635-666 | delete's own chain search finds the map's entry |
| HashTable.Table.Del | source/src/flb_hash_table.c:605-674 | refines the map's delete; 0 exactly if the key was there |
| HashTable.Table.Execute | source/src/flb_hash_table.c:401-674 | any sequence of operations takes chains, counters and list to the map the same operations give, every entry in the bucket of its folded key, chain counts and total count exact, the list a permutation of the chains |
| MapHistory.LookupIsLastSet | source/src/flb_hash_table.c:272-355 | in a table that neither evicts nor expires, after any operations a lookup in any spelling gives the value last set and not deleted since |
| MapHistory.LookupNeverStale | source/src/flb_hash_table.c:401-674 | whatever a table evicts and expires, a lookup gives nothing but the value last set and not deleted since |
| MapHistory.OrderIsBirth | source/src/flb_hash_table.c:445-493 | in a table that neither evicts nor expires, after any operations the entries stand in the order of their surviving first insertion, spelt as then |
| MapLives.OrderSurvives | source/src/flb_hash_table.c:401-674 | whatever a table evicts and expires, its entries stand in the order of the adds that made them, spelt as there, none deleted since; each holds the value and time last set and one hit for each lookup since its birth, and no lookup since came too late |
| MapLives.EvictedByHistory | source/src/flb_hash_table.c:226-270 | an add makes an entry go if and only if the table is full and has an eviction mode, and that one only: the one born first, the one looked up least since its birth and first of those, or the drawn one |
| MapLives.HeldInTime | source/src/flb_hash_table.c:496-522 | whatever a table evicts, what it holds is the value last set, with no late lookup since, and a lookup gives it exactly if it comes in time |
| MapLives.ExpiresExactly | source/src/flb_hash_table.c:496-522 | in a table that does not evict, a lookup gives the value last set if and only if it was not deleted since and no lookup since, this one included, came later than the time to live allows |
| RequestHeaders.Request.SetHeader | source/src/flb_http_common.c:259-299 | joins the history of header operations; fails only for an empty name |
| RequestHeaders.Request.GetHeader | source/src/flb_http_common.c:230-257 | in any casing of the name: the value last set and not unset since |
| RequestHeaders.Request.UnsetHeader | source/src/flb_http_common.c:301-314 | succeeds exactly if the header is set, in any casing |
| RequestHeaders.Request.ComposeHeaders | source/src/flb_http_client_http1.c:450-472 | one line for each header set and not unset since, each once, with the value last set, in the order of their surviving first insertion |
| RequestHeaders.LinesInOrder | source/src/flb_http_client_http1.c:450-472 | the lines are "name: value" with a line end, one for each header in order; an empty value leaves nothing behind the blank |
| EnvTemplate.TranslateTemplate | source/src/flb_env.c:269-382 | literals and variables translate to the literals with the values in between, unset ones empty, values not expanded again |
| EnvTemplate.KeepsTail | source/src/flb_env.c:294-361 | for every template: the result is the template with its expanded variables replaced and all other text kept if and only if it expands none or no further "${" stands behind the last one; the template alone decides which is the last |
| EnvTemplate.DropsExactly | source/src/flb_env.c:294-361 | else the text behind the last variable expanded is lost up to and with the next "}", or all of it if there is none |
| EnvTemplate.NameLimit | source/src/flb_env.c:305-309 | a name is expanded if and only if it is not empty and shorter than 4096 bytes |
| EnvTemplate.DropsText | source/src/flb_env.c:294-361 | two templates of which text is dropped |
| Environment.Env.Get | source/src/flb_env.c:233-263 | the value last set; for a variable not set, the value the operating system has if it is not empty, else none |
| Environment.Env.Set | source/src/flb_env.c:165-231 | the variable has the new value, every other its old one; fails exactly for an empty name or a file that cannot be read or is empty but for a final line end, changing nothing |
| Environment.Env.ExpandVars | source/src/flb_env.c:294-346 | the loop expands as specified and leaves every variable's value as it was |
| Environment.Env.Translate | source/src/flb_env.c:269-382 | translates any template as specified and leaves every variable's value as it was |
| Environment.SetThenTranslate | source/src/flb_env.c:165-382 | after a value is set, every template is expanded with it in its places: the value itself unless it names a file, else what the file holds |
| Environment.TranslateUnset | source/src/flb_env.c:233-382 | a template whose variables are not set is expanded with the operating system's values, empty where it has none |
| Environment.FileValue | source/src/flb_env.c:178-209 | a file stands for its text less one LF or CR at the end; a missing file or one without text for nothing |
| Base64.RoundTrip | source/src/flb_base64.c:88-150 | decoding an encoding gives the bytes back, for every byte string |
| Base64Text.EncodesAs | source/src/flb_base64.c:117-147 | the encoding is the groups of 24 bits in letters of the alphabet, the last group filled up with zero bits and "=" |
| Base64Text.SymbolsAre | source/src/flb_base64.c:55-83 | the bytes that decode to six bits are the 64 letters of the alphabet, in its order; besides them only "=" is a symbol |
| Base64Text.DecodesAs | source/src/flb_base64.c:219-234 | any four letters stand for the three bytes of their 24 bits |
| Base64Text.DecodesTwo | source/src/flb_base64.c:219-234 | three letters and a "=" stand for two bytes |
| Base64Text.DecodesOne | source/src/flb_base64.c:219-234 | two letters and "==" stand for one byte |
| Base64Text.AcceptedExactly | source/src/flb_base64.c:162-198 | the decoder accepts a text if and only if it holds nothing but letters, "=", spaces, LF and CR before LF, no letter or "=" right behind a space, at most two "=" and no letter behind them |
| Base64.ScanCounts | source/src/flb_base64.c:162-198 | an accepted input has as many symbols and pads as counted, at most two pads, and they come last |
| Base64.LengthFormula | source/src/flb_base64.c:200-212 | the overflow-free length is floor((6n + 7) / 8) less the pads, and never negative |
| Base64.DecodeFits | source/src/flb_base64.c:219-234 | the second pass never writes more than the length computed, exactly as much if no symbol is left over |
| Base64Layout.LayoutInvisible | source/src/flb_base64.c:162-198 | LF and CRLF anywhere, spaces before them and at the end change neither pass |
| Base64Layout.WrappedRoundTrip | source/src/flb_base64.c:155-239 | an encoding laid out in lines is accepted, its computed length is the original's, and it decodes to the original |
| Base64Codec.EncodeGroups | source/src/flb_base64.c:117-147 | the loops write the encoding and nothing behind it |
| Base64Codec.EncodeBuffer | source/src/flb_base64.c:88-150 | succeeds exactly if the encoding and a NUL fit, else says how much is needed and leaves the buffer alone |
| Base64Codec.CheckInput | source/src/flb_base64.c:162-198 | the first pass accepts and counts as specified |
| Base64Codec.ShiftPartial | source/src/flb_base64.c:223-227 | in 32 bits, stale high bits never reach the symbols of the group being read |
| Base64Codec.DecodingGroup | source/src/flb_base64.c:228-233 | a full group writes the bytes it encodes, as many as its pads leave, and they fit |
| Base64Codec.DecodeSymbols | source/src/flb_base64.c:219-234 | the second pass writes the decoded symbols and nothing behind them |
| Base64Codec.DecodeBuffer | source/src/flb_base64.c:155-239 | for every input: rejected exactly if the first pass rejects it, too small exactly if the computed length does not fit, else decoded; failures write nothing |
| Base64Codec.DecodeLines | source/src/flb_base64.c:155-239 | an encoding in any lines decodes into a buffer of exactly the original length, filling it with the original |
| ConnectionProtocol.NextInv | source/src/flb_downstream.c:207-545 | every step of accept start and end, timeout sweep, release and destroy sweep keeps the invariant |
| ConnectionProtocol.RunInv | source/src/flb_downstream.c:207-545 | in every interleaving each live connection is in exactly one queue, none is freed during its accept, each socket is closed at most once and before its object is freed |
| ConnectionProtocol.StepDoomed | source/src/flb_downstream.c:258-274 | a doomed connection stays doomed until a destroy sweep after its accept frees it |
| ConnectionProtocol.SweepTimeoutsDooms | source/src/flb_downstream.c:440-526 | a timeout sweep leaves every due connection it looks at in the destroy queue only, its socket closed, and every other one with its record and in its queue |
| ConnectionProtocol.AcceptDeadline | source/src/flb_downstream.c:276-526 | an accept that has not returned by its deadline is timed out by every sweep from then on, whatever happened before |
| ConnectionProtocol.PendingExactly | source/src/flb_downstream.c:276-526 | an accept under way is left alone by every step until a sweep past its deadline, which dooms it; without a timeout there is no deadline |
| ConnectionProtocol.EstablishedExactly | source/src/flb_downstream.c:276-526 | in every run an accepted connection is its owner's exactly until it is released or a sweep comes past its I/O deadline, and is doomed or freed from then on |
| ConnectionProtocol.IdleExactly | source/src/flb_downstream.c:342-526 | a sweep dooms an accepted connection if and only if an I/O timeout is configured and has passed since its last traffic, and else leaves it alone; the accept timeout plays no part any more |
| ConnectionProtocol.WaitsForAccept | source/src/flb_downstream.c:440-545 | a connection due at a timeout sweep during its accept outlives every sweep until the accept returns, its socket closed |
| ConnectionProtocol.WaitsForSweep | source/src/flb_downstream.c:528-545 | a doomed connection that no accept holds stays queued until the next destroy sweep |
| ConnectionProtocol.SweepDestroyExact | source/src/flb_downstream.c:528-545 | a destroy sweep frees exactly those it looks at that no accept holds; every other connection keeps record and queue |
| ConnectionProtocol.FreedAfterAccept | source/src/flb_downstream.c:276-545 | due at a timeout sweep during its accept, a connection is freed by the first destroy sweep after the accept returns, which it does by failing, and not before |
| Downstream.Connection.ResetConnectionTimeout | source/src/flb_connection.c:202-226 | a deadline is set only if an accept timeout is configured |
| Downstream.Stream.PrepareDestroy | source/src/flb_downstream.c:207-238 | refines dooming: socket closed once, moved to the destroy queue |
| Downstream.Stream.ConnGetStart | source/src/flb_downstream.c:276-340 | refines the start of an accept; a paused stream creates nothing |
| Downstream.Stream.ConnGetEnd | source/src/flb_downstream.c:342-369 | refines the return of an accept, good or bad, after anything that happened meanwhile |
| Downstream.Stream.ResetIoTimeout | source/src/flb_connection.c:237-250 | refines traffic: the I/O deadline moves if an I/O timeout is configured |
| Downstream.Stream.ConnRelease | source/src/flb_downstream.c:435-438 | refines release |
| Downstream.Stream.ConnTimeouts | source/src/flb_downstream.c:440-526 | the loop refines the timeout sweep while it takes entries out of the queue it walks: exactly the due connections are doomed, all others are as they were |
| Downstream.Stream.DestroyConn | source/src/flb_downstream.c:258-274 | frees a doomed connection, but not one whose accept is under way |
| Downstream.Stream.ConnPendingDestroy | source/src/flb_downstream.c:528-545 | the loop refines the destroy sweep while it takes entries out of the queue it walks: exactly the doomed connections that no accept holds are freed, all others are as they were |
| GzipHeader.WalkFinds | source/src/flb_gzip.c:447-541 | every header of the grammar, in all flag combinations, is measured exactly if more than eight bytes follow |
| GzipHeader.WalkSound | source/src/flb_gzip.c:447-541 | whatever is accepted is a header of the grammar with the right checksum, with more than eight bytes behind |
| GzipHeader.HeaderUnique | source/src/flb_gzip.c:447-541 | no input begins with two different headers |
| GzipHeader.SkipString | source/src/flb_gzip.c:487-505 | the loop ends behind the first NUL, or fails without reading past the input |
| GzipHeader.WalkHeader | source/src/flb_gzip.c:447-541 | on any bytes: accepts if and only if a header of the grammar and more than eight bytes are there, and returns its length |
| GzipHeader.KnownHeader | source/src/flb_gzip.c:447-541 | a header with an extra field and a checksum, byte for byte |
| GzipCodec.Le32Read | source/src/flb_gzip.c:72-78 | reading four bytes undoes writing them |
| GzipCodec.ReadLe32Back | source/src/flb_gzip.c:72-78 | and writing undoes reading |
| GzipCodec.KnownFooter | source/src/flb_gzip.c:72-78 | a footer byte for byte: checksum before size, lowest bytes first |
| GzipMembers.MemberSize | source/src/flb_gzip.c:610-676 | a member takes at least eighteen bytes and never more than there are, so peeling ends |
| GzipMembers.MemberFramed | source/src/flb_gzip.c:447-676 | a member given out stands between a header of the grammar and the checksum and length of its data |
| GzipMembers.InflateAllLawful | source/src/flb_gzip.c:550-610 | with a lawful inflater the calls give all the data and stop exactly behind the deflate stream, whatever follows |
| GzipMembers.CompressedComesBack | source/src/flb_gzip.c:233-249 | what the compressor wrote comes back, whatever follows it, and exactly the member is used up, if the data is less than the least the buffers are filled with |
| GzipMembers.MemberComesBack | source/src/flb_gzip.c:426-676 | so does data in a member with any header of the grammar |
| GzipMembers.CompressedOrNothing | source/src/flb_gzip.c:555-676 | whatever its size, a compressed member gives its data or nothing, and nothing if the hundred buffers cannot hold it |
| GzipMembers.Inflate | source/src/flb_gzip.c:550-610 | the loop stays within its hundred buffers, and the buffers joined are the inflate output |
| GzipMembers.Join | source/src/flb_gzip.c:646-660 | the output is the buffers one after the other |
| GzipMembers.UncompressMulti | source/src/flb_gzip.c:426-676 | on any bytes: succeeds exactly if header, inflate, size and checksum agree, and says how much is left |
| GzipMembers.UncompressAll | source/src/flb_gzip.c:426-676 | called until nothing is left, it gives back all members' data in order |
| GzipStages.Dispatch | source/src/flb_gzip.c:943-993 | on any bytes, a call only takes bytes off the front of the window, and fails exactly if it leaves the context broken |
| GzipStreaming.PastBody | source/src/flb_gzip.c:863-919 | a body call moves along the stream, or fails, and then it was shown nothing while something was still to be read |
| GzipStreaming.DispatchMoves | source/src/flb_gzip.c:943-993 | anywhere in a stream of members, with any window and any room: fails if and only if there is room and the call reaches the body with nothing to show to an inflater that needs something; else the bytes read leave what was ahead, the data given leaves what was owed, and a call with bytes and room does something unless it waits for header or footer bytes |
| GzipStreaming.HeaderAloneBreaks | source/src/flb_gzip.c:943-993 | the first n bytes of a member break a fresh context exactly if n is ten |
| GzipStreaming.EmptyWindowBreaks | source/src/flb_gzip.c:943-993 | a header taken without room for output leads to a call on an empty window, which the check for it does not stop and which breaks the context |
| GzipFlagged.FlaggedExactly | source/src/flb_gzip.c:683-861 | behind a header of the grammar the decompressor is left with just the body if and only if extra field and name fit sixteen bits, the name is not empty, there is no comment and the checksum agrees with that of the ten bytes with flags cleared |
| GzipFlagged.CommentStays | source/src/flb_gzip.c:800-814 | a comment leaves its NUL in front of the body |
| GzipFlagged.EmptyNameWaits | source/src/flb_gzip.c:777-793 | an empty name stops the decompressor for good, whatever follows |
| DecompressionWindow.Context.AdjustBuffer | source/src/flb_compression.c:42-59 | past the middle the unread bytes move to the front, unchanged; otherwise nothing moves |
| DecompressionWindow.Context.GetAvailableSpace | source/src/flb_compression.c:73-93 | the space is what is free behind the unread bytes, never negative; with them it is at least half the buffer |
| DecompressionWindow.Context.GetAppendBuffer | source/src/flb_compression.c:61-71 | points right behind the unread bytes and does not move them again after a space query |
| DecompressionWindow.Context.Fill | source/plugins/in_tail/tail_file.c:1716-1764 | what is read joins the back of the window, exactly as much as fits once the unread bytes have moved up; if not all fits, at least half the buffer is unread |
| DecompressionWindow.Context.ProcessGzipHeader | source/src/flb_gzip.c:683-740 | refines the header stage: ten bytes or none |
| DecompressionWindow.Context.ProcessOptionalHeaders | source/src/flb_gzip.c:742-861 | refines the optional header stage with its sixteen-bit lengths, never leaving the window |
| DecompressionWindow.Context.ProcessBodyChunk | source/src/flb_gzip.c:863-919 | refines the body stage; never gives more than there is room for |
| DecompressionWindow.Context.ProcessGzipFooter | source/src/flb_gzip.c:922-941 | eight bytes or none, and an emptied window starts again at the front |
| DecompressionWindow.Context.Decompress | source/src/flb_gzip.c:943-993 | refines a whole dispatch, the read position following the bytes read and starting again at the front exactly where a footer empties the window |
| DecompressionWindow.QueueFifo | source/src/flb_compression.c:27-93 | in any run of appends, space queries and calls, on any bytes and with any inflater: bytes read followed by the window are the first window followed by everything accepted |
| DecompressionWindow.Execute | source/src/flb_compression.c:27-93 | any run of appends, space queries and calls accepts, reads and gives what the queue of unread bytes specifies, byte for byte, and leaves the window and its place in the buffer as specified |
| GzipFile.Round | source/plugins/in_tail/tail_file.c:1702-1783 | one round of filling and decompressing fails if and only if a header is expected and window and bytes accepted come to ten, which in a buffer of more than twenty bytes the caller can tell beforehand; else it makes progress |
| GzipFile.ReadFile | source/plugins/in_tail/tail_file.c:1702-1783 | a file of members, read in any pieces into a window of at least twenty bytes and decompressed into rooms of any sizes: the run ends; it gives all the data in order if and only if no round comes to a header with exactly ten bytes; pieces over ten bytes in a buffer over twenty always succeed, a first piece of ten never does; until a failure what it gave is a prefix |

## Left out

- MapHistory.LookupIsLastSet: tables that evict or expire, where a value may be gone; `MapLives.ExpiresExactly` and `MapLives.HeldInTime` say when.
- MapHistory.OrderIsBirth: tables that evict or expire, where an entry may be gone and added anew; the order they keep is in `MapLives.OrderSurvives`.
- GzipMembers.CompressedComesBack: between the least and the most that the buffers are filled with, whether the data comes back depends on how the inflater fills them.
- GzipMembers.UncompressAll: the same bound for each member.
- DecompressionWindow.Context.ProcessOptionalHeaders: refines the stage as it is; which headers of the grammar it skips rightly is in `GzipFlagged.FlaggedExactly`.
- GzipFlagged.FlaggedExactly: headers with both a comment and an extra field of 65534 bytes or more are not covered, because what is then skipped depends on the bytes of the extra field; headers that are cut by the end of the window are not either.
- HTTP header parsing and bodies with a content length: the body model starts at a known header end.
- Chunk extensions, trailers and bytes behind the last chunk in the well-formed bodies; the decoders themselves take any bytes.
- Response and idle timeouts of the HTTP client, HTTP/1.0 and HTTP/2.
- Allocation failure everywhere, and buffers longer than their types can measure; what the C code does once a chunk size has overflowed or wrapped.
- `flb_hash_table_get_by_id` and `flb_hash_table_del_ptr`, which compare keys more loosely; keys with NUL bytes.
- Environment values that are read again from files on a schedule, and dumping the environment.
- `flb_decompression_context_resize_buffer`: the window has a fixed size.
- Deflate and inflate themselves, CRC-32 (an arbitrary function) and other compression formats; the magic number of the stateful header is compared as bytes, as on a little-endian host.
- UDP and Unix datagram connections, TLS handshakes, the event loop and `flb_downstream_destroy`; that an accept on a closed socket fails is assumed.
- Engine scheduling, retries, plugins, configuration, metrics and storage.
