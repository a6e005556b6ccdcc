# Verified models of the c-icap server core

c-icap is an ICAP server (RFC 3507). This project models the parts of it that work on byte streams and on hand-built
data structures, and proves what each of them promises. Sockets appear as arbitrary schedules (a read returns any
number of bytes, a write takes any prefix or fails), services and clients as arbitrary adversaries, memory as a
parameter that says whether an allocation succeeds. Nothing else bounds the theorems: they hold for all streams,
schedules, runs and states.

`dafny verify dfyconfig.toml` checks everything.

| file | component |
|---|---|
| `Common.dfy` | what several components share |
| `Text.dfy`, `Numerals.dfy` | C text functions: CRLF search, `strtol` with its clamping, `%x` and `%d`; the same told from the sixteen digits |
| `ChunkDecoder.dfy`, `ChunkReader.dfy` | the meaning of a chunked body as a function of the whole stream, and the incremental parser over its refilled buffer, which computes that function |
| `Grammar.dfy` | the chunked bodies that a recipient must understand, and the sizes that wrap around |
| `ResponseSender.dfy`, `EndToEnd.dfy` | the encoder and the sender with partial writes; sender and parser joined |
| `ReplyMachine.dfy` | preview, 100, 204 and 206 decisions against any service |
| `HeaderReader.dfy`, `HeaderBlock.dfy`, `Encapsulated.dfy` | finding the end of a header, indexing it in place and putting it back, the `Encapsulated` offsets |
| `LocalCache.dfy`, `HashIndex.dfy` | the TTL cache as a timed map, the hash index against the linear table |
| `BufferPool.dfy`, `PackVector.dfy` | size-class pools, the two-ended pack allocator with its vectors and their stored form |
| `RingBuffer.dfy`, `LinkedList.dfy`, `Md5.dfy`, `Base64.dfy` | the smaller structures and codecs |

## What the code does not give

Where a natural promise does not hold of the code, the model follows the code and the contract says exactly when
the promise holds.

* A chunk size line that is blank before its CRLF, or a zero chunk whose `use-original-body=` is followed by blanks
  only, makes the parser look for the number in bytes that have not arrived. `ChunkDecoder.ClearExactly` states that
  the lines free of this are exactly those whose meaning does not depend on such bytes.
* The length of a chunk with its CRLF is an unsigned 32-bit number. A size of 2^32-2 (or -2) ends the body
  (`Grammar.WrappedEnd`, `Grammar.MinusTwoEnds`), 2^32-1 leaves one byte to come, and for the sizes from 2^31-2 to
  2^32-3 the parser goes back over bytes it has read, by one for the largest up to 2^31 for the smallest:
  `ChunkReader.Reader.StepBack` states that it stays in its buffer if and only if there are so many bytes before the
  read position, and `Grammar.GoBack` shows both sides, and the size on which it turns in a circle.
* Streams with such a line or size have the outcome `Unclear`, and nothing is promised about their payload. A definition line
  longer than the buffer is malformed. The two bytes behind the data of a chunk are not looked at.
* Three header entities in a row would make the sender repeat the third for ever: `ResponseSender.WireOrder` states
  that enough writes lead to success if and only if there are not three.
* A service that answers 204 outside preview, with 204 allowed, and leaves its data unlocked makes the loop that only parses the body
  prepare another response, and if a later round of that loop writes before the body ends, a second status line is on
  the wire: `ReplyMachine.Request.DoRequest` states that a run is orderly if and only if this does not happen.
* A block taken from the system because its pool could not grow is smaller than its class:
  `BufferPool.Buffers.Alloc` keeps the pool invariant if and only if this does not happen.
* A vector `add` that finds room for the index entry but not for the item loses the entry:
  `PackVector.Vector.Add` keeps the invariant if and only if no entry was taken.
* `ci_headers_pack` adds two bytes only if the byte behind the block is a line feed, otherwise one.
* A ring buffer that is empty with its write position past the start takes fewer bytes than it has room for:
  `RingBuffer.Ring.Write` gives the exact number.
* `ci_list_remove` leaves `last` behind when the last node goes: `LinkedList.List.Remove` states that the list stays
  valid if and only if another node goes.
* An object that cannot be allocated costs its list node: `LinkedList.List.NothingLost` states that list and trash are
  all nodes ever made if and only if this never happened.
* The unsigned bounds of `ci_base64_encode` wrap around for short data or little room: `Base64.Encode` states that it
  stays in bounds if and only if there is room for four bytes and either at least three bytes of data or no room
  for more.
* A header list without the line feed behind its lines, as after a reset, is counted one byte too long: the
  offsets in `Encapsulated` are right if and only if every header block before the last entity has it
  (`Encapsulated.PackMessage`).
* `process_encapsulated` stores a sixth entity behind its array of five: such lines are `Unsafe` in
  `Encapsulated.ProcessEncapsulated`.

## Model

| member | source | states |
|---|---|---|
| `Text.StrtolSettled` | c-icap/request_common.c:556-556 | What `strtol` reads from a clear line does not depend on the bytes behind the line |
| `Text.StrtolOfDigits` | c-icap/request.c:773-816 | A number printed in hexadecimal or decimal is read back, up to LONG_MAX |
| `Numerals.PlacesInOrder` | c-icap/request_common.c:556-556 | The digit at each of the sixteen places has that place as its value, in upper and in lower case |
| `Numerals.DigitIsPlace` | c-icap/request_common.c:556-556 | The value of a character is its place among the digits; no other character is a digit |
| `Numerals.ValueIsNumeral` | c-icap/request_common.c:556-556 | The value of a digit run is the positional number of its digits |
| `Numerals.CaseIsFree` | c-icap/request_common.c:556-556 | A number is the same when it is put in lower case |
| `Numerals.StrtolReads` | c-icap/request_common.c:556-556 | White space, a sign, perhaps `0x`, and digits are read as the signed number cut to a `long`, up to the end of the digits |
| `Numerals.SpaceCharacters` | c-icap/request_common.c:565-580 | Which characters are white space and which are blanks |
| `Numerals.PrintedIs` | c-icap/request.c:773-816 | A printed number is its numeral, in lower case and without leading zeros |
| `ChunkDecoder.DefinitionSettled` | c-icap/request_common.c:536-622 | What a chunk definition means depends on its own line and at most two bytes behind it, not on how much more is in the buffer |
| `ChunkDecoder.DefinitionAgrees` | c-icap/request_common.c:536-622 | The definition read from a partly filled buffer, with any stale bytes behind it, is the definition of the whole stream, except that a zero chunk may still await its CRLF |
| `ChunkDecoder.ClearExactly` | c-icap/request_common.c:536-622 | A line is clear if and only if its definition is the same whatever stale bytes lie behind the received ones |
| `ChunkDecoder.BlankLine` | c-icap/request_common.c:556-566 | A blank size line takes its size from behind its CRLF: with one stale byte it is a chunk of five bytes, with another an error |
| `ChunkDecoder.BlankOffset` | c-icap/request_common.c:579-592 | A blank offset of a zero chunk is taken from behind the closing CRLF |
| `ChunkDecoder.DefineStable` | c-icap/request_common.c:536-622 | More input never changes a definition that has been settled |
| `ChunkDecoder.DecodeStable` | c-icap/request_common.c:524-652 | More input only extends the outcome: a finished or refused body stays so, what follows it goes to the rest, and payload is never taken back |
| `ChunkDecoder.DecodeLocal` | c-icap/request_common.c:524-652 | A finished body is finished by its own bytes alone |
| `ChunkDecoder.PrefixesAgree` | c-icap/request_common.c:524-680 | Any two prefixes in which the body ends give the same payload, extension, offset and end point |
| `ChunkDecoder.FoundExactly` | c-icap/request_common.c:524-652 | The end is found exactly in the prefixes that contain it |
| `ChunkReader.DefineStream` | c-icap/request_common.c:536-622 | What the parser reads off its buffer agrees with the definition at the head of every stream that starts with the unread bytes |
| `ChunkReader.TakeDefinition` | c-icap/request_common.c:536-622 | Taking a definition off the buffer advances the decoding of every continuation |
| `ChunkReader.TakeLast` | c-icap/request_common.c:553-612 | Taking the zero chunk finishes the decoding of every continuation, with its extension and offset |
| `ChunkReader.RefuseDefinition` | c-icap/request_common.c:536-622 | A refusal, or a full buffer without a line end, means that every continuation is malformed |
| `ChunkReader.WaitForDefinition` | c-icap/request_common.c:541-556 | When the parser waits, the stream so far has no further payload and no end, nor a mistake unless the buffer is full to the last byte |
| `ChunkReader.TakeData` | c-icap/request_common.c:624-649 | Taking any part of a chunk and of its closing CRLF hands out exactly the data bytes among them |
| `ChunkReader.Reader.NetDataRead` | c-icap/request_common.c:654-680 | A refill moves the unread bytes to the front and appends to them what fits; it fails only on a full buffer or a failed read, and then changes nothing |
| `ChunkReader.Reader.ParseDefinition` | c-icap/request_common.c:541-606 | The definition step advances, finishes or rejects every continuation, or waits for more; it takes exactly the definition and sets the bytes to come |
| `ChunkReader.Reader.TakeChunkData` | c-icap/request_common.c:624-649 | The data step hands out the payload among the unread bytes and counts it, also across a split closing CRLF |
| `ChunkReader.Reader.StepBack` | c-icap/request_common.c:618-630 | A negative number of bytes to come moves the read position back by it, inside the buffer if and only if that many bytes are before it |
| `ChunkReader.Reader.DefinitionTurn` | c-icap/request_common.c:541-612 | One turn at a definition carries on what has been handed out so far |
| `ChunkReader.Reader.DataTurn` | c-icap/request_common.c:613-649 | One turn at data hands out what is there, or goes back, which only an unclear stream brings about |
| `ChunkReader.Reader.ParseChunkData` | c-icap/request_common.c:524-652 | One call: what it hands out, what is left and its verdict agree with the decoding of every continuation, and it asks for more only when nothing more can be said; it leaves the buffer only as `StepBack` says; pending data is an error that changes nothing |
| `ChunkReader.Reader.ReadBody` | c-icap/request.c:1000-1011 | For every stream and schedule of reads: all payload in the bytes consumed is delivered and counted, no other, and the end, the flags and the leftover are those of the decoding; it consumes at least a byte for every read that brings something, up to the end of the stream |
| `ChunkReader.Reader.ReadPreview` | c-icap/request.c:565-612 | The preview is the decoded payload, `ieof` decides the answer, and what follows in the buffer is dropped; before the end it is the payload so far, and only a failed read fails |
| `ChunkReader.PrefixOfDone` | c-icap/request_common.c:524-652 | No prefix of a stream with a whole body is refused, and its payload is a prefix |
| `ChunkReader.ReadOnce` | c-icap/request_common.c:524-680 | On a stream with a whole body, enough reads of any sizes end with CI_EOF, the whole payload, and the rest of the stream untouched |
| `ChunkReader.SplitIndependence` | c-icap/request_common.c:524-680 | Two parsers that read one stream in different pieces deliver the same payload, count, flags, parser state and end point, and with enough reads both finish |
| `ResponseSender.TerminatorFits` | c-icap/request.c:773-816 | The zero chunk with any offset fits the space it is printed into |
| `ResponseSender.Sender.SendCurrentBlock` | c-icap/request.c:745-770 | The bytes the socket takes leave the block and join the stream; a failed write changes nothing |
| `ResponseSender.Sender.FormatChunk` | c-icap/request.c:773-816 | Size line and CRLF are put around the data in place, and the block is the chunk of section 3.6.1 of RFC 2616 |
| `ResponseSender.Sender.FormatEnd` | c-icap/request.c:773-816 | The end of the body becomes the zero chunk, with `use-original-body` for a 206 |
| `ResponseSender.Sender.StartResponse` | c-icap/request.c:841-855 | The head becomes the current block; what was promised before the start is promised now, with the request head of a RESPMOD dropped and two entities moved up, as `ResponseSender.Shapes` spells out |
| `ResponseSender.Sender.NextBlock` | c-icap/request.c:864-892 | Each step takes one block off the queue and loses nothing; only the third header block is followed by itself |
| `ResponseSender.Sender.UpdateSendStatus` | c-icap/request.c:836-896 | The steps only go forward, except at a third header block; what is to be sent stays the same, and CI_EOF comes exactly at the end |
| `ResponseSender.Sender.NextPiece` | c-icap/request.c:1132-1147 | A piece of the service's body becomes the chunk that is due, and nothing is lost or repeated |
| `ResponseSender.Sender.Flush` | c-icap/request.c:1120-1130 | For any sequence of partial writes, sent and pending bytes together stay the same; writes that take something are used up before it fails |
| `ResponseSender.Sender.Advance` | c-icap/request.c:1132-1149 | Pending bytes and everything behind them are what was due before; only a failing service is an error |
| `ResponseSender.Sender.SendRound` | c-icap/request.c:1119-1149 | One turn of the loop keeps what is due and makes progress in the writes, the service's pieces or the steps |
| `ResponseSender.Sender.SendRemaining` | c-icap/request.c:1101-1155 | The stream is a prefix of what is due, all of it on success, and enough writes that take something force success; behind three header blocks every run sends the third again until the writes are used up |
| `ResponseSender.Shapes` | c-icap/request.c:710-718 | The responses of a RESPMOD and a REQMOD, entity by entity: the request head of a RESPMOD is dropped, the other head follows the ICAP head, and then the body unless it is a null-body |
| `ResponseSender.WireOrder` | c-icap/request.c:745-896 | From SEND_NOTHING and for every write schedule: head, header blocks in order, chunks and terminator, each byte once; with enough writes the run succeeds if and only if there are not three header entities in a row; a RESPMOD of two heads or one and a REQMOD send exactly the ICAP head, the block that belongs there and the body, or nothing behind it for a null-body |
| `EndToEnd.ChunkDecodes` | c-icap/request.c:773-816 | A chunk that the sender formats is decoded to its data, whatever follows |
| `EndToEnd.PlainEnd` | c-icap/request.c:773-816 | The plain zero chunk ends a body without extension |
| `EndToEnd.OriginalEnd` | c-icap/request.c:773-816 | The zero chunk of a 206 gives back its offset |
| `EndToEnd.BodyDecodes` | c-icap/request_common.c:524-652 | Decoding undoes encoding for every list of blocks, with the offset of a 206 |
| `EndToEnd.PrefixVerdict` | c-icap/request_common.c:524-652 | No proper prefix of a body is taken for the whole, none is refused, and its payload is a part of the whole |
| `EndToEnd.Send` | c-icap/request.c:1101-1155 | For every write schedule the wire carries a prefix of the encoded body, and with enough writes all of it |
| `EndToEnd.Transfer` | c-icap/request_common.c:524-680 | For every list of blocks, write schedule and read schedule, the receiver gets a prefix of the concatenated blocks, and all of it with the offset and CI_EOF exactly when the whole wire has been consumed, which enough writes and reads bring about |
| `Grammar.SizeLineDefines` | c-icap/request_common.c:556-606 | Every size line, its size being the number that its digits denote in either case, with leading zeros and blanks, is clear and announces this size with two bytes more as an unsigned 32-bit number |
| `Grammar.PieceDecodes` | c-icap/request_common.c:524-652 | Every chunk of the grammar decodes to its data, as many bytes as its digits denote, whatever two bytes close it |
| `Grammar.EndDecodes` | c-icap/request_common.c:565-594 | A zero with or without `; ieof` ends the body and is told apart |
| `Grammar.GrammarDecodes` | c-icap/request_common.c:524-652 | Every body of the grammar is understood, with the data of its chunks as payload |
| `Grammar.NoNumberRefused` | c-icap/request_common.c:556-562 | A line that starts with no number is refused |
| `Grammar.JunkRefused` | c-icap/request_common.c:565-602 | A size that is followed by something else than blanks and the line end, or a semicolon if it is zero, is refused |
| `Grammar.ExtensionRefused` | c-icap/request_common.c:568-586 | A zero chunk with an extension other than `ieof` and `use-original-body=` is refused |
| `Grammar.TwoBytesClose` | c-icap/request_common.c:565-594 | Of the two bytes behind the line of a zero chunk the first must be a CR or the second a LF, otherwise the body is refused |
| `Grammar.LongLineRefused` | c-icap/request_common.c:541-556 | A definition that fills the buffer without a line end is refused |
| `Grammar.WrappedEnd` | c-icap/request_common.c:593-609 | A size of 2^32-2 ends the body behind its line |
| `Grammar.MinusTwoEnds` | c-icap/request_common.c:556-609 | So does a size of -2 |
| `Grammar.GoBack` | c-icap/request_common.c:593-630 | For every size that goes back: it leaves the buffer if and only if it goes back further than the line is long, and stands where it stood if just as far |
| `ReplyMachine.Request.Respond` | c-icap/request.c:628-682 | One final status line goes out, and nothing can start after it |
| `ReplyMachine.Request.UpdateSendStatus` | c-icap/request.c:836-896 | The head is made ready once, with the return code of the moment |
| `ReplyMachine.Request.SendCurrentBlock` | c-icap/request.c:745-770 | A status line is on the wire once some of its bytes are; a failed write sends nothing |
| `ReplyMachine.UnlockedLeaves` | c-icap/request.c:929-1097 | While the body is only parsed and the data is unlocked, another head leaves if and only if some round after the first writes before anything fails |
| `ReplyMachine.LockedStaysIdle` | c-icap/request.c:929-1097 | While the body is only parsed and the data is locked, no response is prepared |
| `ReplyMachine.BegunExactly` | c-icap/request.c:929-1097 | In rounds that do not fail, a response is begun if and only if one of them finds the data unlocked |
| `ReplyMachine.Request.GetSendBody` | c-icap/request.c:929-1097 | After the rounds a response is untouched, prepared or on the wire exactly as the rounds say, with the code it was prepared with; rounds without failure and a complete body succeed |
| `ReplyMachine.Request.BodyRound` | c-icap/request.c:957-1070 | One round takes the response to the next phase, and fails only if its read, its write or the service does |
| `ReplyMachine.Request.SendRemaining` | c-icap/request.c:1101-1155 | A prepared head goes out, a response is started only if none was, and it succeeds exactly when the rest can be sent or nothing is left |
| `ReplyMachine.Request.DoRequestPreview` | c-icap/request.c:1333-1402 | What is sent, the return code and the result are those of the decision on the handler's answer: 408, 204, 206 to come, 500, or 100 Continue exactly when the preview ended without `ieof` and the service wants more |
| `ReplyMachine.Request.DoFakePreview` | c-icap/request.c:1406-1480 | Outside preview there is no Continue; 204, 206, 200 and 500 follow the handler's answer and the client's leave, two status lines are written exactly in the `Twice` case, and the connection is kept exactly when nothing failed or the answer was already out |
| `ReplyMachine.Request.DoEndOfData` | c-icap/request.c:1485-1525 | At most one status line, only if none was started, with the code that the handler's answer asks for and the client permits; a started response keeps its code |
| `ReplyMachine.Request.Conclude` | c-icap/request.c:1625-1645 | End-of-data handler and rest of the response: one line at most, with the late code or the one it was prepared with |
| `ReplyMachine.Request.Complete` | c-icap/request.c:1611-1645 | Behind the preview step at most one final line goes out, with the code that body, handler and begun response decide |
| `ReplyMachine.Request.Decided` | c-icap/request.c:1333-1480 | The decision on each answer of the preview handler, from the request's fields: 408, no content, partial, full with or without a body to read, 500 for all others; and when a Continue comes first |
| `ReplyMachine.Request.DecidedLate` | c-icap/request.c:1485-1525 | The code for each answer of the end-of-data handler, as long as nothing has been begun |
| `ReplyMachine.Request.CarriedOut` | c-icap/request.c:1587-1649 | What a modification run sends is `AsAsked`: status line by status line, in terms of the answers, the rounds and the request's fields only |
| `ReplyMachine.Request.Ask` | c-icap/request.c:1587-1604 | The preview step in either form carries out the decision |
| `ReplyMachine.Request.Admit` | c-icap/request.c:1528-1584 | A request that cannot be read, whose service is not ready, whose client is denied or whose encapsulated headers are wrong is refused with its code and the connection is closed; any other is left as it is |
| `ReplyMachine.Request.Modify` | c-icap/request.c:1587-1649 | A modification run is orderly if and only if it is not the `Twice` case, what it sends is the Continue and the final line that the service's answers decide, it sends a final line whenever one is decided and the network lets it, and it succeeds if service, network and client do their part; the branch for other return codes is dead |
| `ReplyMachine.Request.DoRequest` | c-icap/request.c:1528-1660 | For every request and service: at most one Continue, before the one final status line, if and only if not `Twice`; Continue exactly in a preview with more to come; 204 and 206 only as permitted; success means answered, and a smooth request succeeds. Without reference to the decision functions: the lines sent for a refused request, for OPTIONS, for an unreadable preview (408), for a 204, 206, CONTINUE or other answer (500) inside and outside preview, for each answer of the end-of-data handler when nothing was begun, and 200 when something was; the connection stays open on success |
| `HeaderReader.FirstEohStable` | c-icap/request.c:217-257 | The first CRLFCRLF stays the first when more arrives |
| `HeaderReader.SearchNew` | c-icap/request.c:217-257 | The server's search from `startsearch` finds the first CRLFCRLF of the whole buffer or shows there is none |
| `HeaderReader.ReadIcapHeader` | c-icap/request.c:217-257 | For every schedule of reads the server cuts the stream at its first CRLFCRLF or has not met one, and with reads enough it does |
| `HeaderReader.WindowSuffices` | c-icap/request_common.c:952-983 | Three bytes kept back are enough to find a CRLFCRLF across any cut |
| `HeaderReader.FindEoh` | c-icap/request_common.c:952-983 | The search finds the first CRLFCRLF of the bytes at hand |
| `HeaderReader.ClientParse` | c-icap/request_common.c:952-983 | One call cuts at the first CRLFCRLF, or moves all but three bytes and loses none |
| `HeaderReader.ClientReadHeader` | c-icap/request_common.c:952-983 | For every schedule of reads the client cuts the stream at its first CRLFCRLF or has not met one, and with reads enough it does |
| `HeaderReader.CutsAgree` | c-icap/request_common.c:952-983 | Two readers, whatever they read at once, agree on header, leftover and byte counts |
| `HeaderReader.ReadBoth` | c-icap/request_common.c:952-983 | A server run and a client run of one stream find the same header, leftover and byte counts, and with reads enough both find it |
| `HeaderReader.ReadsSuffice` | c-icap/request.c:217-257 | As many reads as there are bytes up to the end of the header suffice, if each brings something |
| `HeaderBlock.ScanStep` | c-icap/header.c:559-590 | One step of the scan closes a logical line exactly at its end, and leaves folded lines together |
| `HeaderBlock.FoldsAreLogical` | c-icap/header.c:565-590 | A CRLF that a space or a tab follows keeps a logical line together |
| `HeaderBlock.LinesLookLike` | c-icap/header.c:516-601 | Lines are text with CRLF or LF on the wire, and text with a NUL in place of the CR or LF in edit mode |
| `HeaderBlock.Headers.ScanOn` | c-icap/header.c:565-597 | One turn of the scan moves on, touches nothing behind the block, and keeps index and bytes in step with the lines of a good block |
| `HeaderBlock.PackStep` | c-icap/header.c:521-534 | One step of packing restores the line end of one line and no other byte |
| `HeaderBlock.Headers.Unpack` | c-icap/header.c:542-601 | Succeeds exactly on blocks with a line end; a well-formed block is indexed line by line, in order, with its bytes kept |
| `HeaderBlock.IndexFinds` | c-icap/header.c:542-601 | There are as many indexed strings as lines, and each is the text of its line up to a NUL |
| `HeaderBlock.Headers.Pack` | c-icap/header.c:516-540 | The lines with their line ends, and the closing empty line exactly if its line feed is there |
| `HeaderBlock.Headers.UnpackThenPack` | c-icap/header.c:516-601 | Unpack and pack restore the block's bytes and append CRLF |
| `HeaderBlock.Headers.Reset` | c-icap/header.c:213-218 | No lines are left |
| `HeaderBlock.Headers.Reserve` | c-icap/header.c:240-250 | Growing keeps the used bytes; failure changes nothing |
| `HeaderBlock.Headers.Reindex` | c-icap/header.c:251-253 | The index rebuilt from string lengths is the index of the lines |
| `HeaderBlock.Headers.Add` | c-icap/header.c:220-266 | The line comes after all others and is followed by the closing line; a packed list and failed allocations are left as they were |
| `HeaderBlock.Headers.AddHeaders` | c-icap/header.c:268-312 | The lines of the other list follow in order; a packed list and failed allocations are left as they were |
| `Encapsulated.TokenOfItem` | c-icap/header.c:662-700 | A printed `name=offset` is read back, with the place where it ends |
| `Encapsulated.ItemsReadBack` | c-icap/request_common.c:488-515 | A printed list is parsed to the same list if it fits the five slots, and goes behind them if not |
| `Encapsulated.LineReadBack` | c-icap/request_common.c:97-150 | The printed `Encapsulated` line is parsed to the same types and offsets, an empty one to `null-body=0`, and one of more than five entities goes behind the slots |
| `Encapsulated.LinesLookLike` | c-icap/request_common.c:97-150 | The printed lines of the usual messages, character by character |
| `Encapsulated.ProcessEncapsulated` | c-icap/request_common.c:488-515 | The loop computes that parse, with the store behind the last slot, and there is a body unless a `null-body` was named |
| `Encapsulated.UnknownRefused` | c-icap/request_common.c:498-502 | A line whose next item starts with none of the five names is a bad request |
| `Encapsulated.AnySeparators` | c-icap/request_common.c:499-511 | Items may be separated by any white space and commas |
| `Encapsulated.SizeIsWireLength` | c-icap/header.c:702-708 | The size an entity is counted with is the number of bytes it packs to, or one more if its closing line feed is missing |
| `Encapsulated.CountIsLength` | c-icap/request_common.c:110-122 | The counted size of the blocks before an entity is their length on the wire if and only if they are all closed, and larger otherwise |
| `Encapsulated.SizeOfEntity` | c-icap/header.c:702-708 | `sizeofencaps` gives the counted size |
| `Encapsulated.Offsets` | c-icap/request_common.c:110-122 | Each offset is the total counted size of the entities before it |
| `Encapsulated.PackAll` | c-icap/request_common.c:139-142 | Every header block is packed to its lines and the closing empty line, or a bare line feed |
| `Encapsulated.PackMessage` | c-icap/request_common.c:97-150 | The printed offsets are the places of the packed blocks if and only if every header block before the last entity is closed |
| `LocalCache.CutLink` | c-icap/cache.c:318-329 | Cutting the one link to the oldest entry leaves each chain the live entries of its bucket, newest first |
| `LocalCache.OnlyOneLinksToHead` | c-icap/cache.c:318-329 | At most one entry is chained to the oldest one |
| `LocalCache.RotateChains` | c-icap/cache.c:369-381 | Moving the oldest entry to the end and to the head of its new chain keeps all chains in order |
| `LocalCache.RememberWithoutHead` | c-icap/cache.c:294-333 | Evicting an expired head forgets nothing that had not expired |
| `LocalCache.RememberNew` | c-icap/cache.c:369-381 | The new entry becomes what its key is remembered by |
| `LocalCache.LatestOfIs` | c-icap/cache.c:239-276 | The latest entry of a key is the last in the queue that holds it |
| `LocalCache.Cache.HeadOfChain` | c-icap/cache.c:318-329 | The evicted head is in the bucket it says and is the last of its chain |
| `LocalCache.Cache.constructor` | c-icap/cache.c:136-212 | At least two entries make an empty valid cache |
| `LocalCache.Cache.LatestByKey` | c-icap/cache.c:239-276 | What the chains take for the latest entry of a key is the last entry of the queue with it |
| `LocalCache.Cache.Search` | c-icap/cache.c:239-276 | A hit if and only if the last queue entry with the key is not older than the TTL, at the TTL itself too, and then its value; this is the last value stored for the key, and one younger than the TTL is always hit |
| `LocalCache.Cache.Predecessor` | c-icap/cache.c:318-329 | The walk along the chain stops at the entry before the head |
| `LocalCache.Cache.UnlinkHead` | c-icap/cache.c:318-329 | The head leaves its chain and all chains stay in order |
| `LocalCache.Cache.ClearHead` | c-icap/cache.c:308-333 | An entry that is in no chain is emptied without touching the chains |
| `LocalCache.Cache.EvictHead` | c-icap/cache.c:308-333 | The head is emptied and out of all chains, the rest is as before |
| `LocalCache.Cache.Rotate` | c-icap/cache.c:371-375 | The queue is turned by one entry |
| `LocalCache.Cache.Refill` | c-icap/cache.c:369-375 | Key, value, time and hash of the new entry come last in the queue, and those of all others move up unchanged |
| `LocalCache.Cache.Requeue` | c-icap/cache.c:369-381 | The new entry is last in the queue and first in its chain |
| `LocalCache.Cache.Expire` | c-icap/cache.c:294-333 | Emptying the expired oldest entry keeps the invariant: nothing that counts is forgotten |
| `LocalCache.Cache.Store` | c-icap/cache.c:369-381 | The timed map gets the new value and the invariant holds |
| `LocalCache.Cache.Update` | c-icap/cache.c:278-385 | Succeeds exactly when the oldest entry has expired and memory is there; the timed map changes at this key only; the invariant holds also after failed allocations |
| `HashIndex.MaskKeepsLowBits` | c-icap/hash.c:25-43 | Masking with 2^n-1 is the remainder by 2^n |
| `HashIndex.AccumulateIs` | c-icap/hash.c:25-43 | The loop computes the polynomial modulo 2^64 |
| `HashIndex.PolynomialIs` | c-icap/hash.c:27-33 | The polynomial is 5381 times 33 to the length, plus the sum of the bytes times their powers of 33 |
| `HashIndex.BucketIs` | c-icap/hash.c:25-43 | The bucket is the low bits of the polynomial over the key bytes and their NUL, or of one if it is zero |
| `HashIndex.ComputeHash` | c-icap/hash.c:25-43 | The loop gives the bucket of the key, always in range |
| `HashIndex.TableSize` | c-icap/hash.c:45-75 | The size is a mask of at least 63, holds the items or is at least 0xFFFFFF, and is the least such |
| `HashIndex.ChainFindsLast` | c-icap/hash.c:93-107 | A chain, newest first, gives the last row of a key, whatever else is in the bucket |
| `HashIndex.Table.Add` | c-icap/hash.c:109-132 | The row is added to the table and every bucket holds its rows, newest first |
| `HashIndex.Table.Search` | c-icap/hash.c:93-107 | The last row added with this key |
| `HashIndex.FileTableSearch` | c-icap/lookup_file_table.c:292-312 | The first row with this key |
| `HashIndex.HashTableOpen` | c-icap/lookup_file_table.c:337-361 | The table holds the rows of the file in order |
| `HashIndex.TablesAgree` | c-icap/lookup_file_table.c:292-392 | First and last row of a key both exist or both do not, and agree for a key that occurs once |
| `HashIndex.Compare` | c-icap/lookup_file_table.c:337-392 | Both searches miss together; the hash finds the last and the walk the first row, so they agree on a key that no two rows have |
| `BufferPool.ClassesFit` | c-icap/mem.c:150-228 | A class holds what it is chosen for, and is chosen again for its own size |
| `BufferPool.LeastClass` | c-icap/mem.c:119-228 | Up to 32768 the block size is the least of the ten class sizes that is large enough, so less than twice a size above 64; larger sizes are their own |
| `BufferPool.ClassesMonotone` | c-icap/mem.c:150-228 | Smaller sizes never lead to larger classes |
| `BufferPool.InPlaceFits` | c-icap/mem.c:230-264 | A block that keeps its place in a `realloc` is large enough for the class it will be freed into |
| `BufferPool.Buffers.PoolAlloc` | c-icap/mem.c:793-823 | The block freed last leaves the free list, or a new one of the item size is made; a list item becomes spare; the other pools stay |
| `BufferPool.Buffers.PoolFree` | c-icap/mem.c:825-843 | The block heads the free list of its pool if there is a spare list item |
| `BufferPool.Buffers.HandOut` | c-icap/mem.c:197-201 | A block that is in no free list and shares no memory becomes live, and the lists stay as they are |
| `BufferPool.Buffers.Alloc` | c-icap/mem.c:175-202 | A block that nobody else has, whenever one is free or memory is there; the whole-run invariant holds if and only if the block is not the undersized one |
| `BufferPool.Buffers.Free` | c-icap/mem.c:266-294 | The block is no longer live, and goes to the free list of its class, which it is large enough for, or to the system |
| `BufferPool.Buffers.Realloc` | c-icap/mem.c:230-264 | In place within the class; a growing one keeps the recorded bytes; failure keeps the old block |
| `PackVector.LayoutAdd` | c-icap/mem.c:607-628 | An item placed at the rear leaves all others where and what they are |
| `PackVector.LayoutPop` | c-icap/array.c:426-449 | Taking off the last item frees the rear up to the item before it |
| `PackVector.Vector.Create` | c-icap/array.c:343-378 | Nothing exactly if there is no memory or the block cannot hold the structures, otherwise an empty vector whose regions do not overlap |
| `PackVector.Vector.Add` | c-icap/array.c:406-424 | Succeeds exactly when both the index entry and the item fit; front and rear never overlap; a failed add keeps the invariant exactly when it took no entry |
| `PackVector.Vector.Pop` | c-icap/array.c:426-449 | The last item goes and the others stay |
| `PackVector.Vector.AddThenPop` | c-icap/array.c:406-449 | Pop after add restores contents and both positions, exactly when the item fits |
| `PackVector.StoreVector` | c-icap/cache.c:432-490 | The stored block holds the maximal size, the offsets from the index on, the data from the last item on, and has the size of these |
| `PackVector.StoredItem` | c-icap/cache.c:453-516 | Every stored item begins with its bytes, inside the block |
| `PackVector.Fits` | c-icap/cache.c:492-516 | Every item of a stored vector fits when it is added again |
| `PackVector.ReadVector` | c-icap/cache.c:492-516 | All items are added again, in order, at the same positions |
| `PackVector.StoreThenRead` | c-icap/cache.c:432-516 | Store and read give as many items, each beginning with the original bytes |
| `RingBuffer.StretchGrows` | c-icap/body.c:942-953 | Bytes written at the write position extend the stored bytes, also around the end |
| `RingBuffer.StretchIs` | c-icap/body.c:867-953 | The stored bytes are those from the read position on, around the end, as many as the positions and the flag say |
| `RingBuffer.Ring.constructor` | c-icap/body.c:867-884 | A new ring is empty |
| `RingBuffer.Ring.WriteBlock` | c-icap/body.c:897-912 | The free block at the write position, and whether there is more at the start |
| `RingBuffer.Ring.ReadBlock` | c-icap/body.c:914-929 | The oldest bytes up to the end of the buffer, and whether more follow |
| `RingBuffer.Ring.Produce` | c-icap/body.c:942-953 | The bytes join the contents at the end |
| `RingBuffer.Ring.Consume` | c-icap/body.c:931-940 | The oldest bytes leave the contents |
| `RingBuffer.Ring.Write` | c-icap/body.c:955-973 | A prefix of the data is appended, of exactly the stated length |
| `RingBuffer.Ring.Read` | c-icap/body.c:975-992 | Exactly the oldest min(size, stored) bytes, which leave the ring |
| `LinkedList.InsertSorted` | c-icap/array.c:777-781 | Inserting before the first greater item keeps a list sorted |
| `LinkedList.InsertStable` | c-icap/array.c:777-781 | An item goes behind all its equals |
| `LinkedList.SortSorts` | c-icap/array.c:765-787 | Any two items of the result are in order, for every total preorder |
| `LinkedList.SortPermutes` | c-icap/array.c:765-787 | The result is a permutation |
| `LinkedList.SortStable` | c-icap/array.c:765-787 | Items that compare equal keep their order |
| `LinkedList.EqualsAre` | c-icap/array.c:765-787 | The equals of an item are the elements at the places where the comparison gives zero, in order |
| `LinkedList.KeysAreOrdered` | c-icap/array.c:765-787 | Comparing by any key is a total preorder |
| `LinkedList.InsertNode` | c-icap/array.c:777-781 | The walk over pointers to pointers links a node in at its place and changes no other link |
| `LinkedList.SortRound` | c-icap/array.c:774-784 | One round moves one more node to its place, keeps the nodes apart, and keeps head and tail right |
| `LinkedList.SortNodes` | c-icap/array.c:774-786 | The loop relinks all nodes into the order of the insertion sort, with head and tail right |
| `LinkedList.List.AllocItem` | c-icap/array.c:561-586 | A popped node is used before a new one; a node is leaked exactly when it could be allocated and its object could not |
| `LinkedList.List.NothingLost` | c-icap/array.c:561-586 | List and trash are all nodes ever made if and only if none was leaked |
| `LinkedList.List.LinkFront` | c-icap/array.c:593-598 | The node becomes the first, and `last` follows on an empty list |
| `LinkedList.List.LinkBack` | c-icap/array.c:607-612 | The node becomes the last, and `items` follows on an empty list |
| `LinkedList.List.Push` | c-icap/array.c:588-600 | The item comes first; list and trash are all nodes but the leaked; `last` and cursor stay right |
| `LinkedList.List.PushBack` | c-icap/array.c:602-614 | The item comes last, with the same invariant |
| `LinkedList.List.UnlinkFront` | c-icap/array.c:618-630 | The first node leaves; a cursor on it moves to the second, any other stays |
| `LinkedList.List.Discard` | c-icap/array.c:632-633 | The node heads the trash |
| `LinkedList.List.UnlinkBack` | c-icap/array.c:646-662 | The walk finds the node before the last one, so the assertion never fails; a cursor on the last node is cleared, any other stays |
| `LinkedList.List.Pop` | c-icap/array.c:616-644 | The first item goes and its node heads the trash |
| `LinkedList.List.PopBack` | c-icap/array.c:646-677 | The last item goes and its node heads the trash |
| `LinkedList.List.Find` | c-icap/array.c:701-702 | The first node whose item compares equal, with the one before it |
| `LinkedList.List.Unlink` | c-icap/array.c:703-712 | The node leaves the list; `last` stays right exactly if it was another node; a cursor on it moves on, any other stays |
| `LinkedList.List.Remove` | c-icap/array.c:689-720 | The first matching item goes; the list stays valid if and only if it was not the last |
| `LinkedList.List.Sort` | c-icap/array.c:765-787 | The contents become their insertion sort on the same nodes, and the invariant holds |
| `Md5.TailIs` | c-icap/md5.c:59-101 | What waits in the block is the end of the message after its last whole block |
| `Md5.Continue` | c-icap/md5.c:59-101 | State and waiting bytes are all that a message leaves behind |
| `Md5.Count` | c-icap/md5.c:65-68 | Two words with a carry count bits modulo 2^64 |
| `Md5.Filled` | c-icap/md5.c:70-70 | Six bits of the low word tell how many bytes wait |
| `Md5.Context.CountUp` | c-icap/md5.c:65-68 | The counter goes up by eight times the length modulo 2^64 |
| `Md5.Context.Waiting` | c-icap/md5.c:70-70 | The counter tells how many bytes wait in the block |
| `Md5.CounterBytes` | c-icap/md5.c:140-142 | The two words in memory are the 64-bit length of section 3.2 of RFC 1321 |
| `Md5.PadIs` | c-icap/md5.c:107-144 | The padding written is that of sections 3.1 and 3.2 of RFC 1321 |
| `Md5.PaddedIs` | c-icap/md5.c:107-144 | The padded message: the message, 0x80, the fewest zeros that make whole blocks, and the length in bits, low byte first |
| `Md5.StartBytes` | c-icap/md5.c:46-49 | The start state is that of section 3.3 of RFC 1321 |
| `Md5.DigestBytes` | c-icap/md5.c:144-146 | The sixteen bytes are the four words in order, low byte first |
| `Md5.BlockByBlock` | c-icap/md5.c:90-96 | The transform is applied block by block, each time to the state before |
| `Md5.Context.Blocks` | c-icap/md5.c:90-100 | The loop folds the transform over all whole blocks and keeps the rest |
| `Md5.Context.Update` | c-icap/md5.c:59-101 | The context after a piece is the context after the longer message, for any split |
| `Md5.Context.FinishBlocks` | c-icap/md5.c:112-144 | One or two last blocks hold the waiting bytes and the padding |
| `Md5.Context.Final` | c-icap/md5.c:107-148 | The digest of the whole message; the context is cleared |
| `Md5.DigestOfPieces` | c-icap/md5.c:44-148 | The digest depends on the concatenation of the pieces only |
| `Base64.GroupAndBack` | c-icap/decode.c:105-114 | Three bytes make four symbols, which decode to the three bytes |
| `Base64.SymbolsInOrder` | c-icap/decode.c:39-56 | The 64 symbols in their order, each with its place as value |
| `Base64.NoOtherSymbol` | c-icap/decode.c:39-56 | No other character has a value, but `=`, which counts as zero |
| `Base64.PaddingDecodes` | c-icap/decode.c:59-90 | Text filled up with `=` decodes to its bytes and zeros |
| `Base64.DecodeEncoded` | c-icap/decode.c:59-133 | Encoded text decodes to the data with zeros behind it, as far as the decoder may go, whatever follows the text |
| `Base64.RoundTrip` | c-icap/decode.c:59-133 | With room enough the result is the data followed by zeros up to a whole group |
| `Base64.Encode` | c-icap/decode.c:116-133 | Stays in bounds if and only if the stated condition holds, and then writes as many groups as fit, and a NUL |
| `Base64.Decode` | c-icap/decode.c:59-90 | The leading groups of symbols as far as there is room, and a NUL; no byte behind the string's NUL is read |
| `Base64.EncodeAndDecode` | c-icap/decode.c:59-133 | Both loops together give back the data and zeros |

## Left out

- `get_send_body` as an echo: a zero-length read in echo mode is reported as the end of the data, so that the echoed body need not be the received one; the reply machine keeps only what its rounds prepare, write and unlock.
- ChunkReader.Reader.ReadPreview: the preview buffer takes everything; `request_bytes_in` is no conserved count (a late CRLF counts the zero chunk again) and is left out.
- ChunkReader.Reader.ReadBody: the leftover of the header reader is taken as the first read.
- ResponseSender.Sender.StartResponse: the text of the ICAP response head is a parameter, and the `Via` header of the encapsulated response is not added.
- ResponseSender.Sender.NextPiece: the blocks of a service have at least one byte and at most MAX_CHUNK_SIZE, as its callers' buffer demands.
- ReplyMachine.Request.DoRequest: request parsing, service lookup, authentication and OPTIONS are reduced to the status they end in.
- HeaderBlock.Headers.Add: the lines already there must end in CRLF, since the index is rebuilt from lengths plus two; so for `HeaderBlock.Headers.AddHeaders`. An index that was already grown when the buffer cannot be is the same index here.
- HeaderBlock.Headers.Unpack: failure to grow the index array (EC_500) is not modelled; for a block with NULs, which the scan replaces by spaces, only the condition of success is stated.
- Encapsulated.PackMessage: the `Preview` header and the packing of the ICAP head itself are left out; the 512-byte print buffer is never reached by three entities; `opt-body` is excluded, as the parser reads it as another type.
- HeaderReader.ReadIcapHeader: failure to grow the header buffer is not modelled.
- HashIndex.HashTableOpen: parsing of the rows of a table file and allocation failures.
- LocalCache.Cache.Update: the mutex; copying callbacks copy bytes. Destroying the cache is left out.
- BufferPool.Buffers.PoolFree: the list item of a block is assumed to be allocated.
- PackVector.ReadVector: memory for the new vector is taken for granted, as the source does not look at the result.
- PackVector.StoreVector: the block is modelled as its maximal size, offsets and data rather than as raw bytes; sizes are 64 bits and the alignment is 8. Vectors of no items are left out, as the source stores at least one.
- LinkedList.List.AllocItem: objects stored by copy and by pointer are both values here, so copy and free handlers are not called; for the latter the second allocation always succeeds.
- Md5.Context.Update: the transform is any function, so the rounds of MD5 itself are not compared with RFC 1321; only little-endian hosts.
- Searching and removing single headers, the serial allocator and the object pools, the file-backed body types.
- The client's partial-write loop, whose source pointer does not advance.
- Processes, threads and signals; sockets, TLS and files; compression, regular expressions and password hashing; configuration, logging, templates, access control, statistics.
- The cloud proxy application and the service modules of the other directories.
