# Verified model of Beeper's parsers

Beeper reads HTTP/1 and HTTP/2 messages inside the kernel. User space compiles the header names
it is asked for into a DFA and loads that into flat arrays; a BPF program walks the arrays byte by
byte, keeps a copy of the HPACK dynamic table of every connection, and reports where the values
of the captured headers are. This project models both halves in Dafny and proves what they
compute. `dafny verify dfyconfig.toml` checks it.

The code that works in place is modelled in place: the maps of the dynamic tables
(`DynamicTables`), the DFA and its builder (`DfaBuilder`), the flat arrays (`Inject`), the
parsers that build a DFA (`Http1Parser`, `Http2Parser`), the HPACK state machine
(`HpackParser`), the messages of HTTP/2 (`Http2Messages`, `Http2Receiver`) and of HTTP/1
(`Http1Messages`) are classes and loops. Each of their methods is proved to do what a function on
values says, and the properties are proved of these functions:

- `Huffman` is the counter of decoded lengths, on any complete canonical code.
- `Rfc7541` is HPACK as RFC 7541 describes it, on plain strings and a plain list. Nothing in it
  comes from the parser.
- `DynamicTable` is the table of one connection, `TableMirror` compares it with the one of
  RFC 7541, and `TableRuns` is about any number of operations on any connections.
- `Dfa` is the builder on values, and `DfaPatterns` is about the words that a pattern matches.
- `HpackDfa`, `NameTrie`, `HpackMachine`, `HpackInt`, `HpackWire` and `HpackFields` go from single
  transitions to single header fields, and `HpackRefines` to whole header blocks.
- `Http2Frames` is what one call of `parse_msg` makes of a message. `Http2Blocks`, `Http2Retry`,
  `Http2Drive` and `Http2Split` are about header blocks in many frames, about messages of which
  more arrives, about streams that arrive in chunks, and about where a block is split.
  `Http2Answers` says what each kind of frame is answered with, `Http2Streams` what a whole stream
  of frames is read as. `Http2Headers` puts them together with `HpackRefines`: configured names
  in, captured bytes out.
- `Http1Layout`, `Http1Build`, `Http1Names`, `Http1Walk`, `Http1Lines` and `Http1Headers` go from
  the transitions the HTTP/1 parser builds for its names to the values it captures.

The Huffman code of an octet is any choice of distinct words of the canonical code, as the coder
is an external crate. What `bpf_msg_pull_data` and the socket layer expose of a message is a
parameter, and so is the number of keys the maps have left.

## Findings

What the code does, where that is not what one would expect. Each is proved for all inputs, but
for `BlankInside` and `SkippedEndsElsewhere`, which are single inputs beside a result for all.

- `TableMirror.CutNameDrifts` (beeper/src/http2/parser.bpf.c:519-525): an entry keeps 128 bytes of
  a name. A field added under a name that is read back from an entry that cut it is sized too
  small by what was cut, and the mirrored table then silently differs from the one of the peer,
  unless neither of them keeps the entry.
- `HpackRefines.IndexMirrors` (beeper/src/http2/parser.bpf.c:431-444): a field that is indexed under
  such an entry is captured under what is left of its name. So a configured name of 128 bytes
  captures every longer one that begins with it.
- `HpackRefines.AddedMirrors` (beeper/src/http2/parser.bpf.c:565, 778): the result of adding a field is
  dropped. So the table differs from the one of the peer just as silently if the map all
  connections share has no key left for the entry, and if nothing else is wrong, only then.
- `TableRuns.RunStaysDirty` (beeper/src/http2/parser.bpf.c:548-552): a coded string of more than 128
  bytes in a field that is added marks the table of its connection, which the `dirty` field of the
  table tells. Nothing is added to it any more, and no index of it finds a field, until the
  connection is forgotten.
- `HpackRefines.SlotsRunOut` (beeper/src/http2/parser.bpf.c:703-706): a match holds 16 bits of a
  slot, and slots are never used again. On a connection that has seen more than 65474 entries,
  an index can be reported just if its slot is below 65536. A field that is added under the name
  of any other entry is left out of the table.
- `HpackRefines.BadIndexPasses` (beeper/src/http2/parser.bpf.c:697-712): a field with an index that
  names nothing, which RFC 7541 makes an error, is passed over. Only the index 0 is rejected.
- `Http2Drive.WholeFrameIsRead` (beeper/src/http2/parser.bpf.c:1121-1127): `parse_msg` looks at no
  frame of which fewer than nine bytes are in the linear part, even if the message is longer. It
  then asks for nine bytes, which are there already, and the frame is not read before more
  arrive. A whole frame is read if and only if nine of its bytes are exposed, which is what
  `Exposes` and `Shows` demand in the results about streams.
- `Http2Retry.TooBigExactly` (beeper/src/http2/parser.bpf.c:230-250): the end of a frame is kept in
  16 bits. So a frame is rejected for its length if and only if that is too large modulo 65536,
  and one of, say, 65540 bytes is consumed unread. Padding does not count.
- `HpackInt.MachineExact` (beeper/src/http2/parser.bpf.c:832-856): an integer is read exactly if and
  only if it is below 2^32. A larger one is not rejected.
- `Http1Headers.NamesAgree` and `BlankInside` (beeper/src/http1/parser.rs:181-192): blanks are
  passed over not only before the colon, but behind every captured name that the name read so far
  is. With "a" and "ab" captured, "a b: x" is taken for a field "ab".
- `Http1Headers.HeadersCaptured` (beeper/src/http1/parser.rs:317-327): an empty line at the very start
  of a message does not end its header block, as the empty line is only known behind a line end.
- `Http1Walk.ResumeExactly` (beeper/src/http1/parser.bpf.c:129-150): a message of which nothing is
  exposed is never walked, and if exactly 32767 bytes are exposed, one byte fewer is walked than
  otherwise.
- `DfaPatterns.TrailingOptional` (beeper/src/dfa.rs:101-134): where a pattern ends with an optional
  input, it is in the state behind that input if and only if the input may be repeated, is empty,
  or led back to the state already. `SkippedEndsElsewhere` is the pattern of "a" and an optional
  "b".

## Model

| member | source | states |
|---|---|---|
| Huffman.KraftSumIsOne | beeper/src/http2/parser.bpf.c:168-181 | the two arrays form a complete canonical code: its Kraft sum is exactly 1, scaled by 2^30 |
| Huffman.StepInRange | beeper/src/http2/parser.bpf.c:183-201 | while codes are read, no step wraps around 32 bits and the reset of a code that grew too long is never taken |
| Huffman.DecodePadded | beeper/src/http2/parser.bpf.c:183-224 | reading is a left inverse of encoding: no padding with ones is taken for a symbol |
| Huffman.ReadIsComplete | beeper/src/http2/parser.bpf.c:183-201 | reading is a right inverse: any bits are the words of the codes read, followed by the start of one that is not whole |
| Huffman.DecodedLen | beeper/src/http2/parser.bpf.c:205-224 | the loops return the number of codes in the first 128 bytes, which for a string that is no longer is the number of symbols it was coded from |
| DynamicTable.PlaceKeeps | beeper/src/http2/parser.bpf.c:558-568 | whatever is inserted, the table ends within its maximum size, even after that was lowered, and no slot is used twice |
| DynamicTable.AddKeeps | beeper/src/http2/parser.bpf.c:502-575 | every attempt to add a field keeps all slots given out before, takes at most one more, and leaves the table within its size once eviction was reached |
| DynamicTable.ResizeKeeps | beeper/src/http2/parser.bpf.c:792-796 | a size update in a header block leaves the table within the new size and every other slot as it was |
| TableRuns.RunStaysDirty | beeper/src/http2/parser.bpf.c:505-552 | over every run, a table that was given up on stays so while its connection is kept, gives out no slot, and finds no field for an index |
| TableMirror.AddMirrors | beeper/src/http2/parser.bpf.c:502-575 | adding a field whose strings resolve whole makes of the table exactly what section 4.4 of RFC 7541 makes of the peer's if and only if the result is 0, and that if and only if no coded string is longer than 128 bytes and the map has a key or needs none |
| TableMirror.CutNameDrifts | beeper/src/http2/parser.bpf.c:519-556 | if the name is read back from an entry that cut it, the result is 0 but the tables agree only if the cut entry fits neither |
| TableMirror.ResizeMirrors | beeper/src/http2/parser.bpf.c:792-796 | a size update evicts the same entries as section 4.3 of RFC 7541 |
| TableMirror.LookupMirrors | beeper/src/http2/parser.bpf.c:402-426 | every index resolves to the field sections 2.3.2 and 2.3.3 of RFC 7541 give it, or to none where they give none, and so does the slot it stands for |
| DynamicTables.LiveKeys | beeper/src/http2/parser.bpf.c:351-367 | among all connections that share the map, the keys of one are exactly the interval of `count` slots from 62 + `deleted` on |
| DynamicTables.NoOverflow | beeper/src/http2/parser.bpf.c:468-500 | no table outgrows the map, and no sum of sizes overflows 32 bits |
| DynamicTables.DynamicTables.TryEvict | beeper/src/http2/parser.bpf.c:468-500 | the loop ends within `count` rounds, never misses an entry, evicts the oldest ones until the new entry fits and touches no other table |
| DynamicTables.DynamicTables.AddEntry | beeper/src/http2/parser.bpf.c:502-575 | the maps hold the tables they held before, but for the one table to which the field was added, and the result is that of the specification |
| DynamicTables.DynamicTables.Resize | beeper/src/http2/parser.bpf.c:792-796 | the same for a size update |
| DynamicTables.DynamicTables.GetTableEntry | beeper/src/http2/parser.bpf.c:402-426 | the lookup by HPACK index over the maps is the lookup in the table of the connection |
| DynamicTables.DynamicTables.GetMatch | beeper/src/http2/parser.bpf.c:327-382 | the bytes of a match out of the message, the block or the maps are those of the specification |
| DynamicTables.DynamicTables.GetDynamicTable | beeper/src/http2/parser.bpf.c:451-464 | a connection gets an empty table of 4096 bytes if it has none and there is room for one |
| DynamicTables.DynamicTables.ForgetConn | beeper/src/http2/parser.rs:606-628 | the entries of the connection are gone, and no others |
| TableRuns.RunIsolated | beeper/src/http2/parser.bpf.c:468-575 | over every run, a table is only changed by operations on its own connection |
| TableRuns.RunBefore | beeper/src/http2/parser.bpf.c:533-534 | over every run, no slot is used again while the connection is kept |
| TableRuns.CaptureResolves | beeper/src/http2/parser.bpf.c:351-376 | a capture recorded as a slot resolves, after any run, to what it was taken from or to nothing |
| DfaPatterns.PatternMatches | beeper/src/dfa.rs:101-179 | every word of a pattern leads from its anchor to the state of the pattern, and still does after any patterns added later; also with repeatable optionals in front of options, and at its end, once they are built, and with any byte a number of times within any range |
| DfaPatterns.AnyIs | beeper/src/dfa.rs:208-250 | any byte `min` to `max` times is that many bytes in a row and, behind them, as many more as are left up to `max`, each of which may be skipped; without a `max` it is one transition back instead, over which the action goes as well |
| DfaPatterns.ActionAttached | beeper/src/dfa.rs:79-96 | the action of a pattern is on the last transition of every word of it, and stays there |
| DfaPatterns.TrailingOptional | beeper/src/dfa.rs:79-134 | behind any pattern and one more optional input that `with` has built, the words with and without that input lead to the same state if and only if it may be repeated, is empty, or led back to the state before; still so after any patterns added later |
| DfaBuilder.DfaBuilder.Push | beeper/src/dfa.rs:198-205 | the builder and the DFA are, in place, what the builder on values makes of them, panics included |
| DfaBuilder.DfaBuilder.PushOptionalPrefixes | beeper/src/dfa.rs:101-134 | the same for the optionals that wait to be built |
| DfaBuilder.DfaBuilder.PushOptions | beeper/src/dfa.rs:260-301 | the same for alternatives |
| DfaBuilder.DfaBuilder.PushAny | beeper/src/dfa.rs:208-250 | the same for any bytes |
| DfaBuilder.DfaBuilder.RestartWith | beeper/src/dfa.rs:316-339 | the same for a pattern that starts over |
| DfaBuilder.DfaBuilder.With | beeper/src/dfa.rs:79-96 | the same for actions |
| Inject.Inject | beeper/src/http2/parser.rs:429-469 | the arrays read like the DFA, in whatever order its transitions come, and the loading fails if and only if states, inputs or actions do not fit |
| Inject.Next1 | beeper/src/http1/parser.bpf.c:37-59 | a step over the arrays is one over the DFA, falling back to the column of any byte and then to the any state |
| Inject.Next2 | beeper/src/http2/parser.bpf.c:384-397 | a step over the arrays is one over the DFA, falling back to the dead state |
| HpackDfa.Build | beeper/src/http2/hpack.rs:6-133 | the loops insert exactly the transition that each byte of a field has by section 6 of RFC 7541, and no other |
| NameTrie.WalkNameMatches | beeper/src/http2/parser.bpf.c:429-444 | a walk over a name ends in the state of that name, or dead, and captures just the match id of that very name |
| Http2Parser.NameIsCaptured | beeper/src/http2/parser.rs:177-201 | a name has a match id if and only if it is byte for byte one of the configured names in the coding it was sent in |
| Http2Parser.Parser.CaptureHdr | beeper/src/http2/parser.rs:177-225 | the two tries hold the configured names and nothing else after every call, a new name gets the next match id, and each error is returned exactly when it should be |
| Http2Inject.Load | beeper/src/http2/parser.rs:401-474 | a loaded program has every row of the decoder and captures the configured names in both codings |
| HpackParser.Program.MatchHeaderKey | beeper/src/http2/parser.bpf.c:429-444 | the loop over a name in a table comes to what the walk over the bytes of a name comes to |
| HpackParser.ParseState.ParseHdrByte | beeper/src/http2/parser.bpf.c:804-862 | one byte changes the parse state, the maps and the matches, in place, as one step of the specification, and no other table |
| HpackParser.ParseState.RunAction | beeper/src/http2/parser.bpf.c:689-802 | the same for the action of a byte |
| HpackParser.ParseState.FeedAll | beeper/src/http2/parser.bpf.c:865-889 | the same for all bytes of a block, up to the first error |
| HpackInt.MachineExact | beeper/src/http2/parser.bpf.c:832-856 | every encoding of an integer, of any length, is read as that integer if and only if it is below 2^32 |
| HpackInt.EncodeRoundTrip | beeper/src/http2/parser.bpf.c:832-856 | the steps are a left inverse of the encoder of section 5.1 of RFC 7541, for every prefix |
| HpackFields.FeedField | beeper/src/http2/parser.bpf.c:689-890 | the bytes of any field representation, with its integers in any encoding, make exactly the one change to table and matches that it stands for, and leave the decoder ready for the next one |
| HpackFields.FeedIndexZero | beeper/src/http2/hpack.rs:16-25 | the index 0 is an error that changes nothing |
| HpackRefines.BlockRefines | beeper/src/http2/parser.bpf.c:689-890 | feeding any header block leaves the table the decoder of RFC 7541 leaves, and for each configured name the value of the last field of that name, under any encodings of its integers and strings, unless a name that was cut off makes a difference |
| Http2Headers.FrameReports | beeper/src/http2/parser.bpf.c:1087-1176 | the whole way: a message that holds a header block in one frame, parsed with a program that was loaded for some names, leaves the table of RFC 7541 and gives for each name the bytes of its last value, or none if there is no such field or the entry it was in has been evicted by the same block |
| Http2Headers.FramesReport | beeper/src/http2/parser.bpf.c:1044-1064 | the same for a block in several frames |
| Http2Headers.BadFrameReports | beeper/src/http2/parser.bpf.c:1087-1176 | a message whose header block has the index 0 behind any fields, and anything behind that, is rejected with EBADMSG, and leaves the table and the captured bytes that those fields alone leave |
| Http2Headers.BadFramesReport | beeper/src/http2/parser.bpf.c:1044-1064 | the same for a block in several frames |
| HpackRefines.IndexMirrors | beeper/src/http2/parser.bpf.c:697-743 | an index resolves to the value RFC 7541 gives it, to the name as far as that is kept, and is captured under just that |
| HpackRefines.AddedMirrors | beeper/src/http2/parser.bpf.c:775-782 | with the result dropped, a field that is added marks the table if and only if a string can not be sized; otherwise the tables go on agreeing if and only if the map has a key or needs none |
| HpackRefines.SlotsRunOut | beeper/src/http2/parser.bpf.c:697-712 | an entry can be referred to by a match if and only if its slot is below 65536; under the name of another one, nothing is added |
| HpackRefines.BadIndexPasses | beeper/src/http2/parser.bpf.c:697-743 | a field RFC 7541 rejects for its index is neither rejected nor added nor captured |
| Http2Blocks.CollectsExactly | beeper/src/http2/parser.bpf.c:932-1009 | a block is collected if and only if the message begins with a HEADERS frame and CONTINUATION frames of the same stream up to the one that ends it, within the limits, and then it is the concatenation of their fragments |
| Http2Retry.AnswerStays | beeper/src/http2/parser.bpf.c:1121-1176 | a call that asks for more asks for more than there is and changes nothing, with fewer bytes than that it asks for the same, and any other answer stays the same whatever follows |
| Http2Retry.TooBigExactly | beeper/src/http2/parser.bpf.c:230-250 | any frame is rejected for its length if and only if that, without the padding, is above 32767 modulo 65536, and is consumed unread if it is no more than what is in front of the block |
| Http2Answers.UnreadFrame | beeper/src/http2/parser.bpf.c:1142-1146 | a frame that is neither HEADERS nor CONTINUATION nor SETTINGS without flags is consumed with its header and all of its payload, whether that has arrived or not, and changes nothing |
| Http2Answers.RefusedFrame | beeper/src/http2/parser.bpf.c:894-915 | a CONTINUATION frame with no block to carry on, or a HEADERS frame of stream 0, is waited for and then rejected with EPROTO, and changes nothing |
| Http2Answers.PartOfFrame | beeper/src/http2/parser.bpf.c:1148-1151 | of any other frame, exactly all of its bytes are asked for |
| Http2Answers.LoneFrame | beeper/src/http2/parser.bpf.c:1169-1176 | with these bytes, a frame that is not one of several is consumed to the last byte or is an error other than EPROTO: nothing more is asked for |
| Http2Answers.CutShort | beeper/src/http2/parser.bpf.c:230-250 | a HEADERS frame whose padding and priority leave no fragment is an error that changes nothing |
| Http2Answers.PartOfBlock | beeper/src/http2/parser.bpf.c:932-1009 | while a block in several frames arrives, what is asked for is exactly the rest of the frame header, or else of the frame, that arrives |
| Http2Answers.BrokenBlock | beeper/src/http2/parser.bpf.c:932-1009 | any other frame, or one of another stream, between the frames of a block is rejected with EPROTO as soon as its header is there |
| Http2Answers.SettingsFrame | beeper/src/http2/parser.bpf.c:578-632 | a SETTINGS frame that was written for any settings sets the table size to the value of the last one with the identifier 1, or leaves it, keeps every entry, and is consumed whole |
| Http2Answers.NoRoomForFrame | beeper/src/http2/parser.bpf.c:917-919 | without a table for the connection and without room for one, a header block is an error that changes nothing |
| Http2Streams.StreamIsRead | utils/src/prog.bpf.c:288-371 | any frames and whole header blocks, in whatever chunks they arrive and whatever is exposed, are each read as if there was nothing else, in order: one event for each, with the header of that very frame, consumed to its last byte or skipped if it has no place there, and nothing held back, corked or skipped at the end |
| Http2Streams.StreamIsHeld | utils/src/prog.bpf.c:288-371 | if the last of them has not arrived whole, exactly its bytes are held back and exactly what is missing is asked for, but for a frame that is not read, the rest of which is passed on |
| Http2Drive.ChunksDoNotMatter | utils/src/prog.bpf.c:288-339 | the frames read, the bytes captured, the dynamic table and what is held back are the same for every way of splitting a stream into chunks, and for every part of each message that is exposed, which may differ from one frame to the next |
| Http2Drive.WholeFrameIsRead | beeper/src/http2/parser.bpf.c:1121-1127 | a frame that has arrived whole is read if and only if nine bytes are exposed; otherwise the run only asks for nine bytes |
| Http2Split.SplitDoesNotMatter | beeper/src/http2/parser.bpf.c:917-1064 | a header block leaves the same table and the same captured bytes in one frame and split anywhere into several, whatever the padding and the priority |
| Http2Messages.MessageParser.ReadHeader | beeper/src/http2/parser.bpf.c:261-269 | the shifted and masked bytes of a frame header are its fields in network byte order |
| Http2Messages.MessageParser.HeaderBlock | beeper/src/http2/parser.bpf.c:230-250 | where the block of a frame begins and ends, or that its padding does not fit |
| Http2Messages.MessageParser.CollectBlock | beeper/src/http2/parser.bpf.c:932-1009 | the bounded loop that copies into the block buffer comes to what the unbounded recursion over the frames comes to, and leaves the block in the buffer |
| Http2Messages.MessageParser.ReadSettings | beeper/src/http2/parser.bpf.c:578-632 | the loop over single bytes sets the table size to the last one announced by a whole setting and evicts nothing |
| Http2Messages.MessageParser.ParseMsg | beeper/src/http2/parser.bpf.c:1121-1176 | a call changes the maps and the matches as the specification of the message does, whatever the block buffer held before, and touches no other connection |
| Http2Messages.MessageParser.GetCaptures | beeper/src/http2/parser.bpf.c:1302-1311 | what is read out for the matches are the captures of the specification, out of the part of the message that is exposed then |
| Http2Receiver.Receiver.MsgVerdict | utils/src/prog.bpf.c:288-371 | one run of the program corks, skips, records and applies, in place, as the specification of streams follows the result |
| Http1Parser.Parser.CaptureHdr | beeper/src/http1/parser.rs:159-205 | a name gets the match id it had, or the next one while there are 32, or an error, and the DFA keeps the layout of exactly these names if they can be names of fields |
| Http1Parser.Parser.DoneOnHdrEnd | beeper/src/http1/parser.rs:317-327 | the empty line is added to the layout |
| Http1Parser.Load | beeper/src/http1/parser.rs:435-490 | the arrays read like the DFA, and the loading fails if and only if it does not fit |
| Http1Names.NewHdrHolds | beeper/src/http1/parser.rs:173-205 | to a DFA of a layout, a new name adds what the layout with that name has, and nothing else |
| Http1Names.ConfiguredHolds | beeper/src/http1/parser.rs:173-327 | any names, captured one after the other, and then the empty line build the DFA of a layout that has exactly these names |
| Http1Headers.HeadersCaptured | beeper/src/http1/parser.bpf.c:44-150 | a message of any lines, carriage returns inside included, is parsed, if it gets there within the bytes that are walked, up to just behind the first empty line behind a line end, and each name has captured exactly the last value that is not empty of a line read as that name, in any case, with blanks stripped in front |
| Http1Headers.NamesAgree | beeper/src/http1/parser.rs:173-192 | a name is read as section 5.1 of RFC 9112 has it if and only if it has no blank inside or is not read as a captured name at all |
| Http1Headers.ConfiguredHeaders | beeper/src/http1/parser.bpf.c:44-150 | the two put together for a configured parser and lines whose names have no blanks inside |
| Http1Headers.UnfinishedCaptured | beeper/src/http1/parser.bpf.c:129-150 | a message with no empty line within the bytes that are walked is not parsed: the result is E2BIG from 32767 bytes on and EAGAIN below. What was captured is kept all the same: for each name the last value that is not empty, up to where the walk ends |
| Http1Headers.FirstUnfinished | beeper/src/http1/parser.bpf.c:129-150 | the same if not even the first line ends: nothing is captured |
| Http1Headers.AnyMessage | beeper/src/http1/parser.bpf.c:44-150 | any bytes are a first line that does not end, or lines without an empty one, or a header block and what follows it, so that the results about captured headers leave no message out |
| Http1Headers.NotYetParsed | beeper/src/http1/parser.bpf.c:71-150 | without the empty line, a message that is not too long yet is not parsed |
| Http1Headers.BlankInside | beeper/src/http1/parser.rs:181-192 | a name with a blank inside that is taken for another one |
| Http1Walk.ResumeSame | beeper/src/http1/parser.bpf.c:129-150 | walking the exposed part and resuming with the saved state and open captures comes to one walk over the whole message, captures included |
| Http1Walk.WalkedOnce | beeper/src/http1/parser.bpf.c:129-150 | whatever is exposed, a call comes to one walk over the first 32768 bytes, or over 32767 or none in the two cases below |
| Http1Walk.ResumeExactly | beeper/src/http1/parser.bpf.c:129-150 | the verdict depends on what is exposed in exactly two cases |
| Http1Messages.MessageWalk.ParseFrom | beeper/src/http1/parser.bpf.c:71-121 | the loop over the arrays comes to the walk of the specification |
| Http1Messages.ParseMsg | beeper/src/http1/parser.bpf.c:129-150 | both walks of a message, on the loaded arrays, come to the result of the specification |

## Left out

- HpackRefines.BlockRefines: is about blocks of whole fields, the integers of which are below 2^32; a block that ends within a field is taken for a whole one. What it shuts out are the blocks of `CutNameDrifts`, `IndexMirrors`, `AddedMirrors`, `SlotsRunOut` and `BadIndexPasses`.
- DfaPatterns.PatternMatches: says nothing of options behind an optional input that may be skipped and not be repeated, see `TrailingOptional`, nor of any number of bytes from none on directly behind an optional input, which the loop is built before.
- DynamicTables.DynamicTables.AddEntry: asks that fewer than 2^32 entries were added to the connection before, as `deleted` and the slots wrap around behind that.
- Http1Parser.Parser.CaptureHdr: leaves out the pseudo headers, and folds the case of ASCII letters only; says nothing of the DFA for names that are empty or have a blank, a colon or a line end in them, which no field has, or once its 65536 state ids have run out, where the original panics.
- Http1Names.NewHdrHolds: is about names that are not empty and have no blank, colon or line end in them.
- Http1Names.ConfiguredHolds: the same.
- Http2Drive.ChunksDoNotMatter: is about streams as `msg_verdict` handles them while no other connection takes keys of the shared map; after an error other than a violated block rule, nothing of the stream counts as read any more.
- Http2Receiver.Receiver.MsgVerdict: models the branch for upgraded connections, and records every frame, of which the original records header frames and the ones that failed.
- `parse_skb` and the stream parser of the examples (`h2_msg_len`, `skb_parser`): the same parsing at an offset, without the wait of `parse_msg`.
- The prefix of null bytes that kernel TLS leaves in front of a message (`null_prefix`).
- The captures of the request line, the status line and the HTTP/2 preface (`capture_status_line`, `capture_status_code`, `match_http2_preface`): patterns of the same builder, which `PatternMatches` and `AnyIs` are about.
- The contents of the static table of appendix A of RFC 7541: any table of 61 fields takes its place.
- The Huffman codes of single octets and the coder (an external crate): any distinct words of the canonical code take their place.
- What the block buffer holds after a block was rejected, which nothing refers to.
- Failures of kernel helpers that copy bytes or grow the linear part of a message.
- Attaching programs, loading maps, reading them back from user space (`dynamic_table_info`, `get_dt_entry`), logging, and the unfinished RESP parser.
- Concurrency between CPUs: a call is one step.
