# Verification of OvenWebRTCTester

OvenWebRTCTester opens many WebRTC streams against a media server: it signals
over a WebSocket, reads JSON offers, receives RTP and reports loss and latency.
This project models its stateful core in Dafny and proves what it keeps.

| files | part of the program |
|---|---|
| `Json*.dfy` | the bundled JSON reader, the two writers, `Json::Value` (`srcs/jsoncpp/jsoncpp.cpp`) |
| `WebSocket*.dfy`, `Base64.dfy` | reassembly of reads, WebSocket frames, Base64 |
| `HttpChunked.dfy`, `HttpLaws.dfy` | the HTTP response reader: bodies with a length and chunked ones |
| `Tcp*.dfy` | one TCP session: send queue, completions, timers, closing |
| `IndexKeys.dfy`, `Stream*.dfy` | index keys, stream records, garbage check, the events that join them |
| `Rtp*.dfy` | loss counting and collection windows |
| `Bytes.dfy`, `Bits.dfy` | bytes, search, integer conversions |

Objects the program updates in place are classes. Each of their methods is
proved to compute a function of its old state, and the theorems are about those
functions: over all inputs, all splits of a stream, all interleavings, all runs.

## Where the code differs from what one would expect

The models follow the code. Each of these differences is proved, with the exact
condition under which it shows:

- String escaping. The surrogate test keeps only `>= 0xDFFF`, so U+E000 to
  U+FFFF are written as U+FFFD; and the four-byte form shifts its first byte by
  24 instead of 18, so everything from U+40000 is damaged too. A string
  survives exactly if it has none of these (U+FFFD itself aside), and a value
  comes back unchanged, array holes read as null, exactly if all the strings
  that are written do and it is not refused for its depth or its names
  (`RoundTripIff`, `ReadBackIff`). An array whose last index is 2^32-1 has
  size 0 and is written empty (`LastIndexLost`).
- The reader accepts more than RFC 8259. Integers may have leading zeros
  (`IntegerLaxIff`) and a lone minus is 0 (`LoneMinusIff`); a brace may follow the
  last comma of an object exactly if the last name is empty (`LastCommaIff`); and
  once a comment stands behind a member, any token passes for the comma
  (`SeparatorIff`). `LooseDocumentIff` says the same of whole documents, and
  `LaxDocumentParses` shows the last three in one.
- `Value::operator<` compares sizes through an `int`. Containers are each less
  than the other exactly if their sizes differ by 2^31 modulo 2^32, before
  anything else tells them apart (`LessTrichotomy`, `BothLessIff`,
  `BothLessExample`). Three values in order pair by pair are in order from end to
  end exactly if the two steps in size, each modulo 2^32, do not pass 2^31 together
  (`TransitiveIff`, `TransitivityFails`).
- `resize` to a larger size makes one element, so a gap of two leaves a hole.
- Frames under 126 bytes of payload are read as if they had no header
  (section 5.2 of RFC 6455 gives two bytes), so the frames the client writes
  itself come back exactly from 126 bytes up (`OneTextIff`, `FramesRoundTripIff`).
- How the stream is cut into reads matters in two cases, and only in these
  (`ChunkingIndependence`): an accepted frame of computed size 0, which is
  delivered again at each read, and a status text that stands after the header
  (`RepeatsExample`, `LateStatusExample`).
- A chunked body whose data ends like a body, with a read that stops there, is
  taken for complete (`PartCompletesIff`, `CompletesEarly`). A body with a length
  is taken exactly, but never if it begins with a NUL (`SizedMessage`).
- A media object stays reachable in a run exactly if every handshake finds the
  record of its stream, without a live object (`RunOwnedIff`). A second handshake
  and one that completes after its record was removed each orphan an object,
  which no garbage check will ever close (`OrphanForever`). The check closes no
  signalling session, as no record ever holds such a key.
- The garbage check closes an object of another stream only after a handshake was
  given a key that an older record still holds (`RunSafeIff`,
  `StaleKeyClosesAnother`), which cannot happen before the key counter has
  started over (`FreshUntilStartingOver`) and does happen after
  (`ResetClosesAnother`).
- The 16-bit wrap adds 0xffff, so each wrap that loses a packet counts one too
  few. That aside, losses are counted exactly if every number that a step leaves
  out is above the first, left out once and never arrives, no step back passes a
  wrap and no packet in between is ignored; otherwise too many are counted
  (`RunCountRightIff`), as with reordered packets (`SwapOvercounts`) and repeated
  audio timestamps (`AudioRepeatsIff`).
- A window collected before the first timestamp change reports the negated start
  time as its duration (`EarlyWindow`). The video durations of a run then add up to
  2^32 too much, and only then, unless the clock passes a multiple of 2^32 before the
  next window (`DurationsTelescopeIff`, `EarlyWindowRun`).

## Model

| member | source | states |
|---|---|---|
| JsonReader.OurReader.Parse | srcs/jsoncpp/jsoncpp.cpp:1271-1316 | for every byte string the reader ends, by an exception or a return; it returns true exactly when no error is recorded, and the stack holds the root alone; result and errors are those of the grammar function |
| JsonReader.OurReader.ReadValue | srcs/jsoncpp/jsoncpp.cpp:1318-1418 | the stack returns to its entry depth with only its top replaced, the cursor stays in the text and does not move back, and the outcome is the grammar's, error recovery included |
| JsonReader.OurReader.ReadObject | srcs/jsoncpp/jsoncpp.cpp:1681-1741 | the member loop builds exactly the members the grammar function gives, with the same error and resume position |
| JsonReader.OurReader.ReadArray | srcs/jsoncpp/jsoncpp.cpp:1743-1779 | the element loop, likewise |
| JsonReader.OurReader.ReadToken | srcs/jsoncpp/jsoncpp.cpp:1430-1528 | the token read at the cursor, for each feature setting |
| JsonReader.OurReader.RecoverFromError | srcs/jsoncpp/jsoncpp.cpp:2011-2022 | skips to the wanted token or the end and drops the errors met on the way |
| JsonLanguage.AcceptedIff | srcs/jsoncpp/jsoncpp.cpp:1271-1316 | the reader accepts exactly the documents of a grammar over their tokens, and gives each the value of its tree: brackets, names, colons, separators and comments each where they may stand, depth and duplicate names within the limits |
| JsonLanguage.ReadIsSentence | srcs/jsoncpp/jsoncpp.cpp:1318-1418 | whatever is read without an error, at any position and depth, is a sentence of that grammar with that value |
| JsonLanguage.SentenceReads | srcs/jsoncpp/jsoncpp.cpp:1318-1418 | and every sentence is read, to its value, up to its last token |
| JsonLexLaws.TokenBegins | srcs/jsoncpp/jsoncpp.cpp:1530-1538 | a token begins at the first byte that is none of the four white-space bytes |
| JsonLexLaws.MarksAre | srcs/jsoncpp/jsoncpp.cpp:1430-1528 | the six marks and the zero byte are the tokens of their codes |
| JsonLexLaws.WordsAre | srcs/jsoncpp/jsoncpp.cpp:1430-1528 | true, false and null, by their spelling |
| JsonLexLaws.SpecialNumbersAre | srcs/jsoncpp/jsoncpp.cpp:1430-1528 | NaN, Infinity and -Infinity where they are allowed |
| JsonLexLaws.NumeralIsToken | srcs/jsoncpp/jsoncpp.cpp:1630-1654 | a number with sign, fraction and exponent is one token, up to its last digit |
| JsonLexLaws.LineCommentIs | srcs/jsoncpp/jsoncpp.cpp:1614-1628 | a line comment takes in LF, CR LF or CR |
| JsonLexLaws.StarCommentIs | srcs/jsoncpp/jsoncpp.cpp:1551-1612 | a comment of the other kind goes on to the next star and slash |
| JsonLexLaws.SingleQuotesAre | srcs/jsoncpp/jsoncpp.cpp:1669-1679 | a string in single quotes is one token where those are allowed |
| JsonLexLaws.QuoteForSlash | srcs/jsoncpp/jsoncpp.cpp:1430-1528 | where single quotes are not allowed, one stands for the first slash of a comment |
| JsonLexLaws.NoTokens | srcs/jsoncpp/jsoncpp.cpp:1430-1528 | what begins no token, a misspelt word and a special number that is not allowed are each refused, and how far |
| JsonLanguage.NumericNamesAre | srcs/jsoncpp/jsoncpp.cpp:1702-1706 | a number names a member by its decimal text, or by what is printed for it |
| JsonBuilt.ReadValueBuilds | srcs/jsoncpp/jsoncpp.cpp:1318-1418 | on success and on every error path, what is left on the stack is in key order, in range, without array holes and within the depth limit |
| JsonBuilt.ParsedRootIsBuilt | srcs/jsoncpp/jsoncpp.cpp:1271-1316 | the same for the root of every document that is not refused by an exception |
| JsonBuilt.MembersAreKept | srcs/jsoncpp/jsoncpp.cpp:1681-1741 | an object keeps every member it has begun to read, even when reading ends in an error |
| JsonNumber.DecodeNumber | srcs/jsoncpp/jsoncpp.cpp:1791-1829 | the threshold loop never overflows and yields the denoted integer exactly when the token is digits only and the number fits in -2^63 to 2^64-1; otherwise it takes the double path |
| JsonNumber.DigitsMean | srcs/jsoncpp/jsoncpp.cpp:1791-1829 | the decimal text of a number is signed up to 2147483647, unsigned up to 18446744073709551615, and else a double |
| JsonNumber.LimitsAre | srcs/jsoncpp/jsoncpp.cpp:1791-1829 | the 32- and 64-bit limits by their digits, and the tags at them |
| JsonNumber.UintToString | srcs/jsoncpp/jsoncpp.cpp:167-173 | the digits are written from the end of the buffer and are the decimal text of the number |
| JsonNumber.ValueToStringInt | srcs/jsoncpp/jsoncpp.cpp:4231-4245 | the decimal text of every signed 64-bit integer, the smallest one included |
| JsonNumber.ValueToStringUInt | srcs/jsoncpp/jsoncpp.cpp:4247-4253 | the decimal text of every unsigned 64-bit integer |
| JsonNumber.IntegerRoundTrip | srcs/jsoncpp/jsoncpp.cpp:4231-4253 | writing an integer and decoding it gives the same integer, tagged unsigned from 2^31 |
| JsonString.ValueToQuotedStringN | srcs/jsoncpp/jsoncpp.cpp:4400-4470 | the escaping loop writes the quoted form of any byte string |
| JsonString.DecodeString | srcs/jsoncpp/jsoncpp.cpp:1890-1941 | the unescaping loop computes the decoding, or its first error, with `\u` pairs |
| JsonDecodeLaws.BodyDecodes | srcs/jsoncpp/jsoncpp.cpp:1890-1941 | any string body: written units (raw bytes from 0x80 included, the eight two-character escapes, `\u` in either case, surrogate pairs) decode to the bytes they stand for, up to the end or a bare quote, and behind units each refused ending gives its error |
| JsonDecodeLaws.EveryBody | srcs/jsoncpp/jsoncpp.cpp:1890-1988 | and every body is units followed by nothing, a quote or a refused ending |
| JsonDecodeLaws.StringReads | srcs/jsoncpp/jsoncpp.cpp:1879-1888 | so for every string token of a document, at any position and depth: its value or its error |
| JsonDecodeLaws.StringDocument | srcs/jsoncpp/jsoncpp.cpp:1271-1316 | a whole document that is one string, written in any way |
| JsonDecodeLaws.MemberDocument | srcs/jsoncpp/jsoncpp.cpp:1681-1741 | a whole document with one member, its name and its value written in any way |
| JsonStringLaws.ReadCodePointBack | srcs/jsoncpp/jsoncpp.cpp:4320-4385 | what the writer's UTF-8 reader makes of each scalar value: replacement from U+E000, a wrong number from U+40000 |
| JsonStringLaws.QuoteThenDecode | srcs/jsoncpp/jsoncpp.cpp:4400-4470 | quoting any UTF-8 text and decoding it succeeds and gives each scalar value back, or exactly what the two defects make of it |
| JsonStringLaws.DamagedIs | srcs/jsoncpp/jsoncpp.cpp:4320-4371 | bytes that are no UTF-8: a stray or cut-off one is written as U+FFFD and taken alone, an overlong form as U+FFFD and taken whole |
| JsonStringLaws.WrittenIsPlain | srcs/jsoncpp/jsoncpp.cpp:4400-4470 | whatever the bytes of a string, its written form is plain ASCII |
| JsonStringLaws.SurvivesIff | srcs/jsoncpp/jsoncpp.cpp:4344-4371 | a text comes back unchanged if and only if every scalar value is below U+D800, is U+FFFD, or is in U+10000 to U+3FFFF |
| JsonStringLaws.LostExamples | srcs/jsoncpp/jsoncpp.cpp:4349-4366 | U+E000 and U+40000 as concrete losses |
| JsonScan.ScanQuoteBody | srcs/jsoncpp/jsoncpp.cpp:1656-1666 | the scanner stops exactly after the closing quote of a quoted string, whatever bytes it holds and whatever follows |
| JsonScan.LexInteger | srcs/jsoncpp/jsoncpp.cpp:1630-1654 | a written integer is one number token that ends where its text ends |
| JsonParseBack.ValueReads | srcs/jsoncpp/jsoncpp.cpp:1318-1418 | at any position and depth, under any layout, for every value with readable strings: reading ends with the value, with the exception for depth or with the error for a name that comes twice, whichever is met first |
| JsonParseBack.ValueReadsBack | srcs/jsoncpp/jsoncpp.cpp:1318-1418 | at any position and depth, the tokens of a value under any layout are read to that value, re-read, and the reader stops before whatever follows |
| JsonRoundTrip.LaidOutTextParses | srcs/jsoncpp/jsoncpp.cpp:1271-1316 | every layout of the tokens of a value, with any white space, parses without error to one and the same value |
| JsonRoundTrip.FaithfulRoundTrip | srcs/jsoncpp/jsoncpp.cpp:4501-4553 | every real-free value with faithful strings, nested within the limit, parses back from every layout to itself, array holes read as null, up to integer tags |
| JsonRoundTrip.FilledUnchanged | srcs/jsoncpp/jsoncpp.cpp:4525-4533 | what is read back is the value with its holes filled by null, whenever the strings that are written are faithful |
| JsonRoundTrip.FillingKeepsElements | srcs/jsoncpp/jsoncpp.cpp:4525-4533 | filling moves no element, loses none and adds only nulls, unless the last index is 2^32-1 |
| JsonRoundTrip.LastIndexLost | srcs/jsoncpp/jsoncpp.cpp:3407-3425 | an array whose last index is 2^32-1 is written and read back empty |
| JsonBuilt.DenseIsFilled | srcs/jsoncpp/jsoncpp.cpp:3407-3425 | a value without array holes, as the reader builds it, is its own filling, while every array has fewer than 2^32 elements |
| JsonRefused.ReadBackIff | srcs/jsoncpp/jsoncpp.cpp:1318-1418 | a written text is read back if and only if its value is not nested beyond the limit and, where duplicates are refused, no two names of an object are the same once re-read; too deep alone ends in the exception, a name alone in its error |
| JsonRefused.FateIs | srcs/jsoncpp/jsoncpp.cpp:1681-1741 | what is met first in a text, depth or duplicate, is there in the value with its holes filled, and if neither is met neither is there |
| JsonLayout.LayoutsParseAlike | srcs/jsoncpp/jsoncpp.cpp:1271-1316 | two texts that lay out the same tokens end alike: the same exception, or the same value and the same errors at the same tokens, recovery included |
| JsonLayout.LayoutDoesNotMatter | srcs/jsoncpp/jsoncpp.cpp:4493-5233 | so do any two texts of one real-free value, readable or not and however deep |
| JsonLax.IntegerLaxIff | srcs/jsoncpp/jsoncpp.cpp:1791-1829 | an integer token that is decoded is one of RFC 8259 unless it has no digit or a leading zero |
| JsonLax.LoneMinusIff | srcs/jsoncpp/jsoncpp.cpp:1791-1829 | without a digit only the empty text and the lone minus pass for integers, both as 0 |
| JsonLax.LoneMinusValueIff | srcs/jsoncpp/jsoncpp.cpp:1318-1418 | a minus in a document is read as the value 0 exactly if no digit, dot or exponent follows |
| JsonLax.LastCommaIff | srcs/jsoncpp/jsoncpp.cpp:1681-1741 | a closing brace after a comma ends the object if and only if the last name is empty; otherwise it is the error |
| JsonLax.SeparatorIff | srcs/jsoncpp/jsoncpp.cpp:1726-1738 | what follows a member: a brace ends, a comma goes on, after a comment any other token goes on too, and everything else is the error |
| JsonLax.LooseDocumentIff | srcs/jsoncpp/jsoncpp.cpp:1681-1741 | a whole document with any members, a comma or a comment and another token between them, and perhaps one such separator before the closing brace, parses to the same value as with commas if and only if there is no last separator or the last name is empty |
| JsonLax.LaxDocumentParses | srcs/jsoncpp/jsoncpp.cpp:1271-1316 | one document that uses all three and parses without an error |
| JsonFaithful.RereadIsFaithful | srcs/jsoncpp/jsoncpp.cpp:4320-4470 | what is read back, if it is UTF-8 at all, holds no further scalar value that would be damaged |
| JsonFaithful.UnchangedOnlyIfFaithful | srcs/jsoncpp/jsoncpp.cpp:4501-4553 | the converse of the round trip, object names and their reordering included: a value that comes back unchanged, holes read as null, has only faithful strings among those that are written |
| JsonFaithful.RoundTripIff | srcs/jsoncpp/jsoncpp.cpp:4501-4553 | for all values with UTF-8 strings, however deep: the text parses without error if and only if the value is accepted (depth, names, kind of root), and to the value itself, holes read as null, if and only if moreover every string that is written is faithful |
| JsonWriter.FastWriter.Write | srcs/jsoncpp/jsoncpp.cpp:4493-4499 | the compact text lays out exactly the tokens of the value |
| JsonWriter.FastWriter.WriteArray | srcs/jsoncpp/jsoncpp.cpp:4525-4533 | what an array adds to the document, holes written as null |
| JsonWriter.FastWriter.WriteObject | srcs/jsoncpp/jsoncpp.cpp:4535-4551 | what an object adds to the document, in key order |
| JsonStyledWriter.BuiltStyledStreamWriter.Write | srcs/jsoncpp/jsoncpp.cpp:5055-5068 | for any white-space indentation the styled text lays out the same tokens |
| JsonStyledWriter.BuiltStyledStreamWriter.WriteArrayValue | srcs/jsoncpp/jsoncpp.cpp:5129-5174 | the same for one array, on one line or several |
| JsonStyledWriter.BuiltStyledStreamWriter.IsMultilineArray | srcs/jsoncpp/jsoncpp.cpp:5176-5201 | when it decides for one line, the shared buffer holds exactly the texts of the elements |
| JsonCodec.ThroughFastWriter | srcs/jsoncpp/jsoncpp.cpp:4493-4553 | writer object and reader object together return true if and only if the value is accepted, and give it back, holes read as null, if and only if moreover its strings are faithful |
| JsonCodec.ThroughStyledWriter | srcs/jsoncpp/jsoncpp.cpp:5055-5233 | the same through the styled writer, for every indentation and comment style |
| JsonOrder.LessTrichotomy | srcs/jsoncpp/jsoncpp.cpp:3038-3134 | for real-free values of any size: equal means identical, unequal values are ordered one way at least, and both ways exactly if the comparison meets two sizes 2^31 apart modulo 2^32 |
| JsonOrder.BothLessIff | srcs/jsoncpp/jsoncpp.cpp:3072-3083 | arrays or objects whose entries do not clash are each less than the other if and only if their sizes differ by 2^31 modulo 2^32 |
| JsonOrder.BothLessExample | srcs/jsoncpp/jsoncpp.cpp:3072-3078 | two such arrays |
| JsonOrder.ScalarsInOrder | srcs/jsoncpp/jsoncpp.cpp:3038-3070 | values of different kinds go by kind, numbers ascending, false before true, strings by the first byte that differs, a proper prefix first |
| JsonOrder.ContainersInOrder | srcs/jsoncpp/jsoncpp.cpp:3072-3083 | containers of one kind go by size modulo 2^32, and else by the first entry that differs |
| JsonOrder.TransitiveIff | srcs/jsoncpp/jsoncpp.cpp:3038-3083 | for three real-free values of any size and nesting, in order pair by pair: they are in order from end to end if and only if at the first difference the two steps in size, modulo 2^32, do not pass 2^31 together, or lead back to the same size and the entries decide |
| JsonOrder.TransitiveIffBySizes | srcs/jsoncpp/jsoncpp.cpp:3038-3083 | unless both steps are clashes, this depends on sizes alone |
| JsonOrder.LessTransitive | srcs/jsoncpp/jsoncpp.cpp:3038-3083 | so among values whose compared sizes are less than 2^31 apart the order is transitive, through nested arrays and objects |
| JsonOrder.TransitivityFails | srcs/jsoncpp/jsoncpp.cpp:3072-3078 | three arrays for which it does not |
| JsonValue.KeyOrder | srcs/jsoncpp/jsoncpp.cpp:2782-2806 | keys of one kind are totally ordered |
| JsonArray.RepresentsIffDense | srcs/jsoncpp/jsoncpp.cpp:3407-3425 | an index-keyed map stands for a sequence if and only if its keys are 0, 1, 2, ... in order |
| JsonArray.ArrayValue.Append | srcs/jsoncpp/jsoncpp.cpp:3620 | appends to the sequence and keeps the array dense |
| JsonArray.ArrayValue.SubscriptDense | srcs/jsoncpp/jsoncpp.cpp:3473-3487 | inside, nothing changes; at the end a null is added; further out a hole appears |
| JsonArray.ArrayValue.Resize | srcs/jsoncpp/jsoncpp.cpp:3455-3471 | shrinking cuts the sequence; growing by more than one leaves a hole |
| JsonArray.ArrayValue.RemoveIndex | srcs/jsoncpp/jsoncpp.cpp:3677-3698 | removes one element, returns it, and keeps the others in order |
| WebSocketSession.Session.OnReceive | srcs/common/network/engine/tcp_network_object.cpp:471-515 | a read goes behind the leftover; while the session is open every received byte is either processed or left over |
| WebSocketSession.Session.RecvHandler | srcs/common/network/protocol_object/web_socket_request_object.cpp:131-178 | handshake, then the greedy frame loop, as functions of the bytes |
| WebSocketSession.Session.RecvFrames | srcs/common/network/protocol_object/web_socket_request_object.cpp:161-177 | the loop delivers what draining the bytes delivers and reports the bytes used |
| WebSocketSession.Session.RecvDataProc | srcs/common/network/protocol_object/web_socket_request_object.cpp:229-321 | one frame step: wait, refuse, fail or deliver |
| WebSocketSession.UnmaskPayload | srcs/common/network/protocol_object/web_socket_request_object.cpp:348-358 | every payload byte is combined with its byte of the masking key |
| WebSocketSession.MakeTextData | srcs/common/network/protocol_object/web_socket_request_object.cpp:379-412 | the text frame with the length in the form its size calls for |
| WebSocketWire.FrameDelivered | srcs/common/network/protocol_object/web_socket_request_object.cpp:229-374 | a frame given byte by byte, with any opcode but a final close, any form of the length, masked with a key or not: delivered once with its opcode and its payload, a text with a zero byte; with a length in seven bits the payload starts at the frame's first byte |
| WebSocketWire.FrameDrains | srcs/common/network/protocol_object/web_socket_request_object.cpp:161-177 | an accepted frame is followed by what stands behind it, a refused one closes the session |
| WebSocketWire.StreamDrains | srcs/common/network/protocol_object/web_socket_request_object.cpp:161-177 | any list of frames with lengths in two or eight bytes, masked or not, is delivered frame by frame |
| WebSocketWire.CloseEnds | srcs/common/network/protocol_object/web_socket_request_object.cpp:331-344 | a final close frame closes the session with nothing delivered, for every form of the length, masked or not, whatever follows; one of two bytes waits for a third |
| WebSocketWire.CloseAfterFrames | srcs/common/network/protocol_object/web_socket_request_object.cpp:161-177 | the frames before it are all delivered |
| WebSocketWire.CloseEndsConnection | srcs/common/network/engine/tcp_network_object.cpp:486-508 | the connection is closed and ignores every later read |
| WebSocketWire.CloseExample | srcs/common/network/protocol_object/web_socket_request_object.cpp:331-344 | the frame 88 02 03 E8 closes |
| WebSocketWire.HandshakeIs | srcs/common/network/protocol_object/web_socket_request_object.cpp:131-160 | the first read: nothing before the empty line, closed without the status text, else open with the rest drained |
| WebSocketLaws.DrainMore | srcs/common/network/protocol_object/web_socket_request_object.cpp:161-177 | draining what has come and later the leftover with the rest is draining all at once |
| WebSocketLaws.ChunkingIndependence | srcs/common/network/engine/tcp_network_object.cpp:471-515 | every split of a stream into reads gives the same payloads, order, state and leftover as one read, if and only if neither of two patterns occurs in it |
| WebSocketLaws.LateStatusExample | srcs/common/network/protocol_object/web_socket_request_object.cpp:131-178 | a stream of the first pattern: a status text after the header |
| WebSocketLaws.RepeatsExample | srcs/common/network/protocol_object/web_socket_request_object.cpp:229-321 | a stream of the second pattern: an empty frame with two bytes behind it |
| WebSocketLaws.FramesRoundTripIff | srcs/common/network/protocol_object/web_socket_request_object.cpp:229-412 | a list of UTF-8 texts is delivered once each, in order, and every byte consumed, if and only if none is shorter than 126 bytes |
| WebSocketLaws.FramesRoundTrip | srcs/common/network/protocol_object/web_socket_request_object.cpp:229-412 | any list of written texts from 126 bytes up is delivered once each, in order, and every byte consumed |
| WebSocketLaws.OneTextIff | srcs/common/network/protocol_object/web_socket_request_object.cpp:231-285 | a written text is read back exactly if it has 126 bytes or more |
| Base64.Base64Encode | srcs/common/network/protocol_object/web_socket_request_object.cpp:20-64 | the loop and its tail compute the encoding |
| Base64.Base64Decode | srcs/common/network/protocol_object/web_socket_request_object.cpp:66-109 | the loop and its tail decode the part before padding or a foreign character |
| Base64.AlphabetIs | srcs/common/network/protocol_object/web_socket_request_object.cpp:9-12 | the 64 letters, by their spelling |
| Base64.GroupIs | srcs/common/network/protocol_object/web_socket_request_object.cpp:34-45 | three bytes and their four letters are one number in two bases |
| Base64.FoobarExamples | srcs/common/network/protocol_object/web_socket_request_object.cpp:20-64 | test vectors of RFC 4648 |
| Base64.Base64RoundTrip | srcs/common/network/protocol_object/web_socket_request_object.cpp:20-109 | decoding the encoding of any bytes gives them back, one- and two-byte tails included |
| HttpChunked.Strnstr | srcs/common/network/protocol_object/http_request_object.cpp:22-43 | the first occurrence before the first NUL, unless it is the very end of the text |
| HttpChunked.HttpRequestObject.RecvHandler | srcs/common/network/protocol_object/http_request_object.cpp:66-220 | the outcome of one call, with and without a Content-Length field, and when content is handed on |
| HttpChunked.HttpRequestObject.DecodeChunks | srcs/common/network/protocol_object/http_request_object.cpp:153-212 | the chunk loop, each pass further on |
| HttpLaws.MessageDecodes | srcs/common/network/protocol_object/http_request_object.cpp:132-219 | the chunked coding of any chunks, in any hexadecimal spelling and with extensions, decodes to their data joined and is taken whole |
| HttpLaws.PartCompletesIff | srcs/common/network/protocol_object/http_request_object.cpp:132-219 | a part of a message is taken for the whole if and only if it ends like a body right after the data of some chunk |
| HttpLaws.CompletesEarly | srcs/common/network/protocol_object/http_request_object.cpp:132-219 | a message of which a proper part is taken for the whole |
| HttpLaws.SizedMessage | srcs/common/network/protocol_object/http_request_object.cpp:92-129 | a message with a Content-Length field, its value written with blanks, a sign and digits: nothing is taken before the announced bytes are there, and then exactly those, unless the body begins with a NUL; a negative size throws, a text of 20 bytes is read past its buffer, a longer one is waited on |
| HttpLaws.LongIs | srcs/common/network/protocol_object/http_request_object.cpp:190-193 | a chunk size as `strtol` reads it: white space, sign, `0x`, digits, anything behind, cut to 64 bits |
| HttpLaws.PassIs | srcs/common/network/protocol_object/http_request_object.cpp:161-212 | one pass over a size line: refused, thrown, read outside the buffer, ended or gone on, each for its sizes |
| HttpLaws.NoLineEndRefused | srcs/common/network/protocol_object/http_request_object.cpp:156-160 | a pass that does not begin at a line end is refused |
| HttpLaws.HeaderAloneWaits | srcs/common/network/protocol_object/http_request_object.cpp:82-87 | without a Content-Length field, a header without its first body byte is waited on |
| HttpLaws.EveryDataHasAChunk | srcs/common/network/protocol_object/http_request_object.cpp:190-199 | every nonempty data can be sent as such a chunk |
| TcpSession.TcpNetworkObject.Start | srcs/common/network/engine/tcp_network_object.cpp:187-227 | the first read is started if the socket is open, whether or not closing began |
| TcpSession.TcpNetworkObject.PostSendLocked | srcs/common/network/engine/tcp_network_object.cpp:314-400 | the queue push under the lock, with a write started only for the first entry |
| TcpSession.TcpNetworkObject.OnSend | srcs/common/network/engine/tcp_network_object.cpp:552-673 | the write completion: pop, next write or send-complete timer, or the close notice |
| TcpSession.TcpNetworkObject.OnReceive | srcs/common/network/engine/tcp_network_object.cpp:410-541 | the read completion, with whatever the handler sends or closes inside |
| TcpSession.TcpNetworkObject.OnNetworkTimer | srcs/common/network/engine/tcp_network_object.cpp:756-820 | a timer that fires, before and after closing began |
| TcpSession.TcpNetworkObject.PostClose | srcs/common/network/engine/tcp_network_object.cpp:284-304 | closing begins; its timer is armed once |
| TcpProtocol.StepSafe | srcs/common/network/engine/tcp_network_object.cpp:284-673 | every handler keeps the queue, the open-state and the log invariants |
| TcpProtocol.RunsAreSafe | srcs/common/network/engine/tcp_network_object.cpp:314-400 | after every interleaving: at most one write under way and it is the queue front; while open a write is under way exactly when something is queued; the send-complete timer is set on an empty queue only |
| TcpProtocol.SessionContract | srcs/common/network/engine/tcp_network_object.cpp:284-835 | from the start of a session: bytes completed then queued are the bytes accepted; the close notice comes at most once, never after `PostClose`; no read, write or ordinary timer starts after closing began |
| TcpLaws.OpenSessionReads | srcs/common/network/engine/tcp_network_object.cpp:517-540 | from its start, through every interleaving: while a session is not closing exactly one read is under way, and never a second one |
| TcpLaws.StepEffect | srcs/common/network/engine/tcp_network_object.cpp:410-820 | what each event does to the end of a session: notice, closing flag, read under way, socket, closing timer |
| TcpLaws.NoticeIff | srcs/common/network/engine/tcp_network_object.cpp:410-673 | in every run the close notice is given once if what ends the session first is an error, a refused reception or the close timer, and not at all otherwise |
| TcpLaws.SocketClosesIff | srcs/common/network/engine/tcp_network_object.cpp:284-304 | in every run the socket is open unless closing was requested, and then the closing timer is under way exactly until it has closed it |
| TcpLaws.ClosingTimerCloses | srcs/common/network/engine/tcp_network_object.cpp:756-773 | the closing timer closes the socket, whether it fires or is cancelled |
| TcpLaws.FlagIsSet | srcs/common/network/engine/tcp_network_object.cpp:606-663 | closing once all is sent can be set and taken back at any time |
| TcpLaws.CompletionIff | srcs/common/network/engine/tcp_network_object.cpp:606-663 | an error-free completion takes the front off, writes what is next, and arms the close timer if and only if the queue is empty and closing was set |
| TcpLaws.SendEntersIff | srcs/common/network/engine/tcp_network_object.cpp:314-352 | data are accepted if and only if there are some, at most 31457280 bytes, and the session is not closing |
| TcpLaws.SendQueues | srcs/common/network/engine/tcp_network_object.cpp:363-395 | they are queued last, and written at once if and only if nothing else was queued |
| TcpLaws.ReceptionSends | srcs/common/network/engine/tcp_network_object.cpp:471-508 | a reception in an open session queues what its handler sends, in order and up to its request for the end, and keeps its last word on closing |
| TcpLaws.KeepaliveAgainIff | srcs/common/network/engine/tcp_network_object.cpp:783-812 | a keep-alive timer is armed again exactly if its callback wants so |
| IndexKeys.InsertContract | srcs/common/network/engine/udp_network_manager.cpp:69-143 | no live entry is overwritten, keys stay in range, the least free key from the counter up is taken, and the insertion fails exactly when there is none |
| IndexKeys.LimitIs | srcs/common/network/engine/udp_network_manager.cpp:5 | keys end below two thousand million |
| IndexKeys.FailureLasts | srcs/common/network/engine/udp_network_manager.cpp:82-106 | a failure lasts until a key at or above the counter is released, however many are free below |
| IndexKeys.FailingUsesKey | srcs/common/network/engine/tcp_network_manager.cpp:300-349 | an object that does not start leaves no entry but uses up its key: the next one is given a later key |
| IndexKeys.KeysIncrease | srcs/common/network/engine/tcp_network_manager.cpp:250-349 | over any run without a counter reset the keys handed out increase strictly, so none is issued twice |
| IndexKeys.NetworkManager.InsertDatagram | srcs/common/network/engine/udp_network_manager.cpp:69-143 | the object is stored under the key it then carries |
| IndexKeys.NetworkManager.InsertSession | srcs/common/network/engine/tcp_network_manager.cpp:250-349 | the same; an object that does not start or open is closed and taken out, and its key is used up |
| IndexKeys.NetworkManager.RemoveKeys | srcs/common/network/engine/udp_network_manager.cpp:228-244 | exactly the objects under the listed keys leave the table and are closed |
| IndexKeys.NetworkManager.RemoveAll | srcs/common/network/engine/tcp_network_manager.cpp:1015-1036 | the table is emptied; the TCP version closes every object |
| StreamRecords.StreamManager.GarbageCheck | srcs/stream_manager.cpp:262-323 | erasing while walking removes exactly the errored and the late non-streaming records and returns their network keys in key order |
| StreamRecords.StaysIff | srcs/stream_manager.cpp:275-300 | a record leaves exactly if its error is set, or it is older than 30 seconds and in one of the four states before streaming |
| StreamRecords.StreamManager.SetError | srcs/stream_manager.cpp:176-189 | only the first error of a stream is kept |
| StreamRecords.StreamManager.CreateStream | srcs/stream_manager.cpp:106-124 | a fresh record, unless the key is taken |
| StreamSystem.ShardsAre | srcs/main_object.h:13 | a hundred shards, each with every hundredth stream |
| StreamSystem.CheckShard | srcs/stream_manager.cpp:262-323 | the check of one manager together with the two network tables: which objects of both leave and are closed |
| StreamSystem.GarbageClosesOwn | srcs/stream_manager.cpp:262-323 | a check closes exactly the media objects held by the removed records, each made for that very stream, and no signalling session |
| StreamLives.StepRecord | srcs/main_object.cpp:310-484 | what every event does to the record of a stream |
| StreamLives.LateStreamGone | srcs/stream_manager.cpp:262-323 | in every run a stream that never streams is gone after a check of its shard later than 30 seconds |
| StreamLives.FailedStreamGone | srcs/main_object.cpp:310-436 | in every run a stream with bad data, a closed signalling session or an unsent handshake is gone after the next check of its shard |
| StreamLives.HealthyStreamStays | srcs/stream_manager.cpp:275-300 | in every run a stream that does not fail stays as long as each check finds it streaming or no older than 30 seconds |
| StreamLives.StreamingStreamStays | srcs/stream_manager.cpp:275-300 | in every run a streaming stream that does not fail survives every check unchanged |
| StreamSystem.StepKeptIff | srcs/main_object.cpp:310-484 | every event keeps the agreement of records, keys and tables, except exactly a handshake that is given a key held by the record of another stream |
| StreamSystem.RunSafeIff | srcs/main_object.cpp:310-484 | the agreement holds throughout a run if and only if no handshake of it is given such a key |
| StreamSystem.RunClosesOwn | srcs/main_object.cpp:310-484 | in every such run no garbage check closes the object of another stream |
| StreamSystem.StaleKeyClosesAnother | srcs/common/network/engine/udp_network_manager.cpp:82-106 | in any state, after a handshake that is given such a key, an error of the older stream makes its check close the new object |
| StreamSystem.FreshUntilStartingOver | srcs/common/network/engine/udp_network_manager.cpp:69-143 | while the key counter stays below its limit no handshake is given such a key |
| StreamReset.ResetClosesAnother | srcs/common/network/engine/udp_network_manager.cpp:82-85 | a run in which, after the counter started over, a check closes the object of another stream, although all others were removed in their turn and the failing one was streaming |
| StreamOwners.HandshakeOwnedIff | srcs/main_object.cpp:441-484 | a handshake leaves every live object held by the record of its stream if and only if it makes none or finds the record without a live object |
| StreamOwners.StepOwnedIff | srcs/main_object.cpp:310-484 | every other event leaves every live object held |
| StreamOwners.RunOwnedIff | srcs/main_object.cpp:310-484 | every live object stays held throughout a run, counter resets included, if and only if every handshake of it is of that kind |
| StreamOwners.OwnedIffNoOrphan | srcs/stream_manager.cpp:262-323 | held by their own records means exactly that no live object is without a record that holds its key |
| StreamOwners.HandshakeOrphansIff | srcs/main_object.cpp:441-484 | exactly which objects a handshake orphans: the new one if the record is gone, else the one it held |
| StreamOwners.OrphanForever | srcs/stream_manager.cpp:262-323 | an orphan stays live and unheld in every run in which it does not close itself: no check closes it |
| StreamOwners.SecondHandshakeOrphans | srcs/main_object.cpp:441-484 | a second handshake leaves the first object live under a key no record holds |
| StreamOwners.LateHandshakeOrphans | srcs/main_object.cpp:463-471 | a run in which a handshake completes after the garbage check removed the record, and its object is orphaned |
| StreamSystem.StreamCreateTimeProc | srcs/main_object.cpp:671-707 | one tick makes the configured number of streams, no more than up to the configured maximum, and exactly that many |
| StreamSystem.CreateManyFresh | srcs/main_object.cpp:628-650 | each new stream gets the next key and a fresh record in its own shard, and nothing else changes |
| RtpTraffic.HeaderParses | srcs/ome_stream/dtls_transport.cpp:456-503 | track, number, timestamp and frame end of an RTP header come back, for every value and every payload type |
| RtpTraffic.MillisecondsAre | srcs/ome_stream/dtls_transport.cpp:480-496 | a timestamp becomes the number of whole milliseconds at so many ticks each |
| RtpTraffic.DtlsTransport.SetVideoTraffic | srcs/ome_stream/dtls_transport.cpp:513-603 | the accounting of one video packet |
| RtpTraffic.DtlsTransport.SetAudioTraffic | srcs/ome_stream/dtls_transport.cpp:609-674 | the accounting of one audio packet, the starting packet counted too |
| RtpTraffic.DtlsTransport.GetTrafficCollectData | srcs/ome_stream/dtls_transport.cpp:682-718 | when a window is handed out, what it holds and what is cleared; `WindowIff` and `LatencyIs` say it of the packets |
| RtpTruth.StepLoss | srcs/ome_stream/dtls_transport.cpp:554-575 | for every gap the counted loss is at most the true one and exact unless a wrap loses a packet; for gaps up to 255 such a wrap falls short by one |
| RtpLaws.RunLossBound | srcs/ome_stream/dtls_transport.cpp:513-718 | over every run with packets in order, collections anywhere: all windows together never count more than the true loss, fall short by exactly the lossy wraps, and packets plus true loss fill the span |
| RtpLaws.RunAccounts | srcs/ome_stream/dtls_transport.cpp:513-718 | over every run in any order, collections anywhere: all windows together hold the packets of the run and the frames and losses of those that move the track on |
| RtpLaws.RunCountRightIff | srcs/ome_stream/dtls_transport.cpp:513-718 | packets in any order and repeated, video and audio: lossy wraps made good, the count is never below the missing packets, and right if and only if every number stepped over is above the first, stepped over once and never arrives, no step back passes a wrap, and no packet between was ignored |
| RtpTruth.SkipsOnceIffIncreasing | srcs/ome_stream/dtls_transport.cpp:554-575 | where no number comes twice and none from below the first, that means that the compared numbers increase |
| RtpLaws.AudioRepeatsIff | srcs/ome_stream/dtls_transport.cpp:652-671 | audio with increasing numbers: right if and only if no packet that repeats a timestamp is followed by a later frame |
| RtpTruth.SwapOvercounts | srcs/ome_stream/dtls_transport.cpp:583-597 | two swapped packets of a frame as an instance: two losses counted, none missing |
| RtpTruth.AudioRepeatOvercounts | srcs/ome_stream/dtls_transport.cpp:652-671 | a repeated audio timestamp as an instance: one loss counted, none missing |
| RtpLaws.WindowsConserve | srcs/ome_stream/dtls_transport.cpp:682-718 | for every run, in order or not: windows plus the open window are the counts of the same run without collections, in 32-bit arithmetic |
| RtpLaws.DurationsModulo | srcs/ome_stream/dtls_transport.cpp:690-710 | in every run, early windows included, the durations of the windows reach from the start of the measuring to the start of the open window, modulo 2^32, for both media |
| RtpLaws.DurationsTelescopeIff | srcs/ome_stream/dtls_transport.cpp:690-710 | the video durations add up to last change time minus start time, plus 2^32 exactly if a window was early and the next one came before the clock passed a multiple of 2^32 |
| RtpFigures.MeasuringBeginsIff | srcs/ome_stream/dtls_transport.cpp:517-552 | in every run measuring begins with the first packet that raises a nonzero timestamp more than three seconds after the first packet of all |
| RtpFigures.WindowIff | srcs/ome_stream/dtls_transport.cpp:682-699 | in every run a window is handed out exactly when both media are measured and each has gone on for three seconds since the last one; its durations are these spans |
| RtpFigures.LatencyIs | srcs/ome_stream/dtls_transport.cpp:700-710 | in every run the latencies are time minus media time since the first measured packet, for video up to the newest frame's first packet, for audio up to the last packet used, cut to 32 bits |
| RtpLaws.EarlyWindow | srcs/ome_stream/dtls_transport.cpp:690-691 | without a timestamp change the duration is the negated start time |
| RtpLaws.EarlyWindowRun | srcs/ome_stream/dtls_transport.cpp:682-718 | a run with such a window: eight seconds are reported as eight seconds and 2^32 ms |

## Left out

JSON:

- Reals: a real is kept as its token text; `sscanf`, `snprintf` and the special
  values are parameters of the feature record, and the round trip is for
  real-free values.
- Comments are skipped for termination and position but not collected or
  written; byte offsets and error message formatting are not modelled.
- The dropped-null options of reader and writer, the deprecated `Reader` and
  `StyledWriter`, `Path`, and the memory management of strings and keys.
- `nodes_` holds values that are stored back when they are popped, where the
  source holds references into the tree. Array indices do not wrap at 2^31.
- JsonOrder.LessTransitive: sufficient only; the exact condition is in
  `TransitiveIff`.
- JsonLax.LooseDocumentIff: one separator is used throughout, and the token in it
  is no number.
- JsonLayout.LayoutDoesNotMatter: error messages are compared by kind and token,
  not by their text.
- JsonRoundTrip.FaithfulRoundTrip: names shorter than 2^30 bytes, the limit at
  which the reader throws.

Network:

- Sockets, TLS, acceptors and `boost::asio` timers are events that may happen
  in any order; handlers are atomic, and `PostSend` is split at its lock. A
  cancelled timer is one that fires with an error. Data races on unlocked flags
  are not modelled.
- Whether the derived class takes a payload, sends or closes inside a handler is
  a parameter. `GetTrafficRate`, which resets the counters, is left out.
- WebSocketWire.FrameDelivered: payloads of fewer than 2^31-14 bytes.
- WebSocketLaws.FramesRoundTripIff: texts up to 2^31-11 bytes that do not begin
  with the byte 0x81, as no UTF-8 text does; `OneTextIff` is for any bytes.
- A frame whose 64-bit length does not fit the code's `int` arithmetic ends in
  an undefined state of the model.
- HttpChunked.HttpRequestObject.RecvHandler: reads outside the buffer, a length
  text of 20 bytes (copied without its terminator) and an overflowing message
  size are one outcome of their own.
- HttpLaws.SizedMessage: the length is below 2^31, and so is the size of the
  message.
- The UDP session object, the test server and the thread pool.

Streams and RTP:

- `MainObject` is a state with events; logging, configuration, the CSV file, the
  aggregation of collected data and the asynchronous connect are left out.
  Stream keys are not bounded by 2^31.
- `TcpNetworkManager` and `UdpNetworkManager` are one class with two insertions,
  as the rest of their code is the same.
- `StreamManager::Remove` returns before it closes anything and has no caller.
- RtpLaws.RunCountRightIff: compared steps of at most 255 numbers either way, as
  the wrap test looks at the last 255 numbers, and no counter overflow.
- RtpFigures.MeasuringBeginsIff: the clock is positive, as `time` is.
- RtpLaws.DurationsTelescopeIff: receive times of video packets do not go back and
  span less than 2^32 ms; `DurationsModulo` has no condition.
- RtpLaws.RunLossBound: video timestamps do not go back and audio timestamps
  increase, within one 32-bit range, and the span is below 2^31-1.
- DTLS, certificates, SDP and candidate parsing.
