# Verified model of the protocol engine and the template engine

The agent's own handlers are thin; what decides over its messages is the embedded web server and protocol library
(`src/mongoose.c`), the Mustache interpreter (`src/mustach.c` with `src/mustach-wrap.c` and
`src/mustach-json-c.c`), and a few functions of a small web server (`src/althttpd.c`). This project models their
hardest parts in Dafny and proves what they promise. The code is modelled in its own form: buffers, contexts, lists
and stacks are classes with fields that are updated in place, loops are loops, and every such method is proved
against a specification function. What the source promises is proved about these functions, for all inputs.

`dafny verify dfyconfig.toml` checks everything.

| files | what they model |
|---|---|
| `Bytes`, `Wrappers`, `Mbuf` | octets, network order, masking; values that may be missing; the growable buffer in which everything happens in place |
| `Incremental` | receivers that are woken up with more octets: when the cuts between the arrivals do not matter |
| `WebSocketFrames`, `WebSocketConnection` | RFC 6455, sections 5.2 to 5.5: frames, fragmented messages, both directions |
| `Keys`, `JsonContext` | names split in place with escapes; the stack of JSON contexts a template runs over |
| `MustacheTemplate`, `MustacheMeaning`, `MustacheInterpreter`, `MustacheProperties`, `MustacheTags` | tags and trees; the recursive meaning; the one-pass interpreter that jumps; what follows for calls and output; how each kind of tag is written and what it prints |
| `ChunkedBody`, `ChunkedTransfer` | RFC 7230, section 4.1: chunks, and the decoder that collapses them in place |
| `CoapMessages`, `CoapCodec` | RFC 7252, section 3: options, composing and parsing |
| `MqttPackets`, `MqttSession`, `MqttRequests` | MQTT 3.1.1: packets, the handler's loop, the senders, and both ends together |
| `BlockHash`, `HashContexts` | SHA-1 and MD5 around their compression function |
| `UriPath`, `Uri`, `UriParser` | RFC 3986: removing dot segments, assembling and parsing |
| `DnsNames`, `DnsCodec` | RFC 1035, sections 3.1 and 4.1.4: names with compression pointers |
| `Base64`, `Base64Codec` | RFC 4648, section 4: two encoders and two decoders |
| `Globs` | the backtracking pattern matcher |
| `Sanitizer` | what the web server does to a path before it looks for a file |

## How it is built

Receivers (WebSocket, chunked bodies, MQTT) are all specified by a step function on (state, buffer). `Incremental`
proves once that a step which shrinks the buffer, and which later octets do not disturb, gives the same effects for
every cut of the octets into receive events. Each protocol then proves that its step has these two properties, that
one step takes one frame, chunk or packet as it was sent, and that an unfinished one waits. The imperative object is
proved to do exactly the step.

The Mustache interpreter is proved to refine a recursive meaning by way of a configuration: template position, stack
of marks, flag, line state and context. `MustacheMeaning` shows by induction over the items still ahead that jumping
back to a section's start is running its body again; `MustacheInterpreter` shows that each turn of the loop takes one
unit of work off the meaning that is still ahead, which is also why it ends.

What is shared by a specification and its code (alphabets, digits, command numbers, bits, delimiters, letters of either
case, kinds of tags) is stated once more without it, as the standards write it: bit by bit, digit by digit, or octet by
octet. These are the rows that say "in octets", and `Bytes.XorIsBitwise`, `MustacheTags.TagsAreRead`,
`ChunkedBody.AnySpellingArrives`, `BlockHash.PaddedOctet`, `Globs.MatchIgnoresCase` and their like.

## Where the code departs from what one would expect

These are results. For each there is a lemma that says exactly when the expected property holds, and where the input
is not plain from it, a lemma with the input.

- Chunks of 2^24 octets or more are sent but never taken (`ChunkedBody.WrittenChunk`).
- CoAP options with numbers of 65536 or more, or lengths from 65536 to 65804, are composed but not parsed back; what is
  bounded by 65804 are lengths and differences of numbers (`CoapMessages.MessageRoundTrip`; input:
  `CoapMessages.NumberTooLong`).
- A SUBSCRIBE packet with a topic of more than 65535 octets announces more octets than it has
  (`MqttPackets.SubscribeIsWhole`); in other packets such strings are cut to their length modulo 65536
  (`MqttPackets.ConnectIsRead`). The remaining length may take a fifth octet (`MqttPackets.LengthRoundTrip`; input:
  `MqttPackets.FifthOctet`).
- MD5 takes the length of each piece modulo 2^32 (`HashContexts.Md5PadsRightly`); of a piece of 2^32 octets or more
  only the beginning reaches SHA-1 (`HashContexts.Sha1HashesAll`; input: `HashContexts.LongPieceIsLost`).
- A name with an empty label, a label of 64 to 127 octets or a final dot is encoded, but not read back
  (`DnsNames.NameRoundTrip`; input: `DnsNames.FinalDotIsLost`).
- Splitting swallows empty keys behind the first (`Keys.SplitUndoesJoin`; input: `Keys.EmptyKeyIsLost`).
- Stars at the end of a pattern do not even take nothing when the string is at its end, and the third of three stars
  at the end has to take something (`Globs.FoundExactlyWhenMeant`, `Globs.WalkFinds`; inputs: `Globs.StarsAtTheEnd`,
  `Globs.ThreeStarsNeedMore`).
- An illegal WebSocket frame is answered with a Close frame at every receive event from then on, so that the number
  of these depends on how the octets are cut (`WebSocketConnection.CutsOfAnswers`; input:
  `WebSocketConnection.BreachTwice`).
- The sender of WebSocket frames uses the long form of the length for 65535 octets already
  (`WebSocketConnection.ShortestFormSent`); every form that fits is received.
- The size of a message wraps below zero for a lone final continuation without payload
  (`WebSocketFrames.WrapsExactlyWhenEmpty`; input: `WebSocketFrames.LoneContinuation`).
- A URI with a query or a fragment but no path is assembled, but they are read as part of the host
  (`Uris.AssembledIsParsed`; input: `Uris.HostOfQuery`); so is user information without a scheme
  (`Uris.UserGoesToHost`).
- '$' at the end of a pattern stands for the end of the string, but also matches a '$' in it
  (`Globs.AnchoredFinds`; input: `Globs.DollarMatchesItself`), and behind stars it has no effect
  (`Globs.AnchorBehindStars`).
- A SUBACK packet starts with 0x92, where the standard has 0x90 (`MqttRequests.OctetsOfSubscribeAck`); both are taken
  (`MqttRequests.GrantIsShown`).
- A section that has been entered is not left when the run fails inside of it, although the interface says that it
  always is (`MustacheProperties.LeavesWhatItEnters`; input: `MustacheProperties.UnendedExample`). Whether
  a run fails at all depends on the template only (`MustacheProperties.SucceedsByTemplate`).
- The comment on the message length of a chunked request says body and head; the code also counts octets that have
  arrived behind the last chunk (`ChunkedTransfer.Receiver.Handle`).
- Escapes of a dot and of a slash in a path are turned into these characters, while the comment at
  `src/althttpd.c:1843-1852` says that they become underscores (`Sanitizer.ConvertsAsDocumented`; inputs:
  `Sanitizer.EscapedDot`); and any escape is one character, while `src/althttpd.c:182-184` speaks of characters one by
  one (`Sanitizer.ConvertsOneByOne`).

## Model

| member | source | states |
|---|---|---|
| Mbufs.Mbuf.Insert | src/mongoose.c:1454-1500 | Octets are inserted at any place: what stood behind it moves up, whether or not the storage had to be moved; the memory is the old one or a new one |
| Mbufs.Mbuf.Append | src/mongoose.c:1497-1500 | Insertion at the end: the contents become the old contents followed by the data |
| Mbufs.Mbuf.CloseGap | src/mongoose.c:1519-1524 | Everything from `src` on moves down to `dst`: the contents are what stood before the gap followed by what stood behind it |
| Mbufs.Mbuf.Remove | src/mongoose.c:1519-1524 | Drops exactly the first n octets; asking for more than there are changes nothing |
| Mbufs.Mbuf.MoveDown | src/mongoose.c:6277-6292 | Octets move down inside the buffer; what is in front of the target and behind the source is as before |
| Bytes.MaskingTwice | src/mongoose.c:9947-9952 | Masking with the same four-octet key restores the payload, so unmasking undoes masking (RFC 6455, section 5.3) |
| Bytes.XorIsBitwise | src/mongoose.c:9949-9951 | Each bit of the result is set exactly when the bits of the two octets differ |
| Bytes.MaskedIsBitwise | src/mongoose.c:9947-9952 | Octet i of a masked payload differs from octet i of the payload in exactly the bits of octet i % 4 of the key (RFC 6455, section 5.3) |
| Bytes.BigEndianOctet | src/mongoose.c:10063-10069 | Octet i of a number in network order is its digit of weight 256^(width - 1 - i) |
| Incremental.DrainSplit | src/mongoose.c:10152-10156 | For any step that shrinks the buffer and is not disturbed by later octets: draining now and again when more has come equals draining once at the end |
| Incremental.FeedIsOneDrain | src/mongoose.c:10152-10156 | Hence however the octets are cut into receive events, state, buffer and effects are those of one single event |
| WebSocketFrames.StepExtends | src/mongoose.c:9863-10014 | Whatever the receive step does with a buffer, for all octet streams, it does the same when octets follow; none of its decisions depends on octets that have not arrived |
| WebSocketFrames.WireHeader | src/mongoose.c:9914-9931 | The header the receiver reads at the start of any valid frame, in each of the three length forms and with or without mask, has that frame's size, key and length |
| WebSocketFrames.WirePayload | src/mongoose.c:9939-9952 | Unmasked, the payload found behind the header is the frame's, and what follows the frame is left |
| WebSocketFrames.FrameIsReceived | src/mongoose.c:9863-10014 | One step on (first octet ++ payload so far) ++ (frame ++ rest) gives the frame's meaning under section 5.4 of RFC 6455, and leaves (new prefix) ++ rest: control frames interleave, fragments accumulate, final fragments deliver |
| WebSocketFrames.StreamIsReceived | src/mongoose.c:9863-10014 | The same for a whole conforming stream of frames from any point of a message |
| WebSocketFrames.UnfinishedFrameWaits | src/mongoose.c:9914-9931 | A frame of which octets are missing is neither taken nor refused |
| WebSocketFrames.ArrivalsGiveTheMessages | src/mongoose.c:9863-10014 | For every conforming stream, every mask and every cut into receive events: the effects are exactly the defragmented messages and interleaved control frames in order, and the buffer is the reassembled prefix followed by the unread octets |
| WebSocketFrames.CutsDoNotMatter | src/mongoose.c:10152-10156 | For all octet streams, conforming or not, every cut into receive events gives the same reassembly state, buffer, delivered messages, and answers to Ping and Close; complaints about illegal frames are the subject of CutsOfAnswers |
| WebSocketFrames.WrapsExactlyWhenEmpty | src/mongoose.c:9963-9982 | The message size wraps below zero exactly for a final continuation without payload when nothing has been put together |
| WebSocketFrames.LoneContinuation | src/mongoose.c:9963-9982 | The input: the octets 128 and 0 on their own |
| WebSocketFrames.ShortFrameArrives | src/mongoose.c:9947-10014 | In octets: 0x81 and 0x82 hand on a message, 0x89 is answered with opcode 10 and 0x88 with opcode 8, and both are handed on, masked or not (RFC 6455, sections 5.5 and 5.7) |
| WebSocketFrames.TwoFragmentsArrive | src/mongoose.c:9954-9982 | In octets: opcode 1 or 2 without FIN and then 0x80 give one message with FIN, of both payloads |
| WebSocketFrames.OctetsOfLonger | src/mongoose.c:10055-10070 | In octets: the longer forms say 126 with two octets of length, or 127 with eight |
| WebSocketConnection.FlagsSent | src/mongoose.c:10051-10055 | The first octet sent has the FIN bit unless 0x100 is added to the opcode |
| WebSocketConnection.ShortestFormSent | src/mongoose.c:10055-10070 | The sender uses the shortest length form that fits (RFC 6455, section 5.2) exactly when the payload does not have 65535 octets |
| WebSocketConnection.SentWire | src/mongoose.c:10049-10085 | The header the sender writes followed by the (masked) payload is the wire form of a valid frame |
| WebSocketConnection.Connection.SendHeader | src/mongoose.c:10049-10085 | Appends the header with the length form and, for a client, a fresh key; gives the position the masked payload starts at, zero for a server |
| WebSocketConnection.Connection.MaskFrame | src/mongoose.c:10087-10093 | Masks everything from the given position to the end of the send buffer and no octet before it |
| WebSocketConnection.Connection.SendFrame | src/mongoose.c:10095-10107 | The send buffer stays the wire form of the list of frames sent, which grows by a frame of this opcode and payload; octets already queued do not change; a Close frame closes |
| WebSocketConnection.Connection.SendFramev | src/mongoose.c:10109-10129 | Sending pieces queues the very frame that sending their concatenation queues |
| WebSocketConnection.Connection.Unmask | src/mongoose.c:9947-9952 | The payload of the frame is unmasked where it stands; nothing else in the receive buffer changes |
| WebSocketConnection.Connection.TakeFragment | src/mongoose.c:9954-9982 | The fragment's payload is moved behind the reassembled prefix, the first octet kept or completed, and the last fragment delivers the whole message and removes it: state, buffer and log are those of the specified step |
| WebSocketConnection.Connection.TakeWhole | src/mongoose.c:9983-10010 | An unfragmented frame is handed over, answered when it is a Ping or a Close, and removed from behind the reassembled prefix, which stays |
| WebSocketConnection.Connection.Deliver | src/mongoose.c:9863-10014 | One call does one specified receive step in place, including the refusals that are answered with a Close frame, and keeps the send buffer the wire form of what was sent |
| WebSocketConnection.Connection.Receive | src/mongoose.c:10152-10156 | A receive event takes as many steps as are possible; the answers sent, the log and the closing flag are those of the drained effects |
| WebSocketConnection.Connection.ReceiveAll | src/mongoose.c:10152-10156 | Over a run of receive events the state, the buffer, the log, the frames sent in answer and the closing flag are those of the specification of the whole run |
| WebSocketConnection.AnswersOverRun | src/mongoose.c:9895-9940 | For all octet streams and cuts: the frames sent are the answers to the Pings and Closes received, followed by one and the same complaint for every event that ends at an illegal frame |
| WebSocketConnection.BreachesFromThen | src/mongoose.c:9895-9940 | These are the events from the first one on whose octets, with all before them, end at an illegal frame: later octets never cure a breach |
| WebSocketConnection.CutsOfAnswers | src/mongoose.c:10152-10156 | The frames sent do not depend on the cuts exactly when the octets do not end at an illegal frame, or one event only is left from there on |
| WebSocketConnection.BreachTwice | src/mongoose.c:9895-9905 | The octets 9 and 0 are answered with two Close frames when they arrive one by one, and with one when they arrive together |
| WebSocketConnection.ClosesOverRun | src/mongoose.c:10095-10107 | The connection is set to close exactly by the answer to a Close frame or by a complaint |
| WebSocketConnection.ConformingIsAnswered | src/mongoose.c:9863-10014 | A conforming stream is never complained about at any cut; what goes out are the answers to its Pings and Closes, and only a Close frame closes |
| WebSocketConnection.SentFramesMean | src/mongoose.c:10095-10107 | The frames the sender makes of whole messages, of messages in pieces (DONT_FIN, then continuations) and of control messages between pieces form a conforming stream that stands for these messages |
| WebSocketConnection.SentIsReceived | src/mongoose.c:9863-10014 | Sending then receiving is the identity on (opcode, payload), pieces put together, for client and server frames, all length forms, and all cuts into receive events |
| Keys.SplitOfJoin | src/mustach-wrap.c:96-135 | What splitting makes of any joined list of keys, empty keys included: the first key is kept, empty keys behind it are swallowed |
| Keys.SplitUndoesJoin | src/mustach-wrap.c:96-135 | Joining with escapes and splitting gives the list back exactly when it is empty, or is not the single empty key and has no empty key behind the first; for dots with backslashes and for the '~0', '~1' of RFC 6901 |
| Keys.EmptyKeyIsLost | src/mustach-wrap.c:96-135 | The input: the keys 'a' and '' come back as 'a' alone |
| Keys.EscapedExamples | src/mustach-wrap.c:104-127 | 'a/b' and 'm~n' are written 'a~1b' and 'm~0n' in a pointer (RFC 6901, section 5); a dot or a backslash in a dotted name has a backslash in front of it |
| Keys.CopyKey | src/mustach-wrap.c:96-135 | The loop with a read and a write cursor leaves the unescaped key at the start of the name, in place, and touches nothing in front of it or behind the read cursor |
| Keys.GetKey | src/mustach-wrap.c:96-135 | One call cuts the first key off in the caller's buffer: it stands there unescaped and ended by a zero, the separators behind it are skipped, and the rest of the name is untouched |
| Keys.SplitName | src/mustach-wrap.c:174-206 | Calling it until there is no key leaves all keys standing in the one buffer at the same time, each where it was cut |
| JsonContext.Explorer.Sel | src/mustach-json-c.c:63-85 | Selects the value of a name in the innermost context that has it, and null when none has |
| JsonContext.Explorer.SelectName | src/mustach-wrap.c:137-228 | Selects what the name denotes in the context stack: the dot itself, or a name searched outwards and then followed key by key |
| JsonContext.Explorer.Enter | src/mustach-json-c.c:99-139 | Entering a selection pushes the first item of a non-empty array, or the value itself when it is not empty or false, refuses otherwise, and reports a stack that is full |
| JsonContext.Explorer.Next | src/mustach-json-c.c:141-162 | Moves to the next item of the array that is being run through, or says that there is none and keeps the value |
| JsonContext.Explorer.Leave | src/mustach-json-c.c:164-173 | Drops exactly the innermost context, or reports that there is none to leave |
| JsonContext.AdvanceConsumes | src/mustach-json-c.c:141-162 | Each move to a next item consumes one item of the innermost context: the measure that makes the interpreter stop |
| JsonContext.SectionsShown | src/mustach-json-c.c:99-138 | A section is shown for every value but null, false, 0, 0.0, the empty text and the empty array, up to the greatest depth |
| JsonContext.MemberIsFound | src/mustach-json-c.c:83-97 | Looking up a name in an object finds the first member of that name, and nothing exactly when there is none |
| JsonContext.UpToZeroIs | src/mustach.c:352-353 | A name is seen up to its first zero character |
| MustacheMeaning.JumpsAreRounds | src/mustach.c:410-424 | Jumping back to the start of a section's body, over and over, does what the recursive meaning of running the body once per item does |
| MustacheMeaning.RunSection | src/mustach.c:390-409 | A section tag met by the one-pass interpreter pushes a mark and goes on so that the rest of the run is the meaning of the section followed by the rest |
| MustacheMeaning.MeaningIsRun | src/mustach.c:236-448 | The run of the scanner with its explicit stack and its flag equals the recursive meaning of the template's tree: result code, output, and calls of the context, for all templates and all JSON values |
| MustacheInterpreter.ReadTagAt | src/mustach.c:297-355 | Reads the tag at an opening delimiter: its kind, its trimmed name, where the template goes on, and each way of being malformed |
| MustacheInterpreter.Interpreter.EmitEscaped | src/mustach-wrap.c:254-286 | Appends the text with the characters of HTML replaced by entities, found with a moving index |
| MustacheInterpreter.Interpreter.ScanText | src/mustach.c:255-291 | Prints the text up to the next tag, holding back the white space of a line that may turn out to stand alone |
| MustacheInterpreter.Interpreter.BeginSection | src/mustach.c:390-409 | The enter call, the mark pushed, and the new flag are those of the specification, with the errors for depth |
| MustacheInterpreter.Interpreter.EndSection | src/mustach.c:410-424 | Jumps back when there is a next item, else pops the mark, leaves the context and goes on: what is still ahead is what the specification resumes with |
| MustacheInterpreter.Interpreter.Step | src/mustach.c:254-447 | Each turn of the loop does one unit of the work ahead, and puts out its part of the meaning |
| MustacheInterpreter.Interpreter.Process | src/mustach.c:236-448 | The loop ends for all templates without partials and all JSON values, with result code, output and calls of the meaning; on success the context is as deep as it was at the start |
| MustacheInterpreter.Render | src/mustach.c:510-530 | Rendering a template over a JSON value gives exactly its recursive meaning |
| MustacheTags.TagsAreRead | src/mustach.c:309-353 | Between blanks and behind any text, every non-empty name of at most 4096 characters that does not start with a mark: {{name}} is a variable that escapes, {{&name}} one that does not, {{#name}} and {{^name}} begin a section and an inverted one, {{/name}} ends one, {{>name}} is a partial |
| MustacheTags.TripleIsRead | src/mustach.c:319-345 | {{{name}}} is a variable that does not escape |
| MustacheTags.CommentIsRead | src/mustach.c:316-318 | {{!text}} is a comment, whatever the text |
| MustacheTags.BadNames | src/mustach.c:346-351 | A tag of blanks alone is error -3 unless empty tags are allowed, and a name of more than 4096 characters is error -4 |
| MustacheTags.BadDelimiters | src/mustach.c:300-330 | Three braces closed by two are error -8, a tag that is not closed is error -2 |
| MustacheTags.StrayEnd | src/mustach.c:414-418 | A tag that ends a section where none is open is error -7 |
| MustacheTags.LimitsOfRuns | src/mustach.c:391-398 | A section inside 256 others is error -6, and a name that selects nothing is error -12 where that is asked for |
| MustacheTags.EscapeIsUndone | src/mustach-wrap.c:268-281 | Escaped text has no '<', '>' or '"', and undoing the four entities gives the text back |
| MustacheTags.VariableIsPrinted | src/mustach.c:438-444 | A text, a variable and a text print the text, the value as it is or escaped, and the text |
| MustacheTags.MemberIsPrinted | src/mustach.c:438-444 | Over any object and for any member that is a string: 'a{{name}}b' prints the member escaped, 'a{{&name}}b' and 'a{{{name}}}b' print it as it is |
| MustacheTags.SectionIsPrinted | src/mustach.c:391-428 | Over any object with a member of any kind: 'a{{#name}}b{{/name}}c' prints b once for each item of an array, once for any other value that counts as true, and not otherwise; with '^' it prints b exactly when '#' would not |
| MustacheTags.CommentLine | src/mustach.c:260-293 | A line of nothing but a comment between blanks vanishes with its newline; with anything else behind the comment all of the line but the comment is printed |
| MustacheProperties.HiddenIsSilent | src/mustach.c:356-445 | While the flag is off, nothing is printed and the context is not called, whatever the template holds |
| MustacheProperties.EvalIsBracketed | src/mustach.c:390-424 | Part by part, whether it succeeds or fails: next and leave are called only for the innermost entered section, next only until it says no, and what is still entered at the end is what the part failed inside of |
| MustacheProperties.CallsAreBracketed | src/mustach.h:95-107 | On every run, failing ones included, the calls are properly nested and next is called for the innermost entered section only; a run that returns OK leaves what it has entered, and the context ends as deep as it began |
| MustacheProperties.SucceedsByTemplate | src/mustach.c:254-448 | Whether a run succeeds is decided by the template alone, for all values: exactly when every tag can be read and every section is ended by a tag of its name (no partials, nesting within the bound, undefined tags no error) |
| MustacheProperties.LeavesWhatItEnters | src/mustach.h:95-107 | Leave is called for every section that has been entered exactly when none of the sections around the first malformed place of the template is entered |
| MustacheProperties.WellFormedLeavesAll | src/mustach.h:95-107 | Hence a well-formed template leaves every section it enters, for all values |
| MustacheProperties.UnendedSection | src/mustach.c:266-272 | A template whose first section is entered and has no end tag fails without leaving it, against the promise that leave is always called |
| MustacheProperties.UnendedExample | src/mustach.h:95-107 | Such a run: '{{#.}}' for the value true |
| MustacheProperties.SelectsTheSame | src/mustach-json-c.c:63-97 | Selection over the stack of frames is lookup in the list of nested scopes, innermost first |
| MustacheProperties.ScanFits | src/mustach.c:255-294 | With something other than blanks in front of each line's first tag, scanning prints the text unchanged and holds nothing back |
| MustacheProperties.RoundsArePlain | src/mustach.c:410-424 | The rounds of a section print its body once per item that is still ahead, each in its own scope |
| MustacheProperties.InlineTemplatesReadPlainly | src/mustach.c:236-448 | For such templates a successful run prints what the plain recursive reading of text, variables, sections and inverted sections over nested scopes gives, in which there are no lines, flags, marks or calls |
| ChunkedBody.WrittenChunk | src/mongoose.c:7341-7349 | A chunk as it is sent is read back with its data and nothing else exactly when its size is below 2^24, the six digits the parser takes; otherwise nothing is read, ever |
| ChunkedBody.EitherCaseIsTaken | src/mongoose.c:6232-6240 | A chunk whose size is spelled in one to six hexadecimal digits, each in either case, with leading zeros or not, is taken with its data |
| ChunkedBody.AnySpellingArrives | src/mongoose.c:6227-6303 | However the sizes of the chunks are spelled and the octets cut into events, the data of all chunks arrives in order, and what follows the last chunk stays |
| ChunkedBody.LowerCaseArrives | src/mongoose.c:6232-6240 | In octets: ten octets behind a size of 'a' |
| ChunkedBody.UnfinishedChunkWaits | src/mongoose.c:6226-6261 | A chunk of which octets are missing is not taken |
| ChunkedBody.ChunkExtends | src/mongoose.c:6226-6261 | A chunk that is taken is taken in the same way whatever follows it |
| ChunkedBody.BodyArrives | src/mongoose.c:6263-6318 | For any list of chunks closed by the empty one and any cut into arrivals, the body is the concatenation of the data and what follows the body is left untouched |
| ChunkedBody.BodyInProgress | src/mongoose.c:6263-6318 | Before that, the data of the complete chunks is there and the octets of the next one wait |
| ChunkedTransfer.ScanChunk | src/mongoose.c:6226-6261 | The scanning code over the buffer's memory computes the specified chunk, bounds respected, for all octets |
| ChunkedTransfer.SendChunk | src/mongoose.c:7341-7349 | Appends size in hexadecimal, data and line ends |
| ChunkedTransfer.Receiver.Collapse | src/mongoose.c:6263-6318 | Moving chunk data down inside the buffer extends the body by the data of the complete chunks and overwrites no octet that has not been read |
| ChunkedTransfer.Receiver.TakeAll | src/mongoose.c:6263-6318 | The head stays, the body grows by the data taken, the unread octets are what the specification leaves: the buffer has become shorter by exactly the framing |
| ChunkedTransfer.Receiver.Handle | src/mongoose.c:6263-6318 | Also when the handler deletes what it has seen: what was dropped followed by the body grows by exactly the data taken; the reported message length is that of head and body exactly when nothing has arrived behind the last chunk |
| ChunkedTransfer.Receiver.ReceiveAll | src/mongoose.c:6263-6318 | Over a run of arrivals, with or without deletion at each, nothing is lost and nothing comes twice |
| CoapMessages.AddingSortsStably | src/mongoose.c:12142-12188 | Options added in any order stand sorted by number, those of one number in the order they were added |
| CoapMessages.StableSortIsUnique | src/mongoose.c:12142-12188 | There is only one such list |
| CoapMessages.MessageRoundTrip | src/mongoose.c:12410-12435 | A message that can be composed is parsed back the same exactly when all option numbers and option lengths fit sixteen bits, although lengths and differences of neighbouring numbers may go up to 65804 |
| CoapMessages.FormsOfNumbers | src/mongoose.c:12442-12509 | A delta or length is itself below 13, from 13 on 13 and an octet of it less 13, from 269 on 14 and two octets of it less 269 (RFC 7252, section 3.1) |
| CoapMessages.OctetsOfMessage | src/mongoose.c:12560-12630 | The octets of every message with a short option and a payload: version 1, type, token length, code, identifier, token, option, 0xFF, payload |
| CoapMessages.RefusedHeaders | src/mongoose.c:12194-12270 | What is refused and why: fewer than four octets, a version other than 1, a token of more than eight octets or one that is cut off; otherwise the fields are those of the octets |
| CoapMessages.ReservedNibble | src/mongoose.c:12345-12356 | A delta or a length of 15 is a format error |
| CoapMessages.RoomOfOption | src/mongoose.c:12511-12545 | An option can be written exactly when its number and its length are at most 65804 |
| CoapMessages.NumberTooLong | src/mongoose.c:12410-12435 | The input: the option number 65536 is composed but not parsed back |
| CoapMessages.ReadStaysInBounds | src/mongoose.c:12326-12408 | Whatever is parsed, no option has a number or a length of more than sixteen bits |
| CoapMessages.AnyOrderCanBeSent | src/mongoose.c:12560-12629 | Options of at most sixteen bits, added in any order, pass the order check, and the message read back has them in the stable order |
| CoapCodec.CoapMessage.AddOption | src/mongoose.c:12142-12188 | The linked list with its tail pointer, whatever its length, becomes the list with the option inserted behind those not greater |
| CoapCodec.CoapMessage.CalculateSize | src/mongoose.c:12511-12558 | Names the first wrong field in the order of the tests, or gives exactly the length of the message |
| CoapCodec.CoapMessage.Compose | src/mongoose.c:12560-12629 | Fills exactly the room that was made: the buffer is what it was followed by the message, or unchanged when a field is wrong |
| CoapCodec.CoapMessage.Parse | src/mongoose.c:12410-12435 | Yields the fields, options and payload that the octets stand for, or the right reason for refusing them; reads inside the packet only; keeps no option of a refused packet |
| BlockHash.AbsorbSplits | src/mongoose.c:1087-1110 | Absorbing whole blocks and then more is absorbing both at once |
| BlockHash.CountGoesOn | src/mongoose.c:1325-1327 | The two 32-bit words with their carry count bits modulo 2^64 |
| BlockHash.ZerosAreFewest | src/mongoose.c:1350-1356 | The padding has the fewest zero octets that complete a block |
| BlockHash.LastTwoBlocks | src/mongoose.c:1118-1137 | When the length finds no room in the block, padding takes two blocks, as the standards prescribe |
| BlockHash.PaddedOctet | src/mongoose.c:1113-1141 | Every octet of a padded message: the message, 0x80, zeros, and the count of bits by its digits to the base 256, most significant first for SHA-1 and least significant first for MD5, in the fewest whole blocks |
| BlockHash.LittleEndianOctet | src/mongoose.c:1133-1135 | Octet i of a word of MD5 is its digit of weight 256^i |
| HashContexts.Sha1.Update | src/mongoose.c:1321-1339 | The context keeps exactly: state after all whole blocks of the message so far, the octets that wait, the count of bits; asks only that the fill of the block and the length add up in 32 bits |
| HashContexts.Sha1.Final | src/mongoose.c:1341-1363 | The last state is that of the padded message: 0x80, fewest zeros, 64-bit big-endian bit length (FIPS 180-4, section 5.1.1) |
| HashContexts.Md5.Update | src/mongoose.c:1078-1111 | The same for MD5, for pieces of any length; the count takes each length modulo 2^32 |
| HashContexts.Md5.Final | src/mongoose.c:1113-1141 | Pads in the block buffer itself, in one block or two, with the little-endian length (RFC 1321, sections 3.1 and 3.2) |
| HashContexts.HashSha1 | src/mongoose.c:10176-10185 | The digest is that of the concatenation of what reaches SHA-1 of each piece, its length being taken modulo 2^32 |
| HashContexts.Sha1HashesAll | src/mongoose.c:10176-10185 | The padded message is that of the concatenation of the pieces, so that the digest does not depend on the cuts, exactly when every piece is shorter than 2^32 octets |
| HashContexts.HashMd5 | src/mongoose.c:7515-7524 | The same for MD5, with the length as it was counted |
| HashContexts.Md5PadsRightly | src/mongoose.c:1081-1083 | MD5 pads as the standard says exactly when the lengths, each modulo 2^32, add up to the whole length modulo 2^61 |
| HashContexts.LongPieceIsLost | src/mongoose.c:1081-1083 | The input: a piece of 2^32 octets is not counted by MD5, which then pads wrongly, and nothing of it reaches SHA-1 |
| HashContexts.ShortPiecesCount | src/mongoose.c:1081-1083 | That is so whenever every piece is shorter than 2^32 octets |
| MqttPackets.LengthRoundTrip | src/mongoose.c:10933-10951 | The remaining length is read back as written exactly when it is below 2^32; a fifth length octet is accepted |
| MqttPackets.FifthOctet | src/mongoose.c:10699-10711 | The input: 2^28 is written in five octets and read back |
| MqttPackets.TooManyOctets | src/mongoose.c:10699-10711 | Four length octets that say that more follow are not complete, and five are too many |
| MqttPackets.PacketIsFound | src/mongoose.c:10695-10714 | A packet followed by anything is found with its header, its body and its size |
| MqttPackets.UnfinishedPacketWaits | src/mongoose.c:10695-10711 | Every proper prefix of a packet is incomplete, never malformed |
| MqttPackets.ConnectIsRead | src/mongoose.c:10717-10755 | What a CONNECT packet was made from is read out of it, each string cut to its length modulo 2^16, with will, user name and password present exactly when the flags say so |
| MqttPackets.PublishIsRead | src/mongoose.c:10769-10780 | A PUBLISH packet gives back topic, payload and, for a quality of service above zero, the message identifier |
| MqttPackets.SubscribeIsWhole | src/mongoose.c:11060-11084 | A SUBSCRIBE packet is a whole packet exactly when no topic is longer than 65535 octets; otherwise the receiver waits for octets that are never sent |
| MqttPackets.TopicsAreRead | src/mongoose.c:11086-11099 | Walking through a subscription's payload recovers the topics and their qualities in order |
| MqttPackets.StepsGoOn | src/mongoose.c:10815-10846 | The handler's step shrinks the buffer and is not disturbed by octets that follow |
| MqttPackets.MessagesArrive | src/mongoose.c:10813-10848 | For every cut into receive events the handler sees the messages of the whole packets in order, a part of the next packet waits, and a ping answer clears the flag |
| MqttSession.DecodeLength | src/mongoose.c:10699-10711 | The loop computes the specified length, in 32 bits, for all octets |
| MqttSession.MessageFields.ParseConnect | src/mongoose.c:10717-10755 | Accepts exactly the bodies with four octets behind the protocol name and exactly the strings the flags announce, nothing missing and nothing left, and sets their fields |
| MqttSession.MessageFields.Parse | src/mongoose.c:10688-10799 | For all buffer contents the result code and the fields that belong to the command are those of the specification, whatever the reused message object held before |
| MqttSession.NextSubscribeTopic | src/mongoose.c:11086-11099 | The topic at a position and where the next one starts, or -1, for all payloads |
| MqttSession.Session.Receive | src/mongoose.c:10813-10848 | All whole packets are handed over and removed; the connection is closed exactly when what is left is malformed, or incomplete and as long as the limit |
| MqttSession.Session.ReceiveAll | src/mongoose.c:10813-10848 | Over a run of receive events the handler has seen what the specification of the whole run says, and the connection is closed when one of the events leaves something hopeless |
| MqttSession.ClosedAtSomeEvent | src/mongoose.c:10817-10838 | The connection is closed exactly when the octets up to the end of some event leave something malformed, or incomplete and as long as the limit |
| MqttSession.ShortPacketsStayOpen | src/mongoose.c:10817-10838 | Readable packets no longer than the limit never close the connection, however their octets are cut |
| MqttSession.Sender.SendHeader | src/mongoose.c:10933-10951 | Appends the first octet and the remaining length, put together in nine octets of memory |
| MqttSession.Sender.Handshake | src/mongoose.c:10958-11033 | Appends the whole CONNECT packet, with the announced length that of the body that follows |
| MqttSession.Sender.Publish | src/mongoose.c:11035-11058 | Appends the whole PUBLISH packet |
| MqttSession.Sender.Subscribe | src/mongoose.c:11060-11084 | Appends the SUBSCRIBE packet, its length announced from the uncut topics |
| MqttSession.Sender.ConnectAck | src/mongoose.c:11125-11130 | Appends the whole CONNACK packet |
| MqttSession.Sender.ShortCommand | src/mongoose.c:11137-11146 | Appends the whole packet of an acknowledgement |
| MqttSession.Sender.SubscribeAck | src/mongoose.c:11164-11177 | Appends the whole SUBACK packet, what has been granted octet by octet |
| MqttRequests.RequestsArrive | src/mongoose.c:10813-10848 | From one end to the other: for any list of CONNECT, PUBLISH, SUBSCRIBE, SUBACK, CONNACK, acknowledgement, ping and DISCONNECT requests and any cut of the octets queued for them, the handler sees exactly what has been asked, in order, a part of the next packet waits, and the connection stays open when all fit the limit |
| MqttRequests.TopicsAreShown | src/mongoose.c:11086-11099 | The topics of a subscription are recovered from what the handler is shown of it |
| MqttRequests.GrantIsShown | src/mongoose.c:10760-10768 | The packet 90 03 hi lo g is shown as an acknowledgement of identifier hi * 256 + lo |
| MqttRequests.OctetsOfConnect | src/mongoose.c:10958-11033 | In octets: the CONNECT packet for any client, user and password, with the flags 0xC2 and a minute of keep-alive (MQTT 3.1.1, section 3.1) |
| MqttRequests.OctetsOfPublish | src/mongoose.c:11035-11058 | In octets: the PUBLISH packet for any topic, flags and payload, with the identifier exactly when the quality of service is not zero |
| MqttRequests.OctetsOfSubscribe | src/mongoose.c:11060-11084 | In octets: the SUBSCRIBE packet for any topic |
| MqttRequests.OctetsOfAck | src/mongoose.c:11137-11160 | In octets: PUBACK, PUBREC, PUBREL and PUBCOMP, the third with its reserved flags |
| MqttRequests.OctetsOfSubscribeAck | src/mongoose.c:11164-11177 | In octets: SUBACK, whose first octet says 0x92 where the standard has 0x90 |
| MqttRequests.LengthOfStandard | src/mongoose.c:10940-10946 | The example of the standard: 321 is written as 193 and 2 |
| MqttRequests.Ask | src/mongoose.c:10958-11177 | Each of the sending routines queues exactly the octets that stand for its request in that theorem |
| MqttRequests.Hear | src/mongoose.c:10813-10848 | A session that receives these octets has seen the requests, holds the part of the next packet, and is not closed |
| UriPath.ComponentIsTaken | src/mongoose.c:5547-5561 | What the standard's loop does with the next component behind a slash: drops it, drops the last one kept as well, or keeps it |
| UriPath.ExampleOfStandard | src/mongoose.c:5536-5568 | '/a/b/c/./../../g' becomes '/a/g' (RFC 3986, section 5.2.4) |
| UriPath.ResultIsClean | src/mongoose.c:5536-5568 | The result starts with a slash and has no component '.' or '..' |
| UriPath.NormalisingTwice | src/mongoose.c:5536-5568 | Normalising again changes nothing |
| UriPath.UnchangedMeansClean | src/mongoose.c:5536-5568 | Exactly the paths without dot components are left unchanged |
| UriPath.NothingNew | src/mongoose.c:5536-5568 | Normalising brings in no octet but slashes |
| UriPath.BackUp | src/mongoose.c:5552-5555 | Goes back over the last component written, never beyond the first slash |
| UriPath.NormalizeNext | src/mongoose.c:5547-5561 | One component read and one memmove keep the unread part intact, also in one and the same array |
| UriPath.Normalize | src/mongoose.c:5536-5568 | For a path that starts with a slash, in place or into other memory, the output is remove_dot_segments of RFC 3986, section 5.2.4; nothing outside the output is touched; any other path is refused |
| Uris.DecimalIsRead | src/mongoose.c:5502-5512 | A port of 32 bits written in decimal is read back |
| Uris.AssembledIsParsed | src/mongoose.c:5406-5533 | A URI assembled from components free of their delimiters, with a scheme or without ('host', 'host/path', 'host:port/path', '[::1]:port'), is parsed into the same seven components exactly when query and fragment stand behind a path, and user information behind a scheme; the octet behind the URI does not matter unless it ends right behind its user information |
| Uris.QueryNeedsPath | src/mongoose.c:5424-5522 | Whatever is parsed, a query or a fragment is found only behind a path |
| Uris.QueryGoesToHost | src/mongoose.c:5476-5500 | Without a path and a port, query and fragment are taken for the end of the host |
| Uris.HostOfQuery | src/mongoose.c:5476-5500 | 'http://h?q' has the host 'h?q' |
| Uris.UserGoesToHost | src/mongoose.c:5426-5442 | Without a scheme, user information is taken for the start of the host |
| Uris.UserNeedsScheme | src/mongoose.c:5424-5522 | Whatever is parsed, unless it starts with '://', user information is found only behind a scheme |
| Uris.HostPortPath | src/mongoose.c:5443-5460 | In octets: 'h:80/x' has the host 'h', the port 80 and the path '/x' |
| Uris.AllParts | src/mongoose.c:5424-5522 | In octets: the seven parts of 'ws://u@h:80/p?q#f' |
| Uris.AddressAndPort | src/mongoose.c:5432-5440 | In octets: '[::]:80' has the host '[::]' and the port 80 |
| Uris.ForeignDigit | src/mongoose.c:5502-5512 | What is no digit is not refused in a port: it counts as a signed octet less '0', modulo 2^32 |
| UriParser.TakeTurn | src/mongoose.c:5424-5522 | Each state of the parser does what the machine of the specification does, for all octets, and reads at most the one octet behind the URI |
| UriParser.ParseUri | src/mongoose.c:5406-5533 | The loop ends on every input in spite of its backtracking, with the result of the machine's run |
| UriParser.AssembleUri | src/mongoose.c:5570-5638 | Puts together exactly the components that are there, the path normalised when asked; fails only for a path without a slash |
| UriParser.NormalizedIsParsed | src/mongoose.c:5570-5638 | Assembled with its path normalised, a URI comes back with the normalised path, which is clean, and all else unchanged, queries and fragments without a path included, exactly when user information, if there is any, stands behind a scheme |
| DnsNames.UncompressedIsText | src/mongoose.c:11674-11728 | For every packet and position at which a name stands, reached through at most fifteen pointers, the text is its labels joined by dots, cut to the room there is |
| DnsNames.NameRoundTrip | src/mongoose.c:11473-11500 | A name that has been encoded is read back the same exactly when it is empty, or all its labels have 1 to 63 octets and it does not end with a dot |
| DnsNames.FinalDotIsLost | src/mongoose.c:11473-11500 | The input: 'a.' is encoded as 'a' is and read back as 'a' |
| DnsNames.ProperRoundTrip | src/mongoose.c:11674-11728 | With too little room for it, a name comes out cut off |
| DnsNames.NameBehindPointers | src/mongoose.c:11691-11702 | A name at the end of a chain of pointers is read exactly when there are no more than fifteen; with more, nothing is read |
| DnsNames.PointerTarget | src/mongoose.c:11691-11702 | Two octets from 0xC000 on lead to what they are less 0xC000 |
| DnsNames.OctetsOfName | src/mongoose.c:11473-11500 | In octets: 'a.bc' is 1 'a' 2 'bc' 0 |
| DnsNames.LongLabels | src/mongoose.c:11473-11500 | A name is given up exactly when one of its labels has more than 127 octets |
| DnsCodec.EncodeName | src/mongoose.c:11473-11500 | Appends the labels of the name and says how much, or gives up at a label of more than 127 octets and leaves what has been appended |
| DnsCodec.UncompressName | src/mongoose.c:11674-11728 | On every packet it ends, reads inside the packet only, writes no more than it has room for, and gives the specified text |
| Base64.DecodeEncode | src/mongoose.c:393-412 | Decoding what has been encoded gives it back and takes all of it, for data of every length |
| Base64.LenientDecodes | src/althttpd.c:1284-1323 | The server's decoder gives the same octets of everything that has been encoded |
| Base64.EncodeSplits | src/mongoose.c:271-281 | Whole groups of three octets are encoded on their own |
| Base64.AlphabetIs | src/mongoose.c:232-246 | The 64 characters in order: 'A' to 'Z', 'a' to 'z', '0' to '9', '+', '/' |
| Base64.GroupIsNumber | src/mongoose.c:271-281 | The four characters are the digits, to the base 64, of the number the three octets are to the base 256 |
| Base64.LastGroups | src/mongoose.c:283-292 | One or two octets at the end are encoded as if zeros followed, the characters that say nothing being '=' |
| Base64.KindsOfCharacters | src/mongoose.c:334-391 | Which characters the decoder takes, without their top bit: the 64 of the alphabet, and '=' |
| Base64.ForeignEnds | src/mongoose.c:393-412 | A character that is neither ends the decoding in front of its group of four |
| Base64.PaddingEnds | src/mongoose.c:393-412 | A '=' ends it behind its group, with the octets in front of the first '=' |
| Base64.ForeignIsA | src/althttpd.c:1295-1302 | To the server's decoder a foreign character is the same as 'A' |
| Base64Codec.EncodePieces | src/mongoose.c:264-292 | However the data is cut into updates, the streaming encoder hands out what encoding at once gives, padding included |
| Base64Codec.EncodeInto | src/mongoose.c:294-331 | The one-shot encoder writes the same text into memory and ends it with a zero |
| Base64Codec.DecodeInto | src/mongoose.c:393-412 | For all input, the octets written, how many characters were taken, and the zero behind are as specified |
| Base64Codec.Decode64 | src/althttpd.c:1284-1323 | Decodes the text where it stands, never overwriting a character that has not been read |
| Globs.WalkIsMeant | src/mongoose.c:2183-2208 | What a pattern without alternatives takes, the declarative meaning of '?', '*' (no slash) and '**' stands for, in either case of letters |
| Globs.WalkFinds | src/mongoose.c:2183-2208 | For all patterns without '$' and without alternatives: the backtracking finds something exactly when the pattern can be met. Without stars at the end that is when it stands for some of a beginning of the string; with them, when what is in front of the last stars stands for a beginning that leaves something, and what is left does not start with a slash where a last single star has to take something |
| Globs.FoundExactlyWhenMeant | src/mongoose.c:2183-2208 | A pattern that does not end in three stars is found exactly when it stands for n > 0 octets at the start of the string, n being less than all of it, or the pattern not ending in a star, or the pattern standing for one octet less as well |
| Globs.StarsAtTheEnd | src/mongoose.c:2183-2208 | The input that shows the exception: 'a*' stands for 'a' but does not match it |
| Globs.ThreeStars | src/mongoose.c:2183-2208 | '***' stands for every string but matches exactly those with something else than slashes |
| Globs.ThreeStarsNeedMore | src/mongoose.c:2183-2208 | The input: '***' stands for '/' but does not match it |
| Globs.FirstAlternativeDecides | src/mongoose.c:2171-2181 | Although the code splits at bars before commas, the result is that of the first alternative, in order, that matches |
| Globs.FoundIsMeant | src/mongoose.c:2166-2209 | A positive result is no more than the string's length, and some alternative stands for that much of it |
| Globs.MeantIsFound | src/mongoose.c:2166-2209 | The result for a pattern with alternatives is positive exactly when one of them can be met in the sense of WalkFinds |
| Globs.MatchIgnoresCase | src/mongoose.c:2200-2201 | The length found does not change when letters of the pattern or of the string change their case |
| Globs.QuestionMatches | src/mongoose.c:2186-2200 | '?' matches any one octet |
| Globs.AlternativesAre | src/mongoose.c:2171-2181 | With a bar or a comma between two patterns, the second decides when the first matches nothing |
| Globs.OneOctetMatches | src/mongoose.c:2200-2201 | Outside of '?', stars and '$', an octet matches itself, and a letter (65..90, 97..122) the same letter in the other case, and nothing else |
| Globs.AnchoredMatchesAll | src/mongoose.c:2205-2206 | With '$' behind it, a pattern without '$' that does not end in a star matches a string without '$' exactly when it stands for all of it |
| Globs.AnchoredFinds | src/mongoose.c:2205-2206 | For all strings: such a pattern finds something exactly when it stands for the whole string, or for what is in front of a '$' in it |
| Globs.AnchorBehindStars | src/mongoose.c:2183-2208 | Behind stars, '$' at the end has no effect |
| Globs.DollarMatchesItself | src/mongoose.c:2200-2205 | The input: 'a$' matches 'a$b' |
| Globs.EndingIsFound | src/mongoose.c:2166-2209 | '*x$' and '**x$' match exactly the strings that end in x in either case, the first only when there is no slash in front of that; all of the string is matched |
| Globs.ScriptIsChosen | src/mongoose.c:8431-8431 | The default pattern of the web server, '**.cgi$/**.php$', matches exactly the paths that end in '.cgi' or '.php', in either case |
| Globs.MatchPrefixN | src/mongoose.c:2166-2209 | The recursive code ends and computes the specified length for all patterns and strings, '$' included |
| Sanitizer.SanitizedIsAllowed | src/althttpd.c:1856-1875 | After sanitising, every character is in the table of allowed ones |
| Sanitizer.NoChangeNeeded | src/althttpd.c:1856-1875 | The count of conversions is zero exactly when all characters are allowed, and then nothing changes |
| Sanitizer.SanitizingTwice | src/althttpd.c:1856-1875 | A second call converts nothing |
| Sanitizer.ConvertsAsDocumented | src/althttpd.c:1843-1852 | The conversion is that of the function's comment, where an escape becomes one underscore, exactly when the path, read from the left, has no escape of a dot or a slash |
| Sanitizer.ConvertsOneByOne | src/althttpd.c:182-184 | The conversion is that of the server's documentation, character by character, exactly when no percent sign has two characters behind it |
| Sanitizer.EscapedDot | src/althttpd.c:1864-1867 | The inputs that show it: in front of any text, '%2e' becomes a dot and '%2f' a slash, in either case of the letter, where '_' is documented |
| Sanitizer.EscapedInside | src/althttpd.c:1864-1867 | In '%%2e' no escape of a dot is read, and the result is as documented |
| Sanitizer.ChangesAdd | src/althttpd.c:1856-1875 | The count is one for each character that is not in the table, and one for each escape |
| Sanitizer.Allowed | src/althttpd.c:1822-1842 | The characters of the table are those listed in its comment: 0-9a-zA-Z,-./:_~ |
| Sanitizer.AcceptedMeansHarmless | src/althttpd.c:2833-2842 | The scan accepts a path exactly when no component behind a slash starts with '.' or '-', or, under '/.well-known/', when none starts with '..' |
| Sanitizer.NameInRoot | src/althttpd.c:2833-2842 | '/name' is refused exactly when the name starts with '.' or '-' |
| Sanitizer.NameInWellKnown | src/althttpd.c:2833-2842 | '/.well-known/name' is refused exactly when the name starts with '..' |
| Sanitizer.SanitizeString | src/althttpd.c:1856-1875 | Converts the text in place, closing the gaps that escapes leave, and counts the conversions; nothing behind the text changes |
| Sanitizer.ScanPath | src/althttpd.c:2833-2842 | The scan computes that acceptance |

## Left out

- HashContexts.Sha1.Update: asks that the fill of the block and the length stay below 2^32 together, because the code adds them in 32 bits and beyond that would copy behind its buffer; HashContexts.HashSha1 asks the same of its pieces.
- HashContexts.HashSha1: see the line above; nothing else is asked of the pieces.
- WebSocketConnection.Connection.Receive: asks for less than 2^31 octets in the buffer, because sends and handler calls take an `int`.
- WebSocketConnection.Connection.Deliver: asks for the same.
- WebSocketConnection.Connection.SendFrame: asks for a payload below 2^31 octets, because the routine that queues octets takes an `int`.
- WebSocketConnection.Connection.SendFramev: asks for the same of the pieces together.
- ChunkedTransfer.SendChunk: asks for the same of the chunk.
- MqttSession.Sender.Publish: asks for data below 0x7FFF0000 octets, so that the packet stays below 2^31, and for flags of four bits, all that the packet has room for.
- MqttSession.Sender.Subscribe: asks for the same of what it announces.
- MqttSession.Sender.SendHeader: asks for a length of at most eight octets of seven bits, which is what its array holds.
- MqttSession.Session.Receive: asks for less than 2^31 octets in the buffer, because the packet length is an `int`.
- MqttSession.Session.ReceiveAll: asks for the same; and goes on after the connection has been set to close, where the event loop delivers nothing more (`src/mongoose.c:2784`). What has been seen up to that event is the same.
- WebSocketConnection.Connection.ReceiveAll: asks for less than 2^31 octets, for the reason of a single event.
- MustacheProperties.SucceedsByTemplate: for templates without partials, with no more than 255 sections in one another, and without the flag that makes undefined tags an error, which the agent does not pass.
- MqttPackets.ReadLength: the shift of a fifth length octet is taken modulo 2^32, where C leaves an overflow of the signed shift open.
- MqttSession.ScanTo: when a string's own length is cut off by the end of the packet, the code reads up to two octets behind it; they cannot change the result and are not modelled.
- MqttSession.MessageFields.ParseConnect: stores the strings once all of them have been found, where the code stores each as it goes; this differs only for packets that are refused.
- CoapCodec.CoapMessage.Parse: an option whose value runs beyond the packet is not linked, where the code links it and frees it again; the flags that tell which fields are present are not modelled.
- UriParser.ParseUri: the components are values, not pointers into the text.
- DnsNames.Labels: names in text are octets; no other record data is modelled.
- Globs.WalkIsMeant: patterns without '$'; what '$' at the end of a pattern means is `Globs.AnchoredFinds` and `Globs.AnchorBehindStars`, and a '$' elsewhere in a pattern is given no declarative meaning.
- Globs.WalkFinds: patterns without '$', for the same reason.
- Globs.FoundIsMeant: patterns without '$', for the same reason.
- Globs.MeantIsFound: patterns without '$', for the same reason.
- JsonContext.Explorer.SelectName: without the extensions that compare values, use JSON pointers or run through objects, which the agent does not ask for (`src/gw_sql.c:39` passes no flags).
- JsonContext.Explorer.Enter: without running through the members of an object, which a flag selects that the agent does not pass.
- JsonContext.Explorer.Next: without the same.
- MustacheTags.MemberIsPrinted: for one tag between two texts without braces; what follows for any number of tags and sections is `MustacheProperties.InlineTemplatesReadPlainly`.
- MustacheTags.TagsAreRead: names that start with ':' are not among them, because a flag decides what that means.
- MustacheInterpreter.ReadTagAt: a tag that sets delimiters is read as not modelled.
- MustacheMeaning.MeaningIsRun: a partial that is shown and a tag that sets delimiters end the run with a code of their own; so do the interpreter's Step and Render.
- MustacheInterpreter.Interpreter.Process: ends with a code of its own at a partial that is shown and at a tag that sets delimiters; partials read files and may recurse without bound.
- How JSON numbers, arrays and objects are written as text is a parameter of the interpreter's environment.
- Mustache names and keys are C strings: what follows a zero character is not seen; output is a sequence of characters, and writing it does not fail.
- WebSocket flag MG_F_WEBSOCKET_NO_DEFRAG, the handshake, and the ping of idle connections.
- The random masking key is any four octets.
- Mbufs.Mbuf.Insert: storage is always granted, and there is a source to copy from; `Mbufs.Mbuf.Extend` is the case without one.
- Mbufs.Mbuf.Append: storage is always granted.
- Globs.FoundExactlyWhenMeant: patterns without '$'.
- Storage is always granted: the paths for failed allocation are not part of this model, nor is releasing memory.
- Octets that the chunk decoder clears behind the shortened buffer.
- Reading the digest out of the state words, and the compression functions of SHA-1 and MD5, which are a parameter.
- MQTT keep-alive timing, sessions of the broker, topic matching, and the packets UNSUBSCRIBE and UNSUBACK.
- CoAP acknowledgements and the UDP handler; the token and values are values, not pointers into the packet.
- The variant of the Base64 encoder that prints to a file, which shares its body with the one modelled.
- Sockets, TLS, file serving, CGI, server-side includes, directory listings, WebDAV, multipart uploads and calendar code.
- The agent's handlers (`src/gw_*.c`), which wrap SQLite, SNMP, rrdtool and FreeTDS.
