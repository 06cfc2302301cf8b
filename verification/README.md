# Verified models of the Aquila libraries

A Dafny model of the parts of the Aquila AVR libraries whose correctness spans several functions, with proofs
of what they are for. `dafny verify dfyconfig.toml` checks everything.

Each component has one module that states it on values, with its theorems, and one with the objects and loops
of the source, proved to compute exactly that.

| component | on values | as it runs |
|---|---|---|
| JSON text and trees | `JsonText`, `JsonReader`, `JsonSpread`, `JsonRoundTrip`, `JsonDocument`, `JsonCompact`, `JsonPretty`, `JsonIndent`, `JsonGrammar`, `JsonLanguage` | `JsonParser`, `JsonPrinter` |
| mesh requests and frames | `NwkModel`, `NwkProgress` | `NwkDataReq` |
| mesh send queue | `MeshModel`, `MeshProgress` | `MeshQueue` |
| route table | `RouteModel`, `RouteOrder` | `RouteTable` |
| serial bridge | `SlipModel`, `CrcModel`, `BridgeModel` | `SlipLink`, `Bridge` |
| persistent entries | `StoreModel` | `ProtocolDB` |
| event frames | `EventFrame` | `EventFrame` |
| scheduler | `TimerModel` | `SimpleTimer` |
| regular expressions | `RegexModel` | `SimpleRegex` |
| allocators | `Allocators` | `Allocators` |

## How to read it

- JSON. A tree is a `Json`; numbers, booleans and null are raw tokens, as the parser keeps them. The parser on
  values reads the text still to come and returns what is left; the nesting limit and the number of allocations
  the buffer still grants are parameters. The parser as it runs works in one character array: `Valid` says that
  the write position never passes the read position, `Delivers` that the outcome is that of the parser on
  values. A `Layout` is a tree written with arbitrary white space, so one theorem covers the compact and the
  pretty text. A `Form` is a text of the grammar the parser accepts, defined without the parser; `JsonLanguage` proves
  that nothing else is accepted. The escapes are the two-character ones of section 7 of RFC 8259, without `\u`.
- Mesh. The transmitter, the radio and other users of the frame pool are steps that may come at any time. A
  request is named by its address; a frame remembers for which request it was allocated, so that "reaches its
  owner" can be stated. Status and control of the static packet are those of its request, as they are one object in
  the source. Callbacks do not call the queue again.
- Route table. The map the table stands for is `View`; `Evicted` is what a new route displaces. Routes are
  learned without route discovery, as the library is configured. The number of entries is arbitrary.
- Serial bridge. Bytes are 8-bit vectors, the checksum register is a 16-bit one. The framing is that of the
  section "PROTOCOL" of RFC 1055.
- Store. An entry is 12 bytes; `Slots` is the list of slots that may be free, `View` the entries in use.
- Scheduler. Times are unbounded; the code sees them modulo 2^32.
- Regular expressions. The language of a pattern is defined on its items, without regard to a matcher, and a
  regular expression is the text of a pattern.
- Allocators. A pointer is an offset into a block. The size of a word is a parameter, 1 where alignment is
  switched off.

## What does not hold

- Pretty printing does not preserve every tree with a string or key that ends in a backslash: the printer takes
  the closing quote for an escaped one and goes on as if inside out. It does harm when it then meets, inside a
  string, a comma, a colon, a closing bracket that is not directly behind an opening one, or anything else directly
  behind an opening one (`JsonPretty.PrettyRoundTrip`, with `Reacts` for the characters).
- A change of the last payload byte by 0x89 and of the byte behind it by 0xA1 leaves a frame acceptable, because
  the low byte of the checksum is sent first. `CrcModel.FrameChangeDetected` says it is the only one of two
  adjacent bytes.
- A full match of a regular expression that ends in `\$` needs a prefix of the string only, although the comment
  in the source promises the whole string; the missing anchor is the reason. `RegexModel.FullMatchIff` has the
  exact condition.
- The iterator does not agree with reading by number for good, unless there is at most one entry
  (`StoreModel.IteratorAgreesIff`); it does for the first 256 calls (`StoreModel.IteratorIsGet`).
- A route may be lost to another while a slot is free: exactly when an entry is needed while some live entry comes
  before all free ones, by lower rank or by the same rank and an earlier place (`RouteModel.FreeBeforeLive`,
  `RouteOrder.WastesIff`, over runs `RouteOrder.RunWastesIff`; an example is `RouteModel.UnknownSourceBreaksRanks`).
  Free entries do not always rank below live ones, because a received frame or an update that names the unknown
  address leaves a free entry with a middle rank; later a route may be given that rank beside it, or a halving may
  bring both to the same rank. `RouteOrder.StepOrderIff` and `RouteOrder.RunOrderIff` have the exact conditions,
  `RouteModel.StepInvIff` and `RouteModel.RunInvIff` those for free entries to rank at most 1.
- An interval does not catch up once it is polled a whole turn of the clock late (`TimerModel.CatchesUpIff`, with
  `Punctual` for the times of the polls, and `TimerModel.NeverRecovers`).

## Model

| member | source | states |
|---|---|---|
| `JsonDocument.WriterRoundTrip` | avr/libraries/ArduinoJson/src/Internals/JsonParser.cpp:27-202 | for every writer that only adds white space around the characters of the compact text, parsing what it wrote succeeds exactly when nesting limit and memory suffice, ends at the end of the text and gives the tree the text stands for |
| `JsonCompact.PrintThenParse` | avr/libraries/ArduinoJson/src/Internals/JsonParser.cpp:50-202 | parsing the compact text of any printable array or object, under any limit and memory: success exactly when depth and allocations suffice, and then the tree with repeated keys merged, nothing left unread |
| `JsonCompact.NormalIffDistinct` | avr/libraries/ArduinoJson/include/ArduinoJson/JsonObject.ipp:55-64 | merging repeated keys, as `set` does, leaves a tree as it is exactly when no object in it repeats a key |
| `JsonCompact.RoundTrip` | avr/libraries/ArduinoJson/src/Internals/JsonParser.cpp:27-202 | parsing undoes printing exactly for the trees whose objects have distinct keys |
| `JsonCompact.ParsedValue` | avr/libraries/ArduinoJson/src/Internals/JsonParser.cpp:27-48 | whatever text is parsed, the value respects the nesting limit and the memory, has distinct keys and can be printed |
| `JsonCompact.ParsePrintParse` | avr/libraries/ArduinoJson/src/Internals/JsonParser.cpp:50-125 | printing undoes parsing: any accepted text, printed and parsed again under the same limits, gives the same tree |
| `JsonLanguage.AcceptsIff` | avr/libraries/ArduinoJson/src/Internals/JsonParser.cpp:50-125 | the parser accepts a text exactly if it begins with an array or object of the grammar (white space and comments between the parts, strings in either kind of quotes, unquoted tokens) that nesting limit and memory suffice for |
| `JsonLanguage.ReadDocument` | avr/libraries/ArduinoJson/src/Internals/JsonParser.cpp:50-125 | such a text gives the tree it stands for with repeated keys merged, and what follows it is left unread |
| `JsonLanguage.ReadForm` | avr/libraries/ArduinoJson/src/Internals/JsonParser.cpp:27-48 | the same for one value of the grammar at any place in a text |
| `JsonLanguage.TokenAlone` | avr/libraries/ArduinoJson/src/Internals/JsonParser.cpp:172-176 | any non-empty text of digits, letters of both cases, minus and point between brackets is read as that one token |
| `JsonLanguage.TokenCut` | avr/libraries/ArduinoJson/src/Internals/JsonParser.cpp:135-142 | a token ends at any other character, and the array is refused unless that is white space, a slash, a comma or the bracket |
| `JsonLanguage.QuotedAlone` | avr/libraries/ArduinoJson/src/Internals/JsonParser.cpp:144-170 | a text in single or in double quotes is read back up to the same quote |
| `JsonLanguage.NestingLimit` | avr/libraries/ArduinoJson/src/Internals/JsonParser.cpp:27-33 | n nested arrays are accepted exactly with a limit of n - 1 and 2n - 1 allocations |
| `JsonGrammar.TokenChars` | avr/libraries/ArduinoJson/src/Internals/JsonParser.cpp:135-142 | the characters of a token are the digits, the letters of both cases, minus and point, listed one by one |
| `JsonGrammar.TokensAre` | avr/libraries/ArduinoJson/src/Internals/JsonParser.cpp:135-142 | so are those of the raw tokens that can be printed |
| `JsonGrammar.SkipFillers` | avr/libraries/ArduinoJson/src/Internals/Comments.cpp:10-50 | any sequence of blanks, line comments and block comments is passed over |
| `JsonGrammar.SkippedIsSpace` | avr/libraries/ArduinoJson/src/Internals/Comments.cpp:10-50 | and nothing else is: what is passed over in front of something is such a sequence |
| `JsonGrammar.WordRead` | avr/libraries/ArduinoJson/src/Internals/JsonParser.cpp:146-189 | a string in either kind of quotes or a token is read as what it means, up to where it ends |
| `JsonGrammar.WordOf` | avr/libraries/ArduinoJson/src/Internals/JsonParser.cpp:146-189 | whatever is read as a word, and does not run into the end of the text, is spelled like one |
| `JsonGrammar.Unescaped` | avr/libraries/ArduinoJson/include/ArduinoJson/Internals/Encoding.hpp:27-34 | behind a backslash five letters mean control characters, and every other character means itself |
| `JsonCompact.PrintedChars` | avr/libraries/ArduinoJson/include/ArduinoJson/Internals/Encoding.hpp:17-23 | the seven characters that are escaped when printed, and how; all others are printed as they are |
| `JsonCompact.LastWins` | avr/libraries/ArduinoJson/include/ArduinoJson/JsonObject.ipp:55-64 | of several pairs with the same key the value of the last is kept |
| `JsonRoundTrip.ReadValue` | avr/libraries/ArduinoJson/src/Internals/JsonParser.cpp:27-48 | reading one value laid out with arbitrary white space, at any place in a text: exact success condition, value, rest and memory |
| `JsonRoundTrip.ReadItems` | avr/libraries/ArduinoJson/src/Internals/JsonParser.cpp:58-73 | the same for the elements of an array after the opening bracket, appended to those already read |
| `JsonRoundTrip.ReadMembers` | avr/libraries/ArduinoJson/src/Internals/JsonParser.cpp:97-119 | the same for the pairs of an object, each put under its key |
| `JsonSpread.ReadLiteral` | avr/libraries/ArduinoJson/src/Internals/JsonParser.cpp:146-189 | reading a quoted string gives back the text that was escaped, whatever follows |
| `JsonSpread.UnescapeEscape` | avr/libraries/ArduinoJson/include/ArduinoJson/Internals/Encoding.hpp:17-34 | unescaping undoes escaping for every character that has an escape |
| `JsonPretty.PrettyIsGentle` | avr/libraries/ArduinoJson/src/Internals/Prettyfier.cpp:12-87 | the pretty printer adds only spaces, carriage returns and line feeds around the characters it passes on, in every state and for every tab size |
| `JsonPretty.FollowTree` | avr/libraries/ArduinoJson/src/Internals/Prettyfier.cpp:12-24 | where the printer believes it is inside a string, after any part of any tree, follows from the literals printed so far |
| `JsonPretty.PrettyRoundTrip` | avr/libraries/ArduinoJson/src/Internals/Prettyfier.cpp:12-87 | the pretty text parses back to the printed tree exactly when, while the printer mistakes the inside of a string for the outside, it never meets a comma, a colon, a closing bracket that is not directly behind an opening one, or anything else directly behind an opening one |
| `JsonPretty.WalkOnTrack` | avr/libraries/ArduinoJson/src/Internals/Prettyfier.cpp:18-24 | crossing a literal, the printer loses track exactly when the literal ends in a backslash |
| `JsonPretty.NoTrailingBackslashIsSafe` | avr/libraries/ArduinoJson/src/Internals/Prettyfier.cpp:18-24 | trees in which no string or key ends in a backslash survive pretty printing |
| `JsonPretty.TrailingBackslashLosesText` | avr/libraries/ArduinoJson/src/Internals/Prettyfier.cpp:18-24 | a concrete tree with a string ending in a backslash that does not survive |
| `JsonIndent.PrettyIsLaid` | avr/libraries/ArduinoJson/src/Internals/Prettyfier.cpp:12-87 | the pretty text of every tree without empty tokens and trailing backslashes: each element of a block on a line of its own, indented one tab deeper than the block, the closing bracket on a line at the depth of the block, empty blocks on one line |
| `JsonIndent.LevelReturns` | avr/libraries/ArduinoJson/src/Internals/Prettyfier.cpp:75-87 | behind a tree that nests no deeper than 15 blocks the indentation is the one in front of it |
| `JsonIndent.Levels` | avr/libraries/ArduinoJson/src/Internals/Prettyfier.cpp:75-87 | each block goes one level deeper, 15 at most, and comes back by one |
| `JsonParser.Parser.SkipSpacesAndComments` | avr/libraries/ArduinoJson/src/Internals/Comments.cpp:27-50 | moves to the first character that is neither white space nor inside a comment |
| `JsonParser.Parser.Skip` | avr/libraries/ArduinoJson/src/Internals/JsonParser.cpp:19-25 | accepts the expected character with the space around it, or leaves the read position alone |
| `JsonParser.Parser.CopyQuoted` | avr/libraries/ArduinoJson/src/Internals/JsonParser.cpp:154-170 | unescapes in place: the written text is that of the immutable reading, and the write position stays behind the read position |
| `JsonParser.Parser.CopyToken` | avr/libraries/ArduinoJson/src/Internals/JsonParser.cpp:172-182 | the same for text without quotes |
| `JsonParser.Parser.ParseString` | avr/libraries/ArduinoJson/src/Internals/JsonParser.cpp:146-189 | terminates the string in the buffer without touching unread text or strings returned earlier |
| `JsonParser.Parser.GetNodeAt` | avr/libraries/ArduinoJson/src/JsonObject.cpp:21-26 | finds the first pair whose key equals the text in the buffer |
| `JsonParser.Parser.SetMember` | avr/libraries/ArduinoJson/include/ArduinoJson/JsonObject.ipp:55-64 | replaces the value of a key that is there, appends a new pair otherwise |
| `JsonParser.Parser.ParseAnythingTo` | avr/libraries/ArduinoJson/src/Internals/JsonParser.cpp:27-48 | in place, on any NUL-terminated text: the outcome, the value, the rest and the memory are those of reading an immutable copy, and the limit is restored |
| `JsonParser.Parser.ParseArray` | avr/libraries/ArduinoJson/src/Internals/JsonParser.cpp:50-79 | the same for an array |
| `JsonParser.Parser.ParsePair` | avr/libraries/ArduinoJson/src/Internals/JsonParser.cpp:101-113 | the same for a key and its value |
| `JsonParser.Parser.ParseObject` | avr/libraries/ArduinoJson/src/Internals/JsonParser.cpp:89-125 | the same for an object |
| `JsonParser.Stays` | avr/libraries/ArduinoJson/src/Internals/JsonParser.cpp:146-189 | a returned value means the same after anything more has been written behind it |
| `JsonPrinter.EscapeChar` | avr/libraries/ArduinoJson/include/ArduinoJson/Internals/Encoding.hpp:18-25 | the loop over the table finds the letter of the escape, or none |
| `JsonPrinter.JsonWriter.WriteString` | avr/libraries/ArduinoJson/include/ArduinoJson/Internals/JsonWriter.hpp:46-54 | sends the escaped text between quotes, or `null` for a missing string, and counts every character |
| `JsonPrinter.JsonWriter.WriteArray` | avr/libraries/ArduinoJson/src/JsonArray.cpp:26-40 | sends the compact text of an array |
| `JsonPrinter.JsonWriter.WriteObject` | avr/libraries/ArduinoJson/src/JsonObject.cpp:28-44 | sends the compact text of an object |
| `JsonPrinter.JsonWriter.WriteTo` | avr/libraries/ArduinoJson/src/JsonVariant.cpp:86-109 | sends the compact text of any value |
| `JsonPrinter.IndentedPrint.Write` | avr/libraries/ArduinoJson/src/Internals/IndentedPrint.cpp:12-22 | indents at the start of a line and notes the end of one |
| `JsonPrinter.Prettyfier.Write` | avr/libraries/ArduinoJson/src/Internals/Prettyfier.cpp:12-87 | one character through the printer: the output and the new state are those of the state machine |
| `JsonPrinter.PrintTo` | avr/libraries/ArduinoJson/include/ArduinoJson/Internals/JsonPrintable.hpp:32-36 | the compact text, and its length as the result |
| `JsonPrinter.PrettyPrintTo` | avr/libraries/ArduinoJson/include/ArduinoJson/Internals/JsonPrintable.hpp:56-59 | the pretty text, and its length as the result |
| `NwkModel.StepInv` | avr/libraries/Mesh/src/lwm/nwk/nwkDataReq.c:87-234 | every step of requests, frames and radio keeps the invariant: a waiting request owns its frame, no request nearer the head carries the same frame pointer, and the lock counts what is pending |
| `NwkModel.InitInv` | avr/libraries/Mesh/src/lwm/nwk/nwkDataReq.c:78-81 | the empty queue with all frames free starts with the invariant |
| `NwkModel.ConfirmationReachesOwner` | avr/libraries/Mesh/src/lwm/nwk/nwkDataReq.c:168-182 | the head-first scan for a transmitted frame finds the request the frame was allocated for |
| `NwkModel.TransmittedUpdatesOwner` | avr/libraries/Mesh/src/lwm/nwk/nwkDataReq.c:168-182 | a confirmation changes that request and no other |
| `NwkModel.OutcomeReached` | avr/libraries/Mesh/src/lwm/nwk/nwkDataReq.c:168-204 | a request meets with one outcome at most, the report on the frame allocated for it or the lack of a frame, and it is confirmed with exactly that status and control |
| `NwkModel.NoOutcome` | avr/libraries/Mesh/src/lwm/nwk/nwkDataReq.c:168-182 | nothing is ever reported about a request that is not in the list |
| `NwkModel.LockZeroIffIdle` | avr/libraries/Mesh/src/lwm/nwk/nwkFrame.c:80-104 | the lock counter is zero exactly when no request is queued, no frame is in use and the radio is idle |
| `NwkModel.RunKeepsRequests` | avr/libraries/Mesh/src/lwm/nwk/nwkDataReq.c:87-105 | over every run each submission of a request is confirmed exactly once or still queued, and only finished requests are confirmed |
| `NwkModel.OrderKept` | avr/libraries/Mesh/src/lwm/nwk/nwkDataReq.c:188-204 | a step keeps the order of the requests it does not confirm |
| `NwkProgress.TaskSends` | avr/libraries/Mesh/src/lwm/nwk/nwkDataReq.c:111-161 | one pass of the handler sends the next request in a frame that was free, for whose report the request then waits, and counts the frame; without a free frame it gives the request up as out of memory |
| `NwkProgress.Served` | avr/libraries/Mesh/src/lwm/nwk/nwkDataReq.c:209-234 | with no other request ready, a pass of the handler, the report on the frame and another pass confirm the request with the reported status and control, and leave the other requests and the frames as they were |
| `NwkProgress.Drains` | avr/libraries/Mesh/src/lwm/nwk/nwkDataReq.c:168-234 | from any reachable state enough passes, a report on every frame and enough passes again empty the list, confirm each request in it exactly once, free all frames and take the lock back |
| `NwkProgress.StepPending` | avr/libraries/Mesh/src/lwm/nwk/nwkDataReq.c:87-204 | what every step adds to the things pending, or takes away |
| `NwkProgress.NewestFirst` | avr/libraries/Mesh/src/lwm/nwk/nwkDataReq.c:87-105 | a new request stands in front of all others and is served first |
| `NwkDataReq.NwkLayer.DataReq` | avr/libraries/Mesh/src/lwm/nwk/nwkDataReq.c:87-105 | links a request in front of the others and counts it |
| `NwkDataReq.NwkLayer.FrameAlloc` | avr/libraries/Mesh/src/lwm/nwk/nwkFrame.c:80-94 | the first free frame, counted but still marked free |
| `NwkDataReq.NwkLayer.FrameFree` | avr/libraries/Mesh/src/lwm/nwk/nwkFrame.c:100-104 | frees one frame and counts it off |
| `NwkDataReq.NwkLayer.SendFrame` | avr/libraries/Mesh/src/lwm/nwk/nwkDataReq.c:111-162 | allocates a frame for a request, or marks the request out of memory |
| `NwkDataReq.NwkLayer.TxConf` | avr/libraries/Mesh/src/lwm/nwk/nwkDataReq.c:168-182 | marks the first request with this frame and frees the frame, as the model says |
| `NwkDataReq.NwkLayer.Transmitted` | avr/libraries/Mesh/src/lwm/nwk/nwkTx.c:363-372 | a transmitted frame is freed or confirmed to the request layer |
| `NwkDataReq.NwkLayer.ConfirmReq` | avr/libraries/Mesh/src/lwm/nwk/nwkDataReq.c:188-204 | unlinks one request wherever it is, keeps the others in order |
| `NwkDataReq.NwkLayer.TaskHandler` | avr/libraries/Mesh/src/lwm/nwk/nwkDataReq.c:209-234 | serves the first request that is not waiting and returns it if it is finished |
| `MeshModel.HandOverLegal` | avr/libraries/Mesh/src/Mesh.cpp:228-254 | the static packet is not in the request list whenever a packet is handed over, so it is never linked twice |
| `MeshModel.InitMesh` | avr/libraries/Mesh/src/Mesh.cpp:60-66 | the empty send queue over an empty request list starts with its invariant |
| `MeshModel.MeshStepInv` | avr/libraries/Mesh/src/Mesh.cpp:66-74 | every step keeps the books: accepted packets are handed over, waiting, or completed, the busy flag says whether the static packet is queued, and its request has met with what was reported about it and nothing else |
| `MeshModel.RunDelivers` | avr/libraries/Mesh/src/Mesh.cpp:218-254 | over every run accepted packets are handed over at most once, in order, with their own contents; none is lost; each callback runs once, when its packet completes, and is given that packet with the status and control of its own transmission |
| `MeshModel.OutcomesAreOwn` | avr/libraries/Mesh/src/lwm/nwk/nwkDataReq.c:111-182 | the outcomes the callbacks are given are those: what the transmitter reports on the frame of the packet under way, or out of memory with the control field as it was sent |
| `MeshProgress.HandOverIff` | avr/libraries/Mesh/src/Mesh.cpp:230-254 | a packet is handed over exactly when one waits, none is under way and the network layer is idle: the oldest, with its own contents, asking for security if and only if the switch is on |
| `MeshProgress.RunSecures` | avr/libraries/Mesh/src/Mesh.cpp:238-242 | over every run each packet handed over asks for security exactly if the switch was on at that moment |
| `MeshProgress.AllDelivered` | avr/libraries/Mesh/src/Mesh.cpp:66-74 | from rest, one round of hand-over, sending, report and confirmation for each waiting packet delivers them all in order, runs each callback once with the outcome of its round, and ends at rest |
| `MeshProgress.SendAccepts` | avr/libraries/Mesh/src/Mesh.cpp:218-228 | a packet is accepted while fewer than eight wait, and waits behind them |
| `MeshQueue.TxBuffer.Insert` | avr/libraries/Mesh/src/TxBuffer.cpp:85-103 | appends to the ring unless it is full |
| `MeshQueue.TxBuffer.Remove` | avr/libraries/Mesh/src/TxBuffer.cpp:105-122 | takes the oldest packet |
| `MeshQueue.TxBuffer.IsFull` | avr/libraries/Mesh/src/TxBuffer.cpp:65-73 | true exactly when the ring holds eight packets |
| `MeshQueue.TxBuffer.IsEmpty` | avr/libraries/Mesh/src/TxBuffer.cpp:75-83 | true exactly when it holds none |
| `MeshQueue.AquilaMesh.SendPacket` | avr/libraries/Mesh/src/Mesh.cpp:218-228 | accepts a packet unless the ring is full |
| `MeshQueue.AquilaMesh.SendNow` | avr/libraries/Mesh/src/Mesh.cpp:230-254 | hands over the oldest packet when nothing is under way |
| `MeshQueue.AquilaMesh.Confirm` | avr/libraries/Mesh/src/Mesh.cpp:66-74 | ends the transmission and runs the callback with the packet, the status and the control now in its request |
| `MeshQueue.AquilaMesh.RequestTask` | avr/libraries/Mesh/src/lwm/nwk/nwkDataReq.c:209-234 | one pass of the request handler together with the callback it triggers |
| `MeshQueue.AquilaMesh.Transmitted` | avr/libraries/Mesh/src/lwm/nwk/nwkTx.c:363-372 | a report of the transmitter, as it reaches the request in the static packet |
| `RouteModel.VictimIsLeast` | avr/libraries/Mesh/src/lwm/nwk/nwkRoute.c:105-123 | the entry taken for a new route is a non-fixed one of least rank, the first of them |
| `RouteModel.InitInv` | avr/libraries/Mesh/src/lwm/nwk/nwkRoute.c:79-87 | the initial table keeps the invariant and holds no route |
| `RouteModel.FreeBeforeLive` | avr/libraries/Mesh/src/lwm/nwk/nwkRoute.c:105-130 | in any table with room a live route is taken exactly when no non-fixed slot is free, or a live entry comes before every free one by rank and then by place; while free entries rank at most 1 none does |
| `RouteModel.NextHopIsView` | avr/libraries/Mesh/src/lwm/nwk/nwkRoute.c:144-153 | a lookup answers with the map the table stands for, exactly if the address is not the unknown one or no free entry still holds a next hop |
| `RouteModel.EvictedIs` | avr/libraries/Mesh/src/lwm/nwk/nwkRoute.c:105-130 | at most one key is displaced, that of a non-fixed entry of least rank; none exactly when a slot is free and no live entry comes before all free ones |
| `RouteModel.UpdateView` | avr/libraries/Mesh/src/lwm/nwk/nwkRoute.c:164-179 | an update sets its own route, none for the unknown address, and loses no other key but the displaced one |
| `RouteModel.UpdateKeepsRanksIff` | avr/libraries/Mesh/src/lwm/nwk/nwkRoute.c:164-179 | an update leaves free entries ranking at most 1 exactly when the destination is not the unknown address or the entry found is fixed |
| `RouteModel.ReceivedKeepsRanksIff` | avr/libraries/Mesh/src/lwm/nwk/nwkRoute.c:194-232 | a received frame leaves free entries ranking at most 1 exactly when it does not name the unknown address as its source, is ignored, or finds an entry for that address |
| `RouteModel.UnknownSourceBreaksRanks` | avr/libraries/Mesh/src/lwm/nwk/nwkRoute.c:220-226 | a concrete table and frame: the frame takes one of two live entries, leaves it free with a middle rank, and the other live route is next to be evicted |
| `RouteModel.RemoveView` | avr/libraries/Mesh/src/lwm/nwk/nwkRoute.c:183-190 | a removal takes exactly its key out of the map, unless the entry is fixed |
| `RouteModel.ReceivedView` | avr/libraries/Mesh/src/lwm/nwk/nwkRoute.c:194-232 | a received frame teaches the route to its sender when it is new or better, none to the unknown address, and changes no other but the displaced one |
| `RouteModel.SentView` | avr/libraries/Mesh/src/lwm/nwk/nwkRoute.c:236-260 | a transmission costs a route only at its last allowed failure; ranks stay in range through halving |
| `RouteModel.UpdatedEntry` | avr/libraries/Mesh/src/lwm/nwk/nwkRoute.c:173-178 | after an update the lookup finds the given next hop and link quality, a full score and the middle rank |
| `RouteModel.LearnedEntry` | avr/libraries/Mesh/src/lwm/nwk/nwkRoute.c:209-228 | after a received frame the lookup finds its link quality, and a full score if the route is new or was replaced |
| `RouteModel.LinkChoice` | avr/libraries/Mesh/src/lwm/nwk/nwkRoute.c:200-228 | which frames teach a route, by their fields: none to any network, none sent on by a node that does not route; the next hop of a known source changes exactly for a link of higher quality or an answer to a discovery |
| `RouteModel.ScoreRestored` | avr/libraries/Mesh/src/lwm/nwk/nwkRoute.c:209-228 | the whole entry of a known source after a frame; its score is restored exactly if the next hop changes for a better link, or by an answer to a discovery |
| `RouteModel.LinkRun` | avr/libraries/Mesh/src/lwm/nwk/nwkRoute.c:194-228 | over any number of frames from one source the next hop is the sender of the last whose link was better than that of the frame before it |
| `RouteModel.SentNothing` | avr/libraries/Mesh/src/lwm/nwk/nwkRoute.c:240-246 | broadcasts, unknown destinations and fixed entries leave the table alone |
| `RouteModel.SuccessfulEntry` | avr/libraries/Mesh/src/lwm/nwk/nwkRoute.c:248-254 | a success restores the score and raises the rank by one, or halves all ranks at the limit |
| `RouteModel.NormalizedOrder` | avr/libraries/Mesh/src/lwm/nwk/nwkRoute.c:358-362 | halving keeps the order of ranks |
| `RouteModel.RunKeeps` | avr/libraries/Mesh/src/lwm/nwk/nwkRoute.c:91-260 | over every run, whatever the frames: live ranks 2 to 254, live scores that have not run out, no key held twice, fixed entries keep their keys |
| `RouteModel.StepInvIff` | avr/libraries/Mesh/src/lwm/nwk/nwkRoute.c:164-260 | a step leaves free entries ranking at most 1 exactly if it is an update or frame of the kind the two conditions name, or any other step |
| `RouteModel.RunInvIff` | avr/libraries/Mesh/src/lwm/nwk/nwkRoute.c:79-260 | free entries rank at most 1 throughout a run exactly if every step is proper where it is taken |
| `RouteModel.FailuresRun` | avr/libraries/Mesh/src/lwm/nwk/nwkRoute.c:255-259 | a route survives as many failures in a row as its score allows, and is gone after the next |
| `RouteOrder.WastesIff` | avr/libraries/Mesh/src/lwm/nwk/nwkRoute.c:164-232 | a step costs another route although a slot is free exactly if it needs an entry for a new key when some live entry comes before all free ones |
| `RouteOrder.RunWastesIff` | avr/libraries/Mesh/src/lwm/nwk/nwkRoute.c:79-260 | over a whole run a route is lost to another while a slot is free exactly if such a step occurs, and never if every step is proper and free entries rank at most 1 at the start |
| `RouteOrder.HalvedOrder` | avr/libraries/Mesh/src/lwm/nwk/nwkRoute.c:248-254 | halving keeps free entries below live ones exactly if the halves of their ranks still differ; the entry raised to the limit needs no condition |
| `RouteOrder.StepOrderIff` | avr/libraries/Mesh/src/lwm/nwk/nwkRoute.c:164-260 | any step leaves free entries ranking below live ones exactly if the middle rank an update or a new route gets is in its place among them, and ranks that are halved stay apart |
| `RouteOrder.InvOrderIff` | avr/libraries/Mesh/src/lwm/nwk/nwkRoute.c:164-232 | while free entries rank at most 1, a step breaks the order exactly if it leaves a free entry with a middle rank and some other live entry does not rank higher |
| `RouteOrder.RunOrderIff` | avr/libraries/Mesh/src/lwm/nwk/nwkRoute.c:79-260 | free entries rank below live ones throughout a run exactly if every step keeps the order where it is taken, and then no route is lost to another while a slot is free |
| `RouteTable.Routes.FindEntry` | avr/libraries/Mesh/src/lwm/nwk/nwkRoute.c:91-101 | the first entry for the key |
| `RouteTable.Routes.NewEntry` | avr/libraries/Mesh/src/lwm/nwk/nwkRoute.c:105-130 | takes over the entry of least rank and resets it |
| `RouteTable.Routes.UpdateEntry` | avr/libraries/Mesh/src/lwm/nwk/nwkRoute.c:164-179 | the table after an update |
| `RouteTable.Routes.RemoveEntry` | avr/libraries/Mesh/src/lwm/nwk/nwkRoute.c:183-190 | the table after a removal |
| `RouteTable.Routes.NextHop` | avr/libraries/Mesh/src/lwm/nwk/nwkRoute.c:144-153 | the next hop of the model |
| `RouteTable.Routes.FrameReceived` | avr/libraries/Mesh/src/lwm/nwk/nwkRoute.c:194-232 | the table after a received frame |
| `RouteTable.Routes.FrameSent` | avr/libraries/Mesh/src/lwm/nwk/nwkRoute.c:236-260 | the table after a sent frame |
| `RouteTable.Routes.NormalizeRanks` | avr/libraries/Mesh/src/lwm/nwk/nwkRoute.c:358-362 | the table with all ranks halved |
| `SlipModel.ParseEscaped` | avr/libraries/MeshBridge/src/Slip.cpp:15-37 | undoing the escapes of a payload and one stale byte gives the payload and exactly one byte more |
| `SlipModel.EscapedIs` | avr/libraries/MeshBridge/src/Slip.cpp:90-106 | escaped text holds no end marker and is longer by the number of special bytes |
| `SlipModel.SlipBytes` | avr/libraries/MeshBridge/src/Slip.cpp:15-37 | the bytes on the line for an end marker and an escape, and what an escape is read as |
| `SlipModel.FeedIdle` | avr/libraries/MeshBridge/src/Slip.cpp:50-58 | between frames, bytes other than an end marker change nothing |
| `SlipModel.FitsIs` | avr/libraries/MeshBridge/src/Slip.cpp:62-68 | the payloads that fit: not empty, and at most 253 bytes with one more for each byte escaped |
| `SlipModel.FrameDelivered` | avr/libraries/MeshBridge/src/Slip.cpp:45-108 | between frames, whatever stale bytes the buffers hold, a frame is delivered exactly when its escaped length is 1 to 253 |
| `SlipModel.FrameLost` | avr/libraries/MeshBridge/src/Slip.cpp:45-85 | in any other state one frame is lost and at most one piece of junk delivered, and the receiver is between frames again |
| `SlipModel.Delivery` | avr/libraries/MeshBridge/src/Slip.cpp:45-108 | any concatenation of frames delivers exactly the payloads that fit, in order |
| `SlipModel.Resynchronised` | avr/libraries/MeshBridge/src/Slip.cpp:45-85 | from any state only the first frame is lost |
| `SlipLink.Slip.ParseEscapes` | avr/libraries/MeshBridge/src/Slip.cpp:15-37 | rewrites the buffer in place from the static copy |
| `SlipLink.Slip.Loop` | avr/libraries/MeshBridge/src/Slip.cpp:45-85 | one byte: the new state and what is delivered |
| `SlipLink.Slip.Send` | avr/libraries/MeshBridge/src/Slip.cpp:87-108 | writes one frame |
| `CrcModel.BitsLinear` | avr/libraries/MeshBridge/src/CRC.cpp:12-18 | the shift register is linear over exclusive or |
| `CrcModel.BitsKernel` | avr/libraries/MeshBridge/src/CRC.cpp:12-18 | and loses nothing: only zero goes to zero |
| `CrcModel.CrcKernel` | avr/libraries/MeshBridge/src/CRC.cpp:3-21 | two different registers stay different whatever follows |
| `CrcModel.CrcLinear` | avr/libraries/MeshBridge/src/CRC.cpp:3-21 | the checksum is linear: that of the exclusive or of two messages of one length is the exclusive or of theirs |
| `CrcModel.UnitByte` | avr/libraries/MeshBridge/src/CRC.cpp:3-21 | a byte of value 1 leaves the polynomial 0x1021 |
| `CrcModel.LeadingZero` | avr/libraries/MeshBridge/src/CRC.cpp:3-21 | a zero byte in front changes nothing, as the register starts at zero |
| `CrcModel.PairDetected` | avr/libraries/MeshBridge/src/CRC.cpp:3-21 | every change confined to two adjacent payload bytes changes the checksum, at any length |
| `CrcModel.AppendChecks` | avr/libraries/MeshBridge/src/CRC.cpp:24-34 | what `appendCrc` makes is accepted, and the payload is its front |
| `CrcModel.ChecksIff` | avr/libraries/MeshBridge/src/CRC.cpp:36-51 | nothing else is accepted |
| `CrcModel.FrameChangeDetected` | avr/libraries/MeshBridge/src/CRC.cpp:36-51 | a change confined to two adjacent bytes anywhere in an accepted frame is accepted exactly if it falls on the last payload byte and the low checksum byte with the differences 0x89 and 0xA1 |
| `CrcModel.BoundaryUnseen` | avr/libraries/MeshBridge/src/CRC.cpp:36-51 | that one case exists for every non-empty payload |
| `Bridge.CalcCrc` | avr/libraries/MeshBridge/src/CRC.cpp:3-21 | the loops compute the checksum of the first bytes of the buffer |
| `Bridge.AppendCrc` | avr/libraries/MeshBridge/src/CRC.cpp:24-34 | writes the checksum behind the payload and changes nothing else |
| `Bridge.CheckCrc` | avr/libraries/MeshBridge/src/CRC.cpp:36-51 | accepts exactly frames whose last two bytes are the checksum of the rest |
| `BridgeModel.BridgeDelivery` | avr/libraries/MeshBridge/src/AquilaBridge.cpp:49-60 | payloads sent one after another reach the command parser of the other end unchanged and in order, without those whose checked and escaped form is too long |
| `BridgeModel.BridgeResynchronised` | avr/libraries/MeshBridge/src/AquilaBridge.cpp:49-60 | whatever the receiver was in the middle of, only the first payload is lost and at most one stray frame is delivered; the payloads after it reach the command parser as between frames |
| `BridgeModel.CommandIff` | avr/libraries/MeshBridge/src/AquilaBridge.cpp:49-60 | a delivered frame reaches the command parser as a payload exactly if it is what is sent for that payload; every other frame is kept from it |
| `BridgeModel.DamageDropped` | avr/libraries/MeshBridge/src/AquilaBridge.cpp:49-60 | a sent frame damaged in two adjacent bytes passes nothing on, but for the one case the checksum does not see |
| `BridgeModel.OneDamaged` | avr/libraries/MeshBridge/src/AquilaBridge.cpp:49-60 | among other payloads a damaged frame costs its own payload and no other |
| `Bridge.AquilaBridge.SendComBuffer` | avr/libraries/MeshBridge/src/AquilaBridge.cpp:191-195 | sends the buffer with its checksum |
| `Bridge.AquilaBridge.OnData` | avr/libraries/MeshBridge/src/AquilaBridge.cpp:49-60 | passes on the payload of an accepted frame |
| `Bridge.AquilaBridge.Loop` | avr/libraries/MeshBridge/src/AquilaBridge.cpp:185-189 | one received byte, including the command it may complete |
| `StoreModel.SlotsApart` | avr/libraries/AquilaProtocol/src/ProtocolDB.c:72-82 | slots do not overlap each other or the header and lie inside the region |
| `StoreModel.SeekFinds` | avr/libraries/AquilaProtocol/src/ProtocolDB.c:108-142 | a search resumed with the right count finds the entry of that relative number, or reaches the end |
| `StoreModel.BitSet` | avr/libraries/AquilaProtocol/src/ProtocolDB.c:234 | setting one bit changes that bit only |
| `StoreModel.BitCleared` | avr/libraries/AquilaProtocol/src/ProtocolDB.c:129 | clearing one bit changes that bit only |
| `StoreModel.BitOrder` | avr/libraries/AquilaProtocol/src/ProtocolDB.c:112 | bits are counted from the low end of a byte |
| `StoreModel.FormatView` | avr/libraries/AquilaProtocol/src/ProtocolDB.c:200-212 | a formatted store is empty, whatever the bytes of its slots |
| `StoreModel.InitView` | avr/libraries/AquilaProtocol/src/ProtocolDB.c:180-198 | a memory is taken for a store exactly if it begins with signature and entry size; any other becomes an empty store, byte by byte |
| `StoreModel.FirstEntry` | avr/libraries/AquilaProtocol/src/ProtocolDB.c:200-242 | the bytes of a store with one entry |
| `StoreModel.AppendView` | avr/libraries/AquilaProtocol/src/ProtocolDB.c:214-242 | an append fills the first free slot, stands in front of the entries in later slots, and fails only at 80 entries |
| `StoreModel.GetView` | avr/libraries/AquilaProtocol/src/ProtocolDB.c:245-248 | reading number n gives entry n, and an error behind the last |
| `StoreModel.SetView` | avr/libraries/AquilaProtocol/src/ProtocolDB.c:250-253 | writing number n replaces exactly entry n |
| `StoreModel.DelView` | avr/libraries/AquilaProtocol/src/ProtocolDB.c:255-258 | deleting number n removes exactly entry n |
| `StoreModel.RunInv` | avr/libraries/AquilaProtocol/src/ProtocolDB.c:72-258 | over every run on a formatted store the counter is the number of set bits, and the signature stays |
| `StoreModel.IteratorIsGet` | avr/libraries/AquilaProtocol/src/ProtocolDB.c:260-276 | call k of the iterator returns what reading number k returns, for k up to 255 |
| `StoreModel.IteratorWraps` | avr/libraries/AquilaProtocol/src/ProtocolDB.c:268-276 | call 257 asks for entry 0 again and answers as a fresh read exactly if there is at most one entry |
| `StoreModel.IteratorAgreesIff` | avr/libraries/AquilaProtocol/src/ProtocolDB.c:260-276 | the iterator answers for good as reads by the number of the call, taken as a byte, exactly if there is at most one entry |
| `StoreModel.Answers` | avr/libraries/AquilaProtocol/src/AquilaProtocol.cpp:534-546 | an entry answers an event of its number from its address with its action, with the parameter of the event if there is one and its own otherwise |
| `StoreModel.MatchingAppend` | avr/libraries/AquilaProtocol/src/AquilaProtocol.cpp:531-548 | the actions of a list of entries are those of its parts in order |
| `ProtocolDB.Persist.Init` | avr/libraries/Mesh/src/stack/halPersist.c:46-62 | hands out regions one behind the other, inside the memory |
| `ProtocolDB.Persist.ReadBlock` | avr/libraries/Mesh/src/stack/halPersist.c:76-87 | reads a block that ends strictly inside the region |
| `ProtocolDB.Persist.WriteBlock` | avr/libraries/Mesh/src/stack/halPersist.c:102-113 | writes such a block and nothing else |
| `ProtocolDB.Store.Init` | avr/libraries/AquilaProtocol/src/ProtocolDB.c:180-198 | formats exactly when signature or entry size differ |
| `ProtocolDB.Store.AppendEntry` | avr/libraries/AquilaProtocol/src/ProtocolDB.c:214-242 | the region after an append; nothing outside it changes |
| `ProtocolDB.Store.SeekEntry` | avr/libraries/AquilaProtocol/src/ProtocolDB.c:108-142 | the nested loops compute the resumable search |
| `ProtocolDB.Store.GetSetDelEntry` | avr/libraries/AquilaProtocol/src/ProtocolDB.c:84-142 | what is found, returned and changed for each action, and where the counters stop |
| `ProtocolDB.Store.GetEntry` | avr/libraries/AquilaProtocol/src/ProtocolDB.c:245-248 | reads one entry and changes nothing |
| `ProtocolDB.Store.SetEntry` | avr/libraries/AquilaProtocol/src/ProtocolDB.c:250-253 | the region after an entry is overwritten |
| `ProtocolDB.Store.DelEntry` | avr/libraries/AquilaProtocol/src/ProtocolDB.c:255-258 | the region after a deletion |
| `ProtocolDB.Store.IteratorGetNextEntry` | avr/libraries/AquilaProtocol/src/ProtocolDB.c:268-276 | one call of the iterator |
| `ProtocolDB.Dispatcher.CheckEvent` | avr/libraries/AquilaProtocol/src/AquilaProtocol.cpp:518-549 | runs the actions of exactly the stored entries that match event and address, each once, in slot order, and none when the counter is impossible |
| `EventFrame.FrameParses` | avr/libraries/AquilaProtocol/src/AquilaProtocol.cpp:230-253 | decoding an event frame gives back event, parameter, flag, address and name; the frame fits the payload |
| `EventFrame.FrameBytes` | avr/libraries/AquilaProtocol/src/AquilaProtocol.cpp:659-689 | the bytes of an event frame, with and without parameter and name |
| `EventFrame.EventIff` | avr/libraries/AquilaProtocol/src/AquilaProtocol.cpp:105-116 | a packet is taken for an event exactly if it is of version 3 and kind 6 and long enough for the fields its control byte announces |
| `EventFrame.EventFields` | avr/libraries/AquilaProtocol/src/AquilaProtocol.cpp:231-249 | where the fields of an event packet are; a missing or cut off name is empty |
| `EventFrame.OtherPackets` | avr/libraries/AquilaProtocol/src/AquilaProtocol.cpp:105-130 | another version and two kinds are refused, two kinds ignored, the others commands |
| `EventFrame.AquilaProtocol.Emit` | avr/libraries/AquilaProtocol/src/AquilaProtocol.cpp:659-689 | builds and sends the frame of an event |
| `EventFrame.AquilaProtocol.Send` | avr/libraries/AquilaProtocol/src/AquilaProtocol.cpp:72-94 | puts the version in front of a command |
| `EventFrame.ParsePacket` | avr/libraries/AquilaProtocol/src/AquilaProtocol.cpp:96-126 | the outcome for any packet, with the name as the C string it was copied to |
| `EventFrame.ReadName` | avr/libraries/AquilaProtocol/src/AquilaProtocol.cpp:238-249 | the name field as the C string in its own buffer, empty when it is missing or cut off |
| `TimerModel.StepInv` | avr/libraries/SimpleTimer/SimpleTimer.cpp:49-240 | over every step the number of timers is the number of occupied slots, and a limited timer that is there has run fewer times than its limit |
| `TimerModel.SetTimerFails` | avr/libraries/SimpleTimer/SimpleTimer.cpp:134-155 | a timer is refused exactly when all slots are taken or there is nothing to call |
| `TimerModel.NewTimer` | avr/libraries/SimpleTimer/SimpleTimer.cpp:146-154 | a new timer goes to a free slot with no runs counted |
| `TimerModel.LimitedFires` | avr/libraries/SimpleTimer/SimpleTimer.cpp:79-107 | a timer limited to n has fired as often as it counts while it is there, and exactly n times when it is freed |
| `TimerModel.LimitedFinishes` | avr/libraries/SimpleTimer/SimpleTimer.cpp:66-107 | polled less than a turn of the clock late, a limited timer fires at each poll at which a call has come due, and is freed exactly when as many have come due as it had runs left |
| `TimerModel.LimitedCount` | avr/libraries/SimpleTimer/SimpleTimer.cpp:134-155 | the same for a new timer limited to n: it fires at each call that comes due, n times at most, and its slot is free exactly when n have come due |
| `TimerModel.CallsInOrder` | avr/libraries/SimpleTimer/SimpleTimer.cpp:94-108 | the callbacks of one poll run in the order of their slots, each at most once |
| `TimerModel.PollInterval` | avr/libraries/SimpleTimer/SimpleTimer.cpp:66-78 | an interval fires at a poll exactly if the clock shows at least its delay, across the wrap |
| `TimerModel.FiresIff` | avr/libraries/SimpleTimer/SimpleTimer.cpp:61-88 | a callback runs at a poll exactly if there is a timer, the clock shows its delay, it is switched on, and it is without limit or below it |
| `TimerModel.OffKeepsTime` | avr/libraries/SimpleTimer/SimpleTimer.cpp:66-74 | over every run an interval that is switched off never fires, while its due times move on as if it were on |
| `TimerModel.Controls` | avr/libraries/SimpleTimer/SimpleTimer.cpp:168-236 | switching, flipping and restarting change that one field of that one timer; deleting frees its slot |
| `TimerModel.Restarted` | avr/libraries/SimpleTimer/SimpleTimer.cpp:194-200 | a restart begins the account of an interval anew |
| `TimerModel.NeverEarly` | avr/libraries/SimpleTimer/SimpleTimer.cpp:49-109 | k calls mean that k whole delays have passed since the start |
| `TimerModel.CatchesUp` | avr/libraries/SimpleTimer/SimpleTimer.cpp:49-109 | while no poll comes a whole turn of the clock after the last due time each poll makes up one call, until none is owed |
| `TimerModel.OnTime` | avr/libraries/SimpleTimer/SimpleTimer.cpp:49-109 | polled at least once every delay, it has at every poll fired once for each whole delay |
| `TimerModel.IntervalCount` | avr/libraries/SimpleTimer/SimpleTimer.cpp:158-160 | a new interval has at its last poll fired at most, and if polled often enough exactly, elapsed time divided by delay times |
| `TimerModel.NeverRecovers` | avr/libraries/SimpleTimer/SimpleTimer.cpp:66-70 | once a whole turn of the clock behind, an interval stays a turn behind, however often it is polled |
| `TimerModel.PunctualIff` | avr/libraries/SimpleTimer/SimpleTimer.cpp:49-109 | at the end of a run an interval is less than a turn behind exactly if no poll came a whole turn of the clock after the last due time |
| `TimerModel.BurstIff` | avr/libraries/SimpleTimer/SimpleTimer.cpp:49-109 | polled at one time as often as calls are owed, an interval catches up exactly if it is less than a turn behind |
| `TimerModel.CatchesUpIff` | avr/libraries/SimpleTimer/SimpleTimer.cpp:49-109 | after any run, given enough polls, an interval has fired once for every whole delay since its start exactly if no poll came a whole turn after the last due time, a condition on the times alone |
| `TimerModel.BacklogLost` | avr/libraries/SimpleTimer/SimpleTimer.cpp:66 | a poll exactly one turn late does not fire |
| `SimpleTimer.SimpleTimer.FindFirstFreeSlot` | avr/libraries/SimpleTimer/SimpleTimer.cpp:114-131 | the first free slot, or -1 |
| `SimpleTimer.SimpleTimer.SetTimer` | avr/libraries/SimpleTimer/SimpleTimer.cpp:134-155 | the timers after a new one is set |
| `SimpleTimer.SimpleTimer.Run` | avr/libraries/SimpleTimer/SimpleTimer.cpp:49-109 | both loops: every slot served, callbacks in slot order, finished timers freed |
| `SimpleTimer.SimpleTimer.DeleteTimer` | avr/libraries/SimpleTimer/SimpleTimer.cpp:168-190 | frees one slot, once |
| `SimpleTimer.SimpleTimer.RestartTimer` | avr/libraries/SimpleTimer/SimpleTimer.cpp:194-200 | moves the start of one timer |
| `SimpleTimer.SimpleTimer.IsEnabled` | avr/libraries/SimpleTimer/SimpleTimer.cpp:203-209 | the switch of one timer |
| `SimpleTimer.SimpleTimer.Enable` | avr/libraries/SimpleTimer/SimpleTimer.cpp:212-218 | switches one timer on |
| `SimpleTimer.SimpleTimer.Disable` | avr/libraries/SimpleTimer/SimpleTimer.cpp:221-227 | switches one timer off |
| `SimpleTimer.SimpleTimer.Toggle` | avr/libraries/SimpleTimer/SimpleTimer.cpp:230-236 | flips one switch |
| `RegexModel.ScanIff` | avr/libraries/ArduinoJson/third-party/gtest-1.7.0/src/gtest-port.cc:257-311 | the validator accepts exactly the texts of the grammar |
| `RegexModel.ClassesAre` | avr/libraries/ArduinoJson/third-party/gtest-1.7.0/src/gtest-port.cc:228-247 | what each escaped letter matches, as sets of characters |
| `RegexModel.OtherAtoms` | avr/libraries/ArduinoJson/third-party/gtest-1.7.0/src/gtest-port.cc:243-246 | every other atom matches itself, and a dot everything but a line feed |
| `RegexModel.SingleTexts` | avr/libraries/ArduinoJson/third-party/gtest-1.7.0/src/gtest-port.cc:270-306 | which single characters are regular expressions, alone and behind a backslash |
| `RegexModel.RepeatsAre` | avr/libraries/ArduinoJson/third-party/gtest-1.7.0/src/gtest-port.cc:320-342 | how many characters each repetition takes |
| `RegexModel.HeadFirst` | avr/libraries/ArduinoJson/third-party/gtest-1.7.0/src/gtest-port.cc:320-342 | matching at the head means that some number of atoms the repetition allows match and the rest matches behind them |
| `RegexModel.MatchesIsHead` | avr/libraries/ArduinoJson/third-party/gtest-1.7.0/src/gtest-port.cc:383-396 | matching anywhere means matching at the head of some suffix, the first one if anchored |
| `SimpleRegex.ValidateRegex` | avr/libraries/ArduinoJson/third-party/gtest-1.7.0/src/gtest-port.cc:257-311 | true exactly for the text of some well-formed pattern |
| `SimpleRegex.MatchRepetitionAndRegexAtHead` | avr/libraries/ArduinoJson/third-party/gtest-1.7.0/src/gtest-port.cc:320-342 | true exactly if a prefix of the string belongs to the language of the item and what follows it |
| `SimpleRegex.MatchRegexAtHead` | avr/libraries/ArduinoJson/third-party/gtest-1.7.0/src/gtest-port.cc:347-373 | true exactly if a prefix of the string, or all of it before a final anchor, belongs to the language |
| `SimpleRegex.MatchRegexAnywhere` | avr/libraries/ArduinoJson/third-party/gtest-1.7.0/src/gtest-port.cc:383-396 | true exactly if some substring, placed as the anchors say, belongs to the language |
| `RegexModel.FullText` | avr/libraries/ArduinoJson/third-party/gtest-1.7.0/src/gtest-port.cc:429-447 | the text built for full matches is that of the pattern anchored at both ends, unless it ends in an escaped dollar sign |
| `RegexModel.FullMatchIff` | avr/libraries/ArduinoJson/third-party/gtest-1.7.0/src/gtest-port.cc:406-408 | a full match means membership of the whole string, for every string, exactly for the patterns whose text does not end in an escaped dollar sign |
| `SimpleRegex.RE.Init` | avr/libraries/ArduinoJson/third-party/gtest-1.7.0/src/gtest-port.cc:417-448 | valid exactly for texts of the grammar, and then both texts are those of the pattern |
| `SimpleRegex.RE.PartialMatch` | avr/libraries/ArduinoJson/third-party/gtest-1.7.0/src/gtest-port.cc:412-414 | some substring matches |
| `SimpleRegex.RE.FullMatch` | avr/libraries/ArduinoJson/third-party/gtest-1.7.0/src/gtest-port.cc:406-408 | the whole string belongs to the language, or a prefix of it in the exceptional case |
| `Allocators.RoundingIs` | avr/libraries/ArduinoJson/include/ArduinoJson/JsonBuffer.hpp:109-116 | rounding up gives the next multiple of a word |
| `Allocators.PackedNext` | avr/libraries/ArduinoJson/include/ArduinoJson/StaticJsonBuffer.hpp:25-30 | one more region after a fit test on the unrounded size stays inside the block, aligned and behind the others |
| `Allocators.PackedDisjoint` | avr/libraries/ArduinoJson/include/ArduinoJson/StaticJsonBuffer.hpp:25-30 | any two regions handed out have no byte in common |
| `Allocators.StaticJsonBuffer.Alloc` | avr/libraries/ArduinoJson/include/ArduinoJson/StaticJsonBuffer.hpp:25-30 | over every run the regions lie inside the capacity, aligned, one behind the other |
| `Allocators.BlockJsonBuffer.AllocInHead` | avr/libraries/ArduinoJson/include/ArduinoJson/Internals/BlockJsonBuffer.hpp:64-68 | takes a region of the head block |
| `Allocators.BlockJsonBuffer.AddNewBlock` | avr/libraries/ArduinoJson/include/ArduinoJson/Internals/BlockJsonBuffer.hpp:78-87 | puts a new block in front of the chain |
| `Allocators.BlockJsonBuffer.Alloc` | avr/libraries/ArduinoJson/include/ArduinoJson/Internals/BlockJsonBuffer.hpp:55-76 | the same over a chain of blocks: a region of the head or of a new block, the others untouched |

## Left out

- JsonPrinter.JsonWriter.WriteTo: integers, floats and booleans are tokens, because their conversions are library code.
- JsonParser.Parser.ParseArray: a null text and the `strdup` overloads are not modelled; the list of elements is a sequence, so `List.cpp` and `removeAt` are not part of this model.
- JsonParser.Parser.ParseObject: memory is the number of allocations still granted, not bytes; after the first refusal the parser gives up in any case.
- JsonPrinter.PrettyPrintTo: the compact characters are fed to the printer in order, which stands for the virtual `Print` sink; `setTabSize` is not modelled, the tab size is arbitrary.
- NwkDataReq.NwkLayer.SendFrame: header fields, payload and multicast of the frame are not modelled.
- NwkDataReq.NwkLayer.Transmitted: the call into the route table before the frame is released is a step of `RouteModel`.
- NwkDataReq.NwkLayer.TxFrame: the transmitter's delays, retries and acknowledgements are one step at an arbitrary later time.
- MeshQueue.AquilaMesh.SendPacket: a payload longer than the buffer is excluded, because the source copies it unchecked.
- RouteTable.Routes.FrameReceived: the variant with route discovery, route errors sent out, and the choice of the next hop for a frame are not modelled; a table with fixed entries only is excluded.
- RouteTable.Routes.NewEntry: a table with fixed entries only is excluded, because the source then follows a null pointer.
- RouteTable.Routes.UpdateEntry: a table with fixed entries only is excluded, because the source then follows a null pointer.
- SlipLink.Slip.Loop: the serial port is a byte at a time; a receiver without a callback is not modelled.
- Bridge.CheckCrc: sizes below two are excluded, because the source reads in front of the buffer.
- Bridge.AquilaBridge.OnData: deliveries shorter than two bytes are excluded, for the same reason.
- Bridge.AquilaBridge.Loop: the mesh loop it also runs is a component of its own; a delivery shorter than two bytes, for which the same holds, is taken to pass nothing on.
- Bridge.AquilaBridge.SendComBuffer: the checksum must fit the buffer of 255 bytes, which the source does not check.
- ProtocolDB.Persist.Init: `lastStatus`, the byte-wise access and the 16-bit wrap of `address + size` are not modelled.
- ProtocolDB.Persist.ReadBlock: nor are they here.
- ProtocolDB.Persist.WriteBlock: nor here.
- ProtocolDB.Store.Init: the region is allocated before; its failure is that of `Persist.Init`.
- ProtocolDB.Dispatcher.CheckEvent: subscriptions in code are not modelled, and actions do not write to the store.
- EventFrame.AquilaProtocol.Emit: names of more than 92 bytes are excluded, because sender or receiver then leave their buffers; the check of the sender's own subscriptions is not modelled.
- EventFrame.AquilaProtocol.Send: address, endpoints and options of the packet are not modelled.
- EventFrame.FrameParses: names of more than 92 bytes are excluded, as in `Emit`.
- EventFrame.ReadName: a name field that fills the receiver's buffer is excluded, because the terminator is then written behind it.
- EventFrame.ParsePacket: such a name field is excluded; commands other than events are told apart but not carried out.
- SimpleTimer.SimpleTimer.Run: callbacks that call the timer again are not modelled.
- SimpleTimer.SimpleTimer.DeleteTimer: negative numbers are excluded, because the source then leaves its arrays.
- SimpleTimer.SimpleTimer.RestartTimer: negative numbers are excluded, for the same reason.
- SimpleTimer.SimpleTimer.IsEnabled: negative numbers are excluded, for the same reason.
- SimpleTimer.SimpleTimer.Enable: negative numbers are excluded, for the same reason.
- SimpleTimer.SimpleTimer.Disable: negative numbers are excluded, for the same reason.
- SimpleTimer.SimpleTimer.Toggle: negative numbers are excluded, for the same reason.
- SimpleRegex.MatchRepetitionAndRegexAtHead: strings of 2^64 characters and more are not modelled; a null regular expression is not modelled either.
- Allocators.StaticJsonBuffer.Alloc: wrap-around of the sum of sizes is not modelled.
- Allocators.BlockJsonBuffer.Alloc: wrap-around of sizes and the destructor are not modelled.
- Radio, security and reception in the mesh, the hardware drivers and the rest of the vendored test framework are not part of this model.
