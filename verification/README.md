# Proofs about GridLAB-D's tokenizer, cloud grid, JSON messages and network simulation

This project models four parts of GridLAB-D in Dafny and proves what they keep, over all inputs and
all runs. The parts that the program writes as loops over arrays, object fields and linked nodes are
methods on arrays and heap objects here too. Each is proved to do what a function on values says, and
the laws are proved about that function.

* **The jsmn tokenizer** (`connection/jsmn.c`, in the build of `connection/jsmn.h`: parent links and
  strict mode). `Jsmn` is one pass as a function, `JsmnParser` the parser object over a token array.
  `JsmnResume` shows that a stopped call can be continued with more text or more tokens, `JsmnForest`
  that the tokens always form a forest laid over the text, and `JsmnForms` where the two ways of
  closing a container differ. `JsmnGrammar` is a grammar with the tokens of each text, and `JsmnTexts`
  shows that the tokenizer takes exactly its texts, finds exactly those tokens, and what it answers else.
* **The fractal cloud grid** (`climate/climate.cpp`). `CloudShift` has the four in-place sweeps,
  `CloudFill` the midpoint displacement of one tile, `CloudTiles` the tiling, `CloudCut` the search
  for the cut that gives the requested coverage and the labelling of the cells.
* **JSON messages** (`connection/json.cpp`, `connection/connection.cpp`, `connection/transport.cpp`).
  `Json` is the nine-state parser over numbered nodes, `JsonTree` its invariant, `JsonParser` the same
  parser over linked heap nodes. `JsonRoundTrip`, `JsonSpaces`, `JsonImport` and `JsonTexts` say which texts it
  accepts, with whatever white space, and what it reads out of them. `Transport` and `Connection` build the text step by step,
  `Sending` says what text that is, for messages of any size, `Delivery` puts sender and receiver
  together, and `Limit` says when the text stays within its limit.
* **Simulated transfer and time agreement** (`comm/network.cpp`, `comm/network_interface.cpp`,
  `connection/init.cpp`, `connection/helics_msg.cpp`). `Transfer` and `Network` share the bandwidth and
  count the bytes, and `Progress` shows how fast they flow. `Splice` moves complete messages between the linked outboxes and inboxes,
  `LinkedNetwork` runs links and accounts side by side, and `Stale` follows a message that stays linked.
  `Inbox` drains the stacked inbox, `Clock` and `Federation` agree on the next time.

## Where the code differs from what it says or seems to say

Each of these is proved, with the exact condition under which the code does the expected thing.

* **A stray closing bracket.** With parent links, once any token exists, a closing bracket that
  closes nothing is skipped; the build without parent links refuses it. The two builds agree on a
  whole run if and only if no closing bracket in the text is come to when none is open
  (`JsmnForms.FormsAgreeOnText`); on `[]]` they differ (`JsmnForms.FormsDiffer`).
* **A text cut off after a backslash.** A text of which more is asked for can still become one that is
  taken, and one refused as invalid cannot, unless it ends in a backslash (`JsmnTexts.CanBecomeTextIff`):
  cut there, a string is refused as invalid, not as a part (`JsmnTexts.CutInEscape`).
* **The size of a message.** An integer asks for the 1024 characters of its print buffer. The id is an
  integer and the reply to its export is ignored, so a message that has grown past 476 characters is
  completed without an id and reported as complete (`Delivery.IdFitsIff`, `Sending.CompletedText`).
* **Passing the limit.** `message_append` tests a piece and its delimiter against the room one by one.
  Together they can pass the limit; then the room, an unsigned difference, becomes huge, and the
  message can outgrow its buffer of 2048 characters (`Transport.LimitCanBePassed`,
  `Limit.OvershootOutgrows`). It stays within the limit if and only if every value, item and opening
  that is accepted fits together with its delimiter where it starts (`Limit.MessageWithinIff`).
* **Refused items.** The loops that send a schema or the cached data do not see that an item was
  refused: it is left out of a message that is completed and understood all the same. An item of the
  data asks for 1024 characters and one of a schema for 256, so after `"method": "input"` and an item of
  450 characters or more the next is left out, and so is the id (`Delivery.RefusedItemIsLeftOut`).
  Within the limit, when no item is printed in more than 1024 characters, a message with its id has all
  its items, and one that lacks an item lacks its id too (`Delivery.IdMeansAll`). The items in the text
  are exactly those that fit where they start (`Sending.ListText`), and all are in it if and only if
  each does (`Sending.AllKeptIff`).
* **Failed steps.** `client_initiated` sets a negative count when a step fails, and then overwrites it.
  It never answers a negative number, which is what its callers test for
  (`Connection.Exchange.ClientInitiated`).
* **Messages that are sent but not understood.** Strings are printed as they are, so the value
  `x", "b": "y` of tag `a` is read as a field `a` and a field `b` (`JsonTexts.QuotedStringIsMisread`).
  `json::parse` refuses an empty group, which the sender prints for an empty schema, and an exponent,
  which it prints for a large real. Any fields are understood if and only if no tag and no string of
  them has a quote in it, their numbers are plain digits, and no group is empty
  (`JsonTexts.UnderstoodIffReadable`); with the conditions on size, that is exactly when a message
  arrives (`Delivery.DeliveredIff`).
* **Text that ends early.** Every beginning of an accepted text is accepted
  (`JsonTexts.BeginningAccepted`); accepted are exactly the beginnings of messages
  (`JsonSpaces.AcceptedIff`). The parser has come to the end of a message if and only if it was
  given the whole of it, but does not tell its caller (`JsonTexts.WholeIffAtEnd`).
* **Rejection.** `comm/network.h:20` describes the reject mode as refusing messages that exceed the
  bandwidth. The code compares the bandwidth with a counter that is never changed from zero, so a
  message is marked rejected exactly when the bandwidth is zero and none of it was sent
  (`Transfer.AllottedIsGreedy`). As `comm/network.cpp:101` demands a positive bandwidth, no message ever
  is (`Transfer.NeverRejects`).
* **Messages that stay linked.** `check_buffer` never sets `prev`, so a commit unlinks a complete message
  only from the top of its outbox. Under an incomplete one it gets into the inbox and stays in the
  outbox too. The outbox is in order after a commit if and only if no complete message lay under an
  incomplete one (`Splice.EmptyOutboxes`), and over a run the links show the accounts if and only if
  every commit is of that kind (`LinkedNetwork.RunLinked`). If the next commit comes to such a message
  while it is on top of its inbox still, it links the message to itself, unless the newer message has
  just been put on top of the same inbox (`Stale.CommitAgain`). Two messages sent two seconds apart,
  with a latency of five, come to that (`Network.OlderFinishesUnderNewer`,
  `Stale.OlderIsLinkedToItself`).
* **The top of the inbox.** A delivered message is freed by the call for the one above it, so the top
  of the stack, when delivered, is unlinked but not freed (`Inbox.Interface.HandleInbox`).
* **The coverage search.** It starts from the lowest value of the pattern before normalization, and
  ends if and only if some cut at or above that and below the highest value is good
  (`CloudCut.BisectionEndsIff`). A pattern whose raw values are all 1 and more never gets a coverage of
  0.99 or less (`CloudCut.HighPatternNeverEnds`). Cells that have become empty keep an earlier
  normalized value.
* **Asking past the stop time.** A federate already granted the stop time asks for it again when a
  later time is proposed; otherwise its requests are after its last grant (`Federation.Negotiate`,
  through `RoomToRise`).
* **A publishing time that is passed.** A federate publishes when it asks for just its publishing time.
  Once a later time has been granted to it, it publishes no more, as long as the broker does not go
  back and no time past the stop time is proposed (`Federation.Simulate`).
* **Grants that go back.** A grant is only tested against the global clock. With 10 granted last and
  the clock at 5, a grant of 7 is taken, and the next request, for 8, is before a time already granted
  (`Federation.GrantFalls`). Grants keep rising over a run if and only if the broker never goes back
  (`Federation.RisingIff`); whatever the broker answers keeps them rising if and only if the clock has
  come to the last grant when the federate asks (`Federation.AnyAnswerRisesIff`).

## Model

| member | source | states |
|---|---|---|
| JsmnParser.Parser.AllocToken | connection/jsmn.c:8-21 | The next token of the array is taken and blanked; when none is left nothing changes and the call says so. |
| JsmnParser.Parser.ParsePrimitive | connection/jsmn.c:37-77 | On the array and the fields a primitive is lexed as `LexPrimitive` says. On every failure the position is back at its start and no token is taken, which is what makes resuming possible. |
| JsmnParser.Parser.ParseString | connection/jsmn.c:82-129 | The same for a string with its escapes, wherever in the string or the escape the text ends. |
| JsmnParser.Parser.CloseByParentLinks | connection/jsmn.c:162-180 | The climb in place: the token `WalkUp` finds is closed, and its parent becomes the super token. A mismatch changes nothing; a stray bracket is skipped. |
| JsmnParser.Parser.CloseByBackwardScan | connection/jsmn.c:182-201 | The two scans in place: the last open token is closed, and the open token before it becomes the super token. |
| JsmnParser.Parser.OpenContainer | connection/jsmn.c:146-159 | A container token is added under the super token, counted there and made the super token. |
| JsmnParser.Parser.Parse | connection/jsmn.c:134-244 | A whole call ends with the code, fields and tokens of `Run`, and no token past `toknext` is touched. |
| JsmnResume.StepExtends | connection/jsmn.c:140-234 | A step that succeeded on a text is repeated exactly on any longer text and any larger array. |
| JsmnResume.Resumable | connection/jsmn.c:134-244 | A call on `a` that stopped with any code, continued on `a + b` with at least as many tokens, ends with the same code, fields and tokens as one call on `a + b`. |
| JsmnResume.FeedIsOneRun | connection/jsmn.c:134-244 | Any number of deliveries of text, with the array growing at any time, ends as one call on the whole text. |
| JsmnForest.ForestAdd | connection/jsmn.c:146-159 | A token added under the super token, open or closed, keeps the forest. |
| JsmnForest.ForestClose | connection/jsmn.c:162-180 | Closing the super token at its bracket keeps the forest. |
| JsmnForest.WalkFindsLastOpen | connection/jsmn.c:167-180 | From any token, climbing the parent links finds the last open token up to it: the links skip only closed tokens. |
| JsmnForest.ClosersAgree | connection/jsmn.c:160-203 | The climb and the scan close the same token, refuse the same mismatch and leave the same state, if and only if some container is open or there is no token at all; else one refuses and the other skips. |
| JsmnForest.ForestRun | connection/jsmn.c:134-244 | Wherever a call stops, with whatever code, the state is a forest: parents first, spans nested or disjoint, sizes equal to numbers of children, brackets matching types. On success nothing is open. |
| JsmnForest.NestedOrDisjoint | connection/jsmn.c:146-202 | Starts increase, and of any two tokens the later lies inside the earlier if it descends from it by parent links, and after it otherwise. |
| JsmnForest.OpenIffAncestorOfSuper | connection/jsmn.c:150-177 | The open tokens are exactly the super token and its ancestors. |
| JsmnForms.FormsAgree | connection/jsmn.c:160-203 | From any forest the two builds give the same code, fields and tokens over a whole run if and only if no stray closing bracket is met; at the first one the scanning build stops with INVAL, and earlier in the text than the other. |
| JsmnForms.FormsAgreeOnText | connection/jsmn.c:134-244 | On a fresh parser the condition is one on the text: reading it with a stack of open brackets, strings and primitives stepped over, a closing bracket is never come to when none is open. |
| JsmnForms.FormsDiffer | connection/jsmn.c:160-203 | On the text `[]]` with room for two tokens the two builds end differently. |
| JsmnForms.ReachableIsForest | connection/jsmn.c:250-254 | The initial state is a forest, and so is every state reached from it. |
| JsmnGrammar.ReadValue | connection/jsmn.c:134-244 | In either build a value that is written at any position, under whatever is open, is read as the tokens laid out for it, whatever is nested in it: words up to their delimiter, strings as plain characters and escapes of two, containers with the number of their values. |
| JsmnTexts.Tokenized | connection/jsmn.c:134-244 | Every text of the grammar, with any white space, commas and colons in it, is answered SUCCESS with exactly the tokens laid out for it: types, spans, sizes and parents. |
| JsmnTexts.TakenIff | connection/jsmn.c:134-244 | The build without parent links answers SUCCESS if and only if the text is one of the grammar and there is room for its tokens. |
| JsmnTexts.TakenWithLinksIff | connection/jsmn.c:134-244 | So does the build with parent links, where no closing bracket is come to when none is open. |
| JsmnTexts.RoomDecides | connection/jsmn.c:8-14 | Less room changes nothing, unless the call then needs more: it stops with NOMEM when the room is full. |
| JsmnTexts.TooLittleRoom | connection/jsmn.c:134-244 | A text of the grammar with more tokens than there is room for is answered NOMEM. |
| JsmnTexts.InvalidStays | connection/jsmn.c:37-129 | A text that is refused as invalid is so with whatever text after it and at least as much room, unless it ends in a backslash. |
| JsmnTexts.PartCanEnd | connection/jsmn.c:236-244 | A text of which more is asked for can be ended so that it is taken. |
| JsmnTexts.CanBecomeTextIff | connection/jsmn.c:134-244 | With room enough, and but for a backslash at the end, a text can still become one that is taken if and only if the answer is SUCCESS or PART. |
| JsmnTexts.CutInEscape | connection/jsmn.c:105-125 | The text of a list with an escape in a string is taken; cut off after the backslash it is refused as invalid. |
| CloudShift.MovedKeepsSwept | climate/climate.cpp:1209-1216 | One cell moved, in a sweep that runs towards the side the pattern leaves by, overwrites no cell that is still to be read. |
| CloudShift.ShiftNorthEast | climate/climate.cpp:1207-1218 | The in-place sweep from the last row and column is the simultaneous translation: every cell has the value of the cell it came from, or EMPTY. |
| CloudShift.ShiftNorthWest | climate/climate.cpp:1241-1252 | The same for the sweep from the last row and first column. |
| CloudShift.ShiftSouthEast | climate/climate.cpp:1275-1286 | The same for the sweep from the first row and last column. |
| CloudShift.ShiftSouthWest | climate/climate.cpp:1309-1320 | The same for the sweep from the first row and column. |
| CloudShift.ShiftPattern | climate/climate.cpp:1207-1321 | For every grid size and every shift the sweep that is chosen translates the pattern, as it is once its edges are rebuilt; the branches leave no shift out. |
| CloudFill.FillSquare | climate/climate.cpp:1858-1883 | Only empty cells of the square change. The middle gets the mean of the four corners and the middle of an edge the mean of its two ends and the new middle, each with its own displacement, unless the cell was filled before. Unless a draw counts as empty, all five are filled. |
| CloudFill.FillLevel | climate/climate.cpp:1849-1888 | A level changes only empty cells of the tile. It turns filled lattice points at one spacing into filled points at half of it, unless a draw counts as empty. |
| CloudFill.BuildPattern | climate/climate.cpp:1805-1892 | For every tile of side 2^x + 1 and any draws no value of -979.02 or more changes, and nothing outside the tile changes; unless a draw is below that, no value of the tile stays below it. |
| CloudTiles.InitPattern | climate/climate.cpp:1100-1118 | For every tile count and any draws no cell that is filled once a tile is built, shared edges with later tiles included, changes again; unless a draw counts as empty, every tile is filled when built, and so is the whole pattern. |
| CloudCut.CoverageMonotone | climate/climate.cpp:1401-1409 | A higher cut never covers less. |
| CloudCut.TurnNarrows | climate/climate.cpp:1399-1419 | A turn that does not end the search keeps every interval of good cuts inside the bracket; from the second turn on it halves the bracket. |
| CloudCut.BisectionEndsIff | climate/climate.cpp:1382-1419 | On a proper bracket the search ends if and only if some cut from the low end up to, but not at, the high end gives a coverage within 0.005 of the wanted one. |
| CloudCut.LowEndAboveBandNeverEnds | climate/climate.cpp:1383-1419 | A low end that already covers too much is never left: the search does not end. |
| CloudCut.HighPatternNeverEnds | climate/climate.cpp:1382-1419 | With raw values of 1 and more, and values from 0 to 1 on the screen, the search for a coverage of 0.99 or less does not end. |
| CloudCut.CountCloudy | climate/climate.cpp:1401-1408 | The count is the number of on-screen cells at or below the cut that are not empty. |
| CloudCut.FindCut | climate/climate.cpp:1382-1419 | Given a good cut short of the high end the loop ends, at a cut whose coverage is within tolerance, and with its count. |
| CloudCut.FindRange | climate/climate.cpp:1366-1380 | The range is that of the filled cells, widened to the first on-screen cell. |
| CloudCut.Normalize | climate/climate.cpp:1390-1397 | Filled cells are scaled to the range; a cell that is empty keeps what it had. |
| CloudCut.NormalizedInProportion | climate/climate.cpp:1390-1397 | Scaled over the range that was found, filled cells lie between 0 and 1, the lowest at 0 and the highest at 1 and no others there, with their differences in proportion. |
| CloudCut.CloudsAreCounted | climate/climate.cpp:1421-1433 | The on-screen cells labelled 0 number exactly the count at the final cut. |
| CloudCut.ConvertToBinary | climate/climate.cpp:1338-1436 | The whole conversion: cells are labelled 0 up to the final cut, 1 above it and -999 where empty, and the share of on-screen cells labelled 0 is within 0.005 of twice the opaque sky cover, or of 0.99 when that is half or more. |
| JsonTree.StepKeepsInv | connection/json.cpp:474-552 | Every character keeps the tree invariant: each node met once from the head, parents naming the owning item, nesting level equal to the length of the tail's parent chain. |
| JsonTree.GoKeepsInv | connection/json.cpp:472-553 | So does any text, read to wherever it ends; so the tail is never null where it is used. |
| JsonTree.ParsedIsTree | connection/json.cpp:464-562 | The nodes of any accepted text form a tree. |
| JsonTree.FindFollowsVisit | connection/json.cpp:565-572 | The recursive search comes to the nodes in the order item, list, rest. |
| JsonTree.FindIsComplete | connection/json.cpp:565-580 | After any parse the search finds the first item in the text with the tag, at whatever depth, and nothing if and only if no item has it. |
| JsonParser.NewList | connection/json.cpp:406-415 | A fresh heap node after the tail, with its parent: the heap shows the numbered nodes of `NewNext`. |
| JsonParser.NewSublistNode | connection/json.cpp:418-424 | A fresh heap node as the first of the tail's list: the heap shows the numbered nodes of `NewSublist`. |
| JsonParser.FindItem | connection/json.cpp:565-572 | The recursive search on the heap returns the node that `Find` numbers. |
| JsonParser.Destroy | connection/json.cpp:583-591 | Every node met from the start is deleted, once, and no other. A node is read and deleted only while it is alive. |
| JsonParser.Switch | connection/json.cpp:474-552 | One turn of the loop: either the step of the machine, or a number's end, read again in the next state, or a syntax error that changes nothing. |
| JsonParser.ParseBuffer | connection/json.cpp:464-562 | The loop ends although a character may be put back. The result is the machine's: the head of its tree with every node alive, or null with every node that was created deleted. |
| JsonMessage.GoNumberChars | connection/json.cpp:523-532 | A number is read whole, its type raised to REAL by a point, and the space, comma or brace that ends it is also the first character after it. |
| JsonRoundTrip.ParseMessage | connection/json.cpp:464-562 | The printed text of any nested message with readable numbers and no empty group is parsed to exactly the nodes laid out for it. |
| JsonSpaces.ParseSpaced | connection/json.cpp:472-553 | With any white space between any two parts of the message, and before and after it, the nodes are the same. |
| JsonSpaces.WholeIff | connection/json.cpp:472-553 | The parser comes to its end state if and only if the text is such a message, with readable numbers, no quote in a tag or string, and no empty group; the nodes are then those laid out for its fields. |
| JsonSpaces.AcceptedIff | connection/json.cpp:472-556 | A text is accepted if and only if it is such a message or the beginning of one. |
| JsonTexts.BeginningAccepted | connection/json.cpp:472-556 | Every beginning of an accepted text is accepted. |
| JsonTexts.WholeIffAtEnd | connection/json.cpp:472-556 | Of the beginnings of a printed message all are accepted, and in the whole one only has the parser come to its end state. |
| JsonTexts.LastBraceAddsNothing | connection/json.cpp:534-542 | Without its last brace a message is read into the same nodes. |
| JsonTexts.StepIsSensible | connection/json.cpp:474-552 | Every character keeps it so that no tag and no text has a quote in it, and that what is typed as a number reads as one of that type. |
| JsonTexts.UnderstoodIsReadable | connection/json.cpp:464-562 | Whatever a text is and wherever it ends, fields can be read out of it only if no tag and no string of them has a quote in it, their numbers are plain digits, and no group is empty. |
| JsonTexts.UnderstoodIffReadable | connection/json.cpp:143-149 | A printed message of any fields is understood if and only if they are of that kind. |
| JsonTexts.QuotedStringIsMisread | connection/json.cpp:143-149 | A message of one field, whose string has quotes in it, is the text of a message of two, and understood as that. |
| JsonImport.RoundTrip | connection/json.cpp:464-562 | The tree read back is the message, with types INTEGER, REAL, STRING and LIST recovered. |
| JsonImport.LookupIsExact | connection/json.cpp:565-580 | With distinct tags, a tag of the message gives exactly its text at any depth, and any other tag is missing. |
| JsonImport.ImportYieldsExported | connection/json.cpp:160-217 | Importing a tag with room enough replaces the caller's value by the text exported under that tag. |
| JsonImport.ImportAnswers | connection/json.cpp:160-217 | Importing a tag of the message: without a value it is only looked for; without room the value is compared with the text, and else it is replaced if and only if the text and its terminator fit. |
| JsonImport.ImportOfOther | connection/json.cpp:160-217 | A tag that is not in the message is answered 0 and no tag at all 1, and neither changes the value. |
| Transport.LimitKeptIff | connection/transport.cpp:153-170 | A piece that is accepted leaves the message within the limit if and only if delimiter and piece fit together. |
| Transport.LimitCanBePassed | connection/transport.cpp:153-170 | A piece that fits, after a delimiter that fits, is accepted though the two do not fit together, and takes the message past the limit; after that the room is no bound any more, and neither is the buffer. |
| Transport.BraceAsksForTwo | connection/json.cpp:118-134 | A brace without a tag is one character, appended after its delimiter if and only if two characters are free and the delimiter fits. |
| Transport.Transport.MessageAppend | connection/transport.cpp:142-171 | The piece, after a delimiter unless it is the first field, is appended, or the message is left as it was and -1 answered. |
| Connection.Exchange.ExchangeComplete | connection/connection.cpp:345-359 | The id and the last brace are exported, whatever either is answered. |
| Connection.Exchange.ExchangeSchema | connection/connection.cpp:388-403 | Every item of the cache is exported with a room of 256, whatever the ones before it were answered; the count of items is returned. |
| Connection.Exchange.ExchangeData | connection/connection.cpp:404-416 | Every item is exported with a room of 1024, whatever the ones before it were answered; the answer is always 1. |
| Connection.Exchange.ClientInitiated | connection/connection.cpp:863-1079 | The steps are taken in order up to the first that fails; the answer is 1 for a completed message taken whole by the network, and 0 for everything else, failures included. |
| Sending.FlagsChangeNothing | connection/connection.cpp:878-890 | The flags among the steps, critical and continue, change neither text, stage nor sequence number. |
| Sending.HandshakeIsSent | connection/json.cpp:248-259 | The steps of the handshake, critical flag first, send the method and a group of application, version and model name. |
| Sending.ValueText | connection/json.cpp:136-149 | The text a value adds, character by character: a delimiter after an earlier field, the tag in quotes, and the value, in quotes if it is a string and without if it is a number. |
| Sending.GroupTexts | connection/connection.cpp:418-427 | The text of a message's beginning and of a group's opening and closing, character by character. |
| Sending.ListText | connection/connection.cpp:388-416 | The text that a schema or data list adds is that of exactly the items that fit where they start, whatever the size of the message. |
| Sending.AllKeptIff | connection/connection.cpp:388-416 | All items of a list are sent if and only if each fits where it starts. |
| Sending.PiecesText | connection/connection.cpp:362-427 | Steps go on if and only if every single value and group fits where it starts; the text added is then that of the fields sent, with a delimiter before every field but the first of its group. |
| Sending.CompletedText | connection/connection.cpp:320-359 | Whatever flags are among its steps and whatever follows them, a message of any size is completed if and only if its steps go on; its text is exactly that of its fields but for refused items, with the id and the last brace if they fit. |
| Delivery.IdFitsIff | connection/connection.cpp:379-387 | Within the limit the id is accepted if and only if it starts within the first 476 characters. |
| Delivery.ItemFitsIff | connection/connection.cpp:388-416 | Within the limit a short item of a schema is accepted if and only if it starts within the first 1244 characters, and one of the data within the first 476. |
| Delivery.DecimalReads | connection/connection.cpp:379-387 | The printed id, read as a decimal number, is the sequence number, and has no leading zero. |
| Delivery.PiecesSentIff | connection/connection.cpp:362-427 | No step fails and no item is left out if and only if every value, items included, and every group fits where it starts. |
| Delivery.PiecesRoomyIff | connection/json.cpp:118-150 | For text that ends below the limit, that is so if and only if every value finds, where it starts, the room it asks for. |
| Delivery.DeliveredIff | connection/connection.cpp:863-1079 | For messages of any size, with any tags, values, lists and flags: the sender completes, and the receiver understands, the message with its id if and only if everything fits where it starts, no tag and no string has a quote in it, numbers are plain digits, and no group is empty. |
| Delivery.FitsWithinLimit | connection/json.cpp:118-150 | Below the limit everything fits if and only if every value finds the room it asks for and the id starts within 476 characters. |
| Delivery.RefusedItemIsLeftOut | connection/connection.cpp:404-416 | After the method and an item of the data with 450 characters or more, the next item and the id are refused; the message is completed, and understood as one without them. |
| Delivery.IdMeansAll | connection/connection.cpp:388-416 | Within the limit, with items printed in up to 1024 characters: a message that has its id has all its items, and one that lacks an item lacks its id. |
| Limit.PiecesWithinIff | connection/transport.cpp:142-171 | Steps that go on stay within the limit if and only if every value, item and opening that is accepted fits together with its delimiter where it starts. |
| Limit.MessageWithinIff | connection/transport.cpp:142-171 | So does a completed message with its id and last brace; it outgrows its buffer only if that is not so. |
| Limit.OvershootOutgrows | connection/transport.cpp:153-170 | A value that fits, but not together with its delimiter, takes a message past its limit by one or two characters; then a value is accepted with which it outgrows its buffer. |
| Delivery.ImportedIsCarried | connection/json.cpp:160-217 | From sender to importer, for messages of any size whose text is readable: every tag in the text, at any depth, is imported with the text sent under it; other tags are missing, those of refused items, whatever is in them, and of a refused id included. |
| Inbox.InboxConserved | comm/network_interface.cpp:261-288 | Messages delivered and messages left are together the messages there were, each once. |
| Inbox.DueIff | comm/network_interface.cpp:274-288 | Delivered are exactly the messages whose arrival time is not after the time of the call; the others stay. |
| Inbox.PuntedInOrder | comm/network_interface.cpp:250-272 | Those that stay keep their order. |
| Inbox.NextIsLater | comm/network_interface.cpp:237-248 | Where messages end when they arrive, as a commit sets them, the event announced is after the call, nothing is due before it, and there is none when nothing stays. |
| Inbox.HandleAll | comm/network_interface.cpp:237-288 | Handled at once and then at every event announced, an inbox is emptied, and each message is delivered exactly once: at once if its time had come, and else exactly at its time. |
| Inbox.DeeperIsEarlier | comm/network_interface.cpp:250-265 | Of two ready messages the deeper in the stack is delivered earlier. |
| Inbox.PropertyHoldsNearestTop | comm/network_interface.cpp:274-284 | Afterwards the interface's buffer and the parent's property start with the ready payload nearest the top. |
| Inbox.RestUnchanged | comm/network_interface.cpp:274-284 | Past the longest payload delivered, buffer and property are unchanged. |
| Inbox.Interface.HandleFrom | comm/network_interface.cpp:250-288 | The recursion on the heap delivers the ready messages deepest first, leaves the others linked in their order, and frees each delivered one but the top exactly once. |
| Inbox.Interface.HandleInbox | comm/network_interface.cpp:237-248 | The whole call: besides, no freed message is still linked, and the least end time left is returned. |
| Clock.SettlesIff | connection/init.cpp:97-109 | For monotone callbacks the negotiation ends if and only if some time not after the proposal is accepted by all. |
| Clock.ClockUpdate | connection/init.cpp:88-111 | It then returns the latest such time. |
| Clock.ClockUpdateTwice | connection/init.cpp:77-111 | Two negotiations over the same callbacks come to the same time, in whatever order, and however often, they were registered. |
| Federation.Federate.constructor | connection/helics_msg.cpp:709-718 | A federate starts with the global clock as its last grant and its first publishing time one period later; JSON messages have a period of 3 unless one is given. |
| Federation.Federate.ClkUpdate | connection/helics_msg.cpp:844-910 | Exactly what a call does, for any answer of the broker: whether it asks, for which time, whether it publishes, that it takes any time after the global clock, and that it records no grant when it answers TS_INVALID. |
| Federation.Federate.PublishIfDue | connection/helics_msg.cpp:865-888 | It publishes at its publishing time, or with no period whenever it asks; JSON messages not at the stop time or later. The publishing times are one period apart. |
| Federation.Negotiate | connection/init.cpp:88-111 | With federates that remember grants and a broker that may grant any time the negotiation ends, at TS_INVALID or a time after the clock; but for the stop time, no federate has been granted less than that. Each federate is asked at most once, and for a time after its last grant exactly when there is room for that; at the stop time none is asked. |
| Federation.Simulate | connection/helics_msg.cpp:856-907 | Over any run of negotiations with proposals up to the stop time, and any broker, every request of a federate is after the last time granted to it, and every grant after the global clock. One whose publishing time is not after its last grant publishes no more, if the broker never goes back. |
| Federation.RisingIff | connection/helics_msg.cpp:901-907 | Over such a run all grants rise, and no federate is asked for a time at or before one granted to it, if and only if the broker never goes back. |
| Federation.AnyAnswerRisesIff | connection/helics_msg.cpp:901-907 | Whatever the broker answers keeps the grants of a federate rising if and only if the global clock has come to the last one when it asks. |
| Federation.GrantFalls | connection/helics_msg.cpp:901-907 | A run in which a grant after the clock and not after the request goes back behind an earlier one, and the next request is for a time before one already granted. |
| Transfer.AllottedIsGreedy | comm/network.cpp:251-315 | One message gets the least of interface rate, bytes left and bandwidth left, and is marked rejected if and only if the bandwidth is zero and none of it was sent; nothing else of it changes. |
| Transfer.NeverRejects | comm/network.cpp:101-104 | With a positive bandwidth, which initialization demands, every message of an outbox is marked as being sent. |
| Transfer.GreedyFills | comm/network.cpp:244-323 | The reference fill gives out all the bandwidth or meets every demand. |
| Transfer.AllotmentIsGreedy | comm/network.cpp:244-323 | The nested loops over interfaces and messages are one greedy fill: the total is the sum of the rates, and the least of the bandwidth and of all that is asked for. |
| Transfer.CountingKeepsAccount | comm/network.cpp:184-195 | Counting bytes at any moment up to the announced event keeps 0 <= sent = received <= size, and sent does not fall. |
| Transfer.LookInTime | comm/network.cpp:388-401 | The event predicted for a message comes before its rate would send more than it has left. |
| Transfer.LookIsLatest | comm/network.cpp:388-401 | It is the last whole second before that; a message that gets no bandwidth is not waited for. |
| Network.EventHasReason | comm/network.cpp:357-405 | A commit announces an event only for a message that arrives then, or that is under way and would run over one second later. |
| Transfer.StayingInAccount | comm/network.cpp:357-405 | In the accounts, what is not complete stays good until the next event, and what is complete has been sent and received whole. |
| Network.Network.CountBytes | comm/network.cpp:184-195 | The loops over outboxes bring every counter up to now. |
| Network.Network.Allocate | comm/network.cpp:244-323 | The loops over interfaces and messages give the rates of the greedy fill, and `bandwidth_used` is its total. |
| Network.Network.Commit | comm/network.cpp:170-422 | The accounts over a run: called no later than the event it last announced, a commit keeps every message in account, takes the complete ones out of the accounts, to arrive after the latency in whole seconds, as few as are enough, and announces the next event, never in the past. |
| Progress.BytesBetweenCommits | comm/network.cpp:184-195 | Between two commits, whatever is sent to the outboxes, the bytes sent and received rise by exactly the bandwidth, or what all messages at the first commit could use, whichever is less, times the time elapsed. |
| Progress.SendAlone | comm/network.cpp:170-422 | A message alone, with commits at the announced events, is complete after its size over the lesser of interface rate and bandwidth, rounded up, in at most three commits, and arrives when the latency, rounded up, has passed too. |
| Network.OlderFinishesUnderNewer | comm/network.cpp:184-195 | A run in which, at a commit, a message that is complete lies under one that is not, and at the next event, before the complete one arrives, still does: two messages sent two seconds apart, with bandwidth enough. |
| Splice.MoveToInbox | comm/network.cpp:363-386 | Moving one message, exactly, for any links: it is unlinked from where `prev` says or from the top of the outbox, and put on top of its inbox. |
| Splice.MovedIff | comm/network.cpp:357-405 | An outbox from which complete messages were moved links exactly the incomplete ones if and only if no complete one lay under an incomplete one. |
| Splice.EmptyOutbox | comm/network.cpp:357-405 | The loop over the linked messages of one outbox: each inbox is a stack again with its complete messages on top, each once; of the outbox only the links of complete messages change. |
| Splice.EmptyOutboxes | comm/network.cpp:357-406 | The loops over all outboxes, which were never linked back: every inbox is a stack of all complete messages addressed to it on top of what was in it, and each outbox links exactly its incomplete messages if and only if no complete one lay under an incomplete one. |
| Splice.CompleteIsLinked | comm/network.cpp:357-386 | If one did, whoever follows the links of the outbox comes to a complete message. |
| LinkedNetwork.RemainingShows | comm/network.cpp:357-405 | Messages that show the accounts of an outbox still show them when the complete ones are taken out of both. |
| LinkedNetwork.CommitLinked | comm/network.cpp:170-422 | A commit of the accounts together with the loops over the links, in order before: the links show the accounts again if no complete message lay under an incomplete one; if one did, they show them in no way. |
| LinkedNetwork.SendLinked | comm/network_interface.cpp:213-231 | A new message is put on top of the linked outbox and of its account, and the links stay in order. |
| LinkedNetwork.RunLinked | comm/network.cpp:170-422 | Over any run of new messages and commits in time the accounts are those of its events, one after another; the links show them at the end if and only if, in the accounts, every commit finds no complete message under an incomplete one. |
| Stale.CommitAgain | comm/network.cpp:357-386 | A commit that comes to a complete message, on top of its inbox, under a newer one: it ends linked to itself if and only if the newer one has not just been put on the same inbox. |
| Stale.OlderIsLinkedToItself | comm/network.cpp:357-386 | A run with two commits and the handling of the inbox between them, on the linked messages, at the end of which the older is linked to itself. |

## Left out

- Integer widths of positions, counts, indices and times: unbounded here, except the room of a message, which is computed unsigned as in the source.
- Fixed buffers of the JSON code (tag 32, string 1024, output and print buffers 1024 and 2048 characters): strings are unbounded; the limit of 1500 and the rooms callers declare are modelled.
- Number conversion (`atof`, `atoi64`, printing of reals): numbers are texts; the union of value and list in a node is two fields.
- Floating-point rounding: rates, cuts and cell values are reals.
- JsonParser.JsonList.Delete: heap nodes are not released; a node that is deleted is not alive, and must not be read or deleted again.
- CloudFill.Noise.Displaced: the size of a random displacement; a draw is any value.
- CloudTiles.ClearPattern: shows one grid cleared; the source clears three of one size.
- CloudShift.ShiftPattern: rebuilding of edges before a shift, and the wind that gives the shift.
- CloudCut.Normalize: a pattern whose filled cells are all equal, for which the source divides by zero.
- CloudCut.ConvertToBinary: needs a proper range and a good cut below its top, as the loop does.
- Cloud fuzzification, edge trimming, wind and solar geometry: floating transcendental functions.
- Network.Network.Commit: reject mode only. The bandwidth wish (lines 201-219) is never used, and the unloading of buffers (lines 326-350) does nothing while nothing is buffered.
- Network.Network.Deliver: keeps the outboxes as sequences; the links are in `Splice` and `LinkedNetwork`, with the sizes and bytes received of a message.
- LinkedNetwork.RunLinked: ends at the commit that leaves the links out of order; what a later commit does then is followed for two messages in one outbox (`Stale.CommitAgain`). The inboxes are not drained in between.
- Queue mode, in which nothing bounds the buffer used by the buffer size.
- Inbox.Interface.HandleInbox: the parent's property is taken to be as wide as a message (1024).
- Federation.Federate.ClkUpdate: the HELICS library is any answer, and publishing may fail at any time; the contents of what is published, and the time period set on leaving delta mode, are not modelled.
- Connection.Exchange.ClientInitiated: the client's sending copy only, with a list of typed calls for the variadic arguments; a cache is the list of its items.
- JsonRoundTrip.AcceptedIffReadable: only for tags and strings without quotes; with quotes a text may be accepted as that of other fields.
- Delivery.ImportedIsCarried: the rewriting of a sender's real by its printed value.
- Transport.Transport.MessageOpen: the position -1 of a transport no message was opened on yet is an empty text.
- The configuration-file reader, sockets, HTTP and XML, FNCS and MPI, the cache, the merging of update modes, registration, locking and messages to the user.
