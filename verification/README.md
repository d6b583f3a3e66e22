# SECS/GEM communication: a verified model

This project models the parts of a SECS-II / HSMS / GEM library in which several functions have to agree with each
other, and proves what they promise.

- **Item trees and ellipses** (`Names`, `Items`, `Ellipsis`, `Turns`, `FillState`, `Numbering`, `Freshness`,
  `Clashes`, `Building`, `Replicas`, `Filling`, `FillVariables`). A list may hold an ellipsis, which repeats the items
  before it when a count is filled in. `Ellipsis.Expand` says recursively what filling in means.
  `FillState.FillEllipsis` is the loop as it runs, with a counter that is reset and a state object shared by all
  levels; it is proved to compute the recursive expansion, and the expansion is proved to use fresh names. `Replicas`
  and `Filling.FilledIff` say, position by position and without either, what stands where in the result. A name is a
  base and a sequence of indices; `None` stands for a panic of a factory.
- **The wire codec** (`Bytes`, `Encoding`, `Decoding`, `RoundTrip`, `Reparse`, `Grammar`, `Parser`, `Messages`,
  `Overhang`, `Framing`). Encoder, decoder and framed reader, each as loops or an object with a position or a buffer,
  and as functions on byte sequences. The decoder is modelled over the whole memory behind its input (`buf`) and the
  length of the input in it (`n`), since it indexes the one and slices the other. The parameter `widened` chooses
  between the code as written and the code as meant; see below. `Grammar` lays the format down as a relation of its
  own, with its codes and byte orders; the encoder writes its strict spellings, and the decoder accepts its spellings
  and nothing else.
- **Sessions** (`Session`, `Delivery`, `Answers`, `Protocol`). Two endpoints over FIFO streams; every interleaving of
  receive loops, handlers, application threads, timeouts, loss and reconnection is a run. Sending an answer and
  changing state are separate steps.
- **Transactions** (`Transactions`, `Queues`). System ids from a wrapping 32-bit counter, a map from ids to queues.
- **Event reports** (`EventTables`, `Consistency`, `Effects`, `EventHandlers`, `EventMessages`, `EventReports`,
  `Layouts`). The two tables that S2F33 and S2F35 edit, the requests on their way from host to equipment, and event
  reports on their way back; `Layouts` says on the items themselves what is built and what is read.
- **The text form** (`SmlPrinting`, `SmlReading`, `SmlRoundTrip`, `SmlSound`, `SmlExact`, `SmlGrammar`, `SmlStrings`,
  `SmlParser`). Printer and parser of SML on tokens, and the form they agree on as a relation of its own.
- **Close callbacks** (`CloseCallbacks`, `Channels`). The linked list of a session's callbacks and the channel that
  keeps one of them for every key.

`dafny verify dfyconfig.toml` checks all of it.

## Where the code does not keep what it promises

Each of these is proved, with an input that fails and the exact condition under which the code does keep its promise; the
model follows the code.

- The decoder shifts a length byte before widening it, so that only the last of several length bytes counts
  (parser.go:144-147). An item comes back exactly when every length in it is at most 255; with the bytes widened
  first, whatever its lengths (`RoundTrip.BackIffDecodable`, `Messages.MessageBackIffDecodable`;
  `Messages.LongTextLost`).
- The decoder slices beyond the end of its input as long as memory is there. The framed reader reuses its buffer, so
  a short message can be completed with bytes of an earlier one (`Framing.StaleExample`). It has one outcome, whatever
  is left in the buffer, exactly when a walk over its own bytes finds no item that overhangs its end
  (`Overhang.MemoryMattersIff`, `Framing.StaleBytesIff`).
- Filling in an ellipsis can fail on a duplicate although all names are distinct (`FillVariables.SuffixesCollide`): it
  does exactly when two variables clash, which the tree shows before anything is filled in
  (`FillVariables.ExpandedIff`). Trees that start without suffixes never come to that, however often ellipses are
  filled in (`FillVariables.StepsNeverClash`).
- An S2F35 batch that names a report twice for an event is accepted, and deleting the report then leaves one
  occurrence behind, undefined (`Consistency.DanglingReport`, `Consistency.LinkEventsKeepsIff`). The event then leaves
  the report out of its messages, or sends none when no other is defined (`EventReports.DanglingEventSilent`); it leaves
  nothing out exactly when every linked report is defined (`EventReports.EventReported`).
- An S2F33 batch whose report number needs more than 32 bits panics half-way (`EventTables.DefineReportsAtomic`,
  `EventMessages.WideIdentifierPanics`).
- An event with two or more unreadable variables panics, with one it is silently not encoded
  (`EventReports.EventFate`, `EventReports.UnreadableVariables`).
- The check for SELECTED is not tied to a connection: a thread that passes it, and sends after a reconnect, loses its
  message (`Delivery.LosesNothingIff`).
- A request taken up after the session has ended on its receiver is not answered: the answer would be a reject, and
  building one panics (hsms.go:209, 270). Every other request is (`Answers.AlwaysAnswered`, `Answers.TurnEffect`,
  `Answers.UnansweredReached`).
- The counter's own wrap-around check, `(2<<32)-1`, never holds (protocol.go:285-291); ids repeat after 2^32
  (`Transactions.WrapTakesOver`). The map keeps one entry per open transaction exactly as long as none is registered
  under the id of another that is open (`Transactions.OneToOneIff`).
- In text form, a boolean variable named `T` comes back as the value true, and a lone backslash is dropped, both
  without an error (`SmlSound.ReservedReadAsValue`, `SmlSound.BackslashLost`). Messages come back as themselves exactly
  when they hold no bare empty item, no reserved name, no quote and no backslash, and number their ellipses in order
  (`SmlExact.ReadBackIff`).
- A session put into a channel while callbacks of a closed one are still to run is taken out by them exactly when its
  key is one that these callbacks name; before the first of them has run, those are the keys the closed one held
  (`Channels.Channel.ReplaceWhileClosing`, `Channels.Channel.CallbacksNameHeld`).

## Model

| member | source | states |
|---|---|---|
| Ellipsis.ExpandSeqAt | lib-secs2-hsms-go/pkg/ast/list.go:373-402 | position by position, an unrepeated item stands in its place, renamed under the enclosing path and numbered after the ellipses before it |
| Ellipsis.CopyAt | lib-secs2-hsms-go/pkg/ast/list.go:356-371 | copy c of what a filled ellipsis repeats stands as a block behind the c copies before it, with index c added to its path |
| Ellipsis.ExpandListSize | lib-secs2-hsms-go/pkg/ast/list.go:336-406 | the size of an expanded list: p * (n + 1) + (size - p - 1) for an ellipsis at position p filled with n, the old size without one |
| FillState.State.GrowDimension | lib-secs2-hsms-go/pkg/ast/list.go:426-433 | the path grows by a fresh index 0, whatever the reused slot held |
| FillState.State.ExitDimension | lib-secs2-hsms-go/pkg/ast/list.go:435-437 | the innermost index leaves the path, the rest of the state is kept |
| FillState.State.GrowIndex | lib-secs2-hsms-go/pkg/ast/list.go:443-445 | the innermost index goes up by one, all other indices in force are kept |
| FillState.State.NewVariableName | lib-secs2-hsms-go/pkg/ast/list.go:447-462 | the name the expansion gives at this path and count of ellipses; only an ellipsis moves the count |
| FillState.FindEllipsis | lib-secs2-hsms-go/pkg/ast/list.go:338-353 | finds the first ellipsis that has a count, and the count |
| FillState.RenameVariables | lib-secs2-hsms-go/pkg/ast/list.go:389-402 | all variables of an array take their names under the current path; the state stays |
| FillState.FillChild | lib-secs2-hsms-go/pkg/ast/list.go:373-402 | one item of the list becomes its recursive expansion, and the shared state is back where it was |
| FillState.AtEllipsis | lib-secs2-hsms-go/pkg/ast/list.go:358-371 | decides between another repeat and leaving, and what path follows |
| FillState.FillEllipsis | lib-secs2-hsms-go/pkg/ast/list.go:336-406 | the loop with its reset counter and shared state terminates, computes exactly the recursive expansion or fails where a factory panics, restores the path, counts the ellipses left, and never leaves the index slots |
| Turns.TurnAt | lib-secs2-hsms-go/pkg/ast/list.go:356-404 | what the loop appends at repeat c and position i is what the recursive expansion holds at that place |
| Turns.TurnEnd | lib-secs2-hsms-go/pkg/ast/list.go:356-406 | when the loop is done it has produced the whole expansion, with path and count as after the list |
| Replicas.ExpandCopies | lib-secs2-hsms-go/pkg/ast/list.go:336-462 | position by position, an expanded item is the item itself: the same texts, kinds, literals, length bounds and order at every level, with its variables under the indices in force |
| Replicas.TurnsCopied | lib-secs2-hsms-go/pkg/ast/list.go:356-371 | what stands before a filled ellipsis stands there n + 1 times: position j holds item j % p of copy j / p, whose number is its last index |
| Freshness.ExpandSpans | lib-secs2-hsms-go/pkg/ast/list.go:336-462 | the names of an expansion are those of all copies of all variables, each once, and are distinct exactly when no two variables have copies of one name |
| Freshness.SpansCopy | lib-secs2-hsms-go/pkg/ast/list.go:356-371 | one copy more adds the names with its index, and a duplicate exactly when two variables can meet in a name |
| Freshness.ExpandDistinctIff | lib-secs2-hsms-go/pkg/ast/list.go:447-462 | with ellipses included, the names of an expansion are distinct exactly under that condition |
| Clashes.ApartIffNoClash | lib-secs2-hsms-go/pkg/ast/list.go:447-462 | that condition can be read off the tree: same base, same number of indices, and indices both can have at every position |
| Clashes.PrefixFreeNoClash | lib-secs2-hsms-go/pkg/ast/list.go:447-462 | names of which none begins another do not clash, whatever is filled in |
| Clashes.ExpandPrefixFree | lib-secs2-hsms-go/pkg/ast/list.go:447-462 | and the names of the expansion are of that kind again |
| Building.RepIffExpandable | lib-secs2-hsms-go/pkg/ast/list.go:64-95 | all list factories on the way accept the expansion exactly when no list holds a bare empty item, all sizes fit and no two variables have copies of one name |
| Numbering.ExpandNumbered | lib-secs2-hsms-go/pkg/ast/list.go:447-457 | the ellipses left in an expansion are numbered consecutively in order of appearance |
| FillVariables.EmittedAtMostRemaining | lib-secs2-hsms-go/pkg/ast/list.go:307-331 | the analysis never counts fewer remaining ellipses than the expansion leaves |
| FillVariables.EstimateExactIff | lib-secs2-hsms-go/pkg/ast/list.go:307-331 | it counts exactly the ellipses left if and only if no open ellipsis stands behind one that is filled in with more than 0 |
| FillVariables.ToFillIff | lib-secs2-hsms-go/pkg/ast/list.go:307-331 | it finds something to fill in exactly when some list, at whatever depth, holds an ellipsis with a count |
| FillVariables.ExpandedIff | lib-secs2-hsms-go/pkg/ast/list.go:307-462 | filling succeeds exactly when no list holds a bare empty item, all sizes fit and no two variables clash; the result has distinct names, numbered ellipses, and a short ellipsis name only when it is the only one |
| FillVariables.NeverClashes | lib-secs2-hsms-go/pkg/ast/list.go:336-462 | on names of which none begins another, filling never fails on a duplicate, and its result is such a tree again |
| Filling.FilledIff | lib-secs2-hsms-go/pkg/ast/uint.go:107-131 | filling yields exactly those items that pass their factories and have every value in its place: the number given, modulo 2^64 if unsigned, 1 or 0 for a flag, the text within its bounds, the very item for a list variable, and all else unchanged |
| Filling.BoundsMeetable | lib-secs2-hsms-go/pkg/ast/ascii.go:217-245 | an ASCII variable is accepted exactly when some length meets its bounds |
| Filling.FillIffSuits | lib-secs2-hsms-go/pkg/ast/list.go:120-144 | filling in plain values succeeds exactly when every number is in range, every flag is for a boolean, every text is ASCII and within bounds and size, and every list variable gets an item: no factory on the way has anything else to refuse |
| FillVariables.StepsNeverClash | lib-secs2-hsms-go/pkg/ast/list.go:120-144 | from distinct names without suffixes, in any sequence of fillings of ellipses and other variables, each fails only where an ellipsis does not fit or a value does not suit, never on a duplicate |
| FillVariables.SuffixesCollide | lib-secs2-hsms-go/pkg/ast/list.go:447-462 | a well-formed tree within all limits whose filling fails, because x[0] clashes with a copy of x |
| FillVariables.Fill | lib-secs2-hsms-go/pkg/ast/list.go:120-144 | filling a list is expanding its ellipses, when there are any to fill, and then filling the other variables |
| FillVariables.FilledWhole | lib-secs2-hsms-go/pkg/ast/list.go:120-144 | the result is the list with its items repeated as their counts say and, position by position, every other value in its place |
| Filling.FillRemains | lib-secs2-hsms-go/pkg/ast/int.go:113-137 | after filling, the remaining variables are the original ones in order without exactly the filled names |
| Filling.FillTwice | lib-secs2-hsms-go/pkg/ast/list.go:120-144 | filling with two disjoint sets of plain values one after the other is filling with their union, failures included |
| Filling.FillEitherOrder | lib-secs2-hsms-go/pkg/ast/list.go:120-144 | the order of two fillings does not matter |
| Filling.FillNothing | lib-secs2-hsms-go/pkg/ast/int.go:113-116 | values for no variable of the item leave it as it is |
| Bytes.ValueOfBigEndian | lib-secs2-hsms-go/pkg/ast/int.go:148-155 | reading the big-endian bytes of a number gives the number back if it fits |
| Bytes.SignedRoundTrip | lib-secs2-hsms-go/pkg/ast/int.go:140-158 | a signed value of 1, 2, 4 or 8 bytes survives two's complement, truncation and sign extension |
| Bytes.FromBitsFits | lib-secs2-hsms-go/pkg/parser/hsms/parser.go:239-263 | any bytes read as a signed integer of their width are within its range |
| Encoding.LengthBytesValue | lib-secs2-hsms-go/pkg/ast/interface.go:174-215 | the minimal length bytes spell the length, up to 2^24 - 1 |
| Encoding.EncodedIffComplete | lib-secs2-hsms-go/pkg/ast/list.go:147-167 | an item has no bytes exactly when it has variables, or is bare and empty, at any depth |
| Encoding.EncodedLength | lib-secs2-hsms-go/pkg/ast/interface.go:174-215 | the length of an encoding: minimal headers and bodies, summed over the tree |
| Encoding.WriteHeader | lib-secs2-hsms-go/pkg/ast/interface.go:174-215 | the format byte, then the three length bytes with the leading zeros stripped, step by step |
| Encoding.WriteCells | lib-secs2-hsms-go/pkg/ast/uint.go:134-151 | the nested loops over values and bytes write every value big-endian in its width, in order |
| Encoding.ToBytes | lib-secs2-hsms-go/pkg/ast/ascii.go:148-163 | the recursive encoder with its early exits produces the encoding of the tree |
| Encoding.WriteItems | lib-secs2-hsms-go/pkg/ast/list.go:147-167 | children are appended in order; one that has no bytes empties the whole result |
| Grammar.EncodedIff | lib-secs2-hsms-go/pkg/ast/interface.go:174-215 | the bytes of an item are its one strict spelling: format code and number of length bytes, minimal length, and body, with the codes and byte orders of every type written out |
| Decoding.LengthOfFew | lib-secs2-hsms-go/pkg/parser/hsms/parser.go:144-147 | the sum over length bytes is their number when widened, and only the last byte as written |
| Decoding.DecodedCount | lib-secs2-hsms-go/pkg/parser/hsms/parser.go:239-286 | a body of whole values yields exactly as many values as fit |
| RoundTrip.DecodeEncodedCells | lib-secs2-hsms-go/pkg/parser/hsms/parser.go:239-286 | every array of values of any type comes back from its bytes |
| RoundTrip.DecodeEncoded | lib-secs2-hsms-go/pkg/parser/hsms/parser.go:130-216 | inside any bytes, decoding an encoding gives the tree back and moves on by exactly its length, when all its lengths are decodable |
| RoundTrip.BackOnlyIfDecodable | lib-secs2-hsms-go/pkg/parser/hsms/parser.go:144-147 | an item with any other length does not come back as itself |
| RoundTrip.BackIffDecodable | lib-secs2-hsms-go/pkg/parser/hsms/parser.go:130-216 | both directions: as written, exactly the items with all lengths up to 255 come back; widened, all of them |
| Reparse.ParsedSound | lib-secs2-hsms-go/pkg/parser/hsms/parser.go:130-216 | whatever bytes were accepted, the item passes its factories, has no variables, has decodable lengths and no longer an encoding than what was consumed |
| Reparse.SoundEncodes | lib-secs2-hsms-go/pkg/ast/list.go:147-167 | every item of that kind has an encoding, of the summed minimal length |
| Grammar.ParsedIff | lib-secs2-hsms-go/pkg/parser/hsms/parser.go:130-286 | an item is decoded from its spellings and from nothing else: every accepted byte sequence has the code of its type, a length that counts its body, and body bytes that stand for its values; any other code is refused |
| Grammar.Reach | lib-secs2-hsms-go/pkg/parser/hsms/parser.go:130-286 | an item must start inside the input and one-byte integers must lie inside it, all other bytes need only be in memory |
| Reparse.ParseInside | lib-secs2-hsms-go/pkg/parser/hsms/parser.go:130-286 | parsing an input without the memory behind it is parsing it with it, except that running past the end is refused |
| Parser.MessageParser.ParseLength | lib-secs2-hsms-go/pkg/parser/hsms/parser.go:139-148 | the loop moves over the length bytes and sums them up as shifted |
| Parser.MessageParser.ParseValues | lib-secs2-hsms-go/pkg/parser/hsms/parser.go:239-286 | the loop over values reads what the function on bytes says, moving on only on success |
| Parser.MessageParser.ParseMessageText | lib-secs2-hsms-go/pkg/parser/hsms/parser.go:130-148 | the object with its moving position computes the parse of the text, and terminates |
| Parser.MessageParser.ParseItemBody | lib-secs2-hsms-go/pkg/parser/hsms/parser.go:149-216 | dispatch on the format code, with every refusal and panic as a failure |
| Parser.MessageParser.ParseListItems | lib-secs2-hsms-go/pkg/parser/hsms/parser.go:150-162 | as many children as the list claims, in order, or a failure |
| Messages.Parse | lib-secs2-hsms-go/pkg/parser/hsms/parser.go:52-126 | the parser object's run over length, header and text is the function on bytes |
| Messages.LengthField | lib-secs2-hsms-go/pkg/ast/ast.go:379-411 | the length field equals the total byte count minus four, for data and control messages |
| Messages.SentHeader | lib-secs2-hsms-go/pkg/ast/ast.go:379-411 | which messages are sent, and byte by byte what their header says: session id high and low, stream with the wait bit on top, function, two zeros, system bytes, then the item |
| Messages.AcceptedIff | lib-secs2-hsms-go/pkg/parser/hsms/parser.go:52-126 | an input is accepted as a message exactly when length field, header bytes and item are that message's; control types 1 to 7 and 9 only, no wait bit on an even function |
| Messages.MessageBackIffDecodable | lib-secs2-hsms-go/pkg/parser/hsms/parser.go:52-126 | a sent message is parsed as itself, up to name and direction, exactly when its lengths are decodable or its control type is defined, whatever lies in memory behind it |
| Messages.ParsedAgain | lib-secs2-hsms-go/pkg/ast/ast.go:379-411 | any accepted input, with non-minimal lengths, odd booleans or trailing bytes, encodes to bytes that parse as the same message, exactly when the length field can hold its length, as it always can within 4 GiB |
| Messages.MemoryMattersIffRunsPast | lib-secs2-hsms-go/pkg/parser/hsms/parser.go:130-286 | parsing an input on its own is parsing it in memory, except that a parse that ran past the input is refused |
| Messages.RunsPastExample | lib-secs2-hsms-go/pkg/parser/hsms/parser.go:163-172 | a concrete message completed with two bytes that are not part of it |
| Messages.LongTextLost | lib-secs2-hsms-go/pkg/parser/hsms/parser.go:144-147 | a text of 256 characters comes back empty |
| Overhang.CellsOkIff | lib-secs2-hsms-go/pkg/ast/float.go:202-218 | the values in a body are accepted exactly when none has the exponent of an infinity or a NaN, read off its first two bytes |
| Overhang.ItemForetold | lib-secs2-hsms-go/pkg/parser/hsms/parser.go:130-286 | the walk over a frame's own bytes foretells the parse in any memory: where an item ends inside, that it is refused whatever follows, or that it can only end behind the frame and does so when zeros follow |
| Overhang.MemoryMattersIff | lib-secs2-hsms-go/pkg/parser/hsms/parser.go:52-286 | a frame has one outcome, whatever lies in memory behind it, exactly when the walk finds no overhang |
| Framing.ByteStream.ReadFull | codec/secs2.go:43-46 | fills the range from the stream, consumes just those bytes and leaves the rest of the buffer alone |
| Framing.SecsIICodec.Receive | codec/secs2.go:43-73 | one call, with its buffer grown or reused, does to stream, result and buffer what the step on byte sequences says |
| Framing.FrameTaken | codec/secs2.go:43-73 | a whole frame is parsed in front of what a longer buffer still holds behind it, and exactly its bytes are consumed |
| Framing.NoFrame | codec/secs2.go:43-66 | a stream that ends early is used up with a read error; a length below 10 is refused with only the length bytes consumed |
| Framing.ReceiveEncoded | codec/secs2.go:43-73 | a frame that was sent is received as itself and exactly its bytes are consumed, whatever the buffer held |
| Framing.ReceiveAllEncoded | codec/secs2.go:43-73 | a stream of encoded messages comes out message by message, in order, and nothing behind it is touched |
| Framing.StaleBytesIff | codec/secs2.go:51-66 | a complete frame is received alike whatever earlier frames left in the buffer exactly when the walk over its own bytes finds no overhang |
| Framing.StaleExample | codec/secs2.go:43-73 | a stream of two frames in which the second is accepted with the last two letters of the first, and refused on its own |
| Session.SelectedSessionsAgree | hsms/protocol.go:499-538 | in every run, when both sides are SELECTED on a connection, their session ids agree or the active side uses the wildcard, across mismatch, adoption, denial and reconnection |
| Delivery.NothingLost | hsms/protocol.go:828-903 | in every run without disruption: nothing is lost, each side has taken up exactly what the other sent but for what is in flight, in order, and the next data message finds its receiver SELECTED |
| Delivery.LateSendLost | hsms/protocol.go:895-923 | from any new connection with a thread carried over on either side, a run without disruption that loses its message |
| Delivery.LosesNothingIff | hsms/protocol.go:895-923 | a new connection loses no message before its first disruption, in any run, exactly when no thread that passed the check is carried over to it |
| Delivery.CarriedOver | hsms/protocol.go:895-923 | such a loss is reached in a run from the start |
| Answers.AlwaysAnswered | hsms/protocol.go:485-603 | in every run, on every connection and for both sides: the select, deselect and linktest requests a side has sent equal those in flight, the answers in flight to it, the answers it took up and those over which its peer panicked |
| Answers.UnansweredReached | hsms/protocol.go:579-585 | a run in which a linktest.req taken up right after T7 expired is not answered and its receiver panics |
| Answers.TurnEffect | hsms/protocol.go:485-603 | every control frame's answer, change of state, session id and disruption, across the turn that takes it up and the change of state that follows: a select.req is accepted for the own id, the wildcard, or adopted when there is none; nothing else moves |
| Answers.DataEffect | hsms/protocol.go:868-890 | a data message goes to a handler of a side that is SELECTED and is dropped otherwise, with all else unchanged |
| Answers.HandlerEffect | hsms/protocol.go:755-778 | a handler sends one response or none, and the receive loop goes on |
| Answers.EventsLead | hsms/connectionStateMachine.go:33-43 | which events lead to which state, and that all others leave it |
| Protocol.ConnectionStateMachine.Event | hsms/connectionStateMachine.go:33-43 | an event moves the state along the table or is refused and changes nothing |
| Protocol.HsmsProtocol.OnConnectionEstablished | hsms/protocol.go:314-320 | the endpoint comes up connected, not selected, with its receive loop waiting |
| Protocol.HsmsProtocol.EnsureReady | hsms/protocol.go:895-903 | true exactly when connected, with a transport session and, if asked for, SELECTED |
| Protocol.HsmsProtocol.HandleSelectReq | hsms/protocol.go:491-538 | frames sent, closing of the connection and endpoint afterwards are those of the two-party model, on acceptance, wildcard, adoption, denial and panic |
| Protocol.HsmsProtocol.HandleHsmsRequests | hsms/protocol.go:485-603 | the same for every control message, with the replies and rejections that go to waiting transactions and what becomes of the transport session |
| Transactions.WaitersGetTheirOwn | hsms/protocol.go:926-968 | in every run a waiter's messages all carry its own id, and with those still queued they are just what was handed to it, in order, none lost or doubled |
| Transactions.ArrivalsLogged | hsms/protocol.go:885-889 | in every run each message that arrives is accounted for once and in order, handed to a transaction or to the handlers |
| Transactions.StepLogged | hsms/protocol.go:885-889 | a message goes to the transaction registered under its system bytes, and to the handlers when there is none |
| Transactions.SameIdIff | hsms/protocol.go:285-291 | two allocations share an id exactly when a multiple of 2^32 lies between them |
| Transactions.SpacedRunOneToOne | hsms/protocol.go:285-312 | with fewer than 2^32 ids handed out during any transaction: live ids are distinct and the map has exactly one entry per open transaction |
| Transactions.OneToOneIff | hsms/protocol.go:285-312 | all through a run the map has exactly one entry per open transaction, exactly when none is registered under the id of one that is open |
| Transactions.ReplyReachesItsWaiter | hsms/protocol.go:885-889 | after every such run, a reply is put into the queue of the open transaction that asked, and changes nothing else |
| Transactions.WrapTakesOver | hsms/protocol.go:293-312 | one turn of the counter later, a second transaction takes the first one's entry, gets its replies, and is left without an entry when the first ends |
| Transactions.WrapIsReached | hsms/protocol.go:285-291 | a run that leads there |
| Queues.Deque.Put | utils/queue.go:20-28 | the item becomes the youngest |
| Queues.Deque.Get | utils/queue.go:30-55 | the oldest item and only it is taken out, or nothing when there is none |
| Queues.TransactionTable.GetNextSystemCounter | hsms/protocol.go:285-291 | the id of the next allocation, wrapping at 32 bits |
| Queues.TransactionTable.CreateQueue | hsms/protocol.go:293-299 | a new empty queue takes the entry under its id, as the table says |
| Queues.TransactionTable.RemoveQueue | hsms/protocol.go:308-312 | exactly the entry under the id goes |
| Queues.TransactionTable.Dispatch | hsms/protocol.go:885-889 | a message goes to the queue registered under its system bytes and to no other, or on to the handlers |
| EventTables.PanicsIff | gem/id_utils.go:59-62 | applying definitions goes through exactly when every id to define fits an item |
| EventTables.DefineReportsAtomic | gem/collection_event_handlers.go:189-228 | the outcome of every batch: code 3 if it defines a defined report, else 4 if it names an unknown variable, else a panic if an id to define fits no item, else acceptance; a refused batch changes nothing |
| EventTables.LinkEventsAtomic | gem/collection_event_handlers.go:265-307 | a link batch is accepted exactly when every entry names a registered event and defined reports not linked to it before the batch; otherwise the first entry that does not, and in it the first report, decide the code, and nothing changes |
| Consistency.DefineReportsKeeps | gem/collection_event_handlers.go:189-238 | definitions and deletions keep both tables consistent |
| Effects.DefineReportsEffect | gem/collection_event_handlers.go:215-238 | after an accepted batch, on any tables a run can leave, every report has what its last entry says, and every link its reports in order, each deletion having taken one occurrence, with its flag kept; an empty batch leaves no report defined and no event linked; events and variables stay |
| Effects.PanicEffect | gem/collection_event_handlers.go:215-228 | a batch that panics leaves just its entries before the first id that fits no item |
| Consistency.LinkEventsKeepsIff | gem/collection_event_handlers.go:265-307 | an accepted link batch keeps the tables consistent exactly when what it leaves standing names no report twice for an event |
| Effects.LinkEventsEffect | gem/collection_event_handlers.go:289-304 | likewise every event is linked to what it was linked to, or to nothing if cleared, followed by what the batch names for it since |
| Effects.KeptCount | gem/collection_events.go:79-86 | of a report linked m times and deleted n times, m - n occurrences stay, or none |
| EventTables.EnableEffect | gem/collection_event_handlers.go:320-339 | of the events named, those up to the first without a link are switched, and nothing else changes |
| EventTables.EnableAllEffect | gem/collection_event_handlers.go:324-329 | naming none switches every link |
| Consistency.RegisterEffect | gem/collection_event_handlers.go:34-54 | registering adds one identifier, unless no item can hold it |
| Effects.AlwaysNoneEmpty | gem/collection_event_handlers.go:189-339 | over every run, repeated pairs and panics included, no report is without variables and no link without reports |
| Consistency.AlwaysConsistent | gem/collection_event_handlers.go:189-339 | over every run of requests and registrations without repeated pairs: linked reports are defined, no link is empty or holds a duplicate, linked events and all variables of reports are registered |
| Consistency.DanglingReport | gem/collection_events.go:79-86 | with a repeated pair, deleting the report leaves it linked and undefined |
| EventHandlers.CollectionEventLink.RemoveReport | gem/collection_events.go:79-86 | the first occurrence goes, the flag and all else stay |
| EventHandlers.GemHandler.RemoveReportUnlocked | gem/collection_event_handlers.go:230-238 | the report's definition goes, and every link forgets it or goes itself, in whatever order the map is walked |
| EventHandlers.GemHandler.DefineReport | gem/collection_event_handlers.go:215-226 | one entry defines, deletes or panics, on the object's tables |
| EventHandlers.GemHandler.HandleReportDefinitions | gem/collection_event_handlers.go:189-228 | two checking passes and one changing pass over shared link objects have the outcome and tables of the function |
| EventHandlers.GemHandler.CheckReports | gem/collection_event_handlers.go:276-286 | the first reason to refuse an entry's reports |
| EventHandlers.GemHandler.LinkEvent | gem/collection_event_handlers.go:289-304 | one entry clears, extends or creates a link and no other |
| EventHandlers.GemHandler.HandleEventReportLinks | gem/collection_event_handlers.go:265-307 | the checking pass and the changing pass have the outcome and tables of the function |
| EventMessages.IdSurvives | gem/id_utils.go:15-96 | exactly the identifiers that fit become items, and the item reads as the same key |
| EventMessages.BuildRequest | gem/status_equipment_messages.go:110-157 | the nested loops of both builders yield the body or stop at the first identifier that is refused or panics |
| EventMessages.ParseRequest | gem/collection_event_handlers.go:390-558 | the nested loops of both parsers read the entries, in either layout, or refuse at the first malformed one |
| Layouts.IdentifierIff | gem/id_utils.go:64-96 | which items are identifiers, with what key; a signed one is kept as an unsigned item of 1, 4 or 8 bytes |
| Layouts.RequestReadIff | gem/collection_event_handlers.go:390-558 | a request is read as just the entries it lays out, in either layout, and as nothing else |
| Layouts.RequestHandled | gem/collection_event_handlers.go:179-263 | it is carried out as the batch of those entries |
| Layouts.MalformedRefused | gem/collection_event_handlers.go:179-263 | an item that lays out no request is refused with code 2 and changes nothing |
| Layouts.RequestBuiltIff | gem/status_equipment_messages.go:110-157 | what is built is just the body that lays out the request, item by item, if it passes its factories |
| Layouts.FirstToFail | gem/id_utils.go:15-62 | the first identifier that is not acceptable decides whether building is refused or panics: an entry's own before its members |
| EventMessages.BuiltBodyReadsBack | gem/status_equipment_messages.go:110-157 | a request is built exactly when its identifiers and sizes fit, is complete, and reads as the same identifiers in the same order |
| EventMessages.BodyDecodable | gem/status_equipment_messages.go:110-157 | its body is decodable exactly when the numbers of entries and members and the lengths of textual identifiers are |
| EventMessages.RequestSendable | gem/status_equipment_messages.go:110-157 | a request that was built makes a complete message, whatever session and system bytes it is sent with |
| EventMessages.RequestReceived | gem/collection_event_handlers.go:390-558 | a request that was sent is received item for item exactly when its own lengths are decodable |
| EventMessages.DefinitionsArrive | gem/collection_event_handlers.go:179-187 | definitions sent by the host change the tables as if the batch had been handed over directly |
| EventMessages.LinksArrive | gem/collection_event_handlers.go:254-263 | so do links |
| EventMessages.WideIdentifierPanics | gem/id_utils.go:59-62 | a definition list with an 8-byte identifier is read, and panics |
| EventReports.CollectReportValues | gem/collection_event_handlers.go:138-166 | one value per variable, in order, empty where it cannot be read |
| EventReports.BuildCollectionEventPayload | gem/collection_event_handlers.go:99-136 | the loop over linked reports with its skips, panics and empty outcomes |
| EventReports.ParseEventReportMessage | gem/collection_event_handlers.go:644-737 | the loops over reports and values read them in order or refuse |
| EventReports.ReportsRead | gem/collection_event_handlers.go:644-737 | the host reads from the report items just the defined reports with their values |
| Layouts.EventReadIff | gem/collection_event_handlers.go:644-737 | a message is read as just the data id, event, reports and values it lays out |
| Layouts.EventBuilt | gem/collection_event_handlers.go:99-166 | a message an event causes lays out the event and, in order, its defined reports, each with what its variables read as: a status variable before a data variable of that name, empty without a value |
| Layouts.WithoutLink | gem/collection_event_handlers.go:99-113 | no message without an enabled link, an error for an event that is not registered |
| EventReports.EventFate | gem/collection_event_handlers.go:99-177 | no message when no linked report is defined; otherwise, by the number of unreadable variables: a complete message that reads as the defined reports, one without bytes, or a panic |
| EventReports.UnreadableVariables | gem/collection_event_handlers.go:138-177 | an event of two variables that has no bytes with one unreadable, and panics with both |
| EventReports.AlwaysItemized | gem/id_utils.go:59-62 | over every run, all defined reports and registered events have items that stand for them |
| EventReports.AlwaysRegistered | gem/collection_event_handlers.go:189-307 | over every run, repeated pairs and panics included, linked events are registered, and so is every variable of every report |
| EventReports.ReportedInOrder | gem/collection_event_handlers.go:115-136 | what is reported is the defined reports in order, each with all its values in order; all linked ones exactly when all are defined, none exactly when none is |
| EventReports.EventReported | gem/collection_event_handlers.go:99-148 | after every run, an enabled event with readable variables causes a message that holds every linked report that is defined, or none when none is; it leaves none out exactly when all are defined |
| EventReports.DanglingEventSilent | gem/collection_event_handlers.go:115-136 | a run after which an enabled, linked event causes no message |
| EventReports.EventArrives | gem/status_equipment_messages.go:178-186 | after every run, such a message is received exactly when its lengths are decodable, and the host reads those reports and values |
| SmlPrinting.PrintText | lib-secs2-hsms-go/pkg/ast/ascii.go:176-210 | the loop with its open-quote flag yields maximal quoted runs and codes between them |
| SmlPrinting.PrintItems | lib-secs2-hsms-go/pkg/ast/list.go:257-273 | children are printed in order; the size is given unless a variable stands among them |
| SmlPrinting.Print | lib-secs2-hsms-go/pkg/ast/list.go:246-279 | the recursive printer yields the tokens of the item |
| SmlRoundTrip.RenumberedItem | lib-secs2-hsms-go/pkg/parser/sml/parser.go:364-376 | expanding with nothing filled in renumbers the ellipses and changes nothing else |
| SmlRoundTrip.TextMeaning | lib-secs2-hsms-go/pkg/ast/ascii.go:166-213 | however a text is split into quoted runs and codes, the parser's reading of them together is the text |
| SmlRoundTrip.ItemBack | lib-secs2-hsms-go/pkg/parser/sml/parser.go:218-391 | a printed item is read back with its ellipses numbered on, its names added to those seen, and the position right behind it |
| SmlRoundTrip.PrintedReadBack | lib-secs2-hsms-go/pkg/parser/sml/parser.go:18-173 | any sequence of printed messages is read back in order and in full, without an error |
| SmlRoundTrip.SameIffInOrder | lib-secs2-hsms-go/pkg/parser/sml/parser.go:364-376 | renumbering changes nothing exactly when the ellipses are numbered in order of appearance already |
| SmlSound.ItemRead | lib-secs2-hsms-go/pkg/parser/sml/parser.go:218-391 | whatever the tokens, an item read without an error passes its factories and its ellipses continue the count |
| SmlSound.AllWellFormed | lib-secs2-hsms-go/pkg/parser/sml/parser.go:18-173 | every error-free input yields messages with distinct names and ellipses numbered in order of appearance |
| SmlExact.MeaningShorter | lib-secs2-hsms-go/pkg/parser/sml/parser.go:421-448 | what the tokens of a text mean is no longer than the text, and as long only when it holds no quote and no backslash |
| SmlExact.ItemOnlyIf | lib-secs2-hsms-go/pkg/parser/sml/parser.go:218-391 | an item read as itself from what it was printed as holds no bare empty item, reserved name, quote or backslash |
| SmlExact.ReadBackIff | lib-secs2-hsms-go/pkg/parser/sml/parser.go:18-173 | any sequence of data messages is read back as itself exactly when no message holds one of those and each numbers its ellipses in order |
| SmlExact.ReadAgainIff | lib-secs2-hsms-go/pkg/parser/sml/parser.go:18-173 | printing what was read from any input and reading it again yields the same messages exactly when they hold none of those |
| SmlGrammar.ReadIff | lib-secs2-hsms-go/pkg/parser/sml/parser.go:218-391 | an item is read from its texts and from no others: with any size that bounds it, its text split and escaped in any way, its names new and its ellipses numbered on |
| SmlGrammar.InputReadIff | lib-secs2-hsms-go/pkg/parser/sml/parser.go:18-173 | an input is read as just the messages it spells out, header, item and full stop each; any other is an error |
| SmlGrammar.PrintedAt | lib-secs2-hsms-go/pkg/ast/list.go:246-279 | a printable item is printed in the strict form: the exact size where there is one, one token per value, maximal runs in quotes |
| SmlGrammar.MessagePrinted | lib-secs2-hsms-go/pkg/ast/ast.go:233-249 | a printable message is printed with stream and function, wait bit, direction and name in that order |
| SmlGrammar.ReservedIff | lib-secs2-hsms-go/pkg/parser/sml/lexer.go:265-277 | the words that are item types or truth values, in upper or lower case |
| SmlGrammar.ReservedPrinted | lib-secs2-hsms-go/pkg/ast/list.go:246-279 | how a variable named by such a word comes out: the word, and a size for each of its indices |
| SmlStrings.StringReadIff | lib-secs2-hsms-go/pkg/parser/sml/parser.go:421-448 | a string is read as what its characters and escape sequences mean, as the empty text when they mean nothing, and not at all when they mean more than ASCII |
| SmlSound.ReservedReadAsValue | lib-secs2-hsms-go/pkg/parser/sml/parser.go:519-551 | a boolean variable with a reserved name is read back as a value |
| SmlSound.BackslashLost | lib-secs2-hsms-go/pkg/parser/sml/parser.go:421-431 | a lone backslash is read back as the empty text |
| SmlParser.Parser.ParseValues | lib-secs2-hsms-go/pkg/parser/sml/parser.go:479-551 | the loop over value tokens, with the set of names it updates, is the function on tokens |
| SmlParser.Parser.ParseASCII | lib-secs2-hsms-go/pkg/parser/sml/parser.go:414-472 | a lone new variable with its length bounds, or the literals put together; any mixture fails |
| SmlParser.Parser.ParseList | lib-secs2-hsms-go/pkg/parser/sml/parser.go:338-391 | the loop over children, variables and ellipses threads names and count through all levels, and terminates |
| SmlParser.Parser.ParseDataItem | lib-secs2-hsms-go/pkg/parser/sml/parser.go:218-296 | one item from bracket to bracket, with size check and every error as a failure |
| SmlParser.Parser.ParseMessage | lib-secs2-hsms-go/pkg/parser/sml/parser.go:117-173 | names and count start afresh for every message |
| SmlParser.Parse | lib-secs2-hsms-go/pkg/parser/sml/parser.go:18-47 | all messages of the input, or none when there is an error |
| CloseCallbacks.Session.AddCloseCallback | session.go:171-187 | the callback is appended behind the last element, unless the session is closed |
| CloseCallbacks.Session.RemoveCloseCallback | session.go:189-211 | the first match is unlinked and the pointers to both ends stay right, unless the session is closed |
| CloseCallbacks.Session.InvokeCloseCallbacks | session.go:213-220 | every callback once, in order |
| CloseCallbacks.RemoveFirstAt | session.go:195-210 | removing the first match is cutting one position out of the sequence |
| CloseCallbacks.CountRemoved | session.go:189-211 | one callback of that handler and key goes, those of every other handler or key stay |
| Channels.Channel.Put | channel.go:44-54 | the key maps to the session, the session it mapped to has lost its callback and this one has gained one; each open session keeps exactly one callback per key it holds and none for other keys |
| Channels.Channel.RemoveSession | channel.go:56-59 | the key is free again, its session has lost exactly that callback |
| Channels.Channel.Remove | channel.go:61-69 | the same for a key that may be missing |
| Channels.Channel.RunCallbacks | channel.go:50-52 | running a session's callbacks removes exactly the keys they name, whatever those map to by then |
| Channels.Channel.CloseSession | session.go:75-99 | a session that is closed leaves the channel, and no other session does |
| Channels.Channel.ReplaceWhileClosing | session.go:75-99 | a session put between any two callbacks of a closed one stays exactly when none of those still to run names its key, and what the channel maps to afterwards |
| Channels.Channel.CallbacksNameHeld | session.go:213-220 | before any callback has run, they name exactly the keys the closed session held |

## Left out

- ExpandedIff: leading zeros in a suffix, which make two spellings of one index, do not occur in the model of names.
- FillEitherOrder: for values that are numbers, texts or variable-free items; a text filled in as the new name of a variable is modelled only as such a renaming, without parsing the name.
- NothingLost: sockets are FIFO and do not fail without LoseConnection; T7 is a step that may happen at any time in NOT-SELECTED.
- ReadBackIff: lexing is not modelled. A message name that begins like a stream function, a wait bit or a direction, begins with '.' or '<', or holds "//", and a string that holds a quote, are cut differently by the lexer (lexer.go:193-244, 378-389).
- BuildCollectionEventPayload: taken over one state of the tables; the locks it takes and releases in between are not modelled.
- SelectedSessionsAgree: counted per connection; a side that reconnects to another peer starts again with the session id it adopted.
- Deque.Get: order and conservation only; waiting, timeouts and notifications that can be missed (queue.go:24-27, 40-48) are not modelled.
- Reject messages: building one always panics (hsms.go:209, 270), so answering while not connected is a crash in the model.
- Floating-point values: F4 and F8 items hold bit patterns; conversion from and to numbers, and number formatting in text, are left out.
- S2F37 and S2F15 apply a prefix before they fail, so they are not atomic; S2F37 is modelled only as far as consistency needs it.
- A string such as "0b1001" given to a variable of a binary item, which the factory takes for a number (binary.go:39-73): strings are new names there in the model.
- Go's conversions between integer types when variables are filled in, negative counts of an ellipsis, and names that are not well-formed.
- `unicode.IsSpace` beyond Latin-1 in message names.
- Link objects that are aliased outside the handler; concurrency inside one handler, which holds its lock.
- Control and communication states of GEM, alarms, clocks, process programs, remote commands and equipment constants: short map updates.
- Dialling, listening, deadlines, backoff, logging, JSON and fixed-length codecs, and the state machine library.
