# Verified models of the SGS game server

This project models parts of a game server written in C++ and proves what they are for:

* **Tickets** (`Ticket*`): the queue of tickets a server keeps for
  another server. Tickets are numbered, transmitted, acknowledged in any order, sent again, and dropped by
  deadline, by number of retries, or because a later ticket of the same stable sequence supersedes them.
* **Wire format** (`Wire*`): typed values packed into chunks and read back, the byte ciphers, cutting a
  stream of fragments into chunks, and the buffers all this happens in.
* **Message formats** (`MessageFormat`, `Format*`): a small language that describes messages, its compiler
  to flat commands, the recursive interpreter of the commands, and what a format means.
* **Location database scheduler** (`Location*`): workers that share a table of read and write tasks per
  location, and the cache of loaded locations that is the scheduler's client.
* **Multipart store** (`Multipart*`): a text stored in parts, the head last, so that a write that stops
  anywhere leaves the old text or the new one.
* **Base64, SHA-256, HMAC, MD5** (`Base64*`, `BlockHash`, `Sha256*`, `Md5Stream`), the **firewall's**
  windows (`Firewall*`) and the **memory pool** (`Memory*`).

Each part is given twice: as a state machine or a function on values, about which the properties are proved
over all inputs and all runs, and as imperative code with the source's fields, branches and loops (a class
where the source has an object, an array where it works in place), each method of which is proved to take
exactly the step of the state machine. `dafny verify dfyconfig.toml` checks everything.

What the code does differs from what one may expect of it in a few places. There the model follows the code,
and the exact condition is proved:

* `A` writes an empty block that `R` cannot read if it is the last item of its chunk
  (`WireMessage.RoundTrip`), and booleans left over in one chunk are read in the next,
  unless the reader has looked for a chunk and found none in between (`WireMessage.SeparatedExactlyIfReadBack`,
  `WireMessage.SecondBooleanIsLost`).
* A plain ticket does not keep an older tracked one of its sequence from being sent again
  (`TicketOvertaking.OlderIsSentExactlyIfPending`, `TicketOvertaking.PlainTicketOvertakenIff`,
  `TicketTheorems.PlainTicketIsOvertaken`).
* A chunk whose size is exactly the limit is accepted, but the buffer is not enlarged for it; without a limit
  it never is (`WireFraming.ArrivesExactlyIfItCanGrow`, `WireFraming.LimitBlocks`).
* A count of zero or less reads a bare element once, and a negative count reads its group once and ends the
  check (`FormatCompiler.NoneReadsBareElement`, `FormatCompiler.NegativeEndsTheCall`,
  `FormatCompiler.NegativeAcceptsShort`), and of larger counts only the lowest 32 bits count
  (`FormatText.NextNumber`, `FormatText.LargestCountIsStar`).
* Offsets of the check wrap around at 2^32, so that the size of a block without limit can send it back
  (`MessageFormat.BlockWrapsAround`).
* After a failed deletion the next write of as many parts is not atomic
  (`MultipartStore.AtomicExactlyWhenApart`, `MultipartStore.StaleRetryIsNotAtomic`).
* A write can land on a location after its newer deletion (`LocationTheorems.OutOfOrderIff`,
  `LocationTheorems.OlderWriteAfterDelete`).
* A change made while a write is outstanding is lost when the write is confirmed
  (`LocationCache.ChangeMayBeHiddenIff`, `LocationCache.ChangeDuringWriteIsLost`), and a failed last
  write at shutdown counts as done (`LocationCache.FailedLastWriteLosesChanges`).
* The SHA-256 code stores four bytes of the message length (`Sha256.StoredLengthIsStandard`).

## Model

| member | source | states |
|---|---|---|
| `TicketTheorems.StableSequenceOrder` | server_include/gnet_helpers.h:202-206 | over every run, transmissions of tracked tickets with the same non-empty identifier never go back to an earlier submission; plain tickets, which nobody answers, are not among them |
| `TicketOvertaking.OlderIsSentExactlyIfPending` | server_common/gticket_internal_client.cpp:29-241 | after any run, for any sequence and any number p of tickets submitted: some continuation sends a tracked ticket of the sequence submitted before p exactly if one is queued, or one that awaits an answer was sent at most three times and has nothing of its sequence behind it |
| `TicketOvertaking.PlainTicketOvertakenIff` | server_common/gticket_internal_client.cpp:36-63 | when a plain ticket of a sequence is sent, an older one can be sent after it exactly if the last of the sequence that awaits an answer was sent at most three times |
| `TicketOvertaking.RunKeepsBarred` | server_common/gticket_internal_client.cpp:65-241 | once no older ticket is queued or can be queued again, no continuation sends one |
| `TicketTheorems.PlainTicketIsOvertaken` | server_common/gticket_internal_client.cpp:36-63 | the input: a plain ticket in a sequence does not bar the older ones, and a tracked ticket sent before it is queued to be sent again after it |
| `TicketTheorems.AcknowledgementPurges` | server_common/gticket_internal_client.cpp:175-241 | after ticket C of ABCD is acknowledged, no older ticket of its sequence is queued or awaits an answer |
| `TicketTheorems.SkippedOnlyIfOvertaken` | server_common/gticket_internal_client.cpp:118-156 | a ticket is skipped for its sequence only if a later one of the sequence was submitted |
| `TicketTheorems.Conservation` | server_common/gticket_internal_client.cpp:29-241 | at all times every submitted ticket is in exactly one of out, wait and the outcomes, exactly once, and nothing else is |
| `TicketTheorems.NumbersAlwaysIncrease` | server_common/gticket_internal_client.cpp:29-34 | numbers along wait and then out strictly increase and are below the next number, in every run |
| `TicketTheorems.AtMostFourTransmissions` | server_include/gnet_helpers.h:162-163 | no ticket is transmitted more than four times in any run |
| `TicketTheorems.SentNumberIsNotInOut` | server_common/gticket_internal_client.cpp:230-240 | a number that was ever transmitted is not that of a ticket in out, so the branch that erases from out is dead for honest peers |
| `TicketTheorems.FlushClosed` | server_common/gticket_internal_client.cpp:65-94 | a flush moves exactly the transmitted prefix's tracked tickets to wait, in order, and drops exactly the expired ones of the rest |
| `TicketTheorems.AcknowledgeClosed` | server_common/gticket_internal_client.cpp:105-241 | an acknowledgement out of order queues again, renumbered and in order, exactly the older tickets sent at most three times, unexpired and newest of their sequence, and keeps the later ones |
| `TicketDeadlines.FlushDropsDue` | server_common/gticket_internal_client.cpp:65-94 | with d the deadline: after a flush at `now`, what it had no room for is queued exactly if not 0 < d <= now, in order; the others are dropped for their deadline, and no ticket else |
| `TicketDeadlines.AcknowledgeDropsDue` | server_common/gticket_internal_client.cpp:105-241 | an acknowledgement at `now` drops for its deadline only what awaits an answer and has 0 < d <= now |
| `TicketDeadlines.QueuedAgainExactly` | server_common/gticket_internal_client.cpp:105-241 | queued again are exactly the older tickets sent at most three times, with d = 0 or d > now, and newest of their sequence; what was queued before stays in front |
| `TicketOutcomes.AcknowledgementOutcomes` | server_common/gticket_internal_client.cpp:105-241 | the outcomes of an acknowledgement out of order, all of them and in order: acknowledged, sent too often, past the deadline, overtaken in the sequence |
| `TicketOutcomes.InOrderAcknowledged` | server_common/gticket_internal_client.cpp:175-229 | an acknowledgement of what has waited longest acknowledges it and does nothing else |
| `TicketOutcomes.QueuedAcknowledged` | server_common/gticket_internal_client.cpp:230-240 | a number of a ticket that is queued takes it out as acknowledged |
| `TicketOutcomes.FlushSends` | server_common/gticket_internal_client.cpp:36-94 | a flush records exactly the tracked tickets it had room for as transmitted, in order |
| `TicketOutcomes.DroppedAndClosed` | server_common/gticket_internal_client.cpp:162-283 | dropping all drops what is queued, in order; closing drops what awaits an answer, in order |
| `TicketProtocol.RunKeepsInv` | server_common/gticket_internal_client.cpp:29-283 | the invariant of the protocol (order, numbers, counts of transmissions, conservation, justified skips) holds after every run |
| `TicketProtocol.RollbackFirstKeepsInv` | server_common/gticket_internal_client.cpp:105-160 | one round of the rollback keeps the invariant in the middle of an acknowledgement |
| `TicketProtocol.SupersededHasLater` | server_common/gticket_internal_client.cpp:118-142 | what bars a ticket from being sent again is a later submission of its sequence |
| `TicketProtocol.RepushedIsNewest` | server_common/gticket_internal_client.cpp:118-156 | a ticket that is sent again is the only one of its sequence queued, and nothing newer of it was sent |
| `TicketClient.Client.SubmitTicket` | server_common/gticket_internal_client.cpp:29-34 | the ticket is numbered and queued last; the abstract state takes the submit step |
| `TicketClient.Client.FlushTicket` | server_common/gticket_internal_client.cpp:36-63 | writes one ticket by kind: counted and moved to wait, sent once, or discarded; stops without room |
| `TicketClient.Client.FlushTickets` | server_common/gticket_internal_client.cpp:65-94 | sends from the front while there is room, then drops expired tickets; exactly the flush step |
| `TicketClient.Client.MayRepush` | server_common/gticket_internal_client.cpp:118-142 | the comparison by number over the list being changed finds exactly the tickets behind the walk |
| `TicketClient.Client.RollbackTicket` | server_common/gticket_internal_client.cpp:105-160 | renumbering a shared ticket while it is still listed leaves the rest of the walk in order, and takes exactly one rollback step |
| `TicketClient.Client.RollbackLoop` | server_common/gticket_internal_client.cpp:223-223 | the walk stops at the first number not below the acknowledged one, having taken exactly the rollback |
| `TicketClient.Client.DropTickets` | server_common/gticket_internal_client.cpp:162-173 | all queued tickets are dropped by force, each with its reason |
| `TicketClient.Client.PreProcessMessage` | server_common/gticket_internal_client.cpp:175-241 | the four cases of an answer: first in wait, later in wait, in out, nowhere; exactly the acknowledge step |
| `TicketClient.Client.Close` | server_common/gticket_internal_client.cpp:270-283 | unconfirmed tickets are dropped, queued ones stay |
| `WireValues.WireRoundTrip` | server_include/gnet_w.hpp:12-132 | every value in range survives being stored in one to eight little-endian bytes, signed or not |
| `WireValues.PutBitHas` | server_include/utils.h:222-282 | setting or clearing a bit of a bit array is seen at that bit only |
| `WireMessage.RoundTrip` | server_include/gnet_w.hpp:2-159 | any items written into a chunk are read back in order whatever follows in the buffer; the chunk closes itself; the reader fails exactly if the last item is an empty block |
| `WireMessage.FirstBooleanIsLeftOver` | server_include/gnet_r.hpp:2-15 | a chunk that starts with a boolean while bits are left over: the first boolean read is the left-over one, without advancing |
| `WireMessage.ReadBackIff` | server_include/gnet_r.hpp:2-15 | all items of given kinds can be read from a chunk exactly if no boolean is left over or the chunk does not start with one |
| `WireMessage.MessagesRoundTrip` | server_include/gnet_r.hpp:2-261 | any sequence of messages that is separated is read back, each reader taking over the bits the one before left unless a Parse that found no chunk came between |
| `WireMessage.SeparatedExactlyIfReadBack` | server_include/gnet_r.hpp:2-261 | sequences of non-empty messages of given kinds, some of them read after a Parse that found no chunk, are read back without error, whatever their contents, exactly if they are separated: none ends with an empty block, and none starts with a boolean directly after a chunk that left some over |
| `WireMessage.SecondBooleanIsLost` | server_include/gnet_r.hpp:2-15 | two messages of one true boolean each are read as true and false if parsed directly one after the other, and as they are if a Parse that found no chunk came between |
| `WireMessage.AllAnewSeparated` | server_common/gnet.cpp:225-228 | if a Parse that found no chunk comes before every chunk, separated means that none is empty or ends with an empty block |
| `WireMessage.ReadBitAt` | server_include/gnet_r.hpp:2-15 | reading a boolean follows its writing through the packed byte and into the next one |
| `WireMessage.ReadTextAt` | server_include/gnet_r.hpp:189-217 | a NUL-free text is read back, empty or not |
| `WireMessage.ReadBlockAt` | server_include/gnet_r.hpp:249-261 | a block is read back; an empty one fails exactly at the end of the chunk |
| `WireImages.BooleansPacked` | server_include/gnet_w.hpp:2-7 | of n booleans, boolean k is bit k mod 8, from the lowest, of byte k / 8, and there are as few bytes as hold them |
| `WireImages.NumberImage` | server_include/gnet_w.hpp:12-126 | numbers come least significant byte first, in two's complement |
| `WireImages.TextImage` | server_include/gnet_w.hpp:127-140 | texts come behind the number of their bytes, the final NUL included; the empty text is a zero |
| `WireImages.MixedImage` | server_include/gnet.h:212-220 | a byte of booleans that is not full is closed by the next item, and another one begins behind it |
| `WireImages.ReadingBehindFails` | server_common/gnet.cpp:231-265 | reading behind the bytes that are there, or from a closed chunk, fails, gives 0 and moves nothing |
| `WireImages.TextOfNoSize` | server_include/gnet_r.hpp:189-217 | a negative size of a text is an error |
| `WireImages.BlockOfOtherSize` | server_include/gnet_r.hpp:249-261 | a block of another size than asked for is an error, and is not read |
| `WireCipher.DecodeCode` | server_include/gnet_crypt.h:260-344 | decoding undoes coding for every known cipher, offsets and blocks of any size |
| `WireCipher.CodeXOR` | server_include/gnet_crypt.h:292-305 | the loop over the array codes exactly its range, and touches nothing else |
| `WireCipher.CodeReverse` | server_include/gnet_crypt.h:307-320 | the loop over the array swaps the bits of exactly its range |
| `WireCipher.CodeShift` | server_include/gnet_crypt.h:322-344 | the loop over the array rotates exactly its range, back when decoding |
| `WireCipher.CodeChunk` | server_include/gnet_crypt.h:260-290 | a chunk's contents are coded and its size is not |
| `WireCipher.ReverseExchanges` | server_include/gnet_crypt.h:307-320 | which two bits each of the eight reversing ciphers exchanges, and that the others stay |
| `WireCipher.ShiftRotates` | server_include/gnet_crypt.h:322-344 | coding rotates every bit down, decoding up |
| `WireCipher.XorFlips` | server_include/gnet_crypt.h:292-305 | the key flips the bits it has, byte by byte and over again |
| `WireFraming.FramesAppend` | server_common/gnet.cpp:174-229 | more bytes only add to what a stream was cut into |
| `WireFraming.ParseAllIsFrames` | server_common/gnet.cpp:174-229 | repeated parsing of a buffer yields exactly the chunks its bytes consist of |
| `WireFraming.FragmentsDoNotMatter` | server_common/gnet.cpp:174-229 | any cutting of a stream into fragments yields the same chunks, in order, once each, and the same rest |
| `WireFraming.RoomIsLeft` | server_common/gnet.cpp:219-222 | whenever parsing stops there is room for input if the chunk waited for is below the limit or fits the buffer |
| `WireImages.LookBySize` | server_common/gnet.cpp:199-222 | the first four bytes, the lowest first, decide: sizes below four and above the limit are refused, larger ones than what is there are awaited |
| `WireImages.EnlargedForChunk` | server_common/gnet.cpp:219-222 | a buffer is enlarged only for a chunk below the limit that it cannot hold, and then it can hold it |
| `WireFraming.StuckForGood` | server_common/gnet.cpp:219-222 | otherwise no chunk arrives any more, however the bytes that follow are received |
| `WireFraming.ArrivesExactlyIfItCanGrow` | server_common/gnet.cpp:199-222 | the chunk a connection waits for can arrive, in some continuation, exactly if it is below the limit or fits the buffer as it is |
| `WireFraming.SizeBlocks` | server_common/gnet.cpp:199-222 | the size of any accepted chunk that is at least the limit and above the first buffer blocks a new connection |
| `WireFraming.LimitBlocks` | server_common/gnet.cpp:63-94 | so does a chunk of exactly 131072 bytes, the limit by default, unless the first buffer holds it, and, without a limit, any chunk above the first buffer |
| `WireFraming.ChunksArrive` | server_common/gnet.cpp:174-229 | well-formed chunks sent in any fragments arrive as those chunks and leave nothing in the buffer |
| `WireTheorems.SentIsChunk` | server_common/gnet.cpp:280-317 | a finished, ciphered chunk is well formed for the parser, and deciphering gives the written chunk |
| `WireTheorems.MessagesArrive` | server_common/gnet.cpp:174-317 | messages written, ciphered and sent in any fragments arrive as their chunks |
| `WireTheorems.ConnectionRoundTrip` | server_common/gnet.cpp:119-317 | what one end writes the other end reads: packing, ciphers, fragmentation and reading together, wherever Parse has found no chunk in between |
| `WireTheorems.BatchesRoundTrip` | server_common/gnet.cpp:119-317 | in particular for an end that after each fragment reads chunks until Parse finds none |
| `WireTheorems.OneByOneRoundTrip` | server_common/gnet.cpp:119-317 | if no fragment completes more than one chunk, all messages that do not end with an empty block are read |
| `WireConnection.Memory.ReallocateToFit` | server_common/gmemory.cpp:53-64 | room for more bytes is made by moving the contents to a larger block |
| `WireConnection.Memory.Reallocate` | server_common/gmemory.cpp:66-70 | the buffer doubles with its contents kept, up to a megabyte |
| `WireConnection.Memory.RemoveParsed` | server_common/gnet.cpp:225-227 | the parsed prefix goes, the rest moves to the front |
| `WireConnection.Writer.WPos` | server_common/gnet.cpp:119-172 | a place for more bytes in the chunk, whose contents survive moving the buffer; fails exactly if a chunk cannot be opened |
| `WireConnection.Writer.FlushBitsCache` | server_include/gnet.h:212-220 | pending booleans become a byte of the chunk |
| `WireConnection.Writer.Wb` | server_include/gnet_w.hpp:2-7 | a boolean goes to its bit, the eighth flushes the byte; exactly the write step |
| `WireConnection.Writer.WNumber` | server_include/gnet_w.hpp:12-132 | pending booleans, then the number's bytes |
| `WireConnection.Writer.WT` | server_include/gnet_w.hpp:127-140 | size and bytes with NUL, a zero size for the empty text |
| `WireConnection.Writer.WBlock` | server_include/gnet_w.hpp:151-159 | size and bytes |
| `WireConnection.Writer.A` | server_common/gnet.cpp:280-317 | the chunk gets its size, its contents are ciphered, and it is appended to what is to be sent; an error exactly if there is nothing to end |
| `WireConnection.Reader.RPos` | server_common/gnet.cpp:231-265 | the next bytes of the chunk, which closes at its end; an error past the received data |
| `WireConnection.Reader.E` | server_common/gnet.cpp:319-333 | an open chunk counts as parsed and is closed |
| `WireConnection.Reader.Rb` | server_include/gnet_r.hpp:2-15 | the next boolean, from the byte at hand or a new one |
| `WireConnection.Reader.RNumber` | server_include/gnet_r.hpp:19-187 | the next number of one to eight bytes |
| `WireConnection.Reader.RT` | server_include/gnet_r.hpp:189-217 | the next text, with an error for a negative size |
| `WireConnection.Reader.RBlock` | server_include/gnet_r.hpp:249-261 | the next block, if it has the size asked for |
| `WireConnection.Reader.Parse` | server_common/gnet.cpp:174-229 | steps over the open chunk and opens the next one deciphered, waits with a buffer large enough, or refuses a size |
| `FormatCompiler.CompiledReads` | server_common/gnet.cpp:457-881 | running the compiled commands accepts exactly what the nested grammar accepts, and consumes exactly the same bytes |
| `FormatCompiler.LoopReads` | server_common/gnet.cpp:457-881 | the same wherever the commands stand in a larger program, with the last integer kept per nesting level |
| `FormatCompiler.ClosingOver` | server_common/gnet.cpp:485-504 | the search for a closing bracket passes over any compiled format, however nested |
| `FormatCompiler.GroupIsSkipped` | server_common/gnet.cpp:485-504 | a group with count zero is skipped whole |
| `FormatCompiler.NoneReadsBareElement` | server_common/gnet.cpp:485-504 | a bare element with a count of zero or less is read once, as if there were no count |
| `FormatCompiler.ZeroRejectsAtEnd` | server_common/gnet.cpp:485-504 | so a well-formed message that ends in its zero count is rejected |
| `FormatCompiler.NegativeEndsTheCall` | server_common/gnet.cpp:473-506 | a negative count reads its group once and ends the call there |
| `FormatCompiler.NegativeAcceptsShort` | server_common/gnet.cpp:473-506 | so "i*(c)I" accepts a message that lacks its last eight bytes |
| `FormatCompiler.SteadyNeverBroken` | server_common/gnet.cpp:473-506 | a format whose multipliers of bare elements are positive numbers, and those of groups numbers or fed by a limited text or an unsigned integer of one or two bytes, never meets a negative count, nor zero before a bare element |
| `FormatCompiler.SteadyAcceptsExactly` | server_common/gnet.cpp:457-881 | the commands of such a format accept exactly what it reads, and reject everything else |
| `FormatText.BuildIsBalanced` | server_common/gnet.cpp:944-1051 | whatever text compiles, with comments, limits and sub-formats, compiles to balanced commands |
| `FormatText.BuildWritten` | server_common/gnet.cpp:944-1203 | a written format, with counts and limits below 2^31, compiles to exactly its commands |
| `FormatText.NextNumber` | server_common/gnet.cpp:950-963 | a number in front of an element or group is kept as a 32-bit count |
| `FormatText.LargestCountIsStar` | server_common/gnet.cpp:950-963 | so 4294967295 repeats as often as the last integer says |
| `FormatText.SignedLetters` | server_common/gnet.cpp:1036-1046 | the letters of the signed integers |
| `FormatText.UnsignedLetters` | server_common/gnet.cpp:1021-1035 | the letters of the unsigned ones, behind a u of either case |
| `FormatText.UnlimitedLetters` | server_common/gnet.cpp:1145-1203 | texts and blocks without a limit are unlimited, there is one word, and a bit set is refused |
| `FormatText.OtherCharacters` | server_common/gnet.cpp:965-1049 | which characters mean nothing, a count that was read, or a bracket; all other ones are refused |
| `FormatText.RangesRefused` | server_common/gnet.cpp:1058-1144 | a range behind an integer, a boolean or a real number is refused |
| `FormatText.Comments` | server_common/gnet.cpp:973-981 | a comment ends at the next slash, and one without is refused |
| `FormatText.NamesRefused` | server_common/gnet.cpp:982-1001 | a sub-format that is not closed, unknown or empty is refused |
| `FormatText.LimitsAreClosed` | server_common/gnet.cpp:1154-1172 | a limit that is not closed behind its digits is refused |
| `FormatText.TextMeansFormat` | server_common/gnet.cpp:457-1203 | the text of a format, with counts and limits below 2^31, compiles to commands that accept exactly the messages the format reads, and consume exactly the same bytes, on all data |
| `FormatMessages.FollowingMessageIsAccepted` | server_common/gnet.cpp:335-451 | a message written by the typed writers, its number first and then items that follow the format of that number, passes the check of whole messages, to its end if all items are taken |
| `FormatMessages.DeniedMessageIsRefused` | server_common/gnet.cpp:335-451 | a message whose items are of the right kinds, but one of them too long for its limit, or the last ones missing, is refused |
| `FormatMessages.TextPassesIffInLimit` | server_common/gnet.cpp:845-867 | under the format of one text of limit n, a text passes exactly if it is empty or has at most n bytes with its NUL, and is refused otherwise |
| `FormatMessages.BlockPassesIffInLimit` | server_common/gnet.cpp:786-809 | under the format of one block of limit n, a block passes exactly if it has at most n bytes, and is refused otherwise |
| `MessageFormat.TextIsInside` | server_common/gnet.cpp:845-867 | of any bytes, a text that is let through keeps its limit and ends inside the chunk |
| `MessageFormat.BlockIsInside` | server_common/gnet.cpp:786-809 | the same for a block |
| `MessageFormat.BlockWrapsAround` | server_common/gnet.cpp:786-809 | a block without limit whose size passes 2^32 sends the check back in front of it, since offsets wrap |
| `MessageFormat.WordsStepOver` | server_common/gnet.cpp:810-823 | words are four bytes each, and leave the booleans at hand |
| `MessageFormat.NumberDecides` | server_common/gnet.cpp:335-451 | a message without room for its number escapes, one with an unknown number is refused |
| `FormatMessages.TestedAsRead` | server_common/gnet.cpp:335-451 | a message with a number is accepted or refused as its format reads or rejects what follows, unless a negative count, or zero before a bare element, is met |
| `FormatMessages.AcceptedExactlyIfRead` | server_common/gnet.cpp:335-451 | for such formats, a message with a number passes that check exactly if its format reads what follows the number, is checked as far as that, and is refused otherwise |
| `FormatMessages.FormatFollows` | server_include/gnet_t.hpp:1-246 | the checking readers stay in step with the writers, item by item, through groups and repetitions |
| `FormatMessages.FormatDenied` | server_common/gnet.cpp:457-881 | what is too long or missing among items of the right kinds is found wrong in their bytes, with its fault, in groups and repetitions as well |
| `FormatChecker.Descriptor.Build` | server_common/gnet.cpp:944-1051 | the loop over the text compiles it as specified, or refuses where the source asserts |
| `FormatChecker.Checker.SkipGroup` | server_common/gnet.cpp:487-502 | the loop that counts brackets ends at the closing one |
| `FormatChecker.Checker.RepeatFormat` | server_common/gnet.cpp:479-484 | the calls of a multiplier, with the position after the last |
| `FormatChecker.Checker.ParseFormat` | server_common/gnet.cpp:457-881 | the recursive interpreter does what its specification says, throwing included |
| `FormatChecker.Checker.TestMsg` | server_common/gnet.cpp:335-451 | the number selects the format; an unknown number or a message its format rejects is refused, and a message too short for a number makes the exception escape |
| `LocationQueue.LeastIsMinimum` | server_game/gserver_local.cpp:489-512 | the cached deadline is an attained minimum, and 0 exactly without tasks |
| `LocationQueue.BidHasTask` | server_game/ggamestatedb_worker_thread.cpp:177-255 | a location that competes in a pass has a task for it, and competes with its least eligible deadline |
| `LocationQueue.PriorityPassIsReadyFirst` | server_game/ggamestatedb_worker_thread.cpp:130-175 | whenever pass 2 or 3 is ready, pass 1 or 0 is: backoff is shorter for priority, scaled and with any number of failures |
| `LocationQueue.AnsweredOnce` | server_game/ggamestatedb_worker_thread.cpp:375-595 | over every run each task added is queued or answered exactly once, per group and number |
| `LocationQueue.ExpireKeepsRunning` | server_game/ggamestatedb_worker_thread.cpp:499-595 | expiry never removes the running task, nor the location under it |
| `LocationQueue.RunKeepsInv` | server_game/ggamestatedb_worker_thread.cpp:97-595 | exact caches, lanes kept apart, and at most one running task that is queued, after every run |
| `LocationTheorems.CachedDeadlinesAreMinima` | server_game/ggamestatedb_worker_thread.cpp:375-595 | in every run the four cached deadlines are minima of their tasks, attained, 0 exactly if there are none |
| `LocationAnswers.ExpiryLeaves` | server_game/ggamestatedb_worker_thread.cpp:499-595 | after an expiry at `now` queued are exactly, in order, the reads with a deadline above `now`, all of them while a read runs, and the writes with one above `now` or numbered up to the running one |
| `LocationAnswers.ExpiryAnswers` | server_game/ggamestatedb_worker_thread.cpp:499-581 | an expiry answers exactly the other ones, the reads first: as having missed the deadline if never tried, as failed otherwise |
| `LocationAnswers.ExpiryDropsUnused` | server_game/ggamestatedb_worker_thread.cpp:583-592 | an entry goes exactly if nothing is left and all four of its times are more than 600 seconds old |
| `LocationAnswers.SuccessfulWriteAnswers` | server_game/ggamestatedb_worker_thread.cpp:457-480 | a successful write answers exactly the writes of its direction that are not newer, and the insertions if it is a plain write; the others stay, in order |
| `LocationAnswers.SuccessfulReadAnswersAll` | server_game/ggamestatedb_worker_thread.cpp:403-447 | a successful read answers all reads with what it loaded |
| `LocationAnswers.FailedWriteAnswersNone` | server_game/ggamestatedb_worker_thread.cpp:457-480 | a failed write leaves all writes queued and marks exactly those it was for |
| `LocationAnswers.ResultIsRemembered` | server_game/ggamestatedb_worker_thread.cpp:375-455 | what a lane remembers of a success and of a failure |
| `LocationAnswers.BidsByPass` | server_game/ggamestatedb_worker_thread.cpp:106-192 | which least deadline a location competes with in each pass |
| `LocationAnswers.NewestIsStarted` | server_game/ggamestatedb_worker_thread.cpp:194-265 | what a pass starts is the newest task of its lane, among those with priority in the first two passes |
| `LocationAnswers.RestAfterSuccess` | server_game/ggamestatedb_worker_thread.cpp:130-175 | after a success the four passes wait 2, 2, 3 and 10 seconds |
| `LocationAnswers.RestAfterFailure` | server_game/ggamestatedb_worker_thread.cpp:130-175 | after c failures they wait 1 + 2c, 1 + 2c, 1 + 2c and 9 + c * c seconds, at most 20, 20, 30 and 300 |
| `LocationAnswers.ScaledByPercent` | server_game/ggamestatedb_worker_thread.cpp:153-158 | waits are scaled by the percentage drawn, rounded down, and are at least a second |
| `LocationTheorems.OneRunsAndStaysQueued` | server_game/ggamestatedb_worker_thread.cpp:121-124 | in every run at most one task of a location runs; it stays queued and its entry survives expiry |
| `LocationTheorems.PriorityGoesFirst` | server_game/ggamestatedb_worker_thread.cpp:108-225 | a task without priority starts only if no priority task is queued in its lane, and is then the newest of all |
| `LocationTheorems.SuccessfulWritesAscend` | server_game/ggamestatedb_worker_thread.cpp:457-480 | with plain writes of one owner, the writes reported as successful carry ever larger numbers in every run; a write reported as failed may still have put its head |
| `LocationTheorems.OrderlyWritesAscend` | server_game/ggamestatedb_worker_thread.cpp:457-480 | the same for any directions as long as every success covers what is older |
| `LocationTheorems.OutOfOrderIff` | server_game/ggamestatedb_worker_thread.cpp:457-480 | if the newest queued write is running and every success so far covered what was older: after it succeeds, some continuation lands an older one exactly if an older one of an uncovered direction is queued |
| `LocationTheorems.NextWriteIsOlder` | server_game/ggamestatedb_worker_thread.cpp:457-480 | whatever write starts next is then older |
| `LocationTheorems.OlderWriteAfterDelete` | server_game/ggamestatedb_worker_thread.cpp:457-480 | a write queued before a deletion lands after it |
| `LocationScheduler.Server.AddLocationDBTask` | server_game/gserver_local.cpp:489-512 | the task joins its lane and the caches; one add step of that location, others unchanged |
| `LocationResults.PostedKeepsOthers` | server_game/gserver_local.cpp:514-534 | posting a result keeps all earlier ones in place for their tasks, may upgrade a failure of that location and direction, and never takes a success back |
| `LocationResults.PostingTies` | server_game/gserver_local.cpp:514-534 | posting keeps the lists of results, taken or waiting, those of the answers, per group and location, in order |
| `LocationScheduler.Server.AddLocationDBTaskResult` | server_game/gserver_local.cpp:514-534 | the results of the group get one more, those it supersedes marked successful |
| `LocationScheduler.Server.TakeResults` | server_game/ggroup_basic.cpp:439-446 | a group takes all its results, which leaves none waiting |
| `LocationScheduler.Server.ReceivedOnce` | server_game/ggamestatedb_worker_thread.cpp:375-595 | in the shared tables, every task added at a location is queued there or its group has received one result for it, exactly once, in the order of the answers |
| `LocationScheduler.Server.GetLocationDBTaskToRun` | server_game/ggamestatedb_worker_thread.cpp:97-266 | in the first pass in which any location competes, the location with the least deadline runs its newest eligible task; nothing runs only if nothing competes |
| `LocationScheduler.Server.ScanLocations` | server_game/ggamestatedb_worker_thread.cpp:113-192 | the scan of one pass finds the least competing deadline |
| `LocationScheduler.FindNewest` | server_game/ggamestatedb_worker_thread.cpp:202-250 | the loop over the queue finds the newest eligible task |
| `LocationScheduler.Server.ProcessLocationDBTaskResult` | server_game/ggamestatedb_worker_thread.cpp:375-497 | one finish step of the task's location: answers, caches and counts, other locations unchanged |
| `LocationScheduler.Server.SettleLane` | server_game/ggamestatedb_worker_thread.cpp:403-493 | the erasing loop answers exactly the covered tasks, in order, and rebuilds the caches |
| `LocationScheduler.Server.ClearExpiredDBTasks` | server_game/ggamestatedb_worker_thread.cpp:499-595 | one expiry step of every location |
| `LocationScheduler.Server.ExpireLane` | server_game/ggamestatedb_worker_thread.cpp:515-581 | the erasing loop answers exactly the expired tasks and rebuilds the caches |
| `LocationCache.QuietRunIsFaithful` | server_game/glogic_engine_gamestatedb.cpp:367-387 | if nothing changes contents while a write is outstanding, and each write is answered while it is outstanding, with the contents of one that is, a location that is not dirty holds what was last confirmed |
| `LocationChanges.UnsavedChangeStaysMarked` | server_game/glogic_engine_gamestatedb.cpp:182-387 | as long as no message, modifying connection or successful write comes, whatever else does, a loaded game state has the same contents, and a change that is not confirmed stays marked |
| `LocationChanges.LoadedByReading` | server_game/glogic_engine_gamestatedb.cpp:204-234 | only a successful read loads a location, with exactly the data read, clean |
| `LocationChanges.ReadOverwritesNothing` | server_game/glogic_engine_gamestatedb.cpp:204-234 | a read that is answered for a loaded location leaves it as it is, or drops it if it failed |
| `LocationChanges.ContentsChangeByHandlers` | server_game/glogic_engine_process_message.cpp:13-213 | contents change by messages and modifying connections only |
| `LocationChanges.ConfirmedByWrites` | server_game/glogic_engine_gamestatedb.cpp:370-387 | confirmed contents of a game state change by successful writes only, and to what those wrote |
| `LocationChanges.DirtyUntilWritten` | server_game/glogic_engine_gamestatedb.cpp:370-387 | a dirty game state becomes clean only with nothing outstanding, by a successful write or because its contents are those confirmed |
| `LocationChanges.DelayStartsOnce` | server_game/glogic_engine_process_message.cpp:62-69 | the first message after a write starts the delay before the next one, further ones do not put it off |
| `LocationChanges.ConnectingUses` | server_game/glogic_engine_process_message.cpp:178-213 | a modifying connection does put it off |
| `LocationChanges.ChangedIsWritten` | server_game/glogic_engine.cpp:102-133 | the regular look writes exactly the dirty game states past their delay with nothing outstanding |
| `LocationChanges.DroppedExactlyIf` | server_game/glogic_engine.cpp:186-261 | the look for old locations drops, where nobody is connected, game states that are forced out, unused or in error unless dirty and not given up, and released other locations with nothing outstanding |
| `LocationChanges.OldIsWrittenFirst` | server_game/glogic_engine.cpp:186-261 | a dirty game state that is to be dropped is written first |
| `LocationChanges.ClosedExactlyIf` | server_game/glogic_engine.cpp:135-184 | what closing down drops, writes once more, and leaves |
| `LocationChanges.ClosingWithoutSnapshot` | server_game/glogic_engine_gamestatedb.cpp:75-110 | without a snapshot, closing down gives a dirty game state up |
| `LocationCache.DropLosesNothing` | server_game/glogic_engine.cpp:186-261 | in such runs (quiet, and answered as said) the look for old locations loses nothing but contents in error with no write outstanding |
| `LocationCache.DroppedIsCleanOrInError` | server_game/glogic_engine.cpp:186-261 | a game state is dropped only clean, or in error with no write outstanding, and never with players connected |
| `LocationCache.ChangeMayBeHiddenIff` | server_game/glogic_engine_gamestatedb.cpp:367-387 | some sequence of answers to the outstanding writes leaves a changed location marked clean exactly if one of the writes carries other contents than the location has |
| `LocationCache.ChangeDuringWriteIsLost` | server_game/glogic_engine_gamestatedb.cpp:370-387 | a message handled between snapshot and confirmation is lost when the location is dropped |
| `LocationCache.ClosingLosesChangesIff` | server_game/glogic_engine.cpp:135-184 | closing down drops unconfirmed changes exactly if the deadline has passed or a last write was answered |
| `LocationCache.FailedLastWriteLosesChanges` | server_game/glogic_engine_gamestatedb.cpp:462-469 | a failed last write counts as answered, and its changes are dropped before the deadline |
| `LocationEngine.GamestateIdOfLocation` | server_game/glogic_engine.cpp:13-25 | the location name made from a game state's number gives the number back |
| `LocationEngine.OtherNames` | server_game/glogic_engine.cpp:13-20 | names that do not start with the word are those of other locations |
| `LocationEngine.NumbersInNames` | server_game/glogic_engine.cpp:13-20 | what may stand around the number in a name |
| `LocationEngine.Engine.ProcessMessage` | server_game/glogic_engine_process_message.cpp:13-176 | a handled message dirties a loaded location that is not in error, and starts its write delay only once |
| `LocationEngine.Engine.ProcessConnect` | server_game/glogic_engine_process_message.cpp:178-213 | a connection dirties a game state only if it was modified |
| `LocationEngine.Engine.ExecuteRead` | server_game/glogic_engine_gamestatedb.cpp:182-234 | a failed read drops the location and data the library refuses loads nothing; a successful read loads it unless it is loaded |
| `LocationEngine.Engine.AddWrite` | server_game/glogic_engine_gamestatedb.cpp:75-180 | a write is numbered and recorded, fails at once without a snapshot, and succeeds at once if the contents are confirmed |
| `LocationEngine.Engine.ExecuteWrite` | server_game/glogic_engine_gamestatedb.cpp:344-473 | the answer of a write: bookkeeping, confirmation, and what the reason for the write adds |
| `LocationEngine.Engine.WriteChangedGameStates` | server_game/glogic_engine.cpp:102-133 | every game state, and no other location, takes the look for changes |
| `LocationEngine.Engine.EraseOldLocations` | server_game/glogic_engine.cpp:186-261 | every location takes the look for old locations |
| `LocationEngine.Engine.WriteChangedLocationsGroupShutdown` | server_game/glogic_engine.cpp:135-184 | every location takes the look at shutdown |
| `MultipartStore.CrashAtomic` | server_game/ggamestatedb_dynamodb.cpp:422-509 | stopping a write after any request leaves the whole old text before the head is put and the whole new one after, if the cache is fresh |
| `MultipartStore.AtomicExactlyWhenApart` | server_game/ggamestatedb_dynamodb.cpp:439-507 | for any cache: all writes of so many parts are atomic exactly if their tail does not meet the live one |
| `MultipartStore.StaleRetryIsNotAtomic` | server_game/ggamestatedb_dynamodb.cpp:497-507 | after a failed deletion some write of as many parts is not atomic |
| `MultipartStore.CommittedTextLoads` | server_game/ggamestatedb_dynamodb.cpp:293-509 | through any run of writes, stops and loads that stay apart from the live tail, the text whose head was put last loads |
| `MultipartStore.SuccessfulWrites` | server_game/ggamestatedb_dynamodb.cpp:439-507 | after successful writes the last text loads, exactly the head and its tail are stored, the cache is fresh, part ids stay bounded, and the last tail starts at 0, at 2 or below the old plus the new number of parts |
| `MultipartStore.NewTailIsApart` | server_game/ggamestatedb_dynamodb.cpp:444-461 | the tail of a write never meets the tail the cache describes |
| `MultipartStore.NewTailPlace` | server_game/ggamestatedb_dynamodb.cpp:450-461 | where exactly a new tail begins |
| `MultipartStore.PartsOfText` | server_game/ggamestatedb_dynamodb.cpp:449-467 | parts have 60000 letters but for the last one |
| `MultipartStore.OrderOfRequests` | server_game/ggamestatedb_dynamodb.cpp:463-501 | the requests of a write one by one: the last part first, the head last, then the old tail |
| `MultipartStore.TailsOfOldStores` | server_game/ggamestatedb_dynamodb.cpp:345-420 | a head without the place of its tail has it at 2 |
| `MultipartBlobs.CommittedBlobDecodes` | server_game/ggamestatedb_dynamodb.cpp:293-420 | the bytes committed last are what is loaded and decoded |
| `MultipartBlobs.LastBlobDecodes` | server_game/ggamestatedb_dynamodb.cpp:293-509 | after successful writes the bytes last written are what is loaded and decoded |
| `MultipartBlobs.StoppedWriteKeepsABlob` | server_game/ggamestatedb_dynamodb.cpp:422-509 | a write stopped anywhere leaves the old bytes or the new ones |
| `MultipartServer.Server.PutParts` | server_game/ggamestatedb_dynamodb.cpp:463-485 | the loop puts the parts from last to first, and stops at the first failure |
| `MultipartServer.Server.DeleteParts` | server_game/ggamestatedb_dynamodb.cpp:486-501 | the loop deletes the old tail, and stops at the first failure |
| `MultipartServer.Server.WriteLocation` | server_game/ggamestatedb_dynamodb.cpp:422-509 | the store is that after some prefix of the write's requests, the cache changes only on full success, guests are not stored; from a fresh cache the write is atomic |
| `MultipartServer.Server.LoadLocation` | server_game/ggamestatedb_dynamodb.cpp:293-420 | loads head and tail as stored and refreshes the cache from the head |
| `Base64.RoundTrip` | server_game/hmac_sha256_base64.cpp:340-419 | decoding gives back what was encoded, for all bytes |
| `Base64.BytesOfEncoded` | server_game/hmac_sha256_base64.cpp:379-419 | the size of what is decoded is the size encoded |
| `Base64.EncodedEnds` | server_game/hmac_sha256_base64.cpp:370-374 | text ends with one '=' for each byte the last group lacks, as in section 4 of RFC 4648 |
| `Base64.EncodedLetters` | server_game/hmac_sha256_base64.cpp:340-377 | all before that are letters of the alphabet |
| `Base64.Alphabet` | server_game/hmac_sha256_base64.cpp:340-347 | the alphabet of section 4 of RFC 4648 |
| `Base64.ThreeBytes` | server_game/hmac_sha256_base64.cpp:349-377 | three bytes are four letters of six bits each, the highest first |
| `Base64.TwoBytes` | server_game/hmac_sha256_base64.cpp:349-377 | two bytes at the end are three letters and a padding sign |
| `Base64.OneByte` | server_game/hmac_sha256_base64.cpp:349-377 | one byte at the end is two letters and two padding signs |
| `Base64Coder.EncodeInto` | server_game/hmac_sha256_base64.cpp:349-377 | the buffer holds the encoding and a NUL, and nothing behind the NUL changes |
| `Base64Coder.DecodingTable` | server_game/hmac_sha256_base64.cpp:383-391 | the decoder's table has every letter's index |
| `Base64Coder.DecodeInto` | server_game/hmac_sha256_base64.cpp:379-419 | the buffer holds the decoding; a length that is no multiple of four decodes to nothing |
| `BlockHash.BlocksConcat` | server_game/hmac_sha256_base64.cpp:170-202 | absorbing a message in two pieces is absorbing the whole, the first leaving a rest for the second |
| `Sha256.StoredLengthIsStandard` | server_game/hmac_sha256_base64.cpp:204-227 | the stored length is the 64-bit length of section 5.1.1 of FIPS 180-4 exactly below 2^29 bytes |
| `Sha256Vector.DigestOfAbc` | server_game/hmac_sha256_base64.cpp:56-236 | the digest of "abc" is the one published with FIPS 180-4 |
| `Sha256Vector.InitialWords` | server_game/hmac_sha256_base64.cpp:90-93 | the initial words are the first 32 bits of the fractions of the square roots of the first eight primes |
| `Sha256Vector.Constants0` | server_game/hmac_sha256_base64.cpp:94-111 | the constants of the rounds are those of the cube roots of the first 64 primes; the other seven lemmas go on |
| `Sha256Vector.ChChooses` | server_game/hmac_sha256_base64.cpp:56-56 | the bits of one word where the first has ones, those of the other elsewhere |
| `Sha256Vector.MajIsMajority` | server_game/hmac_sha256_base64.cpp:57-57 | the bits at least two of three words have |
| `BlockHash.PaddingCompletesBlock` | server_game/hmac_sha256_base64.cpp:204-227 | a mark, as few zeros as complete a block with the length, and the length |
| `Sha256.HmacHashesTwice` | server_game/hmac_sha256_base64.cpp:254-336 | the HMAC of RFC 2104 on bytes: the inner hash behind the key with 0x36, the outer one behind the key with 0x5c, the key filled with zeros or hashed if longer than a block |
| `Sha256Stream.Schedule` | server_game/hmac_sha256_base64.cpp:114-130 | the loop fills the message schedule of section 6.2.2 of FIPS 180-4 |
| `Sha256Stream.Context.Transform` | server_game/hmac_sha256_base64.cpp:114-157 | whole blocks are compressed one after another as in section 6.2.2 |
| `Sha256Stream.Context.Update` | server_game/hmac_sha256_base64.cpp:170-202 | a piece is absorbed, whatever the block held |
| `Sha256Stream.Context.Final` | server_game/hmac_sha256_base64.cpp:204-227 | gives the digest of all bytes seen, for lengths counted in 32 bits |
| `Sha256Stream.DigestOfPieces` | server_game/hmac_sha256_base64.cpp:159-236 | however a message is cut into updates the digest is that of the whole, and is SHA-256 below 2^29 bytes |
| `Sha256Stream.Hash` | server_game/hmac_sha256_base64.cpp:229-236 | the one-shot function gives that digest |
| `Sha256Stream.HmacSha256` | server_game/hmac_sha256_base64.cpp:254-336 | gives the first bytes of the HMAC of section 2 of RFC 2104, keys longer than a block hashed |
| `Md5Stream.CountsNext` | server_common/md5.cpp:126-133 | the two words with their carry keep counting eight times the bytes modulo 2^64 |
| `Md5Stream.CountBytes` | server_common/md5.cpp:167-185 | encoded, they are the length field of section 3.2 of RFC 1321 |
| `Md5Stream.InitialBytes` | server_common/md5.cpp:110-117 | the initial words are the sixteen bytes of section 3.3 of RFC 1321 |
| `Md5Stream.EncodedWord` | server_common/md5.cpp:280-295 | words come out in order, least significant byte first |
| `Md5Stream.Context.Update` | server_common/md5.cpp:123-158 | a piece is absorbed, whatever the buffer held |
| `Md5Stream.Context.Final` | server_common/md5.cpp:163-186 | gives the state after the message padded as in sections 3.1 and 3.2 of RFC 1321, for any compression function |
| `FirewallLog.MinuteSumIsHits` | server_common/gfirewall.cpp:39-77 | the sum over the last slots of the ring of minutes is the logged hits of the last ticks |
| `FirewallLog.EpochSumIsHits` | server_common/gfirewall.cpp:39-77 | the sum over the ring of epochs is the logged hits of the current and the last epochs |
| `FirewallLog.NextMinute` | server_common/gfirewall.cpp:63-77 | clearing the oldest slot makes the ring right for the next tick |
| `FirewallLog.NextEpoch` | server_common/gfirewall.cpp:63-77 | the same for the ring of epochs |
| `FirewallLog.LetInIffBelowLimits` | server_common/gfirewall.cpp:79-165 | with limits, an address is let in exactly if it has tried fewer times than each limit in the same minute, the last five, and the last three and twelve epochs |
| `FirewallLog.FirstTriesLetIn` | server_common/gfirewall.cpp:79-165 | of the tries in its first minute exactly the first n pass a limit of n |
| `FirewallLog.LetInWithoutLimits` | server_common/gfirewall.cpp:79-98 | what counts without limits, and which addresses are never let in |
| `Firewall.Wall.GetMinute1Back` | server_common/gfirewall.cpp:39-49 | the slot of a tick some ticks ago |
| `Firewall.Wall.GetMinutes5Back` | server_common/gfirewall.cpp:51-61 | the slot of an epoch some epochs ago |
| `Firewall.Wall.UpdateTime` | server_common/gfirewall.cpp:63-77 | a tick passes and the log of hits is kept |
| `Firewall.Wall.SumAll` | server_common/gfirewall.cpp:124-133 | the four sums are the logged hits of the tick, 5 ticks, and the current with 2 and 11 earlier epochs |
| `Firewall.Wall.Test` | server_common/gfirewall.cpp:79-165 | the verdict is the one read off the log of hits, and exactly counted hits are logged |
| `Firewall.Wall.Reset` | server_common/gfirewall.cpp:214-241 | each command clears exactly what it names, and the ticks go on |
| `MemoryPool.ClassOfClassSize` | server_common/gmemory.cpp:216-240 | a block's size determines its class |
| `MemoryPool.ClassFits` | server_common/gmemory.cpp:216-270 | a block is at least as large as asked for, and a kilobyte or less than twice as large |
| `MemoryPool.ElevenSizes` | server_common/gmemory.cpp:216-270 | there are eleven sizes from 1024 to 1048576 bytes |
| `MemoryPool.NewBlock` | server_common/gmemory.cpp:248-276 | a new block in use keeps the pool's counts and sums right |
| `MemoryPool.KeptBlock` | server_common/gmemory.cpp:226-246 | so does a kept block that is reused |
| `MemoryPool.KeepBlock` | server_common/gmemory.cpp:278-318 | so does a block that is kept |
| `MemoryPool.DropBlock` | server_common/gmemory.cpp:278-318 | so does a block that is given up |
| `MemoryPool.TrimBlock` | server_common/gmemory.cpp:368-393 | so does a kept block that is trimmed |
| `MemoryManager.KeptIsNotLive` | server_common/gmemory.cpp:216-318 | no block is both kept and in use |
| `MemoryManager.AllocationRoundsUp` | server_common/gmemory.cpp:216-276 | the sizes handed out are those the buffers of connections count on |
| `MemoryManager.TrimmedIsLongest` | server_common/gmemory.cpp:368-393 | what is kept of a class is the longest prefix of at most twice as many blocks as are in use |
| `MemoryManager.Manager.Allocate` | server_common/gmemory.cpp:216-276 | hands out a block not in use, of the size of its class, new or kept before, or none exactly if the heap is needed and has not enough; all counts stay right |
| `MemoryManager.Manager.Deallocate` | server_common/gmemory.cpp:278-318 | takes exactly that block out of use and keeps it unless it is large or keeping is off; nothing happens for an empty descriptor |
| `MemoryManager.Manager.ReallocateTo` | server_common/gmemory.cpp:320-330 | a block large enough with the old contents in front, the same one if it suffices, a first one for an empty descriptor; unchanged if memory runs out |
| `MemoryManager.Manager.Reallocate` | server_common/gmemory.cpp:332-351 | a block so many times as large with the old contents in front, a kilobyte for an empty descriptor; unchanged for blocks above all classes or if memory runs out |
| `MemoryManager.Manager.UpdateTime` | server_common/gmemory.cpp:353-393 | of each class exactly the oldest kept blocks stay, twice as many as it has in use, or all if there are no more; nothing in use changes |

## Left out

- Sockets, threads, signals, curl, MySQL, logs, statistics and console commands: outside calls are parameters
  or steps of the environment; a locked function is one atomic step.
- 64-bit clocks, sequence numbers and counters never wrap; 32-bit widths are modelled where messages, hashes
  and buffers depend on them.
- TicketProtocol.FlushTickets: the check of the connection before each ticket is a number of tickets there is
  room for; the timestamps used to report latency are not modelled.
- TicketTheorems.StableSequenceOrder: plain tickets are sent once and not logged with the others; what can be sent
  after one is in TicketOvertaking.PlainTicketOvertakenIff.
- TicketClient.Client.SubmitTicket: a ticket comes with a count of 0 transmissions, as every ticket made in the
  source does (server_include/gnet_helpers.h:143-151, 180-185).
- LocationQueue.FailureDelay: does not model the overflow of the 32-bit square of the number of failures.
- LocationScheduler.Server.ScanLocations: the map is walked in any order, so that ties between equal deadlines
  may be broken differently; no location has the empty name, which the source uses for "none".
- LocationScheduler.Server.ProcessLocationDBTaskResult: what a read loads is a parameter; reads of lists of
  locations are not modelled, since all of them get one result.
- LocationTheorems.SuccessfulWritesAscend: numbers are given out per group, so one owning group per location is
  assumed.
- LocationTheorems.OutOfOrderIff: from states in which an older write runs, only what
  LocationTheorems.OrderlyWritesAscend says is known.
- LocationCache.QuietRunIsFaithful: that a write is answered once, while it is outstanding, with contents of an
  outstanding one, is assumed of the scheduler. It excludes answers to writes that were asked for before a failed
  read dropped the location and it was loaded again.
- LocationCache.Step: writes that create or delete a location carry contents from outside and are not modelled,
  nor are upcalls of the logic that change locations without marking them dirty. Confirmed contents are
  compared themselves, not their MD5 sums. Players that are disconnected are not modelled.
- LocationEngine.Engine.AddWrite: the deadline and priority a write gets, and its posting to the scheduler, are
  not modelled.
- LocationEngine.Engine.ExecuteRead: messages that waited for the read are processed by the handlers.
- LocationEngine.Engine.ExecuteWrite: the table of triggers is not modelled; a write is answered once, as
  LocationQueue.AnsweredOnce says.
- LocationEngine.Atoi: does not model overflow of 32-bit numbers.
- MultipartServer.Server.WriteLocation: compression is a step before it that gives a non-empty text; locations
  that are no game states are stored by other code.
- WireMessage.Item: floats, bit sets, and padding for block ciphers are not modelled; a text that has no NUL in
  its block is read up to the end of the block.
- WireCipher.Known: AES, DES and Blowfish are foreign code and not modelled.
- WireConnection.Writer.A: padding for block ciphers is not modelled, and checking a message before it is sent
  is modelled by FormatChecker.Checker.TestMsg on its own.
- WireConnection.Reader.Parse: the number of a message, read ahead of parsing, is not modelled, and checking a
  message on arrival is modelled by FormatChecker.Checker.TestMsg on its own.
- WireFraming.After: the first buffer of a connection has any size from a kilobyte on.
- WireConnection.Memory.Allocate: memory never runs out.
- FormatChecker.Checker.ParseFormat: floats have no limits here; limits on integers are refused, as by the
  source's assertion; a multiplier that is the last command is followed by no group.
- FormatMessages.Take: words are not matched; of items of other kinds than the format has, nothing is said, as their
  bytes may happen to be those of items it has.
- FormatText.Build: sub-formats are looked up in a parameter; the length of their names is not limited. Limits of
  2^31 and more, which the source wraps to 32 bits, are kept as they are, and numbers of more than fifteen digits,
  which the source reads past its buffer, as any others.
- FormatText.Wellformed: counts and limits are below 2^31.
- Base64Coder.DecodeInto: the table is filled on every call rather than on the first one; an empty text and
  characters above 127, for which the source reads outside its buffers, are excluded.
- Md5Stream.Context: the compression of one block is a parameter, so the digest is that of any such function.
- Firewall.Wall: listing addresses and setting limits are not modelled.
- MemoryManager.Manager.Reallocate: the factor is at least 1.
- MemoryManager.Manager: counters that are only printed are not modelled, nor is shutting down; requests are at
  most 2^31 bytes, beyond which the search for a class does not end.
- Consoles, group routing, Lua and the logic libraries, HTTP requests, configuration.
