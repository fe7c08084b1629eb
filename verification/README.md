# Jericho: verified models of its algorithms and protocols

Jericho is a C++ server framework. This project models the parts of it that are algorithms or
protocols of their own, and proves what they promise. `dafny verify dfyconfig.toml` checks all of it
with Dafny 4.11. Nothing here runs the original program.

Each part has a specification on values (functions and predicates), the theorems about it, and the code
in the form the source has it (classes, arrays, loops), proved equal to the specification. What a specification
itself computes is fixed by laws that do not name it: layouts in numbers, known answers, the grammar of a text.

| part | specification | theorems | code |
|---|---|---|---|
| SHA-1 | `Sha1Spec` | `Sha1Runs`, `Sha1Answers` | `Sha1` |
| picojson | `JsonText`, `JsonSpec` | `JsonGrammar`, `JsonRoundTrip`, `JsonProperties`, `JsonSpelling` | `Json` |
| WebSocket frames | `FrameSpec` | `FrameProofs`, `FrameMessages`, `FrameExamples` | `Frames` |
| Thread pool | `PoolSpec`, `PoolProtocol` | `PoolProperties` | `ThreadPool` |
| Base64 | `Base64Spec` | `Base64Spec`, `Base64Examples` | `Base64` |
| Bifrost broadcast and ricochet | `BifrostSpec`, `BifrostRicochet` | `BifrostGather`, `BifrostRicochet`, `BifrostAnswers`, `RicochetWire` | `Bifrost` |
| Job requests | `JobSpec`, `CallbackSpec` | `JobProofs`, `JobRoundTrip`, `JobArgs`, `JobSent` | `JobWire` |
| Quorum selection | `QuorumSpec` | `QuorumSpec` | `Quorum` |

`Octets` and `Common` hold what several parts share.

## How the source is read

**SHA-1.** The specification is section 6.1 of RFC 3174, in one shot: padding of section 4, the schedule, eighty
rounds. Words are bit vectors of 32 bits, as in the source. The digests of "abc" and of a message of two blocks are
derived from it round by round (`AnswerToAbc`, `AnswerToTwoBlocks`), and its constants are the roots they are said to
be (`ConstantsAreRoots`). `Sha1Runs` runs arbitrary sequences of Reset, Input and Result against a machine that only
remembers the octets supplied. Reaching 2^61 octets sets the error value 1, and the call that does so still reports
success, as in the code. A null digest or message is modelled, a null context is not.

**picojson.** A char stands for one octet. `ParseValue` is a grammar on what is left to read, with the same order of
tests as the code; the class `Input` is the lazy cursor with `cur`, `consumed` and `line`. A failure tells what has
not been read, and whether the octet before it has been given back; the error message and the end position follow from
that. `JsonGrammar` is an independent grammar: trees that keep the text, with its space, escapes and digits, their
text and their value. The parser accepts exactly their texts and yields their values (`AcceptedExactly`). It is wider
than RFC 8259: zeros may lead a number and a point may stand without digits on one side. An array spends one of 100
units, an object needs one and spends none, so objects may be nested without bound (`ObjectsAreUnbounded`). Numbers
are exact: the serializer is modelled on integers below 2^53 in magnitude, which it prints in full, and the parser on
decimals without rounding.

**Frames.** `next_byte` reads the next octet of a buffer that holds the whole stream, and reports -1
with the error flag at its end, as the disabled receive path does (core/src/server/frame.cc:105-110). Length
octets are read from left to right. No length may be so large that adding it to the size of a message wraps
64 bits (`NoLengthWraps`), since the code then copies past its buffer; streams that obey section 5.2 of
RFC 6455 have no such length. Memory suffices and sends succeed. Two findings: the mask bit is never looked at, although
section 5.1 of RFC 6455 asks for unmasked frames to be refused (`MaskBitIsIgnored`,
`UnmaskedFrameIsAccepted`); and the terminator that `read_frame` appends falls outside the control payload
exactly when a control frame carries 125 octets, in accepted and in refused streams
(`EveryStreamIsGathered`, `LongestPayloadOverruns`). All theorems hold for those frames too, with the flag
`overrun` raised.

**Thread pool.** `PoolProtocol` is the state machine of all interleavings: each critical section is
one step, a thread asleep on a condition variable is in a phase of its own, and waking for no reason is a step.
Assumed, as the callers have it: no job is added once `thread_pool_destroy` has begun, and one
thread at a time waits on `working_cond`. `thread_pool_destroy` releases the queued nodes and leaves `head` as it
is; so does the model, and `NothingStartsAfterShutdown` shows that no released node is used.
Progress is proved as a measure and as what holds when no worker can make a step; that jobs return is
assumed. `thread_pool_wait` returns exactly when no thread is left, after destroy, and otherwise when no worker
holds a job (`WaitReturns`), so it may return although a job is queued (`WaitMayMissAQueuedJob`).

**Base64.** `size_t` is 64 bits wide and malloc succeeds. The alphabet is the one of
core/include/jericho/crypt/base64_c.h:18-19. Encoding no octets gives no symbols, and decoding no symbols is an error;
this is the only input the round trip does not hold for. The output buffer has no octet to spare exactly when the
length is 1 modulo 3 and the last line is not full.

**Bifrost.** `Fulfill` is the whole decision of `Bifrost::fulfill` on a node: tickets with their messages, and
latencies. Replies to a broadcast come in any order, repeated, with unknown ids and mixed with any other traffic. What
is delivered is independent of the order of arrival exactly when no message gets two different answers, because the
first answer wins (`OrderMattersExactlyForDifferentAnswers`, `TwoAnswersToOneMessage`). `fetch` also writes to the
messages (core/src/server/fetch.cc:549-556); the theorems on a broadcast speak of runs in which it does not. For a
ricochet both nodes hold the ticket, and each answer is given as it stands when the callback comes back, with the
latency measured by then. Latencies are real numbers. The callback may as well travel as the headers of printed jobs
(`RunOverTheWire`): its counters stay ints for every limit that is not negative (`CountersStayInts`). After the run
both nodes still hold the ticket, because a resolved callback is sent to nobody (`TicketOutlivesTheRun`). Which urls
are addresses is a parameter (`isAddress`); the callers of `Bifrost::buffer` use the message at once, so they need
one. The numeric headers of a job are numbers: `std::stoi` ends the program otherwise.

**Job requests.** `Print` is the non-binary text for the protocol `job`, and `Composed` what `sprintf` makes of it:
every part ends at its first NUL, and the body is itself the format, in which only `%%` has a meaning without
arguments. They are the same exactly when no part holds a NUL and the body no percent sign (`ComposedExactly`). `Eval`
follows `Request::eval` with its cases, including the comparison of sizes without sign. prizm/prizm.h is not part of
this model; `prizm::erase` is taken to remove every occurrence of a character, and `prizm::tokenize` to split at every
one. What the decoder of OpenSSL makes of binary content is a parameter. The headers of a message may be visited in
any order. `Sendable` says what the callers have to keep out of path, headers and body; an empty body comes back as
well. The body comes back exactly when it holds no blank line; with one, the request line and the headers are lost as
well unless a single block is left of the body (`BodyRecoveredExactly`, `BlankLineLosesTheJob`). Requests of any verb
are read back field by field (`QueryIsRead`, `FormIsRead`, `BinaryIsRead`); later arguments override earlier ones, and
a form overrides the query. A form of a single argument is not read at all, because the code looks for an ampersand
first (`FormIsRead`).

**Quorum.** Membership is fixed and members have different names. Their counts are given at the start, since the
constructor does not set them (core/include/jericho/cluster/cluster_quorum.h:29-36). `quorumUpdate` takes every port
to belong to 127.0.0.1 and to a member. `LeastServed` leaves the order among equals open, as the hash map and the sort
do; the theorems hold for every choice. `ServeRounds` selects and updates in turn, as a round of training does in
core/src/federate/federator.cc:35-46, which is commented out there.

## Model

| member | source | states |
|---|---|---|
| Sha1Runs.StreamingIsOneShot | core/src/crypt/sha1.cc:59-209 | after a reset, however a message is cut into Input calls, Result is the digest of RFC 3174 exactly below 2^61 octets, and the error 1 otherwise |
| Sha1Runs.LateOctetsAreRefused | core/src/crypt/sha1.cc:101-209 | a second Result gives the same digest; octets behind a Result are refused with the error 3, and so is every later Result |
| Sha1Answers.AnswerToAbc | core/src/crypt/sha1.cc:231-316 | the digest of "abc" is A9993E36 4706816A BA3E2571 7850C26C 9CD0D89D, derived from the rounds |
| Sha1Answers.AnswerToTwoBlocks | core/src/crypt/sha1.cc:231-316 | the digest of a message of 64 octets, which takes two blocks; the message is "abc" with its padding |
| Sha1Answers.ConstantsAreRoots | core/src/crypt/sha1.cc:233-240 | the round constants are the roots of 2, 3, 5 and 10, scaled by 2^30 and rounded down |
| Sha1Runs.RunsAgree | core/src/crypt/sha1.cc:59-209 | every run of Reset, Input and Result answers like a machine that remembers the octets and hashes them in one shot |
| Sha1Runs.RunsAfterReset | core/src/crypt/sha1.cc:59-209 | in every run the flags follow the one-shot machine; while neither is set the block index is the length modulo 64 and the length words hold the bit length |
| Sha1Runs.StepSimulates | core/src/crypt/sha1.cc:101-209 | one operation gives the same answer on both sides and keeps them in step, errors included |
| Sha1Runs.InputOctetsHolds | core/src/crypt/sha1.cc:184-206 | the loop of Input keeps hash, block, index and lengths equal to those of the message so far, up to the limit |
| Sha1Runs.LengthCounts | core/src/crypt/sha1.cc:189-198 | the two length words count eight per octet and the error is set exactly at 2^61 octets |
| Sha1Runs.PadMessageHashes | core/src/crypt/sha1.cc:341-387 | padding the buffered block, in one extra block or two, hashes the padded message of RFC 3174 |
| Sha1Spec.PadLength | core/src/crypt/sha1.cc:349-372 | the padded message is a whole number of blocks, one more or two more than the message |
| Sha1Imperative.Sha1Context.Reset | core/src/crypt/sha1.cc:59-80 | every field is set, the block keeps what it held |
| Sha1Imperative.Sha1Context.Input | core/src/crypt/sha1.cc:159-209 | the loop over the message leaves the context the specification gives, with the same code, null and empty messages included |
| Sha1Imperative.Sha1Context.InputOneOctet | core/src/crypt/sha1.cc:186-203 | one turn of the loop |
| Sha1Imperative.Sha1Context.FillSchedule | core/src/crypt/sha1.cc:244-258 | both loops fill the schedule of the block |
| Sha1Imperative.Sha1Context.RunRounds | core/src/crypt/sha1.cc:260-307 | the four loops with rotating variables compute the recursive eighty rounds |
| Sha1Imperative.Sha1Context.ProcessMessageBlock | core/src/crypt/sha1.cc:231-316 | the hash is compressed with the block and the index cleared |
| Sha1Imperative.Sha1Context.PadMessage | core/src/crypt/sha1.cc:341-387 | filling the block in place gives the specified padding |
| Sha1Imperative.Sha1Context.Result | core/src/crypt/sha1.cc:101-137 | the digest or the error, and the state it leaves behind |
| JsonRoundTrip.ParseInvertsSerialize | core/include/jericho/picojson.h:529-1032 | parsing a serialized value, compact or prettified, gives the value back exactly when it fits the depth budget and fails otherwise |
| JsonGrammar.AcceptedExactly | core/include/jericho/picojson.h:689-928 | the parser accepts a text exactly when it is space, the text of a well-spelled value that the budget allows, and a rest that does not go on with a number; it yields the value that text spells and leaves the rest |
| JsonGrammar.PhraseAccepted | core/include/jericho/picojson.h:876-928 | every well-spelled text within the budget is accepted with its value, whatever follows |
| JsonGrammar.PhraseIsSpelled | core/include/jericho/picojson.h:876-928 | every accepted text is the text of a well-spelled value within the budget |
| JsonGrammar.PiecesParse | core/include/jericho/picojson.h:779-818 | a string of characters, short escapes, escaped units and surrogate pairs is read as what they stand for |
| JsonGrammar.StringIsSpelled | core/include/jericho/picojson.h:779-818 | every accepted string is one: no control character, no other escape, no lone surrogate |
| JsonGrammar.NumberIsSpelled | core/include/jericho/picojson.h:856-872 | what strtod accepts in full is sign, digits with at most one point, and an exponent with digits |
| JsonRoundTrip.BodyParses | core/include/jericho/picojson.h:581-636 | the same behind any indentation and in front of any text that does not continue a number |
| JsonRoundTrip.QuotedParses | core/include/jericho/picojson.h:529-563 | every string, whatever its octets, is read back from its quoted and escaped form |
| JsonRoundTrip.NumberParses | core/include/jericho/picojson.h:856-872 | a decimal integer is read back in full and the text behind it is left |
| JsonProperties.ParsedValueSound | core/include/jericho/picojson.h:876-928 | an accepted value fits the budget, its objects are ordered maps, and something has been consumed |
| JsonProperties.AcceptedArrayDepth | core/include/jericho/picojson.h:996-1017 | with the default budget no path of an accepted value has more than 100 arrays |
| JsonProperties.ObjectsAreUnbounded | core/include/jericho/picojson.h:1012-1027 | objects spend nothing: with one unit left they are accepted at any depth |
| JsonProperties.InsertIsMapUpdate | core/include/jericho/picojson.h:1019-1023 | assigning to a key changes that key and no other |
| JsonProperties.InsertKeepsOrder | core/include/jericho/picojson.h:1019-1023 | and keeps the members in key order |
| JsonProperties.LessIsLexicographic | core/include/jericho/picojson.h:1019-1023 | the order of keys is that of the first octet that differs, a prefix first |
| JsonProperties.ValueUtf8 | core/include/jericho/picojson.h:717-928 | from a text in well-formed UTF-8 every string and key that is produced is well-formed UTF-8, and so is the rest |
| JsonProperties.CodepointUtf8 | core/include/jericho/picojson.h:738-777 | an escape that is accepted yields the UTF-8 form of a scalar value |
| JsonSpelling.EscapeParses | core/include/jericho/picojson.h:738-777 | the escape of any scalar value of four digits spells exactly that value |
| JsonSpelling.EscapeInString | core/include/jericho/picojson.h:779-818 | inside a string every scalar value may be escaped, by one escape or a pair |
| JsonSpelling.EscapeExamples | core/include/jericho/picojson.h:738-777 | the escapes of U+20AC and of the clef U+1D11E, octet by octet |
| JsonSpelling.EscapedSpelling | core/include/jericho/picojson.h:529-557 | which characters the serializer escapes, and how |
| JsonSpelling.ShortEscapes | core/include/jericho/picojson.h:788-812 | the eight short escapes, by number |
| JsonSpelling.HexDigitsAre | core/include/jericho/picojson.h:721-733 | the hexadecimal digits, in both cases |
| JsonSpelling.HexValuesAre | core/include/jericho/picojson.h:721-733 | and their values |
| JsonSpelling.Utf8Examples | core/include/jericho/picojson.h:762-775 | the UTF-8 forms of four characters, one for each length |
| JsonSpelling.NumberNotation | core/include/jericho/picojson.h:856-872 | the number is that of all its digits, scaled by the exponent less the digits behind the point |
| JsonSpelling.NumberExamples | core/include/jericho/picojson.h:856-872 | three concrete numbers with points and exponents |
| JsonSpelling.WholeExample | core/include/jericho/picojson.h:581-644 | a value with its compact and its prettified text, and the way back |
| JsonSpelling.ErrorExample | core/include/jericho/picojson.h:1104-1118 | the message for a concrete text that is refused |
| JsonProperties.SurrogatePairParses | core/include/jericho/picojson.h:748-764 | a pair of surrogate escapes spells exactly the scalar value beyond U+FFFF it stands for |
| JsonProperties.SurrogateNeedsPartner | core/include/jericho/picojson.h:743-760 | a surrogate escape is accepted exactly when it is a high one and the escape of a low one follows |
| Json.Input.Getc | core/include/jericho/picojson.h:661-674 | the lazy cursor advances the plain position by one, and line is one plus the line breaks before it |
| Json.Input.Ungetc | core/include/jericho/picojson.h:675-677 | gives back the last octet |
| Json.Input.SkipWs | core/include/jericho/picojson.h:689-697 | what is left is the text without leading space |
| Json.Input.Match | core/include/jericho/picojson.h:706-714 | consumes a pattern, or as much as agrees with it |
| Json.Input.Expect | core/include/jericho/picojson.h:698-705 | skips space, then consumes the character if it is the expected one and only then |
| Json.ParseQuadHex | core/include/jericho/picojson.h:717-736 | four hexadecimal digits or -1 |
| Json.ParseCodepoint | core/include/jericho/picojson.h:738-777 | the octets appended are those of the specification, or failure |
| Json.ParseString | core/include/jericho/picojson.h:779-818 | the loop over characters and escapes reads the string of the specification |
| Json.ParseNumberText | core/include/jericho/picojson.h:856-874 | the longest run of number characters |
| Json.ParseArray | core/include/jericho/picojson.h:820-835 | accepts, rejects and builds what the grammar says, spending and restoring one unit |
| Json.ParseObject | core/include/jericho/picojson.h:837-854 | the same for objects, which spend nothing and leave one unit more in a context that is not used again |
| Json.Parse | core/include/jericho/picojson.h:876-928 | terminates on every text and agrees with the grammar |
| Json.ParseContext.ParseArrayStart | core/include/jericho/picojson.h:996-1002 | spends a unit of the budget, or refuses and changes nothing |
| Json.ParseContext.ParseArrayItem | core/include/jericho/picojson.h:1004-1010 | appends one parsed item, with the budget as it stands |
| Json.ParseContext.ParseObjectItem | core/include/jericho/picojson.h:1019-1026 | parses the value of one key into the object |
| Json.ParseText | core/include/jericho/picojson.h:1104-1131 | the value, or the message for the place where the grammar fails; the text is read up to the value's end, or to the end of the line that is quoted |
| Json.ErrorMessage | core/include/jericho/picojson.h:1106-1118 | names the line and the printable rest of it |
| Json.Serialize | core/include/jericho/picojson.h:581-644 | appends exactly the text of the value |
| Json.SerializeString | core/include/jericho/picojson.h:559-564 | appends the quoted and escaped string |
| FrameProofs.AcceptedExactlyWhenLegal | core/src/server/frame.cc:222-420 | next_frame returns 0 exactly for streams that start with a legal sequence under section 5.4 of RFC 6455 |
| FrameProofs.MessageIsReassembled | core/src/server/frame.cc:222-420 | for every legal sequence with control frames anywhere: the unmasked concatenation, the first opcode, one answer for each PING in order, and when the terminator overruns |
| FrameProofs.CloseInterrupts | core/src/server/frame.cc:375-398 | CLOSE ends the sequence at any point with its own payload; answers, PONG and overrun are those of the sequence |
| FrameExamples.LegalInNumbers | core/src/server/frame.cc:252-294 | legality in the numbers of RFC 6455: reserved bits, opcodes, fragmentation, closing state, 16 MB |
| FrameExamples.OverrunInNumbers | core/src/server/frame.cc:201-217 | in a legal sequence the terminator overruns exactly for a control frame of 125 octets |
| FrameExamples.KindIs | core/src/server/frame.cc:280-281 | the kind of a message is the opcode of its first data frame that is no continuation |
| FrameExamples.MaskedText | core/src/server/frame.cc:222-421 | the masked "Hello" of section 5.7 of RFC 6455, octet by octet |
| FrameExamples.FragmentedText | core/src/server/frame.cc:222-421 | a fragmented message with a PING and a PONG between its fragments, octet by octet |
| FrameExamples.CloseFrame | core/src/server/frame.cc:375-398 | a CLOSE frame, octet by octet |
| FrameExamples.PingIsAnswered | core/src/server/frame.cc:363-373 | each PING is answered by one PONG frame with its data, in order |
| FrameProofs.EveryStreamIsGathered | core/src/server/frame.cc:222-421 | for every stream, accepted or not: data, answers and overrun come from the frames taken, and the terminator overruns exactly for control payloads of 125 octets |
| FrameProofs.LongestPayloadOverruns | core/src/server/frame.cc:201-217 | a CLOSE and a refused stream that overrun |
| FrameProofs.LegalIsAccepted | core/src/server/frame.cc:244-410 | from the middle of any message on, a legal continuation is accepted with what it carries |
| FrameProofs.AcceptedIsLegal | core/src/server/frame.cc:244-410 | an accepted stream is the encoding of a legal sequence and a rest |
| FrameProofs.LegalFormsAgree | core/src/server/frame.cc:252-294 | legality by position in the sequence and legality frame by frame are the same |
| FrameProofs.ScanEncode | core/src/server/frame.cc:140-198 | scanning inverts the encoding of every well-formed frame |
| FrameProofs.EncodeScan | core/src/server/frame.cc:140-198 | every scanned frame is the encoding of what was scanned |
| FrameExamples.FrameLayout | core/src/server/frame.cc:140-198 | the octets of a frame from a client: flags, opcode, the three length forms, key and payload |
| FrameProofs.LastEchoIsRecorded | core/src/server/frame.cc:338-360 | for every stream, accepted or not: the number recorded is that of the last frame taken that echoes a ping, and the earlier one if there is none |
| FrameProofs.EchoedPingIsRecorded | core/src/server/frame.cc:338-360 | a client that echoes a ping has its number recorded, unless a later PONG echoes another one |
| FrameProofs.PongOfPing | core/src/server/ping_pong.cc:12-25 | decoding the payload of a ping gives its number back, negative numbers included |
| FrameExamples.PingLayout | core/src/server/ping_pong.cc:19-25 | the payload of a ping is its number in two's complement, most significant octet first |
| FrameProofs.MaskedIsTransparent | core/src/server/frame.cc:197-197 | unmasking undoes masking |
| Octets.XorByteBits | core/src/server/frame.cc:197-197 | each bit of a masked octet is set exactly when the bits of the octet and of the key differ |
| FrameMessages.MaskedMessageArrives | core/src/server/frame.cc:222-421 | fragments with any keys and pings and pongs between them arrive as their concatenation, with the kind of the first and one answer for each ping |
| FrameProofs.MaskBitIsIgnored | core/src/server/frame.cc:283-284 | changing mask bits changes nothing about what next_frame returns, answers, records and leaves |
| FrameProofs.UnmaskedFrameIsAccepted | core/src/server/frame.cc:283-284 | an unmasked text frame that is accepted, octet by octet |
| FrameProofs.ServerFrameDecodes | core/src/server/frame.cc:3-78 | a frame from the server decodes to its opcode and data, in the shortest length form |
| FrameExamples.ServerLayout | core/src/server/frame.cc:13-61 | the octets of a frame from the server, in numbers |
| Frames.FrameHeader | core/src/server/frame.cc:13-42 | the first octets in all three length forms |
| Frames.WsSendFrame | core/src/server/frame.cc:3-78 | hands one complete frame to the client |
| Frames.PongMessageToInt32 | core/src/server/ping_pong.cc:12-17 | a big-endian signed number |
| Frames.Int32ToPingMessage | core/src/server/ping_pong.cc:19-25 | the octets of a number |
| Frames.SendPing | core/src/server/ping_pong.cc:27-47 | numbers the ping and sends it, for an open client only |
| Frames.FrameReader.NextByte | core/src/server/frame.cc:92-118 | the next octet, or -1 and the error flag at the end |
| Frames.FrameReader.ReadLength | core/src/server/frame.cc:140-152 | the length from 0, 2 or 8 further octets, or the end of the stream |
| Frames.FrameReader.CopyPayload | core/src/server/frame.cc:190-198 | unmasked octets behind what the buffer holds |
| Frames.FrameReader.ReadControl | core/src/server/frame.cc:131-220 | the payload of a control frame, and when the terminator overruns the buffer |
| Frames.FrameReader.ReadData | core/src/server/frame.cc:131-220 | the message grows by the unmasked payload, within the size limit, and a final fragment is terminated |
| Frames.FrameReader.Header | core/src/server/frame.cc:245-294 | the checks on the first two octets |
| Frames.FrameReader.Control | core/src/server/frame.cc:338-398 | reads a control frame, answers a PING, records a PONG |
| Frames.FrameReader.Round | core/src/server/frame.cc:244-410 | one round of the loop is one step of the specification |
| Frames.FrameReader.NextFrame | core/src/server/frame.cc:222-421 | status, type, message, size, position, frames sent and PONG recorded are those of the specification |
| PoolProperties.JobsArePartitioned | core/src/server/thread_pool.cc:30-85 | in every reachable state each submitted job is in exactly one place: queued, with a worker, finished or discarded |
| PoolProperties.StartedInSubmissionOrder | core/src/server/thread_pool.cc:30-71 | jobs are taken in the order of submission, each at most once; what is discarded is the rest |
| PoolProperties.AddedIsSubmitted | core/src/server/thread_pool.cc:158-187 | every job that is added is among the submitted ones, with its function and argument, for good |
| PoolProperties.CountersAreExact | core/src/server/thread_pool.cc:65-82 | working_count is the number of jobs held and thread_count the number of threads that have not left |
| PoolProperties.NoLostWakeUps | core/src/server/thread_pool.cc:58-84 | a sleeping worker means an empty queue and no shutdown; a sleeping waiter means work left or, in shutdown, a live thread |
| PoolProperties.WorkLowersLoad | core/src/server/thread_pool.cc:58-79 | every step of the loop of a worker lowers a measure |
| PoolProperties.WorkIsBounded | core/src/server/thread_pool.cc:58-79 | in every run without submissions, spurious wake-ups or destroy the worker steps are bounded by that measure |
| PoolProperties.QuietMeansDone | core/src/server/thread_pool.cc:58-79 | when no worker can make a step, every job is finished and nobody waits in vain |
| PoolProperties.NothingStartsAfterShutdown | core/src/server/thread_pool.cc:60-63 | once shutdown is set it stays, no job is taken and no discarded job ever runs |
| PoolProperties.ShutdownIsBounded | core/src/server/thread_pool.cc:126-155 | from the call of destroy on each worker makes at most three steps, in every run |
| PoolProperties.StepsLowerRank | core/src/server/thread_pool.cc:58-79 | each step of a worker in shutdown brings it nearer to its end |
| PoolProperties.QuietMeansNoWork | core/src/server/thread_pool.cc:58-79 | no worker can make a step exactly when all sleep or have left |
| PoolProperties.ShutdownReachesFree | core/src/server/thread_pool.cc:136-155 | when they can make none, all have left and destroy goes through |
| PoolProperties.ShutdownIsNeverStuck | core/src/server/thread_pool.cc:81-84 | until the pool is freed some thread can make a step, and a worker can while the waiter sleeps |
| PoolProperties.FreedPoolIsUntouched | core/src/server/thread_pool.cc:148-154 | free is reached only with no thread left, and nothing is possible afterwards |
| PoolProperties.WaitReturns | core/src/server/thread_pool.cc:189-204 | wait returns exactly when no thread is left, after destroy, and otherwise exactly when no worker holds a job |
| PoolProperties.AfterWaitCall | core/src/server/thread_pool.cc:189-204 | the same for a whole call with its wake-ups and the steps of all other threads in between |
| PoolProperties.WaitMayMissAQueuedJob | core/src/server/thread_pool.cc:195-202 | a run in which it returns although a job is queued |
| PoolProtocol.RunInv | core/src/server/thread_pool.cc:54-204 | the invariant holds in every state of every run |
| PoolProtocol.NextInv | core/src/server/thread_pool.cc:54-204 | and is kept by every step |
| ThreadPools.ThreadPool.constructor | core/src/server/thread_pool.cc:87-124 | an empty pool, with two threads when none are asked for |
| ThreadPools.ThreadPool.Add | core/src/server/thread_pool.cc:158-187 | a fresh node at the end of the list, and a broadcast |
| ThreadPools.ThreadPool.GetWorker | core/src/server/thread_pool.cc:30-52 | the first node leaves the list, or null |
| ThreadPools.ThreadPool.TakeTurn | core/src/server/thread_pool.cc:59-67 | sleep, leave or take, with the new state and the signal |
| ThreadPools.ThreadPool.FinishTurn | core/src/server/thread_pool.cc:74-78 | one job less, and when the waiter is signalled |
| ThreadPools.ThreadPool.Destroy | core/src/server/thread_pool.cc:136-146 | every queued node is released once, in order; shutdown and a broadcast |
| Base64Spec.DecodeEncode | core/src/crypt/base64_c.cc:23-149 | decoding undoes encoding exactly for non-empty data |
| Base64Spec.LinesAreFull | core/src/crypt/base64_c.cc:44-72 | newlines stand exactly behind every 72 characters and at the end |
| Base64Spec.SkippedMakesNoDifference | core/src/crypt/base64_c.cc:118-121 | octets outside the alphabet may stand anywhere |
| Base64Spec.OverflowIsCaught | core/src/crypt/base64_c.cc:31-35 | in 64-bit arithmetic the test refuses exactly the lengths whose fourfold overflows |
| Base64Spec.AllocationIsTight | core/src/crypt/base64_c.cc:31-36 | the buffer always suffices, and exactly when nothing is to spare |
| Base64Spec.SymbolsDecode | core/src/crypt/base64_c.cc:44-69 | the symbols of any data decode to it |
| Base64Examples.AlphabetIs | core/include/jericho/crypt/base64_c.h:18-19 | the alphabet in characters, and its inverse |
| Base64Examples.OthersAreSkipped | core/src/crypt/base64_c.cc:98-107 | which octets are skipped |
| Base64Examples.QuadKeepsBits | core/src/crypt/base64_c.cc:46-50 | three octets and their four symbols are the same number of 24 bits |
| Base64Examples.TripleKeepsBits | core/src/crypt/base64_c.cc:127-129 | and so are four symbols and their three octets |
| Base64Examples.QuadByQuad | core/src/crypt/base64_c.cc:116-145 | a quad without padding goes on; one or two padding characters, wherever they stand, end the data; more are refused |
| Base64Examples.OddLengthsAreRefused | core/src/crypt/base64_c.cc:103-110 | no symbols, or a number of them that four does not divide, are refused |
| Base64Examples.TestVectors | core/src/crypt/base64_c.cc:23-78 | vectors of section 10 of RFC 4648, and one with the last two symbols of the alphabet |
| Base64.Base64Encode | core/src/crypt/base64_c.cc:23-78 | writes the encoding and a terminator inside the buffer, or null on overflow |
| Base64.Finish | core/src/crypt/base64_c.cc:57-77 | the padded quad, the last newline and the terminator |
| Base64.BuildTable | core/src/crypt/base64_c.cc:98-101 | the decoding table inverts the alphabet |
| Base64.CountKept | core/src/crypt/base64_c.cc:103-107 | counts the octets that are not skipped |
| Base64.PutQuad | core/src/crypt/base64_c.cc:127-143 | a full block gives three octets less the padding, ends the data, or is refused |
| Base64.Base64Decode | core/src/crypt/base64_c.cc:91-149 | the result of the specification, never beyond three quarters of the symbols |
| BifrostGather.GatherCompletesOnce | core/src/message/bifrost.cc:139-167 | fulfill returns 1 for the reply that completes a broadcast and 0 for every other; the result has the first answers in the order of sending, and the ticket is gone |
| BifrostAnswers.DeliveredInFull | core/src/message/bifrost.cc:139-167 | a completed broadcast delivers a text in which item i has the url of message i and the content of the first reply to it, read with the parser |
| BifrostAnswers.BatchInFull | core/src/message/bifrost.cc:682-697 | the text of a result is an object with the command, the status and one entry for each response in order, with url, message and status |
| BifrostGather.BroadcastDeliversOnce | core/src/message/bifrost.cc:97-202 | in every run that answers every message, exactly one reply returns 1 |
| BifrostGather.TicketAfter | core/src/message/bifrost.cc:139-167 | what any replies have made of a ticket, other traffic included |
| BifrostGather.OrderMattersExactlyForDifferentAnswers | core/src/message/bifrost.cc:139-167 | what fulfill delivers for a broadcast is the same in every order of the same replies exactly when no message has two different answers |
| BifrostGather.DisagreeingOrder | core/src/message/bifrost.cc:145-157 | otherwise moving some answer to the front delivers something else |
| BifrostGather.AgreeingAnswers | core/src/message/bifrost.cc:145-157 | agreeing answers give the same entries in any order, duplicates included |
| BifrostGather.TwoAnswersToOneMessage | core/src/message/bifrost.cc:145-157 | one message answered twice: the first answer is delivered, in both orders |
| BifrostGather.DeliveryIs | core/src/message/bifrost.cc:139-167 | a run delivers the first answers once every message is answered, and nothing before |
| BifrostGather.BatchParses | core/src/message/bifrost.cc:682-697 | the parser of picojson reads the result back |
| BifrostGather.TextTellsResponses | core/src/message/bifrost.cc:682-697 | different results have different texts |
| BifrostRicochet.ResolvedAtTwiceTheLimit | core/src/message/bifrost.cc:170-191 | with a positive limit L the callback is resolved exactly by the fulfill step 2L, at the initiator |
| BifrostRicochet.ResolvedOnlyForOtherLimits | core/src/message/bifrost.cc:175-191 | a limit of zero ends at once at the other node, a negative one never |
| BifrostRicochet.CountStaysWithinLimit | core/src/message/bifrost.cc:175-178 | count never passes the limit, and the bounces left go down by one each |
| BifrostRicochet.AverageOverLimitSamples | core/src/message/bifrost.cc:171-187 | for a fresh ticket the average is over exactly L samples, the latencies of the messages of the initiator |
| BifrostRicochet.MeanOnlyForAverage | core/src/message/bifrost.cc:180-187 | an average is taken exactly at resolution of a callback with the function AVG |
| BifrostAnswers.MeanIs | core/src/message/bifrost.cc:181-186 | the sum of samples adds up, and the mean times their number is the sum |
| BifrostAnswers.MeanExample | core/src/message/bifrost.cc:181-186 | the mean of three concrete samples |
| BifrostRicochet.CallbackAfter | core/src/message/bifrost.cc:170-191 | the callback and its place after any number of bounces, for any limit |
| BifrostRicochet.TicketOutlivesTheRun | core/src/message/bifrost.cc:116-191 | after the run both nodes hold the ticket; the resolved callback would end it at either, if it were sent there |
| RicochetWire.RunOverTheWire | core/src/message/bifrost.cc:586-614 | in every run, fulfill does with the request read from the printed job what it does with the callback itself |
| RicochetWire.CountersStayInts | core/src/message/bifrost.cc:175-178 | the counters are ints for every limit that is not negative, and for a negative one until 2^31 counts |
| BifrostRicochet.ResolvedCallbackEndsTicket | core/src/message/bifrost.cc:116-123 | a resolved callback ends the ticket, and later jobs find none |
| BifrostAnswers.SimpleReplyDelivers | core/src/message/bifrost.cc:125-135 | a simple reply delivers its content, ends its ticket and touches no other |
| BifrostAnswers.BounceAddsASample | core/src/message/bifrost.cc:170-191 | a callback on its way adds one latency and changes nothing else on the node |
| BifrostAnswers.OtherJobsChangeNothing | core/src/message/bifrost.cc:97-202 | an unknown ticket, an unknown type, and a callback where none belongs or none where one does: nothing happens |
| Bifrosts.Bifrost.Fulfill | core/src/message/bifrost.cc:97-202 | status, response, callback, average and the whole state of the node are those of the specification |
| Bifrosts.Bifrost.Collect | core/src/message/bifrost.cc:145-157 | the loop over the messages marks the answered one and gathers the responses |
| Bifrosts.Bifrost.Ricochet | core/src/message/bifrost.cc:170-191 | records the latency, bounces or resolves |
| Bifrosts.BatchSerialize | core/src/message/bifrost.cc:682-697 | builds and serializes the result |
| Bifrosts.Bifrost.NewBuffer | core/src/message/bifrost.cc:361-395 | a new message with the next id, or none for a url that is no address |
| Bifrosts.Bifrost.BroadcastAsync | core/src/message/bifrost.cc:452-478 | a new ticket with one message for each url, numbered in order, with its headers or without content none |
| Bifrosts.NewMessages | core/src/message/bifrost.cc:457-470 | the messages of a broadcast are unanswered and have different ids |
| Bifrosts.Bifrost.SendAsync | core/src/message/bifrost.cc:480-507 | a new ticket with one message |
| Bifrosts.Bifrost.HeadersAddress | core/src/message/bifrost.cc:452-507 | the headers of a message tell type, ticket and message number as fulfill reads them |
| Bifrosts.Bifrost.RicochetAsync | core/src/message/bifrost.cc:625-652 | a new ticket with one message that carries the callback |
| Bifrosts.Bifrost.RicochetReply | core/src/message/bifrost.cc:586-614 | the same ticket with a new message that carries the callback back |
| Bifrosts.Bifrost.ClientProfile | core/include/jericho/api/fl_api.h:54-62 | the callback a ricochet starts with, and the message that carries it to the url |
| Bifrosts.Bifrost.PingRicochet | core/include/jericho/api/fl_api.h:64-84 | answers an unresolved callback, starts training after a resolved one, and does nothing without one; with the headers and contents of all messages |
| Bifrosts.Bifrost.Send | core/src/message/bifrost.cc:509-552 | a message with a new ticket that is not registered, without the callback |
| Bifrosts.Callback.Serialize | core/include/jericho/message/callback2.h:42-51 | adds the eight headers |
| CallbackSpec.CallbackRoundTrip | core/include/jericho/message/callback2.h:30-51 | reading the headers of a callback gives it back, whatever other headers there are |
| CallbackSpec.StoiDecimal | core/include/jericho/message/callback2.h:35-50 | std::stoi inverts std::to_string on every int |
| CallbackSpec.HeadersExample | core/include/jericho/message/callback2.h:30-51 | each of the eight headers tells its field |
| CallbackSpec.StoiReads | core/include/jericho/message/callback2.h:35-50 | leading space, a sign and digits are read up to the first other character, if the number is an int |
| CallbackSpec.StoiRefuses | core/include/jericho/message/callback2.h:35-50 | without a digit behind space and sign there is no number |
| JobRoundTrip.EvalInvertsPrint | core/src/server/request.cc:14-150 | parsing the text of a job recovers verb, path, protocol, headers, body and callback |
| JobRoundTrip.HostAndSizeRecovered | core/src/server/request.cc:79-107 | and host, port and body size, when the message does not override them |
| JobRoundTrip.BodyRecoveredExactly | core/src/server/request.cc:31-57 | the body comes back exactly when it holds no blank line, request line and headers exactly when it holds none or leaves one block |
| JobRoundTrip.EvalOfPrint | core/src/server/request.cc:14-200 | the result of parsing for every body: everything, one block for the body, or nothing |
| JobRoundTrip.BlankLineLosesTheJob | core/src/server/request.cc:31-57 | a job with a blank line in its body, of which nothing comes back |
| JobRoundTrip.TakeHeaders | core/src/server/request.cc:72-115 | the loop over the lines of any printed headers applies them one by one |
| JobRoundTrip.Attached | core/src/server/request.cc:81-118 | a message with a callback attached carries that callback |
| JobProofs.ContentOfPrint | core/src/server/request.cc:20-57 | where a printed text is split into headers and content, for every body |
| JobProofs.BlankInPrint | core/src/server/request.cc:20-26 | the first blank line of a printed text is the one behind its headers |
| JobProofs.BlockHasNoBlank | core/src/server/request.cc:36-44 | no piece between blank lines holds another one |
| JobArgs.QueryIsRead | core/src/server/request.cc:14-150 | any request but a POST: words, host, size, flags, headers, callback and content come back, the path is cut at the question mark, and the arguments are the map of the pairs behind it |
| JobArgs.FormIsRead | core/src/server/request.cc:182-199 | a POST form of two or more pairs overrides the arguments of the path; one of a single pair adds nothing |
| JobArgs.BinaryIsRead | core/src/server/request.cc:152-181 | binary content of a POST is replaced by what is decoded, or dropped |
| JobArgs.FailsExactly | core/src/server/request.cc:72-118 | a request is given up exactly when a size or a number of the callback cannot be read |
| JobArgs.NotARequest | core/src/server/request.cc:20-57 | a text without a blank line is not valid, and nothing is read unless it has three octets |
| JobArgs.FirstIsFound | core/src/server/request.cc:20-26 | a search finds the first occurrence and passes over none |
| JobArgs.ArgsTaken | core/src/server/request.cc:141-149 | key=value pairs between ampersands are added as a map, later ones overriding |
| JobArgs.NoArgument | core/src/server/request.cc:141-149 | what holds no equals sign is no argument |
| JobArgs.SizeIs | core/src/server/request.cc:92-107 | digits are the size if that is an int; anything else is zero, and nothing at all throws |
| JobArgs.TabsAreDropped | core/src/server/request.cc:124-134 | tabs and carriage returns in the request line count for nothing |
| JobArgs.RestIsIgnored | core/src/server/request.cc:124-134 | what follows the third word of the request line is passed over |
| JobArgs.QueryExample | core/src/server/request.cc:14-150 | a request with one argument, octet by octet |
| JobWire.SendRequest | core/src/server/fetch.cc:111-139 | composes the text, for some order of the headers, with what sprintf does to NULs and percent signs |
| JobSent.ComposedExactly | core/src/server/fetch.cc:111-139 | the text that is sent is that of the job exactly when no part holds a NUL and the body no percent sign; otherwise it is shorter |
| JobSent.SentText | core/src/server/fetch.cc:111-139 | the text of a small job, octet by octet |
| JobSent.DoubledIsSent | core/src/server/fetch.cc:111-139 | a body with doubled percent signs is sent with single ones |
| JobSent.SentIsRead | core/src/server/request.cc:14-150 | end to end: from the text sprintf composes, everything of a sendable job comes back |
| JobWire.Request.Eval | core/src/server/request.cc:14-62 | every field, or the exception |
| JobWire.Request.Split | core/src/server/request.cc:32-44 | the pieces between blank lines |
| JobWire.Request.ParseHeaders | core/src/server/request.cc:64-200 | headers, callback, request line, path, arguments and the content of POST requests |
| JobWire.Request.ReadQuery | core/src/server/request.cc:137-150 | the path up to a question mark and the arguments behind it |
| JobWire.Request.Posted | core/src/server/request.cc:152-199 | a form adds arguments, binary content is decoded or dropped |
| JobWire.Request.AddArgs | core/src/server/request.cc:141-149 | the loop over the tokens of an argument list |
| JobWire.Request.ReadLine | core/src/server/request.cc:73-114 | what one line does, with every header that is treated specially |
| JobWire.Request.ReadLines | core/src/server/request.cc:68-118 | the loop over the lines |
| JobWire.Request.ReadWords | core/src/server/request.cc:120-134 | the loop over the request line |
| QuorumSpec.SpreadNeverGrows | core/src/cluster/cluster_index.cc:70-110 | no run of choices raises the spread of rounds above its initial value or one, whatever the order among equals |
| QuorumSpec.EveryMemberGetsItsShare | core/src/cluster/cluster_index.cc:70-110 | from equal counts, after t rounds of k places over n members each has gained tk/n, rounded down or up |
| QuorumSpec.PlacesAreCounted | core/src/cluster/cluster_index.cc:104-110 | every place given out is counted at one member |
| QuorumSpec.EvenCounts | core/src/cluster/cluster_index.cc:70-110 | counts within one of each other divide their total evenly |
| Quorums.ClusterIndex.QuorumSelect | core/src/cluster/cluster_index.cc:70-87 | the ports of the least served members in order, none when too many or a negative number is asked for |
| Quorums.ClusterIndex.QuorumUpdate | core/src/cluster/cluster_index.cc:104-110 | one more round for each mention of a port, and its member becomes dormant |
| Quorums.NamesAreLocal | core/src/cluster/cluster_index.cc:104-110 | a port names the member with that port on 127.0.0.1 |
| Quorums.ClusterIndex.ServeRound | core/src/cluster/cluster_index.cc:70-110 | selecting and updating serves a least served choice, or nobody for an impossible number |
| Quorums.ClusterIndex.ServeRounds | core/src/cluster/cluster_index.cc:70-110 | any number of rounds over local members is a fair run |
| Quorums.ClusterIndex.ShareRounds | core/src/cluster/cluster_index.cc:70-110 | t rounds of k places leave each local member with its share, tk/n rounded down or up |
| Quorums.ClusterIndex.QuorumMet | core/src/cluster/cluster_index.cc:112-123 | whether enough members have delivered |
| Quorums.Sort | core/src/cluster/cluster_index.cc:63-76 | an ordered permutation |
| Quorums.ClusterIndex.Enter | core/src/cluster/cluster_index.cc:125-128 | files a member under its name |

## Left out

- SHA-1: a null context, which has no state to speak of.
- picojson: `%.17g`, rounding and overflow of `strtod`, negative zero and the locale; numbers are exact reals here.
- picojson: `null_parse_context`, `operator==`, `evaluate_as_boolean` and `to_str`, and parsing from a stream.
- Frames: UTF-8 validation, which the build does not enable (`VALIDATE_UTF8` is not defined), and failures of memory or sending.
- Frames.FrameReader.NextByte: does not model the live code at the end of the buffer, which has no end condition; the end is reported as the disabled receive path does.
- Frames.FrameReader.ReadData: does not model a length that wraps 64 bits when it is added to the size, with which the source writes past its buffer.
- Frames.FrameReader.Round: excludes streams that hold such a length, for the same reason.
- Frames.FrameReader.NextFrame: excludes streams that hold such a length, for the same reason; section 5.2 of RFC 6455 forbids them.
- Frames.WsSendFrame: does not model that an index of type int counts the response, so sizes of 2^31 octets and more are beyond it.
- Frames.FrameReader.ReadControl: a terminator outside the payload raises a flag; what it overwrites is not modelled.
- Thread pool: failures of memory or thread creation, and a null pool; fairness of the scheduler is not assumed, so progress is stated by a measure.
- Base64: a failing malloc, and null pointers.
- Bifrosts.Bifrost.Fulfill: the branch `simple` also writes the content to the client, and `propogate` does nothing; neither has an effect here.
- Bifrosts.Bifrost.PingRicochet: does not model what the synchronous request for the resolution returns, which the source does not use.
- Bifrosts.Callback.Bounce: does not model the wrap-around of an int, which a negative limit could reach after 2^31 bounces.
- Bifrost: `cleanse`, `serve`, the synchronous `broadcast`, and `reply`: input and output, or clean-up whose intended claim does not hold.
- Bifrost: the decimal text of the average, which `std::to_string` rounds to six digits.
- JobWire.SendRequest: does not model a body with a conversion other than `%%`, which `sprintf` leaves undefined, a text longer than the buffer, binary content or the protocol `https`.
- JobWire.Request.Posted: does not model the decoder of binary content, a call into OpenSSL; its result is a parameter.
- Quorums.ClusterIndex.QuorumUpdate: does not model a port that belongs to no member, for which the source follows a null pointer.
- Quorum: `quorumTrain`, `quorumDrop`, `selectType` and `activateClient`, which set or list statuses; and the wrap-around of an int.
- Sockets, TLS, the select loop, files, processes, and the cryptography backed by OpenSSL: calls into code that cannot be seen here.
- `Trace`, `URL`, templates, routing tables and string helpers: easy, or without a claim that holds.
