# A verified model of ClueGetter

ClueGetter is a mail filter: it gathers the opinions of modules on a message, makes
a verdict of them, and keeps messages, quotas, greylisting state and rewritten
senders in stores that expire. This project models its hardest parts in Dafny and
proves what they are for. `dafny verify dfyconfig.toml` checks all of it.

| files | what they model |
|---|---|
| Wire, Digits, Skipping, Schema, CodecLaws, WireFormat, Acceptance | the Protocol Buffers codec as functions on bytes, its laws, and which literal tags carry which field (Protocol Buffers Encoding, sections "Base 128 Varints", "Message Structure" and "Last One Wins") |
| Wrapping | the decoders with the source's own 64-bit indices, and exactly where these matter |
| CodecBuffers, CodecObjects | the codec as it runs: index loops over byte arrays, and a class for each message type with Size, MarshalTo, Marshal and Unmarshal, proved equal to those functions |
| QuotaWindow, QuotaSafety, QuotaModule | the sliding-window quotas: one window over whole runs, the check-now, tally-later protocol, and the module on its store |
| VerdictSpec, VerdictLaws, GroupLaws, VerdictExact, VerdictEngine, GroupStartup | the verdict on a message: what it is, its laws, exactly when each verdict is given, and the loops that compute it in place |
| FanIn | the concurrent fan-in of the modules' answers as a state machine over all interleavings |
| MessageCache, SaveRestore | the cache of marshalled messages, and the way of a message into it and back |
| HeaderRewriting, HeaderLaws | the lists of headers to add and to delete, and what stands where in them |
| Greylisting | the greylisting decision and its store over whole runs |
| Whitelist | address ranges and the whitelist test |
| Addresses, Srs, SrsStore | mail addresses, sender rewriting and its store |
| ServiceRegistry | the time-bucketed registry of running services |

Bytes are integers from 0 to 255, and an or of disjoint bits is a sum. Doubles are
64-bit patterns in the codec and in saved messages, and reals in the verdict. Redis
is a map with expiry times under one clock in whole seconds that the runs move; SPF
queries, regular expressions and the arrival of answers are parameters. What Go
iterates in the order of a map is given as a sequence in any order.

Where a law does not hold for all inputs, it is stated with its exact condition: a
declared length whose field ends at or past 2^63, a quota period above a day,
thresholds that are not ordered or that are above the breaker, a greylisting period
of 90 minutes or more, an address whose local part holds an `@`, a cached message
without a queue id, headers that name a domain twice, an equals sign in the parts of
a rewritten address, updates more than sixty seconds apart. The rewritten sender is
stored as the message has it, not in lower case; the way back gives exactly that
sender when queue ids are distinct and hold no equals sign, and otherwise the sender
up to the case of letters.

## Model

| member | source | states |
|---|---|---|
| Wire.VarintRoundTrip | src/cluegetter/core/cluegetter.pb.go:754-762 | every 64-bit value, written as a varint and followed by anything, is read back as itself, and the reader stops after it |
| Wire.ReadVarintIff | src/cluegetter/core/cluegetter.pb.go:1027-1040 | the shift loop takes n bytes exactly when the first n bytes are one varint of at most ten bytes, canonical or not |
| Wire.VarintLocal | src/cluegetter/core/cluegetter.pb.go:1027-1040 | a varint is read the same whatever bytes follow it |
| Wire.ShiftedTruncates | src/cluegetter/core/cluegetter.pb.go:1027-1040 | the shifted seven bits of the k-th byte are what remains of them in a 64-bit word, at the tenth byte too |
| Wire.ReadLow32IsLow | src/cluegetter/core/cluegetter.pb.go:1236-1251 | the loops that gather an enumeration or a uint32 yield the low 32 bits of the 64-bit value and take the same bytes |
| Wire.LittleEndianRoundTrip | src/cluegetter/core/cluegetter.pb.go:736-745 | the little-endian bytes of a value give it back |
| Wire.Fixed64RoundTrip | src/cluegetter/core/cluegetter.pb.go:736-745 | a double's 64-bit pattern in the 8-byte form is read back, and the reader takes exactly eight bytes |
| Digits.VarintIs | src/cluegetter/core/cluegetter.pb.go:754-762 | a varint's bytes carry the value seven bits each, lowest first, with the top bit on all but the last, and no needless byte |
| Digits.FixedIs | src/cluegetter/core/cluegetter.pb.go:736-745 | the eight bytes of a double's pattern are its digits to base 256, lowest first, both written and read |
| Digits.VarintGathers | src/cluegetter/core/cluegetter.pb.go:1027-1040 | a varint of up to ten bytes, canonical or not, is read as the number that its sevens of bits make, modulo 2^64 |
| Digits.VarintStops | src/cluegetter/core/cluegetter.pb.go:1027-1040 | reading fails exactly when the first ten bytes, or all there are, have the top bit: with an overflow after ten and an unexpected end before |
| Digits.ConversionsAre | src/cluegetter/core/cluegetter.pb.go:1236-1251 | an enumeration is the low 32 bits as a signed number when read, and its sign-extended 64 bits when written |
| Digits.SkipLengths | src/cluegetter/core/cluegetter.pb.go:2798-2874 | after a tag of wire type 0 a varint is skipped, of 1 eight bytes, of 2 a length and as many bytes, of 4 nothing, of 5 four bytes, and 6 and 7 are refused |
| Skipping.SkipConsumesField | src/cluegetter/core/cluegetter.pb.go:2779-2877 | one well-formed field of any wire type, with groups nested to any depth, is skipped exactly, whatever follows; the number in an end tag is free, as the code does not look at it |
| Skipping.SkipConsumesStandard | src/cluegetter/core/cluegetter.pb.go:2779-2877 | so is every field of the standard, whose groups end with the tag of their own number |
| Skipping.EndNumberIsIgnored | src/cluegetter/core/cluegetter.pb.go:2838-2866 | the start of group 1 and the end of group 2 are skipped as one field, which the standard does not have |
| Skipping.SkippedIsField | src/cluegetter/core/cluegetter.pb.go:2779-2877 | what was skipped inside the buffer is one well-formed field, which is exhibited |
| Skipping.SkipIff | src/cluegetter/core/cluegetter.pb.go:2779-2877 | outside an end-group tag, n bytes of the buffer are skipped if and only if they are one well-formed field |
| Skipping.SkipLocal | src/cluegetter/core/cluegetter.pb.go:2779-2877 | skipping looks only at the bytes that it consumes |
| WireFormat.HeaderReads | src/cluegetter/core/cluegetter.pb.go:1616-1723 | after tag 0a a header's bytes become its key and after 12 its value, and nothing else changes |
| WireFormat.CheckResultReadsModule | src/cluegetter/core/cluegetter.pb.go:1404-1615 | tags 0a, 12, 18 and 21 read the message id, module, verdict and score of an answer, and nothing else |
| WireFormat.CheckResultReadsScores | src/cluegetter/core/cluegetter.pb.go:1404-1615 | tags 29, 31 and 3a read its weighted score, duration and determinants |
| WireFormat.SessionReadsStart | src/cluegetter/core/cluegetter.pb.go:1724-2257 | tags 08, 12, 18 and 20 read the instance, id, start and end of a session, and nothing else |
| WireFormat.SessionReadsSasl | src/cluegetter/core/cluegetter.pb.go:1724-2257 | tags 2a, 32, 3a and 42 read its SASL user, sender and method and the certificate's issuer |
| WireFormat.SessionReadsCipher | src/cluegetter/core/cluegetter.pb.go:1724-2257 | tags 4a, 50 and 5a read the certificate's subject, the cipher's bits, as their low 32, and the cipher |
| WireFormat.SessionReadsPeer | src/cluegetter/core/cluegetter.pb.go:1724-2257 | tags 62, 6a and 72 read the TLS version, the peer's address and its reverse name |
| WireFormat.SessionReadsHost | src/cluegetter/core/cluegetter.pb.go:1724-2257 | tags 7a and 82 01 read its host name and its greeting |
| WireFormat.SessionReadsMta | src/cluegetter/core/cluegetter.pb.go:1724-2257 | tags 8a 01 and 92 01 read the mail server's host and daemon names |
| WireFormat.LearnIdReads | src/cluegetter/core/cluegetter.pb.go:2593-2778 | tags 08, 12, 8a 01, 92 01 and 9a 01 read the five fields of a lesson by message id, and nothing else changes |
| WireFormat.MessageReadsEnvelope | src/cluegetter/core/cluegetter.pb.go:1021-1403 | tag 0a merges the session of a message, or gives its error, and tags 12 and 1a read its id and sender |
| WireFormat.MessageReadsLists | src/cluegetter/core/cluegetter.pb.go:1021-1403 | tag 22 appends a recipient, and tag 2a a header, or gives its error |
| WireFormat.MessageReadsVerdict | src/cluegetter/core/cluegetter.pb.go:1021-1403 | tags 32, 38 and 42 read its body, verdict and text |
| WireFormat.MessageReadsReject | src/cluegetter/core/cluegetter.pb.go:1021-1403 | tags 49 and 51 read its reject score and threshold |
| WireFormat.MessageReadsTempfail | src/cluegetter/core/cluegetter.pb.go:1021-1403 | tags 59 and 61 read its tempfail score and threshold |
| WireFormat.MessageReadsResults | src/cluegetter/core/cluegetter.pb.go:1021-1403 | tag 6a appends an answer, or gives its error |
| WireFormat.LearnReadsMessage | src/cluegetter/core/cluegetter.pb.go:2403-2592 | tag 08 reads whether a lesson is spam and tag 12 merges its message, or gives its error |
| WireFormat.LearnReadsTexts | src/cluegetter/core/cluegetter.pb.go:2403-2592 | its tags 8a 01, 92 01 and 9a 01 read host, reporter and reason |
| WireFormat.RpcReadsLearn | src/cluegetter/core/cluegetter.pb.go:2258-2402 | tag 0a reads the name of a call and 82 40 merges its lesson, or gives its error |
| WireFormat.RpcReadsLearnId | src/cluegetter/core/cluegetter.pb.go:2258-2402 | tag 8a 40 merges its lesson by message id, or gives its error |
| WireFormat.HeaderWrites | src/cluegetter/core/cluegetter.pb.go:420-438 | a header is 0a with its key and then 12 with its value, each only when not empty |
| WireFormat.CheckResultWrites | src/cluegetter/core/cluegetter.pb.go:364-408 | an answer is written as its seven fields under their literal tags, each only when set, in that order |
| WireFormat.SessionWrites | src/cluegetter/core/cluegetter.pb.go:450-566 | so is a session with its eighteen |
| WireFormat.LearnIdWrites | src/cluegetter/core/cluegetter.pb.go:688-734 | so is a lesson by message id |
| WireFormat.MessageWrites | src/cluegetter/core/cluegetter.pb.go:248-352 | so is a message, with one tag for each recipient, header and answer |
| WireFormat.LearnWrites | src/cluegetter/core/cluegetter.pb.go:626-676 | so is a lesson |
| WireFormat.RpcWrites | src/cluegetter/core/cluegetter.pb.go:578-614 | so is a call |
| WireFormat.WritesParts | src/cluegetter/core/cluegetter.pb.go:238-734 | every value of every type is the concatenation of these literal parts |
| WireFormat.WritesOnly | src/cluegetter/core/cluegetter.pb.go:238-734 | a value with one field set is that field's tag and payload and nothing else |
| CodecLaws.ItemLocal | src/cluegetter/core/cluegetter.pb.go:1025-1055 | a field that a decoder reads, known or skipped, is read the same whatever follows it |
| CodecLaws.DecodeConcat | src/cluegetter/core/cluegetter.pb.go:1021-1403 | when a decodes into m without error, decoding a followed by b equals decoding b into that result, errors included |
| CodecLaws.UnknownFieldAlone | src/cluegetter/core/cluegetter.pb.go:1383-1396 | a well-formed field whose number the type does not know decodes to no change |
| CodecLaws.UnknownFieldIgnored | src/cluegetter/core/cluegetter.pb.go:1383-1396 | inserting such a field at any field boundary leaves the decoded value unchanged |
| CodecLaws.DecodeMerges | src/cluegetter/core/cluegetter.pb.go:1021-2778 | decoding the encoding of y into x merges them: repeated fields append, set scalars of y win, nested messages merge |
| CodecLaws.RoundTrip | src/cluegetter/core/cluegetter.pb.go:238-734 | every value of every message type is decoded from its own encoding into a fresh value as itself, up to -0.0 becoming 0.0 |
| CodecLaws.EncodeInjective | src/cluegetter/core/cluegetter.pb.go:238-734 | two values have one encoding if and only if they differ at most in the sign of zeros |
| CodecLaws.ConcatenationMerges | src/cluegetter/core/cluegetter.pb.go:1021-2778 | concatenated encodings decode to the merge of the values (last one wins) |
| Acceptance.FieldDecodes | src/cluegetter/core/cluegetter.pb.go:1021-2877 | an accepted field, one of an unknown number or of the expected wire type with an accepted payload, decodes into any value |
| Acceptance.DecodedIsAccepted | src/cluegetter/core/cluegetter.pb.go:1021-2877 | what decodes is a concatenation of accepted fields, which are exhibited |
| Acceptance.DecodesIff | src/cluegetter/core/cluegetter.pb.go:1021-2877 | bytes decode, into whatever value, if and only if they are a concatenation of accepted fields, down through nested messages |
| Acceptance.SourceDecodesIff | src/cluegetter/core/cluegetter.pb.go:1021-2877 | and the decoders with their own 64-bit indices succeed on exactly these bytes |
| Acceptance.SourceMerges | src/cluegetter/core/cluegetter.pb.go:1021-2877 | with 64-bit indices too, decoding the encoding of y into x merges them |
| Acceptance.SourceRoundTrip | src/cluegetter/core/cluegetter.pb.go:238-2877 | and every value is decoded from the slice of its encoding as itself, up to -0.0 becoming 0.0 |
| Wrapping.SkipBecomes | src/cluegetter/core/cluegetter.pb.go:2779-2877 | where unbounded indices skip n bytes the 64-bit skip is n wrapped around; its errors are the same, but that it may panic where those meet the end |
| Wrapping.ItemBecomes | src/cluegetter/core/cluegetter.pb.go:1025-1055 | the head of a pass with 64-bit indices gives the field or the error that unbounded indices give, but that it may panic or find a bad length where those meet the end of the data |
| Wrapping.DecodeBecomes | src/cluegetter/core/cluegetter.pb.go:1021-2877 | so does a whole decoding from any index, nested messages included |
| Wrapping.DecodesAlike | src/cluegetter/core/cluegetter.pb.go:1021-2877 | so the source decodes exactly the slices that the unbounded decoder does, to the same values; only an error at an end of the data may differ |
| Wrapping.DelimitedWrapsIff | src/cluegetter/core/cluegetter.pb.go:1091-1109 | a length-delimited field is read as with unbounded indices if and only if it ends below 2^63; past that the source panics, or refuses the length if it alone wraps a skip |
| Wrapping.LongLengthWraps | src/cluegetter/core/cluegetter.pb.go:1091-1109 | the input: a message id that declares 2^63 - 1 bytes panics and an unknown field that does is refused |
| CodecBuffers.Sov | src/cluegetter/core/cluegetter.pb.go:1008-1017 | the size loop counts exactly the bytes of the varint |
| CodecBuffers.EncodeVarint | src/cluegetter/core/cluegetter.pb.go:754-762 | writes exactly the varint at the offset, in bounds, and leaves the rest of the buffer alone |
| CodecBuffers.EncodeFixed64 | src/cluegetter/core/cluegetter.pb.go:736-745 | writes exactly the eight little-endian bytes at the offset and leaves the rest alone |
| CodecBuffers.ReadVarintAt | src/cluegetter/core/cluegetter.pb.go:1027-1040 | the index loop reads what the varint at that index is, with the same errors |
| CodecBuffers.ReadFixed64At | src/cluegetter/core/cluegetter.pb.go:1280-1297 | the eight or-ed bytes are the little-endian value, and a short buffer is an unexpected end |
| CodecBuffers.SkipVarintAt | src/cluegetter/core/cluegetter.pb.go:2800-2813 | the loop over a skipped varint takes the bytes that the specification takes, with the same errors |
| CodecBuffers.SkipAt | src/cluegetter/core/cluegetter.pb.go:2779-2877 | terminates and gives the skip with 64-bit indices for every wire type: a count that may have wrapped to a negative one, an error, or a panic |
| CodecBuffers.SkipGroupAt | src/cluegetter/core/cluegetter.pb.go:2838-2866 | the loop over the fields of a group, recursive through SkipAt, which panics past a length that wraps its index |
| CodecBuffers.ReadItemAt | src/cluegetter/core/cluegetter.pb.go:1025-1055 | the head of every decoding pass: tag, end-group, illegal tag, wrong wire type, and skipping of unknown numbers, with what a wrapped skip leads to |
| CodecBuffers.ReadPayloadAt | src/cluegetter/core/cluegetter.pb.go:1054-1109 | the payload of a known field: varint, eight bytes, or a length-delimited slice with its length checks and the panic of a slice whose end wraps |
| CodecObjects.ProtoMessage.Size | src/cluegetter/core/cluegetter.pb.go:763-820 | the size of a Proto_Message is exactly the length of its encoding |
| CodecObjects.ProtoMessage.MarshalTo | src/cluegetter/core/cluegetter.pb.go:248-352 | writes exactly the encoding of a Proto_Message, field by field and in bounds, at the offset and nothing else, and returns its length |
| CodecObjects.ProtoMessage.Unmarshal | src/cluegetter/core/cluegetter.pb.go:1021-1403 | decodes a slice into a Proto_Message that may hold values already: the value of the decoder with 64-bit indices, or its error or panic |
| CodecObjects.ProtoCheckResult.Size | src/cluegetter/core/cluegetter.pb.go:822-850 | the size of a Proto_Message_CheckResult is exactly the length of its encoding |
| CodecObjects.ProtoCheckResult.MarshalTo | src/cluegetter/core/cluegetter.pb.go:364-408 | writes exactly the encoding of a Proto_Message_CheckResult, field by field and in bounds, at the offset and nothing else, and returns its length |
| CodecObjects.ProtoCheckResult.Unmarshal | src/cluegetter/core/cluegetter.pb.go:1404-1615 | decodes a slice into a Proto_Message_CheckResult that may hold values already: the value of the decoder with 64-bit indices, or its error or panic |
| CodecObjects.ProtoHeader.Size | src/cluegetter/core/cluegetter.pb.go:852-864 | the size of a Proto_Message_Header is exactly the length of its encoding |
| CodecObjects.ProtoHeader.MarshalTo | src/cluegetter/core/cluegetter.pb.go:420-438 | writes exactly the encoding of a Proto_Message_Header, field by field and in bounds, at the offset and nothing else, and returns its length |
| CodecObjects.ProtoHeader.Unmarshal | src/cluegetter/core/cluegetter.pb.go:1616-1723 | decodes a slice into a Proto_Message_Header that may hold values already: the value of the decoder with 64-bit indices, or its error or panic |
| CodecObjects.ProtoSession.Size | src/cluegetter/core/cluegetter.pb.go:866-938 | the size of a Proto_Session is exactly the length of its encoding |
| CodecObjects.ProtoSession.MarshalTo | src/cluegetter/core/cluegetter.pb.go:450-566 | writes exactly the encoding of a Proto_Session, field by field and in bounds, at the offset and nothing else, and returns its length |
| CodecObjects.ProtoSession.Unmarshal | src/cluegetter/core/cluegetter.pb.go:1724-2257 | decodes a slice into a Proto_Session that may hold values already: the value of the decoder with 64-bit indices, or its error or panic |
| CodecObjects.ProtoRpc.Size | src/cluegetter/core/cluegetter.pb.go:940-956 | the size of a Rpc is exactly the length of its encoding |
| CodecObjects.ProtoRpc.MarshalTo | src/cluegetter/core/cluegetter.pb.go:578-614 | writes exactly the encoding of a Rpc, field by field and in bounds, at the offset and nothing else, and returns its length |
| CodecObjects.ProtoRpc.Unmarshal | src/cluegetter/core/cluegetter.pb.go:2258-2402 | decodes a slice into a Rpc that may hold values already: the value of the decoder with 64-bit indices, or its error or panic |
| CodecObjects.ProtoLearn.Size | src/cluegetter/core/cluegetter.pb.go:958-981 | the size of a Rpc__Bayes_Learn_Message is exactly the length of its encoding |
| CodecObjects.ProtoLearn.MarshalTo | src/cluegetter/core/cluegetter.pb.go:626-676 | writes exactly the encoding of a Rpc__Bayes_Learn_Message, field by field and in bounds, at the offset and nothing else, and returns its length |
| CodecObjects.ProtoLearn.Unmarshal | src/cluegetter/core/cluegetter.pb.go:2403-2592 | decodes a slice into a Rpc__Bayes_Learn_Message that may hold values already: the value of the decoder with 64-bit indices, or its error or panic |
| CodecObjects.ProtoLearnId.Size | src/cluegetter/core/cluegetter.pb.go:983-1006 | the size of a Rpc__Bayes_Learn_Message_Id is exactly the length of its encoding |
| CodecObjects.ProtoLearnId.MarshalTo | src/cluegetter/core/cluegetter.pb.go:688-734 | writes exactly the encoding of a Rpc__Bayes_Learn_Message_Id, field by field and in bounds, at the offset and nothing else, and returns its length |
| CodecObjects.ProtoLearnId.Unmarshal | src/cluegetter/core/cluegetter.pb.go:2593-2778 | decodes a slice into a Rpc__Bayes_Learn_Message_Id that may hold values already: the value of the decoder with 64-bit indices, or its error or panic |
| CodecObjects.ProtoMessage.Marshal | src/cluegetter/core/cluegetter.pb.go:238-247 | allocates a buffer of the computed size and fills it exactly with the encoding |
| CodecObjects.ProtoRpc.Marshal | src/cluegetter/core/cluegetter.pb.go:568-577 | allocates a buffer of the computed size and fills it exactly with the encoding |
| QuotaWindow.PollDecides | src/cluegetter/quotas/quotas.go:471-492 | the count, prune-if-over, recount decision is that of the exact window (now-period, now], and a deciding recount is the exact count |
| QuotaWindow.TracksDecides | src/cluegetter/quotas/quotas.go:471-492 | while store and log agree on the window, the store decides as the log does |
| QuotaWindow.TracksPoll | src/cluegetter/quotas/quotas.go:475-479 | pruning keeps that agreement |
| QuotaWindow.TracksTally | src/cluegetter/quotas/quotas.go:510-512 | tallying, and the expiry that it renews, keeps that agreement |
| QuotaWindow.ExactIs | src/cluegetter/quotas/quotas.go:471-492 | the exact count is the number of members with a time in (now-period, now], each once |
| QuotaWindow.TrackedRun | src/cluegetter/quotas/quotas.go:469-514 | over any run, for periods up to a day, the decisions are those of a log that is never pruned and never expires |
| QuotaWindow.LongPeriodForgets | src/cluegetter/quotas/quotas.go:510-512 | for every period above a day a run is exhibited in which the expiry of the key changes a decision |
| QuotaWindow.LazyWindowIsExactIff | src/cluegetter/quotas/quotas.go:469-514 | every run decides exactly if and only if the period is at most 86400 seconds |
| QuotaSafety.CheckBounds | src/cluegetter/quotas/quotas.go:471-492 | the check that admits a message establishes the bound on its window and keeps that of the others |
| QuotaSafety.InFlightIs | src/cluegetter/quotas/quotas.go:313-320 | what is in flight is the number of pairs of a message and a count of it that is to come |
| QuotaSafety.NextKeepsInv | src/cluegetter/quotas/quotas.go:280-365 | for a period up to a day, checks, tallies and verdicts that do not tally, in any order, keep the bound of every checked message |
| QuotaSafety.RunKeepsInv | src/cluegetter/quotas/quotas.go:280-365 | so does every run of overlapping messages |
| QuotaSafety.WindowBound | src/cluegetter/quotas/quotas.go:469-514 | in every run with a period up to a day, any window (t-period, t] holds at most the curb plus what was in flight at the last check of its messages |
| QuotaSafety.NoOverlapNoExcess | src/cluegetter/quotas/quotas.go:280-365 | when no messages overlap and the period is up to a day, no window ever holds more than the curb |
| QuotaSafety.LongPeriodExceeds | src/cluegetter/quotas/quotas.go:510-512 | for every longer period a run without overlap is exhibited in which a window holds two counts under a curb of one, as the key expires after a day |
| QuotaSafety.NeverExcessIff | src/cluegetter/quotas/quotas.go:280-514 | both bounds hold, for all starts, runs, curbs and windows, if and only if the period is at most 86400 seconds |
| QuotaSafety.OverlapReachesBound | src/cluegetter/quotas/quotas.go:280-365 | two overlapping messages reach the bound, so the extra term is needed |
| QuotaModule.Store.InsertDefinitions | src/cluegetter/quotas/quotas.go:243-250 | the definitions of a selector are replaced by the pushed values, last first, for a day |
| QuotaModule.Module.PollPeriod | src/cluegetter/quotas/quotas.go:469-492 | one poll: the result and the pruned sorted set, and no other key touched |
| QuotaModule.Module.PollOne | src/cluegetter/quotas/quotas.go:469-492 | the result of a poll is over exactly when the exact window has no room, and no exact window changes |
| QuotaModule.Module.PollList | src/cluegetter/quotas/quotas.go:370-386 | each distinct definition is polled once, in order, and duplicates are noticed exactly when there are some |
| QuotaModule.DistinctOfDistinct | src/cluegetter/quotas/quotas.go:372-378 | a list has no duplicates if and only if taking first occurrences changes nothing |
| QuotaModule.Module.PruneDuplicates | src/cluegetter/quotas/quotas.go:425-434 | afterwards the stored definitions are the same ones, each once, and other selectors keep theirs |
| QuotaModule.Module.PollStored | src/cluegetter/quotas/quotas.go:367-392 | the stored definitions are polled and, exactly if duplicated, pruned, which renews them for a day |
| QuotaModule.Module.PollSelector | src/cluegetter/quotas/quotas.go:367-423 | exactly the stored definitions of the selector are polled or, when it has none, exactly those of all matching regexes, which are stored first; every window stays exact |
| QuotaModule.AskedAgain | src/cluegetter/quotas/quotas.go:394-423 | once polled, a selector is asked the same definitions again |
| QuotaModule.Module.Callback | src/cluegetter/quotas/quotas.go:494-514 | exactly when the verdict is a tally status a callback adds its member, now, to what lives of the set, and its key lives 86400 seconds from now |
| QuotaModule.Module.PollFactors | src/cluegetter/quotas/quotas.go:287-306 | over all factors, every result is of a definition asked for and every such definition has a result |
| QuotaModule.ResultsDecide | src/cluegetter/quotas/quotas.go:322-363 | some result is exceeded if and only if the exact window of some definition asked for has no room |
| QuotaModule.CallbacksCount | src/cluegetter/quotas/quotas.go:313-320 | the set of the callbacks is that of the counts under the definitions asked for |
| QuotaModule.Module.ExceedsIff | src/cluegetter/quotas/quotas.go:322-423 | some window is exceeded if and only if, for some factor, some definition that the live store has for its selector, or any matching regex gives when it has none, has more members in (now-period, now], with those of the message, than its curb |
| QuotaModule.Module.CountsIff | src/cluegetter/quotas/quotas.go:313-320 | and the callbacks are those of the counts of a factor under such a definition |
| QuotaModule.Module.MessageCheck | src/cluegetter/quotas/quotas.go:280-365 | a message is deferred with score 100 if and only if, in the store before the call, for some factor some definition that is live there, or that any matching regex gives when there is none, has no room in (now-period, now]; else it is permitted with score 1; its callbacks are one for each count under each such definition |
| VerdictSpec.SumPermutes | src/cluegetter/core/message.go:309-315 | sums over answers do not depend on their order |
| VerdictSpec.ReadFrom | src/cluegetter/core/message.go:263-292 | answers are read up to the first prefix that trips the breaker, and all of them when none does |
| VerdictLaws.DecidePermutes | src/cluegetter/core/message.go:309-333 | verdict, reject score and tempfail score do not depend on the order of the answers |
| VerdictLaws.OrderIndependent | src/cluegetter/core/message.go:263-333 | two arrival orders that never trip the breaker give the same verdict and the same two scores |
| VerdictLaws.LowScoresNeverTrip | src/cluegetter/core/message.go:273-279 | no order trips the breaker when the scores of each action stay below it |
| VerdictLaws.OrderedDecides | src/cluegetter/core/message.go:299-333 | with ordered thresholds the deciding answer exists and the verdict is not Error |
| VerdictLaws.NeverPanicsIff | src/cluegetter/core/message.go:299-333 | the lookup of the deciding answer never indexes an empty list, for all groups and answers, if and only if breaker > 0 and 0 < reject <= tempfail |
| VerdictLaws.MoreReadMoreSevere | src/cluegetter/core/message.go:309-333 | without groups and with no negative score, a prefix of the answers never gives a more severe verdict |
| VerdictLaws.StopIsSevere | src/cluegetter/core/message.go:276-291 | a stop on TempFail, Reject or Discard gives at least that action when no threshold is above the breaker |
| VerdictLaws.AbortSoundIff | src/cluegetter/core/message.go:259-333 | such a stop is sound for all answers if and only if the reject and tempfail thresholds are at most the breaker |
| VerdictLaws.PermitStopHides | src/cluegetter/core/message.go:276-291 | a stop on Permit may hide a rejection, for all ordered thresholds: the answers are exhibited |
| GroupLaws.UngroupedUntouched | src/cluegetter/core/message.go:360-399 | an answer whose module is in no group keeps its score |
| GroupLaws.OwnGroupOnly | src/cluegetter/core/message.go:388-397 | an answer is weighed by its own group and by no other |
| GroupLaws.GroupConserves | src/cluegetter/core/message.go:387-397 | a weighed group contributes exactly its total weight times the weighted average of its members' answers |
| GroupLaws.GroupBounds | src/cluegetter/core/message.go:387-397 | so between its total weight times the least and times the greatest of those scores |
| GroupLaws.AnsweredIsWeighed | src/cluegetter/core/message.go:366-385 | with one answer per module, a group of which a member answered is weighed and its answered weight is positive |
| GroupLaws.IgnoredAtMostErrors | src/cluegetter/core/message.go:381-385 | between none and all of the errors are ignored, whatever the weights |
| GroupLaws.DeferralKeepsOffPermit | src/cluegetter/core/message.go:325-333 | with no negative score, a deferral whose weighed score is at least the tempfail threshold keeps the verdict off Permit |
| GroupLaws.UngroupedDeferralKeepsOffPermit | src/cluegetter/core/message.go:325-333 | so does an ungrouped one that scores as much |
| GroupLaws.GroupedDeferralMayPermit | src/cluegetter/core/message.go:360-399 | in a group a deferral of 100 may weigh one and the message be permitted, under every ordered configuration with a tempfail threshold above one: the group and answers are exhibited |
| GroupLaws.PositiveDivides | src/cluegetter/core/message.go:387-390 | positive weights never leave a division by an answered weight of zero |
| VerdictExact.TotalIs | src/cluegetter/core/message.go:309-315 | the total of an action is the sum, answer by answer, of the weighed scores of the answers that suggest it |
| VerdictExact.ErrorsAre | src/cluegetter/core/message.go:273-275 | the count of errors is the number of places whose answer suggests an error |
| VerdictExact.NormalIs | src/cluegetter/core/message.go:264-271 | an answer without a score permits, and other answers stay as they are |
| VerdictExact.NormalErrors | src/cluegetter/core/message.go:264-275 | errors without a score are not counted |
| VerdictExact.NoneTwiceIff | src/cluegetter/core/message.go:216-224 | no module is counted twice if and only if no name is at two places of the groups |
| VerdictExact.IgnoredIs | src/cluegetter/core/message.go:366-385 | the ignored errors are exactly the places whose answer is an error of a module in a group some member of which did not answer with an error |
| VerdictExact.ErrorsLeftIff | src/cluegetter/core/message.go:381-385 | errors are left if and only if some error is not of that kind: it is ungrouped, or all members of its group failed |
| VerdictExact.AnsweredIs | src/cluegetter/core/message.go:366-379 | the answered weight of a group is the sum, answer by answer, of the weights of the members that answered without an error |
| VerdictExact.WeighedIs | src/cluegetter/core/message.go:387-397 | an answer of a member weighs its score, times the member's weight, times the group's total over its answered weight |
| VerdictExact.VerdictIff | src/cluegetter/core/message.go:317-333 | with ordered thresholds each verdict is given exactly on its own condition on the three totals and the errors left: permit exactly below all thresholds with no error left |
| VerdictExact.PanicsIff | src/cluegetter/core/message.go:297-333 | whatever the thresholds, the lookup panics exactly when the branch that is taken has no answer of its action |
| VerdictExact.ErrorNeverPermits | src/cluegetter/core/message.go:294-327 | one error of an ungrouped module, or of a group all of whose members failed, never ends in a permit |
| VerdictExact.ReadStopsIff | src/cluegetter/core/message.go:263-292 | reading stops after n answers if and only if the n-th is the first, and no error, whose action's scores so far reach the breaker, or else the last |
| VerdictEngine.TallyGroup | src/cluegetter/core/message.go:363-379 | the nested loops compute the answered weight and the failures of a group |
| VerdictEngine.Multiply | src/cluegetter/core/message.go:388-397 | each answer of a member is multiplied in place, errors and others stay |
| VerdictEngine.WeighResults | src/cluegetter/core/message.go:360-399 | all groups whose answered weight is not zero where they are weighed, whatever its sign, weigh the answers in place, and the ignored errors are counted |
| VerdictEngine.TakeIn | src/cluegetter/core/message.go:264-271 | an answer without a score becomes a permit, and is sorted by its action |
| VerdictEngine.ReadResults | src/cluegetter/core/message.go:256-292 | the loop reads exactly the answers up to the breaker, sorts them by action and counts errors |
| VerdictEngine.DecidingResult | src/cluegetter/core/message.go:297-307 | the first of the highest among the answers with a message and a positive score, or the first of all when there is none |
| VerdictEngine.TotalScores | src/cluegetter/core/message.go:309-315 | the totals per action are the sums of the weighed scores |
| VerdictEngine.Choose | src/cluegetter/core/message.go:317-337 | the cascade, its text, and the panic on an empty list: the text is that of the deciding answer of the verdict, in the order of arrival, except for the fixed one of a deferral for errors left |
| VerdictEngine.CallbacksAre | src/cluegetter/core/message.go:339-346 | every callback of every answer is called once, in the order of the answers |
| VerdictEngine.DecideOn | src/cluegetter/core/message.go:294-337 | the answers that were read are weighed, added up and judged as specified |
| VerdictEngine.Conclude | src/cluegetter/core/message.go:339-358 | the callbacks of the accepted answers are called, and the message gets verdict, text, scores, thresholds and answers |
| VerdictEngine.GetVerdict | src/cluegetter/core/message.go:237-358 | for any arrivals: the specified verdict on the answers up to the breaker; after a panic a deferral, with the message unchanged and no callback called |
| GroupStartup.IsTaken | src/cluegetter/core/message.go:216-224 | whether any group, the current one included, already has a module |
| GroupStartup.AddMember | src/cluegetter/core/message.go:204-233 | an entry is added exactly when it is well formed, known, parsed and not taken, and its weight goes into the total |
| GroupStartup.FillGroup | src/cluegetter/core/message.go:204-233 | the inner loop builds the group of the configuration, or fails only for an unacceptable one |
| GroupStartup.StartModuleGroups | src/cluegetter/core/message.go:189-235 | startup succeeds if and only if the configuration is acceptable, and then has exactly its groups, no module in two of them |
| GroupStartup.AcceptableIsValid | src/cluegetter/core/message.go:189-235 | with positive weights an acceptable configuration gives groups that meet what the weighing needs, each total the sum of its weights |
| GroupStartup.AcceptableIff | src/cluegetter/core/message.go:189-235 | a configuration is acceptable if and only if no group is empty, every entry is a number and one of the four known modules, and no module is in two entries |
| GroupStartup.GroupsAre | src/cluegetter/core/message.go:193-233 | each group has its configured name, a member for each entry with its name and weight, in order, and the sum of the weights as its total |
| GroupStartup.WeightMore | src/cluegetter/core/message.go:228-228 | a member adds its weight to the total |
| FanIn.NextKeepsInv | src/cluegetter/core/message.go:401-448 | every step of a goroutine, of the closer or of a reader keeps the protocol's invariant |
| FanIn.RunKeepsInv | src/cluegetter/core/message.go:401-448 | so does every interleaving |
| FanIn.ClosedAfterLastSend | src/cluegetter/core/message.go:440-444 | in every interleaving the channel is closed only after the last send, with every produced answer received |
| FanIn.NeverStuck | src/cluegetter/core/message.go:281-291 | until the end some step is always possible, every running callback can end with any outcome, and a goroutine at its send always has a reader |
| FanIn.RunBound | src/cluegetter/core/message.go:401-448 | every interleaving of n modules ends after at most 3n + 2 steps |
| FanIn.AllReceivedOnce | src/cluegetter/core/message.go:262-291 | at the end each produced answer was received exactly once, and the accepted ones are the arrivals up to the first breaker trip |
| FanIn.EachEndsOnce | src/cluegetter/core/message.go:401-438 | in every complete interleaving of n modules the callback of each ends once |
| FanIn.OutcomeComes | src/cluegetter/core/message.go:405-438 | what it returns arrives, a panic arrives as an error with score 25 under the module's name, and after nil nothing of it arrives |
| FanIn.InterleavingsAgree | src/cluegetter/core/message.go:262-333 | two complete interleavings with the same produced answers and no trip of the breaker give the same verdict and the same two scores |
| MessageCache.ComplementSubtracts | src/cluegetter/core/messagePersist.go:127-130 | adding the complement of n - 1 to the counter subtracts n, for n = 0 too |
| MessageCache.DeletedIsValid | src/cluegetter/core/messagePersist.go:121-134 | a deletion keeps the invariant and lowers the counter by the message's length |
| MessageCache.StoredIsValid | src/cluegetter/core/messagePersist.go:88-119 | a store keeps the invariant, and the limit test does not wrap around |
| MessageCache.SweptIsValid | src/cluegetter/core/messagePersist.go:160-163 | deleting any list of keys keeps the invariant and removes exactly those keys |
| MessageCache.RunKeepsValid | src/cluegetter/core/messagePersist.go:72-167 | any sequence of operations keeps it: counter equal to the cached bytes and within the limit, maps with the same keys, index entries that point at a message with that id |
| MessageCache.RunHolds | src/cluegetter/core/messagePersist.go:88-167 | after any sequence the cache holds exactly what was stored last under each queue id and not deleted since |
| MessageCache.PruneDropsOld | src/cluegetter/core/messagePersist.go:136-167 | after any run a prune leaves exactly what was stored last within 300 seconds, and all of it while less than half of the bytes are in use |
| MessageCache.LookupSoundIff | src/cluegetter/core/messagePersist.go:79-86 | a lookup by message id yields only what was stored last under that message id, except exactly when the id is unknown and a message without queue id is cached under another |
| MessageCache.QueueIdsMakeLookupsSound | src/cluegetter/core/messagePersist.go:72-119 | when every stored message has a queue id, every lookup of every run is sound |
| MessageCache.NoQueueIdIsFoundByAll | src/cluegetter/core/messagePersist.go:79-119 | a message stored without queue id, within the limits, is found by every message id but its own too |
| MessageCache.StoredIsFound | src/cluegetter/core/messagePersist.go:88-119 | what was just stored is found by both ids |
| MessageCache.DeletedIndex | src/cluegetter/core/messagePersist.go:121-134 | a deletion takes exactly the message id of the deleted message out of the index |
| MessageCache.StoredIndex | src/cluegetter/core/messagePersist.go:88-119 | a store takes the message id of what it replaces out of the index and puts in its own |
| MessageCache.StaysFound | src/cluegetter/core/messagePersist.go:79-167 | what a message id leads to is found by it throughout every further run in which nothing with that message id is stored, replaced or dropped |
| MessageCache.MessageStore.GetByMessageId | src/cluegetter/core/messagePersist.go:79-86 | the two map lookups, where a missing entry reads as the empty queue id |
| MessageCache.MessageStore.Set | src/cluegetter/core/messagePersist.go:88-119 | the new state of all four maps and of the counter, and whether the message was taken |
| MessageCache.MessageStore.Del | src/cluegetter/core/messagePersist.go:121-134 | the new state of all four maps and of the counter |
| MessageCache.MessageStore.Scan | src/cluegetter/core/messagePersist.go:136-151 | the keys older than five minutes, and none below half capacity |
| MessageCache.MessageStore.SweepKeys | src/cluegetter/core/messagePersist.go:157-163 | each listed key is deleted, in any order |
| MessageCache.MessageStore.Prune | src/cluegetter/core/messagePersist.go:136-167 | an undisturbed prune is the deletion of exactly those keys, in some order, and keeps the invariant |
| SaveRestore.Save | src/cluegetter/core/message.go:450-499 | the struct that is marshalled has every list in order, printed addresses, and the queue id in each answer |
| SaveRestore.GetAsMessage | src/cluegetter/core/message.go:699-745 | the message that is turned back has every list in order and parsed addresses |
| SaveRestore.SavedIs | src/cluegetter/core/message.go:450-499 | each part of a message is saved in the field of its name, the addresses as they print and the answers under the queue id |
| SaveRestore.RestoredIs | src/cluegetter/core/message.go:699-745 | each field is restored to the part of its name, with the addresses parsed, the headers unmarked and the answers without their texts |
| SaveRestore.SaveRestoreIff | src/cluegetter/core/message.go:450-505 | saved, marshalled, unmarshalled and turned back, a message keeps queue id, sender, recipients, headers in order, body, verdict, scores and answers if and only if no local part holds an @ |
| SaveRestore.HeadersReturnIff | src/cluegetter/core/message.go:471-476 | marshalled and unmarshalled, the headers come back with their marks if and only if none is marked as deleted or unique |
| SaveRestore.CachedThenRestored | src/cluegetter/core/messagePersist.go:26-41 | a message that the cache took in is found by its message id, and its bytes lead back to it |
| HeaderRewriting.Message.GetHeader | src/cluegetter/core/message.go:577-586 | the headers with a key, in order |
| HeaderRewriting.Message.ExpandRecipients | src/cluegetter/core/message.go:509-520 | the loop that appends to the list it rewrites leaves the first instances in place and the others after, in order |
| HeaderRewriting.Message.SubstituteAll | src/cluegetter/core/message.go:526-532 | every value is substituted and every unique flag adds its deletions |
| HeaderRewriting.Message.DeleteEmpty | src/cluegetter/core/message.go:534-547 | the in-place deletion never indexes out of range and leaves the non-empty headers in order |
| HeaderRewriting.Message.GetMutableHeaders | src/cluegetter/core/message.go:507-550 | the two lists that are returned |
| HeaderRewriting.OneInstanceEach | src/cluegetter/core/message.go:509-520 | each template has an instance for each recipient, at a known place |
| HeaderRewriting.ExpandedLength | src/cluegetter/core/message.go:509-524 | and the expanded list has nothing else but the other headers and the message id |
| HeaderRewriting.PlacesDiffer | src/cluegetter/core/message.go:509-520 | instances of different templates are at different places |
| HeaderRewriting.NonEmptyKeeps | src/cluegetter/core/message.go:534-547 | the filter keeps exactly the headers with a value, in order |
| HeaderRewriting.DeletedIff | src/cluegetter/core/message.go:526-530 | a header is deleted if and only if a listed header with the unique flag has its key |
| HeaderRewriting.FlagsOfTemplates | src/cluegetter/core/message.go:513-530 | so if and only if a configured template with the flag has its key, whatever its value becomes |
| HeaderLaws.ContainsIff | src/cluegetter/core/message.go:510-512 | the test for a template finds an occurrence at any place |
| HeaderLaws.ReplaceIs | src/cluegetter/core/message.go:515-519 | a text is cut at every first occurrence from the left, and the replacement is the same pieces with the new text between them |
| HeaderLaws.NoneLeft | src/cluegetter/core/message.go:552-575 | no occurrence is left when the new text is not empty and shares no character with the old |
| HeaderLaws.SubstitutedIs | src/cluegetter/core/message.go:552-575 | all four variables of a template get their values as if at once, %{spamFlag} YES exactly for spam and else NO, and nothing else of it changes, when no value holds a percent sign |
| HeaderLaws.WithKeyIs | src/cluegetter/core/message.go:577-586 | the headers of a key, in any case of letters, that are not deleted unless asked for: exactly these, in their order |
| HeaderLaws.NonEmptyIs | src/cluegetter/core/message.go:534-547 | the headers with a value: exactly these, in their order |
| HeaderLaws.DeletionsOfOne | src/cluegetter/core/message.go:527-529 | a header with the unique flag asks for the deletion of exactly those of its key that are not deleted, in order, and one without for none |
| HeaderLaws.DeletionsJoin | src/cluegetter/core/message.go:526-532 | the deletions of a list are those of its parts, one after the other |
| HeaderLaws.InstanceIs | src/cluegetter/core/message.go:509-520 | a header that holds %{recipient} has an instance for each recipient with every occurrence replaced: the first in its place with its flags, the others after all headers and after those of the templates before it, without flags |
| HeaderLaws.OthersStay | src/cluegetter/core/message.go:509-513 | one that does not hold it stays as it is, in its place |
| HeaderLaws.MessageIdLast | src/cluegetter/core/message.go:522-524 | a missing message id is added last, as Message-Id, exactly when that is configured and there is one |
| Greylisting.Module.GetVerdict | src/cluegetter/greylisting/greylisting.go:101-135 | a live key is read and never written again; otherwise a key for ninety minutes is set and the message deferred |
| Greylisting.Module.IpIsSpfWhitelisted | src/cluegetter/greylisting/greylisting.go:147-164 | the first listed domain that passes, if any, and the last error of the queries before it |
| Greylisting.LastErrorIs | src/cluegetter/greylisting/greylisting.go:147-164 | that error is the text of the last answer that is an error, and empty without one |
| Greylisting.Module.MessageCheck | src/cluegetter/greylisting/greylisting.go:52-99 | decision, score and new store |
| Greylisting.DecideIff | src/cluegetter/greylisting/greylisting.go:52-135 | the store decides what the history says |
| Greylisting.RunAgrees | src/cluegetter/greylisting/greylisting.go:52-145 | after every run the store says who was permitted within forty days and which clock is running |
| Greylisting.PermittedIff | src/cluegetter/greylisting/greylisting.go:52-135 | in every run a message is permitted if and only if there is an SPF hit, a permit of its address within forty days, or a first deferral at t0 with t0 + 60P < now < t0 + 5400 |
| Greylisting.RetriesKeepClock | src/cluegetter/greylisting/greylisting.go:101-135 | retries never restart the clock: whatever is tried after a first deferral, the record of the message stays in the store unchanged until it expires |
| Greylisting.RestartsIff | src/cluegetter/greylisting/greylisting.go:52-135 | the next attempt at a message restarts its clock if and only if the clock has run out and neither SPF nor the address permits it |
| Greylisting.RetryTimeIff | src/cluegetter/greylisting/greylisting.go:112-126 | a time at which a retry qualifies exists if and only if P < 90 |
| Greylisting.EverPermitsIff | src/cluegetter/greylisting/greylisting.go:52-135 | without SPF hits some run permits someone if and only if P < 90 |
| Whitelist.RangeIff | src/cluegetter/core/milterSession.go:249-255 | an address lies between the network and the last address of a block if and only if it agrees with the block on the prefix bits, for every prefix length |
| Whitelist.MappedRange | src/cluegetter/core/milterSession.go:254-258 | the range of an IPv4 block, mapped, is the range of the mapped block with 96 more prefix bits |
| Whitelist.TestIff | src/cluegetter/core/milterSession.go:223-233 | so the sixteen-byte test holds exactly for the addresses that agree with the block on its prefix bits, an IPv4 address being the IPv6 address under ::ffff:0:0/96 |
| Whitelist.CoversMapped | src/cluegetter/core/milterSession.go:223-259 | agreement on sixteen bytes is that of the addresses themselves, where an IPv4 address agrees with an IPv6 one exactly under ::ffff:0:0/96 |
| Whitelist.Session.LastAddress | src/cluegetter/core/milterSession.go:249-252 | the byte loop fills in the last address of the network |
| Whitelist.Session.Start | src/cluegetter/core/milterSession.go:235-259 | startup fails exactly for a block that does not parse, and fills one range per block |
| Whitelist.Session.IsWhitelisted | src/cluegetter/core/milterSession.go:223-233 | the scan finds an address exactly when some configured block covers it; an address that does not parse is never found |
| Addresses.SplitsAt | src/cluegetter/address/address.go:96-101 | a text splits at its first @ |
| Addresses.PrintThenParseIff | src/cluegetter/address/address.go:61-109 | a printed address parses to itself if and only if its local part has no @ |
| Addresses.ParsedIsStable | src/cluegetter/address/address.go:82-109 | which holds for every parsed address |
| Addresses.ParseThenPrintIff | src/cluegetter/address/address.go:61-109 | a text that is parsed prints as itself if and only if it does not end in its only @ |
| Srs.FindRecipient | src/cluegetter/srs/srs.go:192-204 | the inner loop finds whether a recipient is named and whether any header names one |
| Srs.IsForwarded | src/cluegetter/srs/srs.go:189-214 | forwarded if and only if headers name recipients but not all there are |
| Srs.ForwardedIff | src/cluegetter/srs/srs.go:189-214 | that is: a header of the configured name is there, and some recipient equals the value of none, up to case |
| Srs.LowerLetters | src/cluegetter/srs/srs.go:158-169 | small letters are those 32 above A to Z, and every other character stays |
| Srs.Splice | src/cluegetter/srs/srs.go:168-168 | the elements after the k-th move down by one and the array keeps its last element |
| Srs.SieveIff | src/cluegetter/srs/srs.go:166-171 | a pass removes a domain and no other if and only if no two of its occurrences are neighbours, as it skips what follows a removal |
| Srs.RemoveDomain | src/cluegetter/srs/srs.go:166-171 | the loop over a slice that it splices: what a pass leaves, and the panic exactly for a last domain that occurred before |
| Srs.FirstOfLeft | src/cluegetter/srs/srs.go:180-186 | what is left starts with the first domain that is no recipient's |
| Srs.GetRewriteDomain | src/cluegetter/srs/srs.go:155-187 | what the passes of all recipients leave first, or their panic; when no two headers name one domain, the domain in small letters of the first header whose domain is no recipient's, or none |
| Srs.DistinctPasses | src/cluegetter/srs/srs.go:164-173 | without repeated domains the passes leave exactly those that are no recipient's, in order |
| Srs.RepeatedPanics | src/cluegetter/srs/srs.go:166-171 | with a repeated one some list of recipients panics: it is exhibited |
| Srs.RewriteIff | src/cluegetter/srs/srs.go:155-187 | for every list of recipients there is no panic and the domain is the first that is no recipient's, if and only if the headers name no domain twice |
| Srs.ViaHeaderIff | src/cluegetter/srs/srs.go:155-187 | the first of these domains is that of the first header of the configured name whose domain is no recipient's, and they are distinct if and only if no two such headers name one domain |
| SrsStore.Module.RecipientCheck | src/cluegetter/srs/srs.go:77-87 | a recipient is rejected exactly when the module is enabled, its local part is SRS in any case, one digit or more, and an equals sign, and its key holds no live sender; every other address is permitted whatever the store holds |
| SrsStore.PatternIff | src/cluegetter/srs/srs.go:20-20 | the pattern holds exactly for SRS in any case, one digit or more, and an equals sign |
| SrsStore.LookupIs | src/cluegetter/srs/srs.go:101-130 | in every run an address leads to the sender of the last message that was given this address, up to case, for 604800 seconds, and without one nowhere |
| SrsStore.Module.GetFromAddress | src/cluegetter/srs/srs.go:132-153 | SRS0=, queue id, sender domain and sender local part joined by equals signs, at the domain of the first header that is no recipient's; empty exactly when disabled, not forwarded, without sender or without domain; and the panic of the search for a domain |
| SrsStore.Module.SwapRecipients | src/cluegetter/srs/srs.go:89-99 | each rewritten recipient is replaced by what it leads to |
| SrsStore.SwapsAre | src/cluegetter/srs/srs.go:89-99 | for each address first its removal and then the addition of its sender, in order |
| SrsStore.KeysAreInjective | src/cluegetter/srs/srs.go:108-153 | without an equals sign in queue id and sender domain, one key means one sender, queue id and domain, up to case |
| SrsStore.QueueIdsSeparate | src/cluegetter/srs/srs.go:108-153 | messages with different queue ids without equals sign never share a key, whatever their senders |
| SrsStore.UncleanCollides | src/cluegetter/srs/srs.go:108-153 | a message with an equals sign in queue id or sender domain, and no @ in its parts, has the address of one without that has another sender: it is exhibited |
| SrsStore.UnambiguousIff | src/cluegetter/srs/srs.go:108-153 | of messages without an @ in their parts, those that share no key with a clean message of another sender are exactly the clean ones: without an equals sign in queue id and sender domain |
| SrsStore.EqualsIsShared | src/cluegetter/srs/srs.go:108-153 | a message with an equals sign anywhere in its parts has the address of one with another sender: it is exhibited |
| SrsStore.SoleIff | src/cluegetter/srs/srs.go:108-153 | of messages without an @ in their parts, those that share no key with any such message of another sender, or of another sender or queue id, whatever the rewrite domains, are exactly those without an equals sign in queue id, sender domain and local part |
| SrsStore.EqualsSignCollides | src/cluegetter/srs/srs.go:108-153 | three messages with different senders that share one key |
| SrsStore.RunKeepsInv | src/cluegetter/srs/srs.go:101-111 | in every run each issued address has an entry for a week, from a message with the same key |
| SrsStore.IssuedLeadsBack | src/cluegetter/srs/srs.go:77-111 | within a week an issued address, in any case of letters, leads back to its sender, up to case, and so is not rejected |
| SrsStore.IssuedLeadsBackExactly | src/cluegetter/srs/srs.go:77-153 | with distinct queue ids that hold no equals sign, whatever the senders, it leads back to exactly the sender that its message had |
| SrsStore.IssuedComesBack | src/cluegetter/srs/srs.go:113-119 | an issued address prints as it was after parsing, and its local part has the pattern of a rewritten one |
| ServiceRegistry.Registry.UpdateRunningList | src/cluegetter/core/redis.go:221-243 | the loop writes the service, and its own hash, for the bucket before, of and after now, each key for 120 seconds |
| ServiceRegistry.UpdateWrites | src/cluegetter/core/redis.go:221-243 | exactly the buckets at start-60, start and start+60 of the minute change: the service joins the set and its host's entry of the instance's hash, each for 120 seconds |
| ServiceRegistry.Registry.GetServices | src/cluegetter/core/redis.go:245-262 | the members of the current bucket, each once |
| ServiceRegistry.RunKeepsInv | src/cluegetter/core/redis.go:221-243 | in every run a bucket that is not over holds exactly the services that wrote to it, and its key outlives it |
| ServiceRegistry.ListedIff | src/cluegetter/core/redis.go:221-262 | whatever others do, a service is listed if and only if one of its updates, at u, has u <= now < u - u mod 60 + 120 |
| ServiceRegistry.StaysInSightIff | src/cluegetter/core/redis.go:221-262 | updates at most d seconds apart keep a service in sight, whenever they fall in the minute, if and only if d <= 60 |
| ServiceRegistry.FrequentUpdatesStayListed | src/cluegetter/core/redis.go:221-262 | in every run a service that updated within the last sixty seconds is listed |
| ServiceRegistry.LateUpdatesAreMissed | src/cluegetter/core/redis.go:221-262 | for every longer time between two updates a run is exhibited that has a moment between them at which the service is not listed |
| ServiceRegistry.StaysListedIff | src/cluegetter/core/redis.go:221-262 | in every run a service is listed for d seconds after each of its updates if and only if d <= 60 |

## Left out

- CodecObjects.ProtoMessage.Unmarshal: after an error or a panic the fields assigned so far are not described.
- CodecObjects.ProtoCheckResult.Unmarshal: after an error or a panic the fields assigned so far are not described.
- CodecObjects.ProtoHeader.Unmarshal: after an error or a panic the fields assigned so far are not described.
- CodecObjects.ProtoSession.Unmarshal: after an error or a panic the fields assigned so far are not described.
- CodecObjects.ProtoRpc.Unmarshal: after an error or a panic the fields assigned so far are not described.
- CodecObjects.ProtoLearn.Unmarshal: after an error or a panic the fields assigned so far are not described.
- CodecObjects.ProtoLearnId.Unmarshal: after an error or a panic the fields assigned so far are not described.
- CodecBuffers.ReadItemAt: a slice of bytes is shorter than 2^62; no larger one fits in memory. The same holds for the other readers of a slice.
- CodecLaws.RoundTrip: is stated for encodings shorter than 2^63 bytes, as a length field above that is refused.
- QuotaModule.CallbacksCount: how often a callback occurs is not stated; the source has one for each definition and count, so repeated recipients or periods repeat it, and tallying twice adds one member.
- QuotaModule.Module.MessageCheck: neither the reject text nor the determinants are modelled, nor how often a callback occurs; its polls run one after the other at one reading of the clock, while the source starts a goroutine for each; a store that fails is not modelled.
- QuotaSafety.WindowBound: bounds one quota; a message over its quota is taken never to tally, which GroupLaws.DeferralKeepsOffPermit gives for tally status permit when its deferral weighs enough.
- VerdictEngine.WeighResults: the answered weight of a weighed group is not zero; the source then divides by zero and weighs by infinities or by what is no number. Positive weights never lead there (GroupLaws.PositiveDivides).
- VerdictEngine.DecideOn: has the same condition on the answers that it weighs.
- VerdictEngine.Conclude: the text is stored before its variables are substituted.
- VerdictEngine.GetVerdict: has the same condition on the answers that are read, and the same text; the generated message id is not part of it, and a panic is always recovered, as without exit-on-panic.
- GroupLaws.GroupConserves: is exact on reals; the source rounds.
- FanIn.NeverStuck: a module's callback returns or panics after finitely many steps of its own; one that hangs is not modelled.
- MessageCache.StaysFound: ends when another message with the same message id is stored or dropped, as the index has one entry for each message id.
- MessageCache.MessageStore.Prune: nothing comes between its scan and its deletions; with something in between, only the invariant holds (MessageCache.RunKeepsValid), and an entry refreshed there may be dropped.
- MessageCache.StoredIsValid: the two limits together fit in 64 bits, as those of the one cache there is do.
- SaveRestore.GetAsMessage: the JSON of determinants and the duration are taken as stored; the text of an answer is not stored.
- HeaderRewriting.Message.GetMutableHeaders: needs a recipient when there is a template with %{recipient}, where the source panics; the variables' values are given.
- Greylisting.Module.MessageCheck: the determinants, the empty answer of a disabled module and a store that fails are not modelled.
- Greylisting.PermittedIff: a message is keyed by address, sender and recipients, not by the text that joins them, in which different ones could be equal.
- Greylisting.RetriesKeepClock: an attempt is one step of the run, while the source reads and writes the store in two calls; two sessions whose first attempts fall between these may both set the key, and restart the clock by that latency.
- Whitelist.Session.Start: parsing of CIDR blocks and addresses is the library's; its results are parameters.
- SrsStore.IssuedLeadsBack: the rewritten address is stored at once, while the source stores it in a goroutine.
- SrsStore.Module.GetFromAddress: the module's own message check, which chooses between it and SrsStore.Module.SwapRecipients, is not modelled.
- Srs.IsForwarded: letter case is that of ASCII; Unicode folding is not modelled.
- ServiceRegistry.ListedIff: services are taken as their JSON texts are distinct.
- The gzipped descriptor, text printing, fixed32 and zigzag helpers that no field uses, and type registration of the codec.
- Reading quotas and regexes from the database, message factors, HTTP handlers, templates, logging, IPC and configuration.
- Other modules: SpamAssassin, Rspamd, ClamAV, DKIM, Lua, bounce and report parsing.
- Header renumbering at the end of a message and all milter callbacks.
