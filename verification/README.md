# A verified model of NHA

NHA is a small server that tells a client which device it is talking to and what time its
monotonic clock shows. This project models its wire protocol on both ends, its serving loop, its
fixed-point clock, and the two threads that share state with a reply, and proves what they keep
over every input, every run and every interleaving. `dafny verify dfyconfig.toml` checks it all.

| file | models |
|---|---|
| `Bytes.dfy`, `Tlv.dfy` | little-endian numbers, XOR, tag-length-value records and their tiling of a byte string |
| `ClientCodec.dfy` | the client's `Message` and `TLV` codec: specification, in-place methods, round trips |
| `Protocol.dfy` | what a query means and what answers it, stated over decoded records; the size ledger |
| `MessageBuilder.dfy` | `createResponse` with its loops, guards and buffers, proved against `Protocol` |
| `EndToEnd.dfy`, `Acceptance.dfy`, `QueryOrder.dfy` | client, server and client again; exactly which queries are answered; when a reply keeps the query's order |
| `QueryLanguage.dfy`, `QueryTexts.dfy` | the client's query texts: lexer and parser with their loops; the grammar, what texts mean, and reading them back |
| `ResponderMachine.dfy`, `ResponderSafety.dfy`, `Visits.dfy` | the serving loop as a step machine over abstract sockets, interleaved with the watchdog; theorems about every run |
| `ResponderService.dfy` | the same loop as a class with its table and buffers; its history is always a run of the machine |
| `Clock.dfy` | fixed-point clock, perf calibration and drift watchdog, over exact reals |
| `TimerThread.dfy` | worker and `stop` of the timer, step by step |
| `DeviceIdCache.dfy`, `StampOrder.dfy` | name processing and cache, alone and interleaved with a reply in progress; what each value of a reply belongs to, and when the reported stamp is at most TX |
| `SystemReply.dfy` | what a client may conclude from any reply sent while the cache is being updated |

How the parts are tied together: each method that loops or writes in place is proved equal to a
specification function (`Decode`, `Frame`, `Respond`, `Judge`, `Lex`, `ParseMessage`, `Get`) or to
a step of a machine, and the theorems are about those. The class `Responder` carries the list of
steps it has taken as a ghost field, and its `Valid()` says that this list is a run of the machine.

## Where the code differs from what one would expect

- A rejected record followed by any further byte makes the whole query fail with -1; only a
  rejected record at the exact end of the body gets the reply without body (`RejectedRecord`).
- Reply records come in a fixed order, not in the query's order as doc/NHA_IF.md:312-314 asks. The two
  agree exactly for queries in ascending tag order (`QueryOrderKeptIff`, `TxBeforeRxIsReordered`).
- A burst holding more or less than one message is refused, although doc/NHA_DS.md:156 speaks of
  answering the first message in the buffer (`BurstIsRefused`, `RepliesAnswerOneMessage`).
- `valid` is never set back to true, although the comment at src/monotonictimer.cpp:161 says "while
  this persists" (`Callback`, `LostValidityIsFinal`).
- The clock is strictly increasing only across a gap of ceil(2^32/M) ticks (`StrictExactlyFromGap`)
  and runs backwards once the product reaches 2^96 (`MonotoneExactlyWithoutTruncation`).
- Perf calibration is exact for all shifts up to 32 and beyond that only if no bit of `time_mult` is
  lost (`CalibrationExactIff`).
- The codec's round trip fails exactly when a value is longer than 255 bytes or the frame too long for
  its prefix (`RoundTripIffShort`). With such values the size test of `Message::serialize` passes on
  too small a number; the condition under which it then writes behind its buffer is exact (`Overruns`
  in the contract of `Serialize`), and values of at most 255 bytes never meet it (`ShortNeverOverruns`).
- A negative `maxConnections` is compared as unsigned and is no limit (`LimitIsReached`).
- The last-updated stamp is read after TX, in its own critical section, and may be later than TX
  (`LastUpdatedMayExceedTx`), exactly if an update took its time and was stored in between (`StampAtMostTxIff`).
- Seven tag aliases of the query language contain an underscore, at which the lexer splits; they can
  never be used, though the usage text at tools/src/nhac.cpp:692-703 lists six of them (`UnreachableAliases`).

## Model

| member | source | states |
|---|---|---|
| `EndToEnd.EndToEndReply` | src/messagebuilder.cpp:193-428 | For every query of header plus records that fits 32768 bytes and has no rejected record: the server answers, the client decodes the answer, and reads the four header records, then exactly the answers to the supported requests with their values, each once and in ascending tag order; `xoredMd5` is the Device-ID if flag 0x02 was set and all zero otherwise; all bytes are consumed |
| `EndToEnd.AnswersByTag` | src/messagebuilder.cpp:352-397 | The answers tag by tag: user data 0x04 comes back as 0x05; each of 0x91 to 0x94 gets, under its tag less 0x80, the Device-ID, RX, TX or last-updated value in eight little-endian bytes; there is nothing else |
| `Acceptance.AnsweredIff` | src/messagebuilder.cpp:107-315 | Exactly which byte strings are answered: digests computable, at most 32768 bytes, a response limit of at least 38, and the client's own decoder reads all of it as a message with correct checksum, header flags 0 or 2, and a body of which at most the last record is rejected |
| `Acceptance.AnswersExactlyClientFrames` | src/messagebuilder.cpp:107-315 | The server answers exactly the frames the client would write for such records, and no other bytes |
| `Acceptance.CorruptIsRefused` | src/messagebuilder.cpp:176-191 | A query whose last sixteen bytes are not the digest of the rest is never answered |
| `Acceptance.AcceptedIffFine` | src/messagebuilder.cpp:224-296 | The scan accepts all records exactly if user data is not empty, 0x91 to 0x94 are, none of the five is repeated, and the reply fits |
| `SystemReply.ClientSeesOneUpdate` | src/messagebuilder.cpp:97-428 | Over every interleaving of cache updates with a reply, what the client decodes speaks of one successful update, no older than any there was when the reply began: the Device-ID, in the record or hidden in the checksum, was folded from a name the TPM gave; that update's stamp is at most the decoded TX and last-updated values. The decoded RX is the clock when the reply began, not below any stamp stored by then, and at most TX |
| `SystemReply.EverySentReplySpeaksOfOneUpdate` | src/responder.cpp:199-254 | Over every run of the serving loop beside any run of the cache: each reply sent, to whatever query, decodes at the client; its Device-ID, in the record or in the checksum, its RX and its stamps speak of one update that stored what the TPM gave and of the moment the reply began |
| `SystemReply.ReplySpeaksOf` | src/messagebuilder.cpp:97-428 | The same for one reply to an arbitrary query, with or without body |
| `SystemReply.AnswerCarries` | src/messagebuilder.cpp:355-396 | Each decoded body record carries the input its tag names, through the little-endian encoding, and was asked for |
| `EndToEnd.ServerAcceptsWhatClientDecodes` | src/messagebuilder.cpp:218-315 | On a well-formed query without a rejected record the server answers if and only if the client's decoder accepts the query |
| `EndToEnd.ClientReadsQuery` | tools/src/nhac.cpp:261-319 | The two independent walks over a query agree: the client decodes it exactly when its body is tiled by records, and sees the header and the records the server scans |
| `EndToEnd.QueryTiling` | src/messagebuilder.cpp:203-218 | Starting after the header or at it, the walk meets the same body records and the same remainder |
| `EndToEnd.ClientQueryIsWellFormed` | tools/src/nhac.cpp:186-229 | What the client serializes around the header passes all of the server's checks and its body tiles to the client's records |
| `EndToEnd.ClientReadsReply` | tools/src/nhac.cpp:261-319 | Any reply frame decodes to its header, with flags 1 if the query had 2 and 0 otherwise, and its records; XORing the checksums recovers the Device-ID or zero |
| `EndToEnd.ReplyAnswersRequests` | src/messagebuilder.cpp:352-397 | The set of reply records is the set of answers to the supported requests: none missing, none invented |
| `EndToEnd.ReplyOrder` | src/messagebuilder.cpp:355-396 | Reply records stand in strictly ascending tag order, whatever the query order was |
| `QueryOrder.QueryOrderKeptIff` | src/messagebuilder.cpp:352-397 | The answers the client decodes come in query order, as doc/NHA_IF.md:312-314 asks, if and only if the supported requests of the query are in ascending tag order |
| `QueryOrder.TxBeforeRxIsReordered` | src/messagebuilder.cpp:373-389 | A query for TX and then RX is answered with RX first, so the documented order fails |
| `QueryOrder.RequestedAscends` | src/messagebuilder.cpp:352-397 | The answers in query order have ascending tags exactly if the supported requests have |
| `QueryOrder.AscendingUnique` | src/messagebuilder.cpp:352-397 | Two lists in ascending tag order with the same members are the same list |
| `EndToEnd.RejectedRecord` | src/messagebuilder.cpp:305-315 | The first rejected record decides: at the exact end of the body it earns the 38-byte reply without body, with anything at all after it the query is refused |
| `EndToEnd.FindIsMembership` | src/messagebuilder.cpp:234-296 | Among accepted records a supported tag occurs once, so the flag or value kept for it is membership |
| `EndToEnd.AcceptedIsClean` | src/messagebuilder.cpp:232-296 | Accepted records: user data 0x04 is not empty, 0x91 to 0x94 are empty, none of the five is repeated |
| `EndToEnd.CleanIsAccepted` | src/messagebuilder.cpp:232-296 | Conversely records of these lengths without repetition whose reply fits are all accepted |
| `EndToEnd.AcceptanceIgnoresOrder` | src/messagebuilder.cpp:219-303 | Acceptance and what is wanted depend only on how often each supported record occurs |
| `EndToEnd.ReplyIgnoresOrderAndUnsupported` | src/messagebuilder.cpp:219-397 | Permuting the body records, or inserting and deleting unsupported ones within the size limit, leaves every reply byte unchanged |
| `Protocol.SizeLedger` | src/messagebuilder.cpp:193-428 | On every answered query the size the scan accumulated, the length prefix, the bytes laid down and the result agree, and lie between 38 and the smaller of the limit and 343 |
| `Protocol.AcceptedUserData` | src/messagebuilder.cpp:234-252 | Stored user data is empty exactly when none was accepted |
| `Protocol.LedgerIsReplySize` | src/messagebuilder.cpp:193-296 | The size built record by record is the size of the reply for what is wanted in the end |
| `Protocol.LedgerFits` | src/messagebuilder.cpp:193-296 | The ledger never passes the response limit |
| `Protocol.ReplyBodySize` | src/messagebuilder.cpp:352-397 | What the writer lays down has the ledger's size, at most 343 bytes in all, and every value fits its length byte |
| `Protocol.ReplyRecordsSize` | src/messagebuilder.cpp:305-397 | Whatever verdict a body gets, the records written for it fit the limit and match the ledger |
| `Protocol.ReplyListSize` | src/messagebuilder.cpp:320-397 | The size announced for a reply's record list is its real size |
| `Protocol.FrameLength` | src/messagebuilder.cpp:320-428 | A reply frame's length prefix is its length |
| `Protocol.HeaderBytes` | src/messagebuilder.cpp:320-348 | The encoded header records are the eighteen header bytes the source writes and checks |
| `Protocol.BurstIsRefused` | src/messagebuilder.cpp:116-119 | A message that is answered on its own is refused as soon as anything follows it, and so is every proper prefix of it, whatever the clock and Device-ID reads are: a burst is answered only if it is exactly one message |
| `MessageBuilder.CreateResponse` | src/messagebuilder.cpp:97-429 | The result and the bytes written are those of the specification over decoded records applied to the first `querySize` bytes and the clock and Device-ID reads: nothing else in either buffer shows through, null buffers and bad sizes give -1, writes stay below `maxResponseSize` |
| `MessageBuilder.Answer` | src/messagebuilder.cpp:113-429 | The same for arguments that passed the first check; the result is -1 or between 38 and the limit |
| `MessageBuilder.Validate` | src/messagebuilder.cpp:113-201 | Accepts exactly the well-formed queries |
| `MessageBuilder.CheckHeader` | src/messagebuilder.cpp:126-167 | Accepts exactly the encoding of the four header records with flags 0 or 2 |
| `MessageBuilder.Matches` | src/messagebuilder.cpp:130-134 | The byte loop decides equality with the expected bytes |
| `MessageBuilder.HeaderPieces` | src/messagebuilder.cpp:126-167 | The piecewise header checks together are equality with the encoded header |
| `MessageBuilder.TryAddUnsigned` | src/auxiliary.h:10-34 | Adds exactly when the mathematical sum stays within the maximum, leaves the value alone otherwise, and cannot wrap |
| `MessageBuilder.ScanRecord` | src/messagebuilder.cpp:224-298 | One turn of the switch rejects exactly the records the specification rejects and keeps flags and ledger equal to those of the accepted records |
| `MessageBuilder.ScanBody` | src/messagebuilder.cpp:203-315 | The record loop reaches the verdict of the specification: malformed, without body, or the wants and the ledger of the records |
| `MessageBuilder.JudgeRejected` | src/messagebuilder.cpp:219-315 | Stopping at the first rejected record gives the verdict of the whole body |
| `MessageBuilder.AcceptedPrefix` | src/messagebuilder.cpp:219-303 | Every prefix of an accepted list is accepted, so stopping early loses nothing |
| `MessageBuilder.ScanBounds` | src/messagebuilder.cpp:193-315 | What a full scan hands to the writer fits the limit and one length byte |
| `MessageBuilder.WriteHeader` | src/messagebuilder.cpp:320-348 | The first 22 bytes are the length and the encoded header; the rest is untouched |
| `MessageBuilder.WritePart` | src/messagebuilder.cpp:355-364 | A wanted record is appended in full: within the proved sizes the 32768 guard never drops it and the 16-bit counter never wraps |
| `MessageBuilder.WriteBody` | src/messagebuilder.cpp:353-397 | The five guarded writes lay down exactly the encoded reply records and move the counter to the ledger's size |
| `MessageBuilder.WritePayload` | src/messagebuilder.cpp:310-397 | Everything before the checksum is the payload of the reply's record list, ending where the ledger says |
| `MessageBuilder.WriteChecksum` | src/messagebuilder.cpp:399-422 | The sixteen bytes after the payload are its digest, XORed with the Device-ID on request; nothing else changes |
| `MessageBuilder.WriteReply` | src/messagebuilder.cpp:310-428 | The buffer holds the reply frame for the scan's verdict, or -1 is returned if the digest fails |
| `ClientCodec.RoundTripIffShort` | tools/src/nhac.cpp:186-319 | For every list: deserializing its frame gives the list back, consumes all of it and has a zero `xoredMd5` if and only if every value has at most 255 bytes and the frame less than 2^32 |
| `ClientCodec.ReserializeReproduces` | tools/src/nhac.cpp:186-319 | For any accepted bytes, re-serializing the decoded list reproduces everything before the checksum |
| `ClientCodec.DecodeFrame` | tools/src/nhac.cpp:261-319 | A frame with any checksum and anything after it decodes to its records, its checksum and the XOR |
| `ClientCodec.DecodedIsShort` | tools/src/nhac.cpp:369-391 | Decoded values always fit their length byte |
| `ClientCodec.PayloadOf` | tools/src/nhac.cpp:186-213 | The payload of a list is determined by its encoding and a length prefix that counts it |
| `ClientCodec.RecordBytesIsLength` | tools/src/nhac.cpp:174-184 | The narrowed lengths add up to the encoded size when every value fits |
| `ClientCodec.FrameSize` | tools/src/nhac.cpp:174-229 | The announced size is the real size of the frame |
| `ClientCodec.Message.constructor` | tools/src/nhac.cpp:44-48 | A new message has no records and no checksums |
| `ClientCodec.Message.Clear` | tools/src/nhac.cpp:55-55 | Back to the state of a new message |
| `ClientCodec.Message.Add` | tools/src/nhac.cpp:54-54 | Appends one record and changes nothing else |
| `ClientCodec.Message.GetCompleteSizeOfMsgInBytes` | tools/src/nhac.cpp:174-184 | The 32-bit running sum is the announced size, narrowing and wrap-around included |
| `ClientCodec.Message.SerializeTlv` | tools/src/nhac.cpp:240-259 | Writes the encoding or, when it does not fit, nothing; what lies before is kept |
| `ClientCodec.Message.SerializeTlvs` | tools/src/nhac.cpp:204-213 | Succeeds exactly when all records fit and then lays down their encodings in order |
| `ClientCodec.Message.Serialize` | tools/src/nhac.cpp:186-229 | For every list and buffer size: writes the frame, long values included, exactly when it fits; leaves the buffer exactly when the announced size passes the test and the length prefix or the checksum does not fit; throws otherwise; never touches bytes behind the given size before that |
| `ClientCodec.ShortNeverOverruns` | tools/src/nhac.cpp:186-229 | With values of at most 255 bytes no buffer of 4 bytes up to nearly 4 GiB is overrun |
| `ClientCodec.LongValueOverruns` | tools/src/nhac.cpp:186-229 | With the client's 65536 bytes, one value of 65530 bytes announces 272 and its checksum lies behind the buffer |
| `ClientCodec.AnnouncedAtMostReal` | tools/src/nhac.cpp:174-184 | Narrowing and wrap-around never announce more than is written |
| `ClientCodec.AnnouncedStep` | tools/src/nhac.cpp:174-184 | Each record adds two and its length narrowed to a byte to the announced size, which is kept to 32 bits and starts at twenty |
| `ClientCodec.Message.XorLoop` | tools/src/nhac.cpp:313-313 | The loop computes the XOR of the two digests |
| `ClientCodec.Message.DeserializeTlvs` | tools/src/nhac.cpp:288-305 | Succeeds exactly when the bytes are tiled by records, and returns those |
| `ClientCodec.Message.Deserialize` | tools/src/nhac.cpp:261-319 | Gives the decoder's result on every input; on an error no field changes |
| `Tlvs.TileAfterRecords` | tools/src/nhac.cpp:369-391 | Reading after well-sized records yields those records, then whatever the following bytes yield |
| `Tlvs.TileInvertsEncode` | tools/src/nhac.cpp:240-259 | Well-sized records are read back exactly, with nothing left over |
| `Tlvs.EncodeInvertsTile` | tools/src/nhac.cpp:369-391 | Re-encoding what was read, plus the remainder, gives any byte string back, and the remainder holds no further record |
| `Tlvs.EncodeAllAppend` | tools/src/nhac.cpp:204-213 | Encoding is compositional |
| `Tlvs.WalkAt` | src/messagebuilder.cpp:221-303 | One step of a walk by position either reads the next record or is stuck at the remainder |
| `Bytes.XorDigestCancels` | tools/src/nhac.cpp:313-313 | XORing twice with one digest restores the other; a digest with itself gives zero |
| `Bytes.XorCancels` | src/messagebuilder.cpp:414-417 | The same for single bytes |
| `Bytes.XorAt` | src/messagebuilder.cpp:414-417 | Each bit of the exclusive or tells whether the bits differ |
| `Bytes.FromLERoundTrip` | src/messagebuilder.cpp:71-77 | A number below 256^k survives its k-byte encoding |
| `Bytes.LERoundTrip` | tools/src/nhac.cpp:65-76 | Bytes survive decoding and re-encoding |
| `Bytes.U64RoundTrip` | src/messagebuilder.cpp:71-77 | A 64-bit clock value survives its eight-byte encoding |
| `Bytes.FromLE32IsFromLE` | src/messagebuilder.cpp:66-69 | The shift-and-or decoder is little-endian decoding |
| `Bytes.PutLE` | src/messagebuilder.cpp:71-77 | The store loop writes the little-endian encoding and touches nothing else |
| `ResponderSafety.LostValidityIsFinal` | src/responder.cpp:26-52 | Over every interleaving with the watchdog: validity never returns, at most one more reply is sent once it is lost, the next test in `start` leaves the loop, after that nothing but closing follows, and in the end every descriptor is closed |
| `ResponderSafety.OneTestAfterLoss` | src/responder.cpp:28-35 | After the loss validity is tested at most once more in `start`, and that leaves the loop |
| `Visits.VisitOutcome` | src/responder.cpp:195-278 | Over every run, how every visit ends: after its chunks the peer closed, or recv failed, or nothing had come and nothing else happens, or the message builder was asked exactly once with all bytes received and its reply, if any, handed to send. The connection stays exactly if nothing had come or all of the reply was sent, and is closed and erased otherwise; the log holds the chunks and that reply and nothing else |
| `Visits.AdmissionOutcome` | src/responder.cpp:147-180 | Over every run an accepted connection gets into the table, at its end, exactly if the clients are below the limit read as unsigned and it could be made non-blocking; otherwise it is closed at once |
| `Visits.AnyBurstCanArrive` | src/responder.cpp:199-209 | Every burst of up to 61440 bytes can be received on a visit |
| `ResponderSafety.DescriptorsAreConserved` | src/responder.cpp:132-280 | Over every run each descriptor is opened at most once and is live exactly once or was closed exactly once; the listening socket stays at index 0 until shutdown; clients never exceed the limit, which is compared as an unsigned number |
| `ResponderSafety.LimitIsReached` | src/responder.cpp:164-164 | Every number of clients up to the limit read as unsigned is reached by some run: a limit that is not negative is tight, a negative one is as good as none |
| `ResponderSafety.PassVisitsInOrder` | src/responder.cpp:193-279 | At every moment of a handling pass: clients visited form a prefix of the table in its order, none twice, all of them if it ends with validity intact; each got at most one reply; the present table is a subsequence of the old one: those that stayed, then those not yet done |
| `ResponderSafety.PassTerminates` | src/responder.cpp:193-279 | On every run each step of a pass stays in it and shrinks a rank bounded below, although the table is erased from while it is walked |
| `ResponderSafety.RepliesAnswerReceivedBytes` | src/responder.cpp:199-238 | On every run each reply goes to the connection visited last and answers the concatenation of the chunks received since that visit began, every one of them from this very connection, at most 61440 bytes: the shared buffer never carries bytes from one connection to another |
| `ResponderSafety.SinceVisit` | src/responder.cpp:195-209 | In every log the open visit is found, and everything received since came from its connection |
| `ResponderSafety.RunAfterLoss` | src/responder.cpp:26-52 | Every send after the loss is counted against it |
| `ResponderSafety.StepAfterLoss` | src/responder.cpp:26-52 | No step restores validity, and once the loop is left only closing is possible |
| `ResponderSafety.StepKeepsTable` | src/responder.cpp:132-280 | Every step keeps the balance of opened, live and closed descriptors, the front of the table and the limit |
| `ResponderSafety.StepKeepsLoss` | src/responder.cpp:26-52 | Every step keeps: no reply after the loss but one in flight |
| `ResponderSafety.StepKeepsPass` | src/responder.cpp:193-279 | Every step keeps the shape of the pass: old table = done + to do, new table = stayed + to do |
| `ResponderSafety.StepKeepsRecv` | src/responder.cpp:199-238 | Every step keeps: the buffer prefix is the chunks of this visit, and every reply in the log answers them |
| `ResponderSafety.RunKeepsInv` | src/responder.cpp:26-52 | All of this holds in every reachable state |
| `ResponderSafety.PassTableIsDistinct` | src/responder.cpp:193-279 | No descriptor is in a pass's table twice |
| `ResponderMachine.OpenBalances` | src/responder.cpp:147-180 | Opening a fresh descriptor keeps the balance |
| `ResponderMachine.CloseBalances` | src/responder.cpp:216-217 | Closing and erasing one entry keeps it |
| `ResponderService.RepliesAnswerOneMessage` | src/responder.cpp:199-238 | Every reply sent answers exactly one message of 38 to 32768 bytes whose length prefix is the number of bytes received since the visit of that connection began, all of them on that connection, and is the message builder's answer to it |
| `ResponderService.AnswerMeans` | src/messagebuilder.cpp:116-119 | A query that gets an answer is exactly one message |
| `ResponderService.Responder.constructor` | src/responder.cpp:17-24 | Starts in the initial state of the machine with the listening socket alone in the table |
| `ResponderService.Responder.Interfere` | src/monotonictimer.cpp:151-174 | The watchdog may clear validity here; nothing else changes |
| `ResponderService.Responder.PlaceAccepted` | src/responder.cpp:164-180 | An accepted descriptor is closed or appended as a step of the machine; older entries stay |
| `ResponderService.Responder.AcceptOne` | src/responder.cpp:147-180 | One accept that finds a connection or fails is a step of the machine |
| `ResponderService.Responder.AcceptNewClients` | src/responder.cpp:132-182 | The loop is a run of the machine; older entries stay in front, and the clients stay within a limit that is not negative |
| `ResponderService.Responder.Recv` | src/responder.cpp:203-208 | One recv extends the filled prefix by its chunk, never past the buffer |
| `ResponderService.Responder.ReceiveAll` | src/responder.cpp:199-209 | After the loop the filled prefix is the concatenation of all chunks and its length the received size |
| `ResponderService.Responder.CloseAndErase` | src/responder.cpp:216-217 | The entry at the iterator is gone, the others stay, and the iterator stands on the next one |
| `ResponderService.Responder.SendReplyTo` | src/responder.cpp:250-277 | What is sent, once, is the reply in the buffer; the connection stays exactly after a full send |
| `ResponderService.Responder.AnswerQuery` | src/responder.cpp:235-278 | Whatever the buffers held before, the message builder is asked once about the bytes just received, and its answer, if any, is sent; table and iterator follow from that end |
| `ResponderService.Responder.HandleReceived` | src/responder.cpp:211-278 | The end of the visit fits the recv result and the bytes: closed by the peer, failed, silent only if nothing was received, else answered once; table and iterator follow from it |
| `ResponderService.Responder.ServeConnection` | src/responder.cpp:195-278 | One visit: the serving thread's steps are the chunks and then those of its end, which fits the bytes received; table and iterator follow from it |
| `ResponderService.Responder.HandleQueriesAndCleanUpConnections` | src/responder.cpp:184-280 | The pass ends; it visited a prefix of the clients in order, all of them if validity holds, and leaves the listening socket, those that stayed and those not visited |
| `ResponderService.Responder.PassIsOver` | src/responder.cpp:193-279 | The same, as what every run says of the end of a pass |
| `ResponderService.Responder.CloseAll` | src/responder.cpp:39-44 | Every socket is closed in order and the table emptied |
| `ResponderService.Responder.ServeOnce` | src/responder.cpp:28-35 | One turn is a run of the machine back to the validity test or to exit |
| `ResponderService.Responder.Turn` | src/responder.cpp:28-44 | Either the loop continues or the server has exited or sleeps with everything closed and validity lost; without validity it always sleeps |
| `ResponderService.Responder.Start` | src/responder.cpp:26-52 | For any number of turns the object's history is a run of the machine, so all theorems about runs hold of it |
| `Clock.GetExact` | src/monotonictimer.cpp:41-47 | Below 2^96 the truncating cast loses nothing |
| `Clock.TicksExact` | src/monotonictimer.cpp:46-46 | As long as the counter has not wrapped, the reading is the product without its last 32 bits |
| `Clock.GetMonotone` | src/monotonictimer.cpp:41-47 | The reading never decreases with the tick count |
| `Clock.MonotoneExactlyWithoutTruncation` | src/monotonictimer.cpp:41-47 | Up to a tick limit the clock never runs backwards if and only if the product at the limit stays below 2^96 |
| `Clock.TruncationFallsBack` | src/monotonictimer.cpp:46-46 | At the first tick count whose product reaches 2^96 the clock falls back |
| `Clock.GetAdditive` | src/monotonictimer.cpp:41-47 | Elapsed intervals add up to within one nanosecond |
| `Clock.StrictGapMeaning` | src/monotonictimer.cpp:46-46 | A gap of ceil(2^32/M) ticks is the least worth a whole nanosecond |
| `Clock.GetStrict` | src/monotonictimer.cpp:41-47 | Across a gap worth a nanosecond the reading strictly grows |
| `Clock.StrictExactlyFromGap` | src/monotonictimer.cpp:41-47 | A tick gap always advances the clock if and only if it is at least ceil(2^32/M) |
| `Clock.GetError` | src/monotonictimer.cpp:27-47 | The reading is never ahead of ticks*1000/frequency and behind it by less than ticks/2^32 + 1 |
| `Clock.WatchdogBounds` | src/monotonictimer.cpp:151-174 | Whenever the check passes at OS time dt and tick count n with threshold T, the reading lies above dt - T*dt - n/2^32 - 1 and below dt + T*dt |
| `Clock.CheckPassesIff` | src/monotonictimer.cpp:151-174 | The check passes if and only if OS time has moved and differs from the time the ticks take by less than the threshold's share of it |
| `Clock.GoodReadingPasses` | src/monotonictimer.cpp:151-174 | No false alarm: a reading within the threshold of OS time by the fixed-point error n/2^32 + 1 passes the check |
| `Clock.StillValidWasInBounds` | src/monotonictimer.cpp:151-174 | A clock that is still valid was within these bounds at every check it went through |
| `Clock.CalibratedMultiplier` | src/monotonictimer.cpp:27-27 | Frequency formula and constructor together give the integer quotient 2^32*mult/2^shift |
| `Clock.CredibleIff` | src/monotonictimer.cpp:137-147 | The frequency read is positive exactly if the multiplier read is |
| `Clock.CalibrationExact` | src/monotonictimer.cpp:139-141 | For shifts up to 32 the composed clock is floor(ticks*mult/2^shift), cut to 64 bits |
| `Clock.CalibrationExactIff` | src/monotonictimer.cpp:139-141 | For any shift up to 63 it is exact for all tick counts if and only if the shift is at most 32 or the low shift-32 bits of `mult` are zero |
| `Clock.MonotonicTimer.constructor` | src/monotonictimer.cpp:15-39 | A timer with a credible frequency starts valid, unchecked, with its multiplier and start values |
| `Clock.MonotonicTimer.GetNs` | src/monotonictimer.cpp:41-47 | The reading is the fixed-point clock at the ticks since the start, counter wrap-around included; before wrap-around and truncation it is ticks times multiplier without the last 32 bits |
| `Clock.MonotonicTimer.Callback` | src/monotonictimer.cpp:151-174 | The timer stays valid if and only if it was, OS time has moved, and it differs from the time the ticks take by less than the threshold's share; so validity never returns and is never lost without cause |
| `TimerThread.TimerSafety` | src/timer.cpp:16-66 | Over every interleaving, spurious wakeups and throwing callbacks included: callbacks never overlap, at most one begins after `running` is cleared, and none runs or ever begins once a `stop` has returned |
| `TimerThread.IntervalBeforeEachBegin` | src/timer.cpp:29-41 | Every callback begins after an interval of its own ran out: one before the first, one between any two |
| `TimerThread.AnyNumberOfBegins` | src/timer.cpp:18-48 | Runs with any number of callbacks exist, even if each of them throws |
| `TimerThread.StopMakesProgress` | src/timer.cpp:51-66 | After the flag is cleared every worker step shrinks a rank, and while `stop` joins, the join or a worker step is possible without waiting for the interval: no lost wakeup, no deadlock |
| `TimerThread.WorkerCanMove` | src/timer.cpp:51-66 | While `stop` joins an unfinished worker, some step of it is enabled that is no wakeup |
| `TimerThread.NoBeginAfterStop` | src/timer.cpp:51-66 | No continuation of a run after a returned `stop` begins a callback |
| `TimerThread.FlagsOnlyMove` | src/timer.cpp:16-66 | `running` never comes back, and begins after it is cleared are counted exactly |
| `TimerThread.StepKeepsInv` | src/timer.cpp:16-66 | Every step keeps: the mutex has the holder its position says, and a cleared flag leaves at most one begin pending |
| `TimerThread.RunKeepsInv` | src/timer.cpp:16-66 | The same in every reachable state |
| `DeviceIdCache.CacheConsistency` | src/tpmwatcher.cpp:205-219 | Over every interleaving: with the mutex free the cached pair is the latest successful update's; a finished reply reports the Device-ID of one update and a stamp that is this update's or a later one's, never older; RX and that Device-ID's stamp are at most TX |
| `DeviceIdCache.UpdatesComeFromTpm` | src/tpmwatcher.cpp:175-219 | Apart from the constructor's zero pair, every pair the cache ever held was folded from a name the TPM gave |
| `StampOrder.StampAtMostTxIff` | src/messagebuilder.cpp:381-396 | Over every run in which a reply reads TX and then its last-updated stamp: the stamp is at most TX if and only if no update that read its clock after TX was stored between the two reads; so it is if no update was stored there at all |
| `StampOrder.EveryReplyReadsTxThenStamp` | src/messagebuilder.cpp:381-396 | Every reply that has both values read them in this order in its run, so the condition covers all of them |
| `StampOrder.ReplyBegins` | src/messagebuilder.cpp:100-105 | Over every run in which a reply begins: its RX is the clock at that moment, no update stored by then has a later stamp, and none is newer than the one its Device-ID comes from |
| `StampOrder.EveryReplyBegins` | src/messagebuilder.cpp:100-105 | Every reply of a run has begun in it |
| `StampOrder.ReplyReadsTx` | src/messagebuilder.cpp:381-388 | The TX a reply reports is the clock when it read it |
| `StampOrder.ReplyReadsStamp` | src/tpmwatcher.cpp:27-31 | The stamp a reply reports is that of the latest update when it read it |
| `StampOrder.FetchedIsStored` | src/tpmwatcher.cpp:175-219 | A usable name the TPM gave is what the next stored update holds, cached whole the moment it is stored |
| `StampOrder.RunTracks` | src/tpmwatcher.cpp:205-219 | Every continuation of a run keeps: the cached stamp is later than TX exactly if a late update was stored |
| `StampOrder.StepTracks` | src/tpmwatcher.cpp:205-219 | The same for every single step |
| `DeviceIdCache.LastUpdatedMayExceedTx` | src/messagebuilder.cpp:381-396 | The condition can fail: a run in which the reported last-updated stamp is later than the reported TX |
| `DeviceIdCache.StepKeepsStamps` | src/tpmwatcher.cpp:205-219 | Every step keeps: stamps do not decrease and are never in the future |
| `DeviceIdCache.StepKeepsCache` | src/tpmwatcher.cpp:205-219 | Every step keeps: outside an update the pair is one update's, inside it the written part is the new one's |
| `DeviceIdCache.StepKeepsReply` | src/tpmwatcher.cpp:21-31 | Every step keeps: what a reply has read so far comes from updates in order |
| `DeviceIdCache.StepKeepsSourced` | src/tpmwatcher.cpp:175-219 | Every step keeps: stored Device-IDs were folded from names the TPM gave |
| `DeviceIdCache.RunKeepsInv` | src/tpmwatcher.cpp:205-219 | All of this in every reachable state |
| `DeviceIdCache.FoldLosesOneHalf` | src/tpmwatcher.cpp:209-216 | The folded Device-ID and one half of the digest give the other half |
| `DeviceIdCache.DeviceIdBytes` | src/tpmwatcher.cpp:175-216 | Exactly the names with 32 bytes after an optional prefix 0x00 0x0B give a Device-ID; byte i of it is the XOR of bytes i and i + 16, and further bytes do not matter |
| `DeviceIdCache.PrefixIsIgnored` | src/tpmwatcher.cpp:175-203 | A prefixed name and its bare digest give the same Device-ID if and only if the digest does not itself start like a prefix |
| `DeviceIdCache.TpmWatcher.constructor` | src/tpmwatcher.cpp:13-19 | The cache starts as the zero pair |
| `DeviceIdCache.TpmWatcher.Update` | src/tpmwatcher.cpp:175-219 | Succeeds exactly when a usable name was obtained, then stores its fold and the clock reading, otherwise leaves both alone |
| `DeviceIdCache.TpmWatcher.GetId` | src/tpmwatcher.cpp:21-25 | The sixteen bytes are copied and nothing else is touched |
| `QueryLanguage.QueryTextRoundTrip` | tools/src/nhac.cpp:396-582 | Any list of messages rendered as `{ 0xTT(0xVV ...) ... }`, with any blanks, commas and newline-terminated comments between its tokens, is read back exactly |
| `QueryTexts.TextMeans` | tools/src/nhac.cpp:396-582 | Any list of messages, with values as hexadecimal bytes, decimal numbers in four or eight bytes or quoted texts, tags by byte or name and the header item, separated in any way, is read as what it stands for |
| `QueryTexts.TextToQuery` | tools/src/nhac.cpp:442-582 | A text of `H(flags)` and any items is read as one message whose frame is the query with these flags and the records the items stand for |
| `QueryTexts.ParsesExactlyTheGrammar` | tools/src/nhac.cpp:471-582 | `parse` reads a message if and only if the tokens are a brace, items and a brace, and reads the items' records; it reports the end exactly if no token is left |
| `QueryTexts.ErrorKeepsItems` | tools/src/nhac.cpp:484-579 | A syntax error comes at the first place where no item can be read, and leaves the records up to there in the message |
| `QueryTexts.PartMeans` | tools/src/nhac.cpp:503-537 | Each value form is one token with the right bytes: a hexadecimal byte in either case, a decimal number modulo 2^32 in four bytes, with `l` or `L` the whole number in eight, a quoted text as its character codes in order |
| `QueryTexts.TooBigIsRefused` | tools/src/nhac.cpp:522-526 | A number of 2^64 or more is an error |
| `QueryTexts.UnclosedQuote` | tools/src/nhac.cpp:419-427 | Quotes not closed on their line are one token up to its end, and an error as a value |
| `QueryTexts.OpenComment` | tools/src/nhac.cpp:407-412 | A comment that no newline ends swallows the rest of the text |
| `QueryTexts.TagMeans` | tools/src/nhac.cpp:444-574 | A tag by its byte in either case, or by one of its names, yields the record with the tag the protocol gives it |
| `QueryTexts.HeaderMeans` | tools/src/nhac.cpp:549-558 | `H` and `Header` yield the protocol's header, with the flags byte given or none |
| `QueryTexts.DecimalMeans` | tools/src/nhac.cpp:522-526 | A number written in decimal, with any leading zeros, is read as that number |
| `QueryLanguage.LexIgnoresFiller` | tools/src/nhac.cpp:396-440 | Whatever separates them, the tokens of a text are those it was made from |
| `QueryLanguage.MessagesRoundTrip` | tools/src/nhac.cpp:442-582 | The tokens of any list of messages parse back to the list |
| `QueryLanguage.ItemsRoundTrip` | tools/src/nhac.cpp:487-579 | The tokens of a message's items parse back to its records and leave the rest |
| `QueryLanguage.ArgsRoundTrip` | tools/src/nhac.cpp:503-546 | Rendered values parse back to the bytes |
| `QueryLanguage.HexRoundTrip` | tools/src/nhac.cpp:59-63 | `toHex` of a byte is a token that parses back to it |
| `QueryLanguage.SkipFiller` | tools/src/nhac.cpp:401-417 | The loop ends where the first non-filler character stands, or at the end |
| `QueryLanguage.TokenEnd` | tools/src/nhac.cpp:419-439 | The three token loops find the end of the token |
| `QueryLanguage.NextToken` | tools/src/nhac.cpp:396-440 | Returns the first token of the text and the position from which the others follow; empty means there is none |
| `QueryLanguage.CharStream.constructor` | tools/src/nhac.cpp:396-399 | All tokens of the text are still to come |
| `QueryLanguage.CharStream.Next` | tools/src/nhac.cpp:396-440 | Takes exactly one token off the stream |
| `QueryLanguage.CharStream.ReadValues` | tools/src/nhac.cpp:503-546 | The value loop returns the grammar's bytes or its error |
| `QueryLanguage.CharStream.ReadItem` | tools/src/nhac.cpp:496-578 | One item yields the grammar's records or its error |
| `QueryLanguage.CharStream.Parse` | tools/src/nhac.cpp:442-582 | One call gives the grammar's message, end of input or syntax error; the stream is left after the message, and after an error the message holds the records read before it |
| `QueryLanguage.ReadAll` | tools/src/nhac.cpp:794-794 | Calling `parse` until it reports the end reads the grammar's list of messages |
| `QueryLanguage.TokenShapes` | tools/src/nhac.cpp:419-439 | Every token is a word, a single character or starts with a quote |
| `QueryLanguage.UnderscoreIsNoToken` | tools/src/nhac.cpp:427-439 | No text has a name with an underscore as a token |
| `QueryLanguage.UnreachableAliases` | tools/src/nhac.cpp:444-467 | The seven aliases with an underscore are never tokens, so they cannot be used |
| `QueryLanguage.NameReachableIff` | tools/src/nhac.cpp:427-439 | A name of letters, digits and underscores can be a token if and only if it has no underscore or is a single one |

## Left out

- Socket setup, address lookup, `poll`, `connectToNha`, `sendQuery`, `receiveResponse` and both `main` functions: I/O; `accept`, `recv`, `send` and `poll` have arbitrary results here, and a finite but unbounded number of connections waits at each accept loop.
- File descriptors are fresh handles: that the operating system reuses the numbers of closed ones is not modelled.
- TPM calls and resource freeing in `update`: an update either fails or obtains a name of any size.
- CPUID checks, the time-stamp counter, `clock_gettime` and the perf page: inputs; the cache theorems assume a counter that does not decrease and a product below 2^96.
- MD5: any function from bytes to sixteen bytes, the same on both ends; that OpenSSL may fail is an input.
- IEEE rounding of `double`: the clock bounds are over exact reals, with the absolute value taken on reals.
- `ConfigurationParser`, option checks, `TLV::decode`, `Message::print`, logging and error texts: they would add only easy members.
- The exits of src/responder.cpp for an empty table: unreachable, since the listening socket stays at index 0.
- Threads: the timer and the cache are step machines over interleavings; memory ordering below mutexes and the atomic flag is not modelled. `TPMWatcher::start` appears as the condition that queries are read only after a first successful update. A callback is assumed to end for progress of `stop`.
- Buffers that are only read are sequences, not arrays; `createResponse` reads its query before it writes, so that sharing one buffer for both changes nothing.
- ClientCodec.Message.Serialize: says nothing of memory behind the buffer after an overrun, because the source's behaviour is undefined there.
- QueryLanguage.ReadAll: does not model the sending and receiving between two parses.
- ResponderService.Responder.Start: runs any finite number of turns; the endless sleep after shutdown is a final state.
- Clock.MonotonicTimer.constructor: requires a multiplier below 2^64, because the source's conversion is undefined above it; a frequency that is not positive makes the source throw, so that no object exists.
- MessageBuilder.CreateResponse: the clock and Device-ID reads are passed in as values; their order in time is modelled in `DeviceIdCache`.
