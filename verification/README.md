# go-clamav: a verified model

go-clamav scans data with a clamd daemon. It sends the data with the `INSTREAM` command as
length-prefixed chunks and a zero terminator, reads one reply line, and turns it into a verdict. Its
contract is fail-closed: an error never goes with a result, and data that was not completely scanned is
never called clean. This project models that client, the fake clamd its tests talk to, and the ZIP writer
those tests build samples with, and proves what they promise. `dafny verify dfyconfig.toml` checks
everything.

## How the model is laid out

| module | what it models |
|---|---|
| `Bytes`, `Text` | bytes, fixed-width integers, bit operations; Go's trimming and searching of strings |
| `Errors` | Go error values as trees, `errors.Is`/`errors.As`, `IsRetryable` |
| `Framing`, `Trace` | the canonical framing of a byte string; a source's reads and the outcome they determine |
| `Env`, `Conn` | the world around one scan; `deadlineConn` and `ctxReader` |
| `Proto` | `fill` and `StreamAll` over one shared buffer |
| `Reply`, `Classify` | `bufio.Reader`, `ReadLine`, `finishLine`; `ParseScanResponse` |
| `Client` | `dial`, `scanStream`, `recoverStreamError`, `resultFromLine`, and the error wrapping |
| `FakeServer` | the fake clamd's decoder and replies |
| `LimitReply`, `Session` | the size-limit reply heard whole or in part; client and server composed |
| `CutReply` | a run whose oversized payload is reported as a protocol error |
| `DeadlineRace`, `Slots` | the refresh/cancel race and the scan semaphore, as interleaved atomic steps |
| `ZipCrypto`, `Zip`, `ZipReader`, `NestedZip` | the ZIP writer and its cipher, and a reader that undoes them |
| `KnownAnswers` | values that the standards and the sources fix |

**The world is adversarial.** `Env.World` gives, for every event of a run, what the caller's reader, the
connection's `Write`, `Read` and `SetDeadline`, the clock and the context do at that event. These are
arbitrary functions of the event's number, so a contract about every `World` is one about every reader
(short reads, `(0, nil)`, data with an error or with EOF, impossible counts, writing past the count it
returns), every connection (short and failed writes, write counts of any size, replies split or cut anywhere) and a context that
becomes done between any two events. The world also records what happened: `sourceReads`, `writes`,
`sent`, `received`, and each I/O with the deadline it ran under. Theorems about a scan are statements
about these records.

**A scan in one statement.** `Client.ScanStream` returns clean exactly if a connection was made, the
caller's reader delivered its content up to `io.EOF` within the limit, no write failed, and the bytes
received begin with a clean reply and its NUL. `WireSafe` in its contract says what was then on the
wire: the command and the complete framing of that content. `Concluded` says how every other run ends:
its result is the function `ResultOf` of what was read, written and received. `Session.ScanAgainstFake`
adds the server: a verdict is the handler's own on the complete content.

**A property the code does not have.** A payload over the server's limit never gets a verdict, but it is
not always reported as a limit, connection or context error. If the client got its whole stream out and
the peer's size-limit reply is then cut by EOF after 1 to 34 of its 36 bytes, the scan reports a protocol
error (`client.go:309-310`). `CutReply.OversizedAsProtocolError` gives such a run, and
`LimitReply.LimitHeard` proves that this is exactly when it happens.

**What the theorems assume**, each stated where it is used:

- `quiet` (in `StreamAll` and everything that calls it): with no size limit the code does not stop
  while its source keeps delivering. Runs that do stop are all covered, because what the oracle says
  beyond the last event of a run has no influence on it.
- `Session.CommandReported`: the command write ignores the returned count (`client.go:191`), so a short
  write of the command is assumed to come with an error. `ScanStream` itself is proved without this.
- `NotOurs` (in `NoneOfOurs`, `InputBlamed`): the error the source or the last write failed with contains
  none of the package's internal error values. `World.Plain`, where the retry table or the kind of a
  failure is concerned: nor do any errors from outside contain what those look for.
- `World.Sane` (timing statements only): the clock does not run backwards, and a context with cause
  "expired" is not done before its deadline. `Honoured`: an I/O returns by its deadline.
- In `DeadlineRace` a pending I/O returns by the connection's deadline, and `SetDeadline(abortDeadline)`
  succeeds.

`Client.Failure` lists the kinds of failure a scan reports, and `ErrorFor` maps each to the error value the
code builds. The ZIP writer's panics are the result `None`.

## Model

| member | source | states |
|---|---|---|
| Errors.FindIffOccurs | errors.go:71-93 | the depth-first searches of `errors.Is` and `errors.As` succeed exactly when some path of `Unwrap` steps leads to a match |
| Errors.WrappersUnwrap | errors.go:71-93 | every wrapper leads to what it wraps, and sentinels, clamd errors and protocol errors wrap nothing |
| Errors.FindFirst | client.go:216-218 | of several matches `errors.As` takes the first: the node before what it wraps, earlier siblings before later ones |
| Errors.RetryableFormula | errors.go:57-93 | an error is retryable iff neither `Canceled` nor the size limit occurs anywhere in its tree, and either a deadline expiry does, or a connection error does with no clamd or protocol error |
| Errors.WrapKeepsRetryable | errors.go:71-93 | wrapping an error with `%w`, alone or at any place among inert siblings, does not change whether it is retryable |
| Errors.RewrapKeepsRetryable | errors.go:71-93 | nor does any number of wraps |
| Client.RetryTable | errors.go:57-70 | the documented table: of all failures a scan can report, exactly transport failures and deadline expiry are retryable, if the caller's and the transport's own errors carry no marks |
| Client.ErrorMarks | errors.go:9-62 | what callers find in a reported error: the size limit whichever side enforced it, a clamd error exactly for ERROR replies, a protocol error exactly for other bad replies, a connection error exactly for transport failures |
| Client.ErrorDetails | errors.go:19-55 | what callers can take out of a reported error: clamd's message, the offending reply, the failed operation, and everything the cause holds |
| Client.Configure | options.go:66-82 | a configuration passes validation iff its I/O timeout is positive, its chunk size in 1 to 16 MiB and its limit positive or -1, and it is then used as given |
| Trace.ReadsBounded | internal/proto/proto.go:141-164 | whatever a source does, its reads up to the one that ends the input number at most 100 per byte delivered, plus 100; empty reads are counted over the whole trace, not per chunk |
| Trace.EmptyRunCounts | internal/proto/proto.go:154-161 | the count of empty reads reaches back exactly as far as reads were empty |
| Trace.EndingCases | internal/proto/proto.go:145-161 | an impossible count, io.EOF, any other error and the hundredth empty read in a row end the input, in that order, and nothing else does |
| Trace.OutcomeTooLong | internal/proto/proto.go:98-104 | after `q` whole chunks, a piece that crosses the limit makes the outcome "too long" with exactly ⌊max/c⌋·c bytes written, even if the source failed too |
| Trace.OutcomeFailed | internal/proto/proto.go:105-110 | a source that fails within the limit makes the outcome a source error with c·⌊(bytes before the failing read)/c⌋ written |
| Proto.ReadAfter | internal/proto/proto.go:143-161 | one read into the room left in the buffer: the bytes before it stay, the trace's content stays equal to what was read earlier plus the buffer, and the read ends the input or not by the same rules as the trace |
| Proto.Fill | internal/proto/proto.go:141-164 | the buffer receives exactly the next bytes of the content; it is full unless the input ended there; EOF, failure, no progress and impossible counts are told apart as the whole trace demands |
| Proto.SendChunk | internal/proto/proto.go:113-118 | one write of the frame of the bytes in the buffer, with zero bytes making the terminator; on a fault, which includes a count of more or less than the frame, the wire gained a prefix of the frame, and the error is the write's own or a short write |
| Proto.EffectiveChunk | internal/proto/proto.go:89-94 | a chunk size within 1 to 16 MiB is used as given; none means 32 KiB, and more means 16 MiB |
| Proto.StreamAll | internal/proto/proto.go:88-132 | against every source, sink and cancellation: the wire gains a prefix of the canonical framing of what was read, all of it only if the input ended well within the limit; unless a write failed the result is the one `OutcomeOf` computes from the reads alone; on a write fault the count is that of the acknowledged chunks; at most 100·(max+c+1) source reads; no read begins with the context done |
| Session.ScheduleIndependent | internal/proto/proto.go:98-131 | two sources that deliver the same bytes to io.EOF, or that both cross the limit and agree on the whole chunks within it, leave the same wire and result, however their reads are split, whether EOF comes with data, and wherever past the limit they stop |
| Framing.FramesAppend | internal/proto/proto.go:111-120 | framing a content whose first part is whole chunks is framing the parts one after the other |
| Framing.CutShort | internal/proto/proto.go:111-118 | a write of a chunk cut after any number of bytes leaves a strict prefix of the framing of all that was read |
| Framing.WholeChunksOnly | internal/proto/proto.go:101-110 | stopping between chunks leaves a strict prefix of the framing of all that was read |
| Session.OnlyCompleteInputDecodes | internal/proto/proto.go:98-131 | whatever source and sink did, the decoder recovers the whole content from what is on the wire if the wire holds the whole framing, which requires an input that ended well within the limit, and otherwise nothing; with an error only if the sink took the terminator and failed |
| FakeServer.ReadChunks | internal/clamdtest/fake.go:255-288 | the decoding loop computes `Decode`: chunk order, 64 MiB cap, early reply before the stream limit, both counted on the grown body |
| FakeServer.DecodePrefix | internal/clamdtest/fake.go:255-288 | every prefix of a framed payload within the limit decodes to the payload if it is the whole stream, and otherwise to a drop for want of input |
| FakeServer.DecodeIgnoresRest | internal/clamdtest/fake.go:255-288 | a completed decode returns the same body whatever follows it |
| FakeServer.PrefixFree | internal/clamdtest/fake.go:255-288 | cut anywhere before the end of its terminator, no stream decodes as complete |
| FakeServer.CompleteWithinLimit | internal/clamdtest/fake.go:281-287 | a decode that completes under a stream limit stayed within it, and completes equally without one |
| FakeServer.ChunksFit | internal/clamdtest/fake.go:266-269 | no part of a stream framed in chunks of up to 16 MiB reaches the 64 MiB chunk branch |
| FakeServer.ChunkCap | internal/clamdtest/fake.go:266-268 | a chunk header of more than 64 MiB ends the connection, and a chunk of up to that is taken |
| FakeServer.OversizedDropped | internal/clamdtest/fake.go:281-287 | a payload over the limit is never accepted, however much of its stream arrives |
| FakeServer.OversizedWhole | internal/clamdtest/fake.go:281-287 | and if all of its stream arrives, it is dropped for its size |
| FakeServer.DecodeEarly | internal/clamdtest/fake.go:274-280 | an early reply not due for a payload changes no decoding of any part of its stream; one that is due leaves no part complete, and is given if all of a stream arrives, before the limit is looked at in the same chunk |
| FakeServer.ReadCommand | internal/clamdtest/fake.go:230-250 | the reading loop finds the name before the first NUL or newline if at most 129 bytes precede it, and nothing otherwise |
| FakeServer.CommandRoundTrip | internal/proto/proto.go:61-70 | the server recovers a z-form command exactly when its name is not empty, shorter than 129 bytes, free of NUL and newline and does not end in white space |
| FakeServer.CommandForms | internal/clamdtest/fake.go:230-250 | a command line ends at its NUL or newline; blanks around the command and one leading z or n are dropped, unless that is all there is; 130 bytes without an end are too many |
| FakeServer.OtherCommands | internal/clamdtest/fake.go:193-200 | every other command goes to the handler at once, without a body |
| FakeServer.HandleConn | internal/clamdtest/fake.go:185-228 | what one connection is answered: the handler's reply to the decoded request, the scripted or the size-limit reply, or nothing |
| FakeServer.SessionWithinLimit | internal/clamdtest/fake.go:185-288 | of any part of a client session within the limit, the handler runs on the exact payload iff the part is the whole session, and otherwise nothing is answered |
| FakeServer.SessionOverLimit | internal/clamdtest/fake.go:185-288 | over the limit the answer is the size-limit reply or nothing, and that reply if all of the session was sent |
| FakeServer.SessionEarly | internal/clamdtest/fake.go:185-288 | the same for what the server answers to any part of a session |
| Conn.DeadlineConn.Refresh | conn.go:26-45 | on success the context was alive at the last check and the deadline in force is no later than ioTimeout after the refresh's own clock reading and no later than the context's deadline, and is one of the two; a done context is reported and leaves the abort deadline, or the deadline untouched if it was done at the start |
| Env.RefreshedDeadline | conn.go:30-33 | the earlier of now + ioTimeout and the context deadline |
| Conn.DeadlineConn.Write | conn.go:54-59 | the write happens only after a good refresh and then does what the connection does; with the context done nothing is sent; it is recorded with its size, count, error and the event it was over by; deadlines stay punctual |
| Conn.DeadlineConn.Read | conn.go:47-52 | likewise for reads |
| Conn.CtxReader.Read | client.go:273-278 | with the context done no read of the caller's reader begins and the mark of an abort is returned; otherwise the read is the reader's own |
| Conn.WaitBounded | conn.go:26-52 | against a live peer that honours deadlines, `n` I/Os in a row wait at most `n` I/O timeouts, however slowly bytes drip in |
| Reply.ReadLine | internal/proto/response.go:40-60 | equals `LineSpec` of the bytes received and the error that stopped them, for every split into reads: too large iff more than `max` bytes precede the first NUL, terminated iff read up to its NUL on one line; at most `max`+1 bytes consumed and, of a peer that never reads empty, as many I/Os |
| Reply.LineCases | internal/proto/response.go:40-60 | the four ways a reply ends: its NUL, more than the limit, EOF after some bytes, and any other error, with the body handed on whole |
| Reply.SeveralLinesMalformed | internal/proto/response.go:62-68 | a reply is malformed iff something other than CR and LF follows one of these |
| Reply.FinishLine | internal/proto/response.go:62-68 | the line is what is left after trimming CR and LF at the end; it is malformed iff one of these is left in it, and then there is no line; it counts as terminated iff it ended at its NUL and is well formed |
| Text.TrimRightUnique | internal/proto/response.go:92-94 | right-trimming removes exactly the longest suffix of cut bytes |
| Text.TrimSpaceBetween | internal/proto/response.go:135-147 | trimming white space leaves exactly what stands between blank ends |
| Classify.CleanLine | internal/proto/response.go:131-163 | a line is clean iff what is left after trimming is one of the two allowlisted lines: neither can also be a detection or an error |
| Classify.CleanLanguage | internal/proto/response.go:40-163 | the bytes before a NUL, read as a line and classified, are clean iff they have the form (`OK` or `stream: OK`) (space or tab)* (CR or LF)* |
| Classify.ReplyForms | internal/proto/response.go:131-163 | a line is a detection iff it ends in " FOUND" before trimmed bytes, and an error iff it ends in " ERROR", or is that word alone, before trimmed bytes |
| Classify.FoundReplyClassified | internal/proto/response.go:131-143 | a FOUND reply yields its signature without blanks around it: what follows the first ": ", or all of it if there is none; and it is a detection even if nothing is left |
| Classify.ErrorReplyRead | internal/proto/response.go:40-68 | an ERROR reply of one line is read whole up to its NUL |
| Classify.ErrorReplyClassified | internal/proto/response.go:144-152 | and classified as an error with its message |
| Classify.BareErrorClassified | internal/proto/response.go:144-145 | ERROR alone is an error with an empty message |
| Classify.SizeLimitMentioned | internal/proto/response.go:165-167 | a message is about the size limit iff the phrase occurs in it at some place, letters in either case |
| Classify.FlagMeansMention | internal/proto/response.go:146-152 | for every ERROR reply the size-limit flag says whether its message mentions the limit |
| Client.CleanVerdict | client.go:288-312 | `resultFromLine` on the line read says clean iff the bytes received begin with a clean reply and its NUL, however the reading was stopped: a reply cut before its NUL is never clean |
| Client.ErrorReplyVerdict | client.go:314-322 | an ERROR reply is reported as the size limit iff its message says so, and otherwise as its message alone |
| Client.BadReplyReported | client.go:349-363 | more than 4096 bytes before the NUL, and a reply of several lines, are protocol errors, told apart |
| Client.CtxError | client.go:324-337 | the context's failure is its own error (cancelled or expired) or, with its timer not fired, a deadline its clock has reached, which is DeadlineExceeded; if neither, the context had not failed at any earlier event by either clock |
| Client.FailedFrom | client.go:324-337 | the same as a function of the event it is asked at: the cause if the context is done, DeadlineExceeded if only its deadline has passed, and otherwise nothing |
| Client.WrapWriteErr | client.go:339-347 | a write failure is the context's cause if it is done, DeadlineExceeded if only its deadline has passed, and otherwise a connection error |
| Client.WrapReadErr | client.go:349-363 | likewise for reply errors, among which oversized and multi-line replies are protocol errors |
| Client.Dial | conn.go:63-86 | a refused dial is the context's failure or a dial error, a nil connection a dial error |
| Client.RecoverStreamError | client.go:205-262 | never clean; local causes are reported without touching the connection; for a write error the result is exactly `Recovery`: a context failed by either clock comes before any reply, then what the reply decides, then the write error or the context; the reply is read in a timely phase (`ReplyPhase`) under the timeout min(ioTimeout, 2 s) |
| Client.RecoveryAgrees | client.go:241-257 | recovery takes a detection or an error exactly as `resultFromLine` does, turns an OK into a protocol error whether or not it was terminated, and gets nothing from any other reply |
| Client.ReadVerdict | client.go:198-203 | the result is exactly `Judgement`: what the line read means, or the read error or the context; clean iff the received bytes are a clean answer; the reply is read in a timely phase under the I/O timeout |
| Client.LocalCases | client.go:210-227 | the size limit, the reader's own error and the context's abort are told apart by the error tree, and a foreign write error is none of them |
| Client.AfterStream | client.go:194-197 | what the stream's result says about input, writes and wire; only the last write may have failed; its failures are blamed on the right party; reading stops early only with the context done |
| Client.ScanStream | client.go:179-203 | clean iff connected, input complete, everything sent and a clean answer received; a result and a failure exclude each other; the result of every run is `ResultOf` what was read, written and received (`Concluded`, `InputBlamed`); what is on the wire (`WireSafe`); no source read after the context is done; every I/O under a punctual deadline; every recorded error is one the connection or the context gave; its I/Os are its writes and then one reply phase, each I/O of which is in time for ioTimeout, or min(ioTimeout, 2 s) after a lost write, and which waits at most 4097 of these on a live peer that honours deadlines (`ReplyTimely`); with a limit, at most 100·(max+c+1) source reads; a transport failure (but for a nil connection) is reported only if the context had not failed by either clock; with plain outside errors the failure is one the retry table is about |
| Client.LostWriteAborted | client.go:228-232 | once the context has failed by either clock, a lost write is reported as the abort whatever the server answered, and as DeadlineExceeded if only the deadline has passed; a write refused because the context was done always is |
| Client.ReplyReported | client.go:198-257 | for every line read: the size limit exactly if an ERROR message mentions it, and otherwise that message; a detection with its signature and line; clean, with the line, only after a complete stream and from a line that ended at its NUL; else a protocol error |
| Client.ReplyErrorAborted | client.go:258-261 | likewise for the reply: when the reading of it ends in an error, or in recovery decides nothing, the abort is reported iff the context has failed by either clock at that event, as DeadlineExceeded if only the deadline has passed, and otherwise the read or write error |
| Client.AbortRetry | errors.go:71-93 | an expiry so reported is retryable and a cancellation is not |
| Client.ReportedUnmarked | client.go:179-262 | if the reader and the transport report errors of their own only, so does the scan, and its result is the one `ResultOf` gives |
| Client.Exchange | client.go:194-203 | the same for the part of the scan after the command |
| Session.SentIsPartOfSession | client.go:179-203 | what a scan sent is a prefix of the one whole session for its input, and all of it if the input was complete and no write failed |
| Session.ServedExactly | internal/clamdtest/fake.go:185-288 | with no early reply due, the server hands a payload over iff the whole session was sent for one within its limit, and then exactly what the caller's reader delivered; else it says nothing, or beyond its limit that it was exceeded, which it does say to a whole session; with an early reply due the handler never runs, and the size-limit reply still needs a payload over the limit |
| Session.AlignedLimits | internal/clamdtest/fake.go:255-288 | with a client limit no larger than the server's, what any run sent after the command decodes to the whole payload if all of the session was sent, and otherwise leaves the server waiting for more: its size-limit and chunk-size branches are never reached |
| Session.VerdictMeansScanned | client.go:61-67 | a verdict rests on the handler's reply to the complete content, or on the early reply if one was due; clean always means a complete stream, and with no early reply due that the handler's reply is clean |
| LimitReply.LimitReplyIsNoVerdict | internal/clamdtest/fake.go:281-287 | no part of the size-limit reply reads as clean or as a detection |
| Session.UnservedNeverJudged | client.go:209-262 | a scan that was not served, for its size or because it broke off, never gets a verdict, and hears at most a part of the size-limit reply, within the limit nothing |
| LimitReply.LimitReplyIsTooLong | client.go:314-322 | the whole size-limit reply is reported as the server's size limit, both after a complete stream and in recovery |
| LimitReply.LimitReplyParts | client.go:291-322 | what every part of that reply decides: 35 bytes to EOF or all 36 mean the limit; 1 to 34 bytes to EOF are an unknown reply after a complete stream and decide nothing in recovery; otherwise the error that stopped the reading counts |
| LimitReply.CutReplyIsBadReply | client.go:309-310 | the size-limit reply cut by EOF after its first word reads as an unknown reply, which is a protocol error |
| CutReply.RunIsProtocolError | client.go:179-203 | for a recorded run of a payload of two bytes against a server that accepts one, sent whole, with the server's answer cut by EOF after its first word, the one result a scan can have is the protocol error |
| CutReply.OversizedAsProtocolError | client.go:309-310 | that run exists: it satisfies everything else promised of runs, the server answers it with the size-limit reply, and its failure is neither a limit nor the connection |
| LimitReply.LimitHeard | client.go:179-262 | a scan that heard any part of that reply, or nothing, fails for a limit, the connection, the context or its own reader, except that it reports an unknown reply exactly if its stream was complete and the reply was cut by EOF after 1 to 34 bytes |
| Session.ScanAgainstFake | client.go:179-203 | every run against the fake, with or without an early reply: with none due, a scan that was not served fails in exactly the ways of `LimitHeard`, and any verdict is the handler's on the complete content, whose whole session was sent; with one due a verdict rests on it, and clean means a complete stream |
| DeadlineRace.RunKeepsInvariant | conn.go:26-59 | in every interleaving: once set, the abort deadline is in force except between an overwriting `SetDeadline` and its reinstatement; I/O is pending only under its own refresh's deadline or the abort deadline |
| DeadlineRace.PendingIoIsBounded | conn.go:26-59 | with the context done and the watcher run, a pending I/O is under the abort deadline; until then under a deadline no later than ioTimeout after its refresh and no later than the context's, and it outlasts neither unless it was entered later, the time between the re-check and the I/O call being free |
| DeadlineRace.NothingStartsAfterCancel | conn.go:26-45 | a refresh that starts after cancellation starts no I/O and never overwrites the abort deadline |
| DeadlineRace.AbortUnblocks | client.go:185 | once the watcher has run, no time passes before a pending I/O returns |
| DeadlineRace.AbortCanBeOverwritten | conn.go:36-44 | the window the re-check closes is real: a run in which the watcher's abort deadline is overwritten |
| Slots.RunKeepsInvariant | client.go:79-141 | in every interleaving of any number of calls the slot invariant holds |
| Slots.SlotsAreExact | client.go:158-177 | the semaphore counts exactly the calls between acquire and release and never exceeds the cap; open files never exceed them; a release never blocks |
| Slots.ReturnedCallsAreBalanced | client.go:79-141 | on every way out of a call it has released exactly as often as it acquired, at most once, and has closed its file |
| Slots.QuietMeansEmpty | client.go:158-177 | when every call has returned the semaphore is empty |
| Slots.GivenUpOnlyWhenDone | client.go:158-171 | a reader's call that returned without a slot did so because its context was done; a file is streamed only while open |
| Slots.NextStep | client.go:158-177 | in every reachable state a call that has not returned can go on, and takes a free slot, unless none is free and its context is alive |
| Slots.WaitsForHolder | client.go:158-177 | and then it waits for another call that holds a slot and can itself go on |
| Bytes.Be32RoundTrip | internal/proto/proto.go:113 | a big-endian length prefix reads back |
| KnownAnswers.ByteOrder | internal/clamdtest/zipcrypto.go:102-113 | which byte comes first in each encoding |
| KnownAnswers.Limits | internal/proto/proto.go:14-31 | the limits and sets of characters, in numbers |
| KnownAnswers.Words | internal/proto/response.go:131-163 | the command as it is sent and the words of the replies |
| Bytes.XorCancels | internal/clamdtest/zipcrypto.go:177-196 | xor with the same keystream byte twice gives the byte back |
| ZipCrypto.StreamByteDoesNotWrap | internal/clamdtest/zipcrypto.go:172-175 | the 32-bit product in the keystream never wraps, so the byte is that of the mathematical product |
| ZipCrypto.DecryptUndoesEncrypt | internal/clamdtest/zipcrypto.go:177-196 | from the same keys decryption gives the plaintext back |
| ZipCrypto.EncryptUndoesDecrypt | internal/clamdtest/zipcrypto.go:177-196 | and every ciphertext is the encryption of its decryption |
| ZipCrypto.EncryptThreadsKeys | internal/clamdtest/zipcrypto.go:177-184 | encrypting a concatenation is encrypting its parts with the keys threaded through |
| ZipCrypto.Cipher.constructor | internal/clamdtest/zipcrypto.go:154-160 | the initial keys are rolled by the password |
| ZipCrypto.Cipher.Update | internal/clamdtest/zipcrypto.go:166-170 | one key update, with its 32-bit wrap-around |
| ZipCrypto.Cipher.Encrypt | internal/clamdtest/zipcrypto.go:177-184 | the loop computes `Encrypted` and leaves the keys rolled by the plaintext |
| ZipCrypto.Cipher.Decrypt | internal/clamdtest/zipcrypto.go:186-196 | the loop computes `Decrypted` and leaves the same keys as encryption did |
| KnownAnswers.KeysAfterA | internal/clamdtest/zipcrypto.go:154-170 | the initial keys rolled by the letter a, in numbers |
| KnownAnswers.StreamByteInNumbers | internal/clamdtest/zipcrypto.go:172-175 | the keystream byte in plain arithmetic on the low half of k2 |
| KnownAnswers.FirstStoredByte | internal/clamdtest/zipcrypto.go:69-79 | the first stored byte under the password a, in numbers |
| KnownAnswers.ChecksumOfByte | internal/clamdtest/zipcrypto.go:64 | a CRC-32 check value |
| Zip.WriteLocalHeader | internal/clamdtest/zipcrypto.go:102-113 | the bytes put at fixed places are the fields of APPNOTE.TXT section 4.3.7 in order |
| Zip.WriteCentralHeader | internal/clamdtest/zipcrypto.go:118-131 | likewise for section 4.3.12 |
| Zip.WriteEndRecord | internal/clamdtest/zipcrypto.go:136-141 | likewise for section 4.3.16 |
| Zip.StoreEntry | internal/clamdtest/zipcrypto.go:64-97 | flags, method and stored bytes of an entry |
| Zip.AppendEntry | internal/clamdtest/zipcrypto.go:63-134 | one entry adds its local record to the body and its central record, with the body's length as offset, to the directory; it panics iff the entry or the offset does not fit |
| Zip.BuildZip | internal/clamdtest/zipcrypto.go:59-148 | it returns iff every entry and total fits its field and no entry is both encrypted and deflated, and then the archive |
| Zip.WriterLimits | internal/clamdtest/zipcrypto.go:11-27 | what fits, in numbers: names of 65535 bytes, 65535 entries, and 4294967295 bytes of data, stored data, body and directory; nothing smaller is refused |
| KnownAnswers.SmallArchive | internal/clamdtest/zipcrypto.go:99-147 | the whole archive of one stored entry, byte for byte |
| ZipReader.LocalReads | internal/clamdtest/zipcrypto.go:102-116 | each field, the name and the data of a local record read back where APPNOTE.TXT puts them |
| ZipReader.CentralReads | internal/clamdtest/zipcrypto.go:118-133 | likewise for central records |
| ZipReader.PayloadReads | internal/clamdtest/zipcrypto.go:68-97 | decrypting with the entry's password, inflating or copying gives the data back, past the check byte, size and CRC checks |
| ZipReader.EntryForms | internal/clamdtest/zipcrypto.go:68-97 | flags and method of the three kinds of entry; an encrypted one decrypts to eleven filler bytes, the top byte of the CRC, and the data |
| ZipReader.ReadUndoesBuild | internal/clamdtest/zipcrypto.go:59-148 | for every list of entries that fits, following end record, directory and offsets recovers every name, flag, CRC and payload in order; the length is Σ(30+name+stored) + Σ(46+name) + 22 |
| NestedZip.Build | internal/clamdtest/samples.go:15-24 | the loop wraps max(depth, 1) times, and panics iff a layer does not fit |
| NestedZip.LayerReads | internal/clamdtest/samples.go:18-24 | each layer holds exactly one entry and costs 98 bytes and its name twice |
| NestedZip.LayerNamed | internal/clamdtest/samples.go:18-24 | the one entry of a layer holds the layer before it under that layer's name |
| NestedZip.LevelNamed | internal/clamdtest/samples.go:21 | the name is level, the number and .zip |
| NestedZip.DecimalReads | internal/clamdtest/samples.go:21 | the digits read back as the number, with no leading zero |
| NestedZip.UnwrapUndoesNested | internal/clamdtest/samples.go:18-24 | unwrapping as many layers as were built gives the original name and data |
| NestedZip.NestedLength | internal/clamdtest/samples.go:18-24 | the total length follows the recurrence over the layers |

## Left out

- Proto.StreamAll: does not model the 64-bit wrap of `total+int64(n)` (`internal/proto/proto.go:102`), which needs totals of 2^63 − 2^24 bytes or more; and says nothing of runs that never end, which need a source without end and no size limit.
- Session.ScanAgainstFake: the server's reply is a function of what it was sent, not of timing, and the client may receive any prefix of it.
- Slots.SlotsAreExact: `Scan`, `ScanFile` and the semaphore are steps of a transition system, because their property is about concurrent calls; the size and type checks of `checkScanTarget`, opening and `fstat` are its two-way choices, and a call's context is one flag that may be set at any moment.
- DeadlineRace.RunKeepsInvariant: `refresh` appears twice, as atomic steps here and as the sequential method `Conn.DeadlineConn.Refresh`; the context's watcher exists only here, so in `Client` a blocked I/O ends when the oracle says so.
- Client.Dial: the dial timeout and its derived context are inside the oracle that says how dialing went.
- Client.CtxError: does not model custom `Is` methods of errors (the net package's timeouts have one); `errors.Is` and `errors.As` are existence over the tree.
- Text.TrimRightUnique: `strings.TrimSpace` and `strings.ToLower` are modelled for ASCII only.
- Conn.DeadlineConn.Read: a Read of the connection is taken to return no more bytes than there was room for; `bufio.Reader` panics on a count outside that.
- FakeServer.HandleConn: the input is one byte string that ends where the client stopped; the listener, goroutines, timeouts and the delay, drip and hang scripting are left out.
- ZipReader.ReadUndoesBuild: the reader expects the end record in the last 22 bytes and the entries' passwords from its caller, and deflate is a pair of functions assumed to be inverse on the entries that use it; `compress/flate` is not modelled.
- ZipCrypto.StreamByteDoesNotWrap: CRC-32 is defined bit by bit; the library's table is taken to agree with it.
- `ReadBlock` and the administrative commands (PING, VERSION, STATS, RELOAD): they reuse the same reader for simpler replies.
- `ScanBytes`, `parseAddress`, the option setters, `Verdict.String` and the texts of error messages: single branches or formatting.
- Sockets, file opening and the operating system's `stat`: foreign calls.
- The PNG, JPEG and EICAR samples: data.
