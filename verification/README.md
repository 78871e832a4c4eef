# MemSandbox model

A Dafny model of the hard parts of MemSandbox, an in-process sandbox for agents, with proofs of
what they promise. Run `dafny verify dfyconfig.toml` to check all of it.

| area | files |
|---|---|
| text and bytes | `Basics` has what every module uses; `Utf8` is the strict UTF-8 codec of section 3 of RFC 3629 with its offsets; `Ordering` is Python's stable `sorted` and its order on `str` and `bytes` |
| protected values | `SpanRedaction` is the span algorithm, once for text and bytes; `RedactionAbsorption` says when further values change no result; `ProtectedValueRedactor` is the redactor and the law that redaction commutes with encoding |
| bounded output | `BoundedOutput` is the collector that cuts between code points |
| service | `SandboxService` holds the critical sections of the service object; `ServiceProtocol` interleaves create, resume, get_session, delete and close, with `MapSums` for its measure |
| session and events | `SessionProtocol` and `LiveSession` are the session's state machine and its object, `SessionRuns` what it does over whole runs; `EventSink` the in-memory sink; `EventDelivery` the best-effort dispatcher and `EventRuns` what it makes of offers |
| HTTP | `HttpSyntax` and `HttpFraming` say what reading a response means; `HttpTransport` has the reading loops; `HttpEvidence`, `HttpChunks` and `HttpObjections` what they guarantee; `HttpHeads` and `HttpBodies` which bytes a received response comes from; `HttpGateway` the redirect loop; `HttpHandover` where the two meet |
| commands | `CommandSyntax` is the language; `CommandParser` its loops; `CommandRoundTrip` and `CommandPrinter` printing and parsing; `CommandSpelling`, `CommandExpansion` and `CommandLanguage` which texts it accepts; `CommandExecution` the semantics of plans; `CommandExecutor` the executor; `CommandOutcomes` and `CommandDiagnostics` what runs come to; `TextCommands` and `TextResults` head, tail, sort and uniq |
| secrets and hashes | `SecretBroker`, with `SecretRuns` on how long leases last, and `DirectoryHash` |

Objects of the program are classes here, and loops are loops; each method is proved to compute a
function or to take a step of a state machine, and the lemmas are about those. A protocol step is
one run of a task from one suspension point to the next: no critical section of the service, the
broker or the sink suspends.

What a component calls (the sink, the policy, the resolver, the transport, the commands, the
workspace, the clock, cancellation) may answer anything. Where the answers matter to a law they
are recorded, and the law is about every record.

## What does not hold

Some promises fail on some inputs. Each has a lemma with such an input, and the exact condition.

- The response constructor refuses evidence that the transport itself collected when a field line
  has no blank after its colon, or when a bodyless response names a transfer coding other than
  chunked: `ConstructorAcceptsExactly`, `TightFieldIsRefused`, `OmittedCodingIsRefused`.
- The gateway refuses a response that the transport returned when it has more than one location
  field or an empty one, whatever its status, or when a malformed length was never needed for
  reading. The condition is `GatewayAcceptsTransport`; the responses are `EmptyRedirectIsRefused`,
  `EmptyLocationIsRefused`, `TwoLocationsAreRefused` and `UnreadLengthIsRefused`.
- Byte and text redaction of a text disagree when a registered byte value that is not UTF-8 occurs
  in its bytes outside every group of text matches: `RedactorCommutesExactly`, with 0xA9 in U+00E9
  in `UndecodableRegistrationBreaksTheLaw`. A value such as 0xFF, which occurs in no text, does no
  harm: `UnwritableByteKeepsTheLaw`.
- More leases than the limit are readable when the clock goes back: `ReadableWithinLimit`,
  `GoingBackBreaksTheLimit`.
- An event goes unreported when preparing it, or the sink, raises a sandbox error whose text cannot
  be shown; when the sink does, what is queued is given up: `OrderlyRunsReport`,
  `UnshownErrorDropsOffers`.
- Closing the dispatcher never ends when, on top of that, the error raised in showing it cannot be
  shown either and more than one offer waits: `StrandsExactly`, `CloseNeverStuck`,
  `SpeechlessErrorStrandsClose`, `StrandedForever`.

## Model

| member | source | states |
|---|---|---|
| `Utf8.DecodedIsEncoded` | src/mem_sandbox/events/redaction.py:50-53 | the strict codec accepts exactly the encodings: whatever decodes, encodes back to the same bytes |
| `Utf8.SelfSynchronising` | src/mem_sandbox/events/redaction.py:190-200 | an occurrence of an encoded text inside encoded text begins and ends on code point boundaries |
| `Utf8.ByteOrderIsPointOrder` | src/mem_sandbox/command_executor/commands.py:831-832 | comparing UTF-8 bytes orders texts as comparing code points does |
| `SpanRedaction.MatchSpans` | src/mem_sandbox/events/redaction.py:177-187 | the spans found are all occurrences, overlapping ones included, of all registered values, and nothing else |
| `SpanRedaction.MergeOverlapping` | src/mem_sandbox/events/redaction.py:203-214 | the merged spans are sorted and disjoint, contain every input span, and hold together by overlap |
| `SpanRedaction.GroupPositions` | src/mem_sandbox/events/redaction.py:203-214 | a merged span covers only positions that an input span covers, and is cut nowhere inside |
| `SpanRedaction.GapPositions` | src/mem_sandbox/events/redaction.py:203-214 | no input span reaches outside the merged spans |
| `SpanRedaction.GroupsAreComponents` | src/mem_sandbox/events/redaction.py:203-214 | two occurrences share a merged span exactly when a chain of overlapping occurrences links them; touching spans stay apart |
| `SpanRedaction.RedactSpans` | src/mem_sandbox/events/redaction.py:149-174 | the result keeps every uncovered element in order and has one marker for each maximal overlapping group |
| `SpanRedaction.DetectionIsExact` | src/mem_sandbox/session/session.py:219-220 | for a value without the marker, redaction changes it exactly when a registered value occurs in it |
| `RedactionAbsorption.SameRedactionExactly` | src/mem_sandbox/events/redaction.py:149-214 | registering further values, each with an element that the marker lacks, leaves the result as it was exactly when each of their occurrences lies inside one group of the others |
| `ProtectedValueRedactor.Redactor.constructor` | src/mem_sandbox/events/redaction.py:35-56 | registers each value in both alphabets wherever it has a form in both |
| `ProtectedValueRedactor.Create` | src/mem_sandbox/events/redaction.py:26-56 | rejects exactly the invalid registrations, the first one deciding, and otherwise knows each value in every alphabet it has |
| `ProtectedValueRedactor.Redactor.RedactText` | src/mem_sandbox/events/redaction.py:58-63 | text redaction is the position-wise redaction over the registered texts |
| `ProtectedValueRedactor.Redactor.RedactBytes` | src/mem_sandbox/events/redaction.py:65-70 | byte redaction is the position-wise redaction over the registered bytes |
| `ProtectedValueRedactor.Redactor.ContainsProtectedText` | src/mem_sandbox/session/session.py:219-220 | answers whether redaction changes the value; without the marker in it, whether a registered value occurs |
| `ProtectedValueRedactor.CoveredInBytes` | src/mem_sandbox/events/redaction.py:149-174 | a byte is covered exactly when the code point that it belongs to is |
| `ProtectedValueRedactor.RedactionCommutesWithEncoding` | src/mem_sandbox/events/redaction.py:58-70 | redacting the encoded text is encoding the redacted text, for every text and set of registered texts |
| `ProtectedValueRedactor.RedactorCommutes` | src/mem_sandbox/events/redaction.py:35-70 | the same law for the two alphabets that a redactor builds, when every registered byte value is UTF-8 |
| `ProtectedValueRedactor.RedactorCommutesExactly` | src/mem_sandbox/events/redaction.py:35-70 | for any registrations and any text, redacting the bytes is encoding the redacted text exactly when no occurrence of a byte value that is not UTF-8 sticks out of a group of text matches |
| `ProtectedValueRedactor.UndecodableRegistrationBreaksTheLaw` | src/mem_sandbox/events/redaction.py:49-53 | with the lone byte 0xA9 registered, the byte redactor cuts U+00E9, which the text redactor keeps |
| `ProtectedValueRedactor.UnwritableByteKeepsTheLaw` | src/mem_sandbox/events/redaction.py:49-53 | with 0xFF registered, which is not UTF-8 either, the law holds on every text |
| `BoundedOutput.FittingIsLongest` | src/mem_sandbox/command_executor/output.py:27-56 | a prefix fits in the bound exactly when it is no longer than the kept one |
| `BoundedOutput.DecodeOfCut` | src/mem_sandbox/command_executor/output.py:45-50 | strictly decoding a cut encoding fails at the start of the code point that was cut |
| `BoundedOutput.RetainedPrefix` | src/mem_sandbox/command_executor/output.py:44-56 | shrinking until a strict decode succeeds ends at the longest whole-code-point prefix |
| `BoundedOutput.Collector.Append` | src/mem_sandbox/command_executor/output.py:27-56 | text with lone surrogates is refused before anything changes; other text joins the stream |
| `BoundedOutput.Collector.Result` | src/mem_sandbox/command_executor/output.py:58-60 | the text is the longest prefix of the whole stream that fits, truncated says whether the stream exceeded the bound, and neither depends on how it was split into pieces |
| `BoundedOutput.BoundText` | src/mem_sandbox/command_executor/output.py:63-67 | a stage's output is cut to its longest prefix of whole code points within the limit, and only when it exceeds the limit |
| `SandboxService.InMemorySandboxService.Begin` | src/mem_sandbox/service/service.py:249-254 | an operation that begins while the service is open becomes pending |
| `SandboxService.InMemorySandboxService.ReserveIdentifiers` | src/mem_sandbox/service/service.py:271-287 | refuses a closed service, a known handle and a known session id, in that order, and otherwise reserves both |
| `SandboxService.InMemorySandboxService.PublishRecord` | src/mem_sandbox/service/service.py:289-307 | turns the reservations into an active record, unless the service is closing |
| `SandboxService.InMemorySandboxService.Finish` | src/mem_sandbox/service/service.py:256-269 | gives back exactly the named reservations and stops pending |
| `SandboxService.InMemorySandboxService.GetSession` | src/mem_sandbox/service/service.py:186-200 | hands out the runtime of an active record whose session runs, reaps one whose session has stopped, and refuses the rest unchanged: closed before unknown |
| `SandboxService.InMemorySandboxService.Delete` | src/mem_sandbox/service/service.py:202-209 | marks a known record as deleting and starts at most one deletion for it |
| `SandboxService.InMemorySandboxService.CloseBegins` | src/mem_sandbox/service/service.py:220-228 | marks every record as deleting and remembers what to wait for |
| `SandboxService.InMemorySandboxService.CloseEnds` | src/mem_sandbox/service/service.py:239-242 | the closed service has no reservations |
| `SandboxService.InMemorySandboxService.DeletionEnds` | src/mem_sandbox/service/service.py:315-329 | removes the record only if it is still the deletion's own |
| `ServiceProtocol.InvStep` | src/mem_sandbox/service/service.py:84-130 | every run of a task from one suspension point to the next keeps the service invariant |
| `ServiceProtocol.IdentitiesInEveryRun` | src/mem_sandbox/service/service.py:271-307 | in every interleaving record handles and session ids are pairwise distinct and disjoint from the reservations, and each reservation is one task's own |
| `ServiceProtocol.RuntimesInEveryRun` | src/mem_sandbox/service/service.py:84-130 | each runtime the factory returned is held by one operation and its close not called, owned by one record and its close called only for the deletion of that record, or neither and its close called |
| `ServiceProtocol.RecordsChangeExactly` | src/mem_sandbox/service/service.py:186-209 | over any step between reachable systems: a record is added only by its own creation while open, goes only with its own deletion, and becomes deleting only by a delete of its handle, a look-up that found its session stopped, or close |
| `ServiceProtocol.CreateSucceeds` | src/mem_sandbox/service/service.py:84-130 | in any open service a creation with unused identifiers can run to its end, and then exactly its record has been added |
| `ServiceProtocol.SecondAttemptExactly` | src/mem_sandbox/service/service.py:107-130 | after a failed start, cancelling the close of the runtime leads to a second attempt in a creation and to none in a resumption |
| `ServiceProtocol.DeleteSucceeds` | src/mem_sandbox/service/service.py:202-209 | deleting an active record can run to its end: its runtime's close was called and exactly the record is gone |
| `ServiceProtocol.ClosedMeansEmpty` | src/mem_sandbox/service/service.py:220-247 | CLOSED is reached only with no record, no reservation, no unfinished operation, and close called on every runtime |
| `ServiceProtocol.NoPublishAfterClose` | src/mem_sandbox/service/service.py:289-307 | once closing has begun, no continuation publishes a record or revives one |
| `ServiceProtocol.CloseNeverStuck` | src/mem_sandbox/service/service.py:220-247 | until a close is over the closer, an operation it waits for, or a deletion it waits for can move towards the end |
| `ServiceProtocol.ClosingProgresses` | src/mem_sandbox/service/service.py:202-247 | once a close has begun new work is refused and changes nothing, and every other step of any task leaves less to do |
| `ServiceProtocol.CloseTakesAtMost` | src/mem_sandbox/service/service.py:220-247 | so in every continuation a close takes at most as many steps as there was work when it began |
| `EventSink.InMemoryEventSink.Accept` | src/mem_sandbox/events/sink.py:41-61 | refuses a closed sink, a sequence that does not increase and an overflow, in that order, and otherwise appends the event |
| `EventSink.AnswersExactly` | src/mem_sandbox/events/sink.py:41-61 | closed is answered first; then out of sequence, exactly when some collected event of the session is not before this one; then the bounds |
| `EventSink.EmitKeepsBounds` | src/mem_sandbox/events/sink.py:41-61 | the sink never holds more events or bytes than configured |
| `EventSink.IncreasingOffersAreInSequence` | src/mem_sandbox/events/sink.py:46-50 | a session that offers increasing sequences is never refused for its order, whatever other sessions offer in between and whatever else is refused |
| `SessionProtocol.InvStep` | src/mem_sandbox/session/session.py:1460-1635 | every stretch of start, an operation or close between suspension points keeps the log and the gate in step |
| `SessionProtocol.EveryStartEndsOnce` | src/mem_sandbox/session/session.py:1460-1635 | before the gate is released every delivered operation start has exactly one terminal attempt, and only its own events lie between |
| `SessionProtocol.EveryEndHasAStart` | src/mem_sandbox/session/session.py:1460-1635 | no terminal or post-commit event without the delivered start that it belongs to: blocks do not overlap |
| `SessionProtocol.ClosingIsLast` | src/mem_sandbox/session/session.py:1392-1437 | closing and closed are attempted once, last, in that order |
| `SessionProtocol.LifecycleMovesForward` | src/mem_sandbox/session/session.py:559-584 | the lifecycle state only moves forward: running is entered at most once, closed is never left |
| `SessionRuns.StartComesOut` | src/mem_sandbox/session/session.py:575-582 | a start leaves the session running exactly if it was created and the event was delivered, and failed exactly if it was not delivered |
| `SessionRuns.RunningExactly` | src/mem_sandbox/session/session.py:559-584 | running is entered by the delivered start only, and left by close, an unsettled collaborator or an unprovable restore only |
| `SessionRuns.FailsExactly` | src/mem_sandbox/session/session.py:571-580 | what alone makes a session fail: its start, an unprovable restore, a collaborator that did not settle |
| `SessionRuns.ClosesExactly` | src/mem_sandbox/session/session.py:1365-1437 | closing begins with the first call of close, and only the closer's own end closes |
| `SessionRuns.EntersExactly` | src/mem_sandbox/session/session.py:1477-1502 | with a free gate an operation enters exactly while the session runs, a start exactly once, the closer exactly when called |
| `SessionRuns.EverySessionCanRun` | src/mem_sandbox/session/session.py:1460-1635 | for any list of operations and terminals there is a run from a fresh session whose log is the started event, one delivered block for each operation in order, closing and closed; the session runs until its close and ends closed |
| `SessionRuns.EveryEndIsRight` | src/mem_sandbox/session/session.py:1460-1635 | in every run an operation whose commit was announced ends as completed exactly if that event was delivered, and never after its session was announced as failed |
| `SessionProtocol.SilentAfterClose` | src/mem_sandbox/session/session.py:1365-1390 | after the close task is done nothing is emitted and nothing changes |
| `SessionProtocol.SinkNeverObjects` | src/mem_sandbox/session/session.py:1938-1956 | the sequences that a session offers strictly increase, so an in-memory sink, shared with any other sessions, never refuses one for its order |
| `LiveSession.SandboxSession.StartEnters` | src/mem_sandbox/session/session.py:559-574 | start is the protocol's step: one started event, only from the created state |
| `LiveSession.SandboxSession.StartResolves` | src/mem_sandbox/session/session.py:573-582 | a delivered started event sets a created session running; one that was not delivered fails it |
| `LiveSession.SandboxSession.OperationEnters` | src/mem_sandbox/session/session.py:1477-1502 | an operation enters only while running, and spends a sequence on its start |
| `LiveSession.SandboxSession.EmitTerminal` | src/mem_sandbox/session/session.py:1908-1925 | the terminal event is attempted before the gate is released |
| `LiveSession.SandboxSession.RestoreUnprovable` | src/mem_sandbox/session/session.py:1808-1872 | a restore whose publication cannot be proved fails the session inside its block |
| `LiveSession.SandboxSession.CloserEnters` | src/mem_sandbox/session/session.py:1392-1410 | the closer announces itself once the gate is free |
| `LiveSession.SandboxSession.SignOffResolves` | src/mem_sandbox/session/session.py:1419-1437 | the closer signs off and leaves the session closed |
| `HttpSyntax.HexLengthOfSum` | src/mem_sandbox/network/transport.py:659-661 | a sum of sizes needs at most one hexadecimal digit more than its longer part |
| `HttpSyntax.WireSizeOfLines` | src/mem_sandbox/network/transport.py:628-638 | the wire size that the code assumes for field lines differs from the real one by one byte a line, made up for by blanks |
| `HttpTransport.ParseHeaders` | src/mem_sandbox/network/transport.py:395-411 | the parsing loop reads each field line on its own and stops at the first bad one |
| `HttpTransport.StreamReader.Line` | src/mem_sandbox/network/transport.py:542-556 | reads one line within both limits and moves past its end |
| `HttpTransport.StreamReader.ToEof` | src/mem_sandbox/network/transport.py:571-591 | reads everything or refuses, whatever sizes the pieces arrive in |
| `HttpTransport.StreamReader.ResponseHead` | src/mem_sandbox/network/transport.py:347-376 | one head with its counters, consuming exactly its bytes |
| `HttpTransport.StreamReader.FinalResponseHead` | src/mem_sandbox/network/transport.py:304-344 | the loop past informational heads spends one budget over all of them |
| `HttpTransport.StreamReader.TrailerSection` | src/mem_sandbox/network/transport.py:518-539 | trailer fields within the header budget that is left |
| `HttpTransport.StreamReader.ChunkedBody` | src/mem_sandbox/network/transport.py:468-515 | the chunk loop with its body, wire and trailer budgets |
| `HttpTransport.StreamReader.ResponseBody` | src/mem_sandbox/network/transport.py:414-465 | the framing decision: omitted, chunked, announced length, or to the end |
| `HttpTransport.SendOnce` | src/mem_sandbox/network/transport.py:241-282 | a returned response accounts for exactly the bytes taken from the connection: metadata plus body |
| `HttpHeads.HeadExactly` | src/mem_sandbox/network/transport.py:347-376 | a head is read exactly where its text stands, its status line of at most 1024 bytes, within the buffer and both budgets |
| `HttpHeads.HeadsExactly` | src/mem_sandbox/network/transport.py:304-344 | the heads are read exactly when at most eight informational ones, none of which switches protocols, and a final one stand at the front and together keep to the budgets; the counters are theirs |
| `HttpBodies.StatusLineExactly` | src/mem_sandbox/network/transport.py:379-392 | a status line is accepted exactly as one of two versions, three digits from 100 to 599 and a reason without control bytes |
| `HttpBodies.FieldLineExactly` | src/mem_sandbox/network/transport.py:395-411 | a field line is accepted exactly as a token, a colon and a value between blanks, without control bytes and of bounded length |
| `HttpBodies.LengthExactly` | src/mem_sandbox/network/transport.py:604-615 | a length is accepted exactly as at most 19 digits with a value up to 2 to the 63 less one |
| `HttpBodies.BodyIsWhatCame` | src/mem_sandbox/network/transport.py:414-465 | a received body is omitted exactly for HEAD, 204, 205, 304 and redirects that say where to; otherwise it is the bytes after the heads: as many as announced, all of them, or the data of the chunks read there |
| `HttpBodies.ResponseIsWhatCame` | src/mem_sandbox/network/transport.py:241-282 | the status and fields of a received response are parsed from the last of the heads that came, and its body is what followed |
| `HttpBodies.BodylessIsReceived` | src/mem_sandbox/network/transport.py:426-429 | a response that has no body is received as written |
| `HttpBodies.PlainIsReceived` | src/mem_sandbox/network/transport.py:453-465 | a body of announced length, or up to the end of the connection, is received as written |
| `HttpBodies.ChunkedIsReceived` | src/mem_sandbox/network/transport.py:468-515 | a chunked body is received as the data of its chunks |
| `HttpEvidence.FinalHeadFacts` | src/mem_sandbox/network/transport.py:304-344 | the totals over all heads add up, stay within both budgets and exceed the fields by a status line |
| `HttpEvidence.ChunkedFacts` | src/mem_sandbox/network/transport.py:468-515 | a chunked body of n bytes, in any number of chunks, costs at least n + hexlen(n) + 7 wire bytes, 3 when empty |
| `HttpEvidence.AccountingIsConserved` | src/mem_sandbox/network/transport.py:241-282 | metadata plus body wire is the wire count, which is at most what there was to read, and all three limits hold |
| `HttpEvidence.ConstructorAcceptsExactly` | src/mem_sandbox/network/transport.py:100-148 | the response constructor accepts the reader's own evidence exactly when the blanks after the colons suffice and an omitted body's transfer coding is plain chunked |
| `HttpEvidence.OneBlankEachSuffices` | src/mem_sandbox/network/transport.py:100-148 | with one blank after every colon the constructor can object only to the transfer coding of an omitted body |
| `HttpObjections.TightFieldIsRefused` | src/mem_sandbox/network/transport.py:129-130 | the legal field line "A:b" is read and then refused by the constructor, for every budget that admits it |
| `HttpObjections.OmittedCodingIsRefused` | src/mem_sandbox/network/transport.py:655-658 | an unknown transfer coding on a bodyless response is read and then refused |
| `HttpChunks.SpellsExactly` | src/mem_sandbox/network/transport.py:481-489 | a size line is accepted exactly when it spells a size: any case, any leading zeros, at most 16 digits that count |
| `HttpChunks.WrittenReadsBack` | src/mem_sandbox/network/transport.py:468-539 | every legal chunked text within the budgets, its trailer lines included, reads back as the concatenated data with the right counters (section 7.1 of RFC 9112) |
| `HttpChunks.ReadWasWritten` | src/mem_sandbox/network/transport.py:468-539 | whatever the chunk reader accepts is such a text: these are its chunks, its last chunk, its trailer lines and what follows |
| `HttpChunks.AcceptedExactly` | src/mem_sandbox/network/transport.py:468-539 | the reader accepts exactly the texts that are written so within its budgets |
| `HttpChunks.LeastIsTaken` | src/mem_sandbox/network/transport.py:659-661 | any data can be written in exactly the wire that the response constructor asks at least, so a larger minimum would refuse a legal response |
| `HttpGateway.PublishedHeaders` | src/mem_sandbox/network/gateway.py:865-870 | exactly the fields that are neither framing nor credentials are published, never taking more room |
| `HttpGateway.PublishedKeepsValues` | src/mem_sandbox/network/gateway.py:865-870 | the values of a public field are published all and in order, those of a withheld one not at all |
| `HttpGateway.DecodeMeans` | src/mem_sandbox/network/gateway.py:836-863 | a body is accepted exactly as it came without a coding or with identity, or unpacked with the one coding gzip or deflate, and within the limit; with two codings or another one, never |
| `HttpGateway.FollowsExactly` | src/mem_sandbox/network/gateway.py:805-813 | a reply leads on exactly when its status is one of five and it has one location, which is not empty and joins |
| `HttpGateway.AcceptedBounds` | src/mem_sandbox/network/gateway.py:594-676 | an accepted reply is within the attempt's budgets and has no body where none is allowed |
| `HttpGateway.Admit` | src/mem_sandbox/network/gateway.py:162-198 | an attempt is admitted only after both policy phases and an all-global resolution for its own URL |
| `HttpGateway.AttemptOnce` | src/mem_sandbox/network/gateway.py:221-226 | one attempt at the admitted destination, checked before it is counted |
| `HttpGateway.Hop` | src/mem_sandbox/network/gateway.py:162-228 | one round keeps every budget, and the guards at lines 199, 202 and 227 never fire |
| `HttpGateway.SendBounded` | src/mem_sandbox/network/gateway.py:148-265 | every attempt was admitted for its own URL; what is published came from the last reply, reached by following the redirects: its status, its public fields, and its body as it came or unpacked by its one coding; request_count is redirect_count + 1; the usage is the sum over all attempts within every limit; of the final checks only the duration can refuse; when the call is given up, the cause at its site has occurred |
| `HttpGateway.Publish` | src/mem_sandbox/network/models.py:255-290 | all require_response checks but the duration are already guaranteed |
| `HttpGateway.OnwardFollows` | src/mem_sandbox/network/gateway.py:229-237 | a reply is followed only to where its one location points, and within the redirect limit |
| `HttpHandover.GatewayAcceptsTransport` | src/mem_sandbox/network/gateway.py:221-237 | the gateway goes on with what the transport returned exactly when there is at most one location and not an empty one, at any status, and no unread length is malformed |
| `HttpHandover.EvidenceAccepted` | src/mem_sandbox/network/gateway.py:594-676 | the evidence check alone accepts it exactly when it is no redirect with an empty location and no unread length is malformed |
| `HttpHandover.EmptyRedirectIsRefused` | src/mem_sandbox/network/gateway.py:660-664 | a 301 whose one field is "location: " is received and refused by the evidence check |
| `HttpHandover.EmptyLocationIsRefused` | src/mem_sandbox/network/gateway.py:805-813 | the same field on a 200 to HEAD passes the evidence check and is refused at the look for a location |
| `HttpHandover.TwoLocationsAreRefused` | src/mem_sandbox/network/gateway.py:805-808 | two location fields on a 200 to HEAD are refused there too |
| `HttpHandover.UnreadLengthIsRefused` | src/mem_sandbox/network/gateway.py:665-676 | "content-length: x" on a 200 to HEAD is received and refused by the evidence check |
| `CommandParser.ReadQuoted` | src/mem_sandbox/command_executor/parser.py:72-104 | the body of a quoted word, with escapes inside double quotes as fragments of their own |
| `CommandParser.TokenizeCommand` | src/mem_sandbox/command_executor/parser.py:44-176 | the tokenizer's loop computes the token list, or the error, that the grammar says, on every input |
| `CommandParser.ReadStages` | src/mem_sandbox/command_executor/parser.py:189-211 | the stages of one pipeline, each with a word and all words validated |
| `CommandParser.ReadDestination` | src/mem_sandbox/command_executor/parser.py:213-242 | an optional redirection, which must be trailing and the only one |
| `CommandParser.ParseExecutionPlan` | src/mem_sandbox/command_executor/parser.py:179-258 | the parser's loops compute the plan, or the error, that the grammar says |
| `CommandParser.ExpandText` | src/mem_sandbox/command_executor/parser.py:289-327 | the expansion loop computes the expansion of a fragment |
| `CommandSpelling.ReadExactly` | src/mem_sandbox/command_executor/parser.py:44-176 | a text on one line has tokens exactly when it is made of runs, quotes, escapes, blanks and operators that can stand side by side; its tokens are those of any such spelling |
| `CommandSpelling.RefusedExactly` | src/mem_sandbox/command_executor/parser.py:44-176 | it is refused exactly where no spelling goes on, as unsupported for what the language leaves out and as invalid for what is not closed |
| `CommandExpansion.ExpandsExactly` | src/mem_sandbox/command_executor/parser.py:289-340 | expansion succeeds exactly on texts made of plain characters, $NAME as far as a name can reach, and ${NAME}; a variable stands for the directory, for what is set, or for nothing |
| `CommandLanguage.ExpandableExactly` | src/mem_sandbox/command_executor/parser.py:275-278 | a word passes validation exactly when each of its expanding texts is made of such parts |
| `CommandLanguage.ParsesExactly` | src/mem_sandbox/command_executor/parser.py:179-258 | a text has a plan exactly when it spells the tokens of that plan, whichever way it is taken for a spelling |
| `CommandLanguage.FailsExactly` | src/mem_sandbox/command_executor/parser.py:179-258 | every other text fails: with the tokenizer's error, as empty without tokens, as invalid when no plan has its tokens |
| `CommandSyntax.ExpansionFillsTemplate` | src/mem_sandbox/command_executor/parser.py:289-340 | expansion fills an environment-free template in one pass: it fails in every environment or in none, and values are never read again |
| `CommandSyntax.ValidatedNeverFails` | src/mem_sandbox/command_executor/parser.py:275-278 | a word that was validated at parse time expands in every environment and directory, and no other word does |
| `CommandRoundTrip.FlattenThenParse` | src/mem_sandbox/command_executor/parser.py:179-258 | every well-formed plan, flattened to tokens, parses back to itself |
| `CommandRoundTrip.ParseThenFlatten` | src/mem_sandbox/command_executor/parser.py:179-258 | every accepted token list is the flattening of its plan: nothing is dropped, merged or reordered |
| `CommandPrinter.LexTokens` | src/mem_sandbox/command_executor/parser.py:44-176 | printed tokens are read back one for one |
| `CommandPrinter.WordMeans` | src/mem_sandbox/command_executor/parser.py:261-272 | a printed word expands to its text and its variables' values, in every environment |
| `CommandPrinter.PrintThenParse` | src/mem_sandbox/command_executor/parser.py:44-258 | printing any plan over any one-line words and variables and parsing the text gives that plan |
| `CommandExecution.AdmissionIsExact` | src/mem_sandbox/command_executor/executor.py:244-359 | admission reports no failure exactly when every stage resolves, is unprotected, within limits and allowed where it stands, and the destination likewise |
| `CommandExecution.StatusIsRightmost` | src/mem_sandbox/command_executor/executor.py:361-432 | a pipeline's exit and failure code are those of its rightmost failing stage |
| `CommandExecution.PipelineLimits` | src/mem_sandbox/command_executor/executor.py:410-426 | a pipeline that was not cut off kept every intermediate output and their sum within limits; one that was reports only that |
| `CommandExecution.ParsedPlansQualify` | src/mem_sandbox/command_executor/parser.py:187-258 | parsed plans are executable and start with a unit that always runs |
| `CommandExecution.AtLeastOneUnitRuns` | src/mem_sandbox/command_executor/executor.py:217-227 | at least one unit runs, and the plan's status is the last executed unit's: skipped units leave it alone |
| `CommandExecution.ReplayAgrees` | src/mem_sandbox/session/session.py:719-730 | replaying the published changes on the session's environment gives the environment the executor ended with |
| `CommandExecution.NothingProtectedPersists` | src/mem_sandbox/command_executor/executor.py:531-560 | over a whole plan nothing protected enters the session's directory or environment |
| `CommandOutcomes.OnlyRedactedIsShown` | src/mem_sandbox/command_executor/executor.py:531-560 | whatever holds of redacted texts, of the one note that follows redaction and of texts put together from such holds of the output and the diagnostics of every run, of every input passed down a pipe and of every file stored |
| `CommandOutcomes.AdmittedUnitComesTo` | src/mem_sandbox/command_executor/executor.py:361-560 | an admitted unit calls its stages in order, each with the redacted output of the one before; it prints or stores the output of the last, redacted twice, with the status of the rightmost one that did not go well |
| `CommandOutcomes.RefusedUnitComesTo` | src/mem_sandbox/command_executor/executor.py:244-359 | a refused unit calls nothing and shows nothing; what it stores, if anything, is empty output |
| `CommandOutcomes.MisfitCode` | src/mem_sandbox/command_executor/executor.py:244-359 | which code the first stage with which something is wrong is refused with: secrets first, unknown commands last |
| `CommandOutcomes.DestinationCode` | src/mem_sandbox/command_executor/executor.py:244-359 | a secret in the destination refuses a unit, and so does a last command that does not let its output be redirected |
| `CommandDiagnostics.RefusalExactly` | src/mem_sandbox/command_executor/executor.py:244-359 | a unit is refused for a secret before all else, then for a forbidden redirection, then for its first stage with which something is wrong; and not at all exactly when none of these is so |
| `CommandDiagnostics.RefusedStoresExactly` | src/mem_sandbox/command_executor/executor.py:188-214 | a refused unit still has its empty output stored exactly when it has a destination that neither a secret nor its last command forbids and only unknown commands are wrong with it |
| `CommandDiagnostics.DiagnosticsInOrder` | src/mem_sandbox/command_executor/executor.py:361-529 | a pipeline goes on exactly while its outputs keep to both limits, and the diagnostics are those of its calls in order, redacted, then the note on the cut, then the note on the file |
| `CommandOutcomes.RunsAsScheduled` | src/mem_sandbox/command_executor/executor.py:157-159 | the first unit runs, and a unit is passed over exactly when && waits for a success that did not come |
| `CommandOutcomes.OutputInOrder` | src/mem_sandbox/command_executor/executor.py:188-230 | the output of a run is what its printing units show, one after the other, and its diagnostics are those of all |
| `CommandOutcomes.DirectoryIsLast` | src/mem_sandbox/command_executor/executor.py:220-225 | a run ends in the directory that the last successful unit to change it chose |
| `CommandOutcomes.EnvironmentInOrder` | src/mem_sandbox/command_executor/executor.py:220-225 | the environment of a run is the one it began with and the changes of its successful units in order |
| `CommandOutcomes.LastChangeDecides` | src/mem_sandbox/command_executor/executor.py:647-659 | of several changes to one variable the last one decides |
| `CommandOutcomes.OthersKeep` | src/mem_sandbox/command_executor/executor.py:647-659 | a variable that no change names keeps its value |
| `CommandExecutor.ApplyEnvironmentChanges` | src/mem_sandbox/command_executor/executor.py:647-659 | the dictionary loop applies the changes in order |
| `CommandExecutor.SanitizeStage` | src/mem_sandbox/command_executor/executor.py:531-560 | a result that may persist keeps its exit, directory and changes and has both texts redacted; any other becomes a rejection that shows nothing of it |
| `CommandExecutor.PrepareUnit` | src/mem_sandbox/command_executor/executor.py:244-359 | the admission loop reports the first complaint in reading order, a forbidden redirection outranking all but secrets |
| `CommandExecutor.ExecutePipeline` | src/mem_sandbox/command_executor/executor.py:361-432 | each stage gets what the one before it wrote; the loop stops where a limit is passed |
| `CommandExecutor.ApplyRedirection` | src/mem_sandbox/command_executor/executor.py:479-529 | at most one write, of all the output, and only when it fits |
| `CommandExecutor.RunUnit` | src/mem_sandbox/command_executor/executor.py:162-212 | a unit is admitted, run, sanitised, redirected and sanitised again, in that order |
| `CommandExecutor.ExecutePlan` | src/mem_sandbox/command_executor/executor.py:141-242 | the loop over units is a run of the big-step semantics of ; and &&, and the result reports its final state with bounded output; without a result, one of the host's answers or an interruption broke the run off |
| `EventDelivery.InvStep` | src/mem_sandbox/events/delivery.py:89-233 | every step of emit, the worker and the close task keeps the dispatcher's invariant |
| `EventDelivery.AttemptedOnceInOrder` | src/mem_sandbox/events/delivery.py:177-217 | offers reach the sink at most once and in acceptance order |
| `EventDelivery.ReportedExactlyOnce` | src/mem_sandbox/events/delivery.py:101-124 | an offer is reported exactly once if it was refused or failed at the sink with an error that can be shown, or was given up with one, and never otherwise |
| `EventDelivery.OrderlyRunsReport` | src/mem_sandbox/events/delivery.py:177-263 | nothing is given up and nothing fails without a report exactly when every error raised in the run can be shown |
| `EventDelivery.Diagnose` | src/mem_sandbox/events/delivery.py:246-263 | a diagnostic always has a message, and is made of every error but a sandbox error whose text cannot be shown |
| `EventDelivery.FatesAreFinal` | src/mem_sandbox/events/delivery.py:177-233 | what became of an offer is settled once |
| `EventDelivery.UnshownErrorDropsOffers` | src/mem_sandbox/events/delivery.py:198-233 | a run in which an offer fails with such an error: it is never reported, and the next one is given up |
| `EventDelivery.ClosedMeansSettled` | src/mem_sandbox/events/delivery.py:148-158 | when close returns nothing accepted is left: each offer reached the sink, was reported, or was dropped for an error that cannot be shown |
| `EventDelivery.ClosingProgresses` | src/mem_sandbox/events/delivery.py:148-158 | after close was called every step of the worker or the closer brings the end nearer |
| `EventDelivery.CloseNeverStuck` | src/mem_sandbox/events/delivery.py:148-158 | until the end one of them can move, exactly unless the close joins a stranded queue |
| `EventDelivery.StrandsExactly` | src/mem_sandbox/events/delivery.py:205-233 | a step strands the queue exactly when the worker's own error cannot be shown either and more than one offer waits; the next accepted offer frees it |
| `EventDelivery.StrandedForever` | src/mem_sandbox/events/delivery.py:148-158 | a close that joins a stranded queue never ends, in any continuation |
| `EventDelivery.SpeechlessErrorStrandsClose` | src/mem_sandbox/events/delivery.py:198-233 | a run of three offers and a close that ends so |
| `EventDelivery.EventDispatcher.EmitEvent` | src/mem_sandbox/events/delivery.py:101-124 | emit is the protocol's step: refused, or queued behind a worker |
| `EventDelivery.EventDispatcher.TakeItem` | src/mem_sandbox/events/delivery.py:183-187 | the worker takes the oldest item, and stops at the stop marker |
| `EventDelivery.EventDispatcher.SinkRefused` | src/mem_sandbox/events/delivery.py:196-217 | a failed attempt is reported, or ends the worker when its error cannot be shown |
| `EventDelivery.EventDispatcher.FailQueuedEvents` | src/mem_sandbox/events/delivery.py:219-233 | every queued offer is reported, oldest first, until reporting the worker's own error raises |
| `EventDelivery.EventDispatcher.CloseOnceJoined` | src/mem_sandbox/events/delivery.py:148-158 | the closer sends the stop marker only after the queue was joined |
| `EventRuns.OfferedExactly` | src/mem_sandbox/events/delivery.py:101-124 | an offer is queued exactly when the dispatcher is open, the event could be prepared and there is room; else it is refused with its error, and that is reported if it can be shown |
| `EventRuns.MessageExactly` | src/mem_sandbox/events/delivery.py:246-263 | which message a diagnostic has: the text of a sandbox error that shows one, the name of every other |
| `EventRuns.QueueWithinCapacity` | src/mem_sandbox/events/delivery.py:75-79 | in no run do more offers wait than the queue was made for |
| `EventRuns.FatesChangeExactly` | src/mem_sandbox/events/delivery.py:177-233 | which step alone takes an offer to the sink, delivers it, fails it, drains it or loses it |
| `EventRuns.BurstIsDelivered` | src/mem_sandbox/events/delivery.py:101-217 | as many offers as the queue was made for, made at once, can all be delivered in order and the dispatcher closed after |
| `EventRuns.OneTooMany` | src/mem_sandbox/events/delivery.py:117-124 | the offer past the bound is refused as one too many, and reported |
| `SecretBroker.InvStep` | src/mem_sandbox/secrets/broker.py:62-119 | every locked section, resolve outcome and close keeps the broker's invariant |
| `SecretBroker.ReadableWithinLimit` | src/mem_sandbox/secrets/broker.py:62-82 | at any reading not before the latest purge, readable leases number at most the records, and those at most the limit |
| `SecretBroker.GoingBackBreaksTheLimit` | src/mem_sandbox/secrets/broker.py:154-158 | for any two readings where the clock went back, a broker for one lease can have two readable ones |
| `SecretBroker.NoRecordAfterRelease` | src/mem_sandbox/secrets/broker.py:113-119 | no record outlives its failed call or its closed lease, in any continuation |
| `SecretBroker.BoundedSecretBroker.PurgeExpired` | src/mem_sandbox/secrets/broker.py:154-158 | drops exactly the expired records |
| `SecretBroker.BoundedSecretBroker.Admit` | src/mem_sandbox/secrets/broker.py:65-84 | the locked section purges, refuses at the limit, and otherwise records one new token |
| `SecretBroker.BoundedSecretLease.Read` | src/mem_sandbox/secrets/broker.py:212-219 | the value comes out exactly while the lease is open and not yet expired |
| `SecretBroker.BoundedSecretLease.Close` | src/mem_sandbox/secrets/broker.py:224-237 | closing gives the record back once |
| `SecretRuns.EntersExactly` | src/mem_sandbox/secrets/broker.py:65-84 | a call is admitted exactly when fewer records than the limit are unexpired and its expiry can be represented; it drops what has expired and adds one record that lasts the shorter of both durations from now |
| `SecretRuns.GrantsExactly` | src/mem_sandbox/secrets/broker.py:62-119 | only an admitted call adds a record, only its success makes a lease, nothing is ever prolonged, and what takes a record away |
| `SecretRuns.EveryLeaseWasGranted` | src/mem_sandbox/secrets/broker.py:65-84 | in every run each lease ends as long after the reading that admitted one of the calls as that call asked for, or as the limit if that is shorter |
| `SecretRuns.NothingOutlivesTheLimit` | src/mem_sandbox/secrets/broker.py:65-84 | nothing can be read once the longest lease time has passed since the last admission |
| `SecretRuns.LimitCanBeHeld` | src/mem_sandbox/secrets/broker.py:62-119 | as many leases as the limit can be held at once, all readable until the second they end and none from then on |
| `DirectoryHash.HashDirectory` | src/mem_sandbox/workspace/hashing.py:9-21 | the digest is fed exactly the preimage of the sorted children; a name too long for its length field is refused |
| `DirectoryHash.EntryReadsOnce` | src/mem_sandbox/workspace/hashing.py:16-20 | an entry can be read off the front of a byte string in only one way |
| `DirectoryHash.EntryLayout` | src/mem_sandbox/workspace/hashing.py:16-20 | where each part of an entry stands: the kind, the length of the name with the highest byte first, the name, the digest |
| `DirectoryHash.SameBytesSameChildren` | src/mem_sandbox/workspace/hashing.py:9-21 | two collections feed the digest the same bytes exactly when they are the same collection, in whatever order they are listed |
| `Ordering.SortStable` | src/mem_sandbox/command_executor/commands.py:816 | sorting keeps equal elements in their order |
| `Ordering.SortOfPermutation` | src/mem_sandbox/workspace/hashing.py:16 | under an order that separates elements, sorting depends on the contents alone |
| `TextCommands.RecordsJoin` | src/mem_sandbox/command_executor/commands.py:91-96 | joining the records of a text gives the text back |
| `TextCommands.RecordShape` | src/mem_sandbox/command_executor/commands.py:91-96 | a record is a line with its line feed; only the last may lack it, and none is empty |
| `TextCommands.LimitedOutput` | src/mem_sandbox/command_executor/commands.py:541-558 | the first or the last records of every input, none for a count of zero; headings and a separating line feed only when there are several inputs |
| `TextResults.SelectedExactly` | src/mem_sandbox/command_executor/commands.py:549-551 | head takes the first records and tail the last ones, as many as asked for or all |
| `TextCommands.HeadThenTail` | src/mem_sandbox/command_executor/commands.py:541-558 | the first k records followed by the last n - k are the whole text |
| `TextCommands.SortText` | src/mem_sandbox/command_executor/commands.py:814-823 | sort writes the sorted lines of all inputs, collapsed by key when unique |
| `TextCommands.SortIsStable` | src/mem_sandbox/command_executor/commands.py:814-816 | the sorted lines are the input lines rearranged into order, equal keys in input order, also in reverse |
| `TextResults.SortDirection` | src/mem_sandbox/command_executor/commands.py:814-816 | by bytes no later line comes before an earlier one in code point order, reversed none comes after; numerically the values do not fall, or do not rise |
| `TextResults.UniqueKeepsFirsts` | src/mem_sandbox/command_executor/commands.py:814-822 | with -u exactly the first input line of each key is left, in the same order |
| `TextCommands.SortThenUniq` | src/mem_sandbox/command_executor/commands.py:814-870 | sort piped into uniq writes what sort -u writes, for the byte key, in either direction |
| `TextCommands.UniqRuns` | src/mem_sandbox/command_executor/commands.py:860-870 | uniq's nested loops find the runs of equal neighbours |
| `TextCommands.RunsUnfold` | src/mem_sandbox/command_executor/commands.py:860-870 | the counted runs expand back to the input records, none is empty and neighbours differ |
| `TextCommands.WrittenReadsBack` | src/mem_sandbox/command_executor/commands.py:91-100 | lines that are written are read back as they were |

## Left out

- ServiceProtocol.RuntimesInEveryRun: close attempted is not the same as closed; what a runtime's close does is not modelled, and deletion tasks are not cancelled from outside.
- SessionProtocol.EveryStartEndsOnce: counts terminal attempts; an attempt whose deadline has passed or whose clock fails does not reach the sink (session.py lines 1882 to 1889), and a failing clock is taken not to be a sandbox error.
- SessionProtocol.InvStep: the native cancellations and timeouts inside one suspension are a nondeterministic outcome; process-level exceptions such as KeyboardInterrupt are not modelled.
- LiveSession.SandboxSession.CloserEnters: external cancellation of the close task appears only as an interrupted announcement or release.
- ProtectedValueRedactor.Create: the longest-first order in which registrations are kept is not modelled; the result depends on the set alone.
- SandboxService.InMemorySandboxService.PublishRecord: the owner and the creation time of a record are left out.
- HttpTransport.SendOnce: the socket, TLS, the request that is written and the closing of the writer are replaced by the bytes that will arrive.
- HttpGateway.SendBounded: URL normalisation, joining a redirect, address classes and decompression are parameters; the deadline is an arbitrary interruption; defensive copies and type checks of foreign objects are left out.
- HttpGateway.Admit: policy failures of every kind count as a denial, and resolver failures as no answer.
- CommandSyntax.ExpansionFillsTemplate: `str.isalpha()` past ASCII is a parameter.
- CommandPrinter.PrintThenParse: printed words are made of literal text and variables, not of arbitrary fragments; every other way of writing a word is covered by `CommandLanguage.ParsesExactly`.
- CommandExecution.AdmissionIsExact: the limits on the number of stages and of words, checked for the whole plan before execution, and the wording of diagnostics are left out.
- CommandExecutor.ExecutePlan: a raised command, a timeout or a cancellation abandons the run without a result; which of them it was is not modelled. Environments are maps; the order of their entries is not modelled.
- TextCommands.SortText: the numeric key is a parameter.
- TextCommands.UniqRuns: the printed width of counts in `uniq -c` is left out.
- EventDelivery.ReportedExactlyOnce: the worker is not cancelled from outside; showing an error as text always gives the same text or the same exception.
- SecretBroker.BoundedSecretBroker.Admit: times are integers, and whether an expiry can be represented is a parameter.
- DirectoryHash.HashDirectory: SHA-256 itself.
- The workspace tree, patches, archives, snapshots and their JSON codec: their behaviour rests on sources that are not part of this model.
- The remaining commands (grep, find, wc, ls, cp, mv and the like): regular expressions and the workspace carry their behaviour.
- Required event delivery and the preparation of event payloads: a single call with its errors passed on, and field limits.
- Request headers of the gateway: the duplicate and controlled-name checks, which are single comparisons.
- Grants, policy identifiers, credential routes and limits as values: comparisons without state.
