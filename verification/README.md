# WinRM client: a verified model

This project models the parts of a Go WinRM client in which something can go subtly wrong, and proves what they promise.

* **The Kerberos message framer** (`KerberosGss`, `Multipart`, `KerberosMessage`, `KerberosMessageProofs`).
  The parser looks for the first end of the metadata in a body whose ciphertext is arbitrary.
  The main result is an exact grammar of the accepted bodies; the round trip, the size limits and injectivity follow from it.
* **The NTLM message codec** (`NtlmCodec`, `NtlmCodecProofs`).
  Its parser splits on the boundary instead, so its round trip needs a condition on the ciphertext, and that condition is exact.
  `Agreement` compares the two parsers and the two printers.
* **The Kerberos session** (`BoundedReader`, `KerberosSession`, `KerberosSessionProofs`, `KerberosSessionOutcomes`, `KerberosConfig`).
  One bootstrap loop with a shared budget, a security context bound to one connection, and a bounded body reader.
  The negotiator, the transport and the server are an arbitrary environment; the properties hold of every run.
* **A remote command** (`SlurpResponse`, `Command`, `CommandProofs`, `CommandWriter`, `CommandWriterProofs`).
  The output pump with its two pipes, its exit code and its cancellation, and the stdin writer.
* **A whole run** (`RunComposition`, `RunCompositionProofs`).
  The caller, the pump and the three copying goroutines as one state machine over micro-steps, interleaved in any order.

Code that computes a value is a function, and the properties are lemmas about it. Code that updates objects is a class or
a method with a loop, and its contract equates the new state with a function of the old one; the lemmas are about that
function. `Bytes` and `Wrappers` hold the byte strings and the result types. A byte is a character below 256, so that the
wire constants can be written as string literals.

What the code turned out not to do:

* `WriteClose` is documented to write its data and to mark the end of the input (`command.go:250`). It sets the flag that
  `Write` refuses on first, so it sends nothing, and it also keeps a later `Close` from sending the End frame
  (`CommandWriterProofs.EndSentIff`).
* A copy of standard input that stops at a failed request is still followed by the End frame
  (`CommandWriterProofs.NothingArrives`), so the remote command cannot tell a truncated input from a complete one
  (`CommandWriterProofs.TruncationIsSilent`). The input is whole exactly if the network answers every request that it
  takes (`CommandWriterProofs.InputDelivered`).
* A run whose output writer fails can hang. `io.Copy` stops and leaves the read half of the pipe open, so the pump waits
  for ever in its next pipe write and the caller waits for the pump, even when the context is done
  (`RunCompositionProofs.FailingWriterStrands`). A run can return exactly if no copier has stopped while its pipe is
  owed bytes (`RunCompositionProofs.CanReturnIff`).
* A command whose identifier is empty loses an observed context error: the error of the failed check replaces it
  (`CommandProofs.NoCommandStops`).
* The NTLM round trip fails for ciphertext that contains a delimiter (`NtlmCodecProofs.SeparatorInCiphertext`). It
  succeeds exactly when no stream contains a delimiter and none but the last ends in the end marker
  (`NtlmCodecProofs.DecryptEncryptedIff`). The Kerberos framer extracts the same bodies either way
  (`Agreement.OnlySplittingLoses`).

## Model

| member | source | states |
|---|---|---|
| KerberosGss.Wrap | kerberos_gss.go:31-43 | succeeds exactly on a token longer than 16 bytes that begins with 05 04, has the Sealed bit in its third byte and FF in its fourth; the two parts are its first 16 bytes and the rest |
| KerberosGss.Unwrap | kerberos_gss.go:45-73 | succeeds exactly when the header is 16 bytes that begin 05 04, has the Sealed bit and the filler byte FF, and the context opens the rejoined token as confidential; returns what the context returned |
| KerberosGss.WrapUnwrap | kerberos_gss.go:31-60 | splitting a token and rejoining it loses nothing: the peer reads the message |
| Bytes.AtoiMeans | response.go:142 | the conversion of an exit code: an optional sign and digits, to the nearest 64-bit integer; zero for anything else |
| Bytes.EqualFoldSound | kerberos_message.go:77-82 | a text that is equal under folding is a sequence of runes each of which folds to its character |
| Bytes.EqualFoldComplete | kerberos_message.go:77-82 | every such sequence is equal under folding |
| Bytes.TrimPadding | encryption.go:255 | trimming removes ASCII padding on both sides and nothing else |
| Bytes.LittleEndian | kerberos_message.go:58 | the least significant byte comes first |
| KerberosMessage.NewFramer | kerberos_message.go:25-34 | accepts a limit exactly when the sum of all size limits that `open` computes stays a machine integer |
| KerberosMessage.CheckBoundary | kerberos_message.go:132-142 | the loop decides the boundary grammar: 1 to 70 characters from space to tilde, the last one not a space |
| KerberosMessage.Seal | kerberos_message.go:36-67 | the writes to the buffer print the sealed layout, the content type names the same boundary, and the four error conditions are the only ones |
| KerberosMessage.CutHeader | kerberos_message.go:174-181 | returns the rest of a line exactly when the line starts with the header |
| KerberosMessageProofs.CutOriginalContentIff | kerberos_message.go:158-167 | cutting the OriginalContent value finds exactly the decompositions in which `;Length=` occurs once, overlapping and repeated tags included |
| KerberosMessageProofs.ParseMetadataIff | kerberos_message.go:144-172 | the metadata parser accepts exactly the three-line grammar, with or without the last line break, with leading zeros and in any letter case, and returns the declared length |
| KerberosMessageProofs.LineSearch | kerberos_message.go:94-98 | the search pattern starts nowhere in well-formed metadata, whatever text follows the metadata |
| KerberosMessageProofs.FirstMatch | kerberos_message.go:94-98 | the first match of the search is exactly the end of the metadata, even if the ciphertext contains the marker and the octet-stream line |
| KerberosMessageProofs.CutStreamIff | kerberos_message.go:105-122 | an encrypted stream is cut exactly when it is little-endian 16, a 16-byte header and a non-empty payload |
| KerberosMessageProofs.ExtractSound | kerberos_message.go:90-121 | whatever passes the checks is metadata, marker, octet-stream line, stream and terminal boundary within all the limits |
| KerberosMessageProofs.ExtractComplete | kerberos_message.go:90-121 | every body of that form passes the checks, with that length, header and payload |
| KerberosMessageProofs.OpenIff | kerberos_message.go:69-130 | `open` returns a message exactly for the bodies of the grammar whose token the context opens as that message with the declared length; it is total |
| KerberosMessageProofs.OpenedFits | kerberos_message.go:168-171 | an accepted plaintext fits the configured limit and a 63-bit length |
| KerberosMessageProofs.PrintedMetadata | kerberos_message.go:51-56 | printed metadata is in the grammar and at most 218 bytes long, by the bound on decimal digits |
| KerberosMessageProofs.SealedBodyForm | kerberos_message.go:47-63 | every body in the sealed layout fits the size and metadata limits of `open` |
| KerberosMessageProofs.SealedOpens | kerberos_message.go:36-130 | round trip over every valid boundary, message and token, delimiters in the payload included, under any framer whose limit is at least the message length |
| KerberosMessageProofs.SealedTokenOpens | kerberos_gss.go:31-73 | every sealed token with a payload and within the overhead is split, and the body printed around it opens to the message |
| KerberosMessageProofs.SoapMediaIff | kerberos_message.go:163-166 | the declared media type is SOAP in any folding and has one parameter, a charset that folds to UTF-8 |
| KerberosMessageProofs.ProtectedIff | kerberos_message.go:77-89 | the content type of a protected response, spelled out: both parameters are present, and the boundary is in the grammar |
| KerberosMessageProofs.SealedBodyInjective | kerberos_message.go:51-63 | equal sealed bodies have equal lengths, headers and payloads |
| NtlmCodec.BuildNtlmMessage | encryption.go:355-373 | prints the length-prefixed stream; without a security session it returns no bytes and no error |
| NtlmCodec.DeleteEmpty | encryption.go:231-239 | the loop keeps the non-empty parts in order |
| NtlmCodec.DecryptParts | encryption.go:250-278 | the loop over pairs computes the recursive decryption of any list of parts |
| NtlmCodec.DecryptResponse | encryption.go:245-279 | the method splits, drops the empty parts and computes the recursive decryption, with a result of its own for an expression that leaves its bounds |
| NtlmCodecProofs.EncryptedSpelled | encryption.go:214-229 | one encrypted message is separator, header, separator, octet-stream line and stream |
| NtlmCodecProofs.HeaderLength | encryption.go:254-258 | the printed header yields the declared length again |
| NtlmCodecProofs.StrippedData | encryption.go:261-264 | removing the end marker and the octet-stream line from a payload leaves its stream, if the stream holds no delimiter and does not end in the marker |
| NtlmCodecProofs.FreePayloadSplit | encryption.go:247 | a payload without a separator survives the split as one part |
| NtlmCodecProofs.BrokenPayloadSplit | encryption.go:247 | a payload with a separator is split into a part that lacks bytes |
| NtlmCodecProofs.PairsFail | encryption.go:250-278 | against a strict session one part that is not separable spoils the whole body |
| NtlmCodecProofs.DecryptEncrypted | encryption.go:172-279 | multi-part round trip for every non-empty list of separable messages and every session that opens what was sealed |
| NtlmCodecProofs.DecryptEncryptedIff | encryption.go:172-279 | against a session that opens nothing but what was sealed, the round trip holds exactly for a non-empty list of separable messages, and otherwise no plaintext is returned |
| NtlmCodecProofs.DecryptAnySession | encryption.go:250-278 | for every session, a body of separable messages decrypts to the session's answers if each has the length declared in its own part, and otherwise nothing is returned |
| NtlmCodecProofs.DecryptPairIff | encryption.go:250-275 | exactly which pairs of parts decrypt, on any input: the declared length is that of the plaintext, and what remains of the payload is a length-prefixed signature and a ciphertext that the session opens |
| NtlmCodecProofs.LengthTextMeans | encryption.go:254 | the length is read after the first `Length=`, up to and including a second one |
| NtlmCodecProofs.StripEndMeans | encryption.go:260-263 | one end marker is removed from the end of a payload, and nothing else is |
| NtlmCodecProofs.SeparatorInCiphertext | encryption.go:247 | a ciphertext that equals the separator is never decrypted |
| Agreement.AcceptedBodiesAgree | encryption.go:245-306 | on every body that the Kerberos parser accepts over the fixed boundary, whose metadata contains `Length=` once and whose stream holds no delimiter, the NTLM parser hands every session the same payload and header, compares with the same length, and gives the same verdict |
| Agreement.PrintedBodiesAgree | encryption.go:214-306 | the two parsers extract the same length, header and payload from every printed message with a 16-byte header whose stream holds no delimiter |
| Agreement.PrintersAgree | encryption.go:167-229 | for one message the two printers agree byte for byte |
| Agreement.KerberosReadsNtlm | kerberos_message.go:90-122 | the Kerberos parser extracts an NTLM body with a 16-byte signature, whatever its ciphertext holds |
| Agreement.OnlySplittingLoses | encryption.go:214-306 | for a printed one-part body and a session that opens nothing but what was sealed, the NTLM parser returns the plaintext exactly if the stream holds no delimiter, while the Kerberos parser extracts it either way |
| BoundedReader.BoundedReadCloser.Read | kerberos_session.go:337-351 | one read returns and leaves behind what the step function says |
| BoundedReader.ReadDelivers | kerberos_session.go:337-351 | one read splits the whole delivery, for every chunking and every buffer size |
| BoundedReader.ReadTakes | kerberos_session.go:337-351 | a read takes from the network what it returns, and one byte more only when it reports the limit |
| BoundedReader.ReadProgresses | kerberos_session.go:337-351 | every read that does not stop makes the rest smaller |
| BoundedReader.ReadAll | kerberos_session.go:360-367 | reading to the end returns the whole delivery, however large the buffers happen to be |
| BoundedReader.ReadBoundedBody | kerberos_session.go:360-367 | the concatenation of the chunks and the ending of the body if it fits the limit, and otherwise exactly its first `limit` bytes and the limit error; at most `limit` + 1 bytes are taken |
| BoundedReader.StackedBounds | kerberos_session.go:298-303 | two stacked readers act as the one with the smaller limit |
| KerberosSession.ConnectionTracker.Got | kerberos_session.go:314-321 | one connection event changes the tracker as the step function says |
| KerberosSession.CountingRoundTripper.RoundTrip | kerberos_session.go:294-304 | a round trip without budget fails before the base transport; otherwise it costs one |
| KerberosSession.ChangeNeedsTrip | kerberos_session.go:178-203 | a detected change needs two connection events and a round trip, so every restart uses up budget |
| KerberosSession.Session.InvalidateLocked | kerberos_session.go:265-269 | drops the context and the connection together |
| KerberosSession.Session.Turn | kerberos_session.go:179-225 | one turn of the bootstrap loop: its requests, its use of the budget, and its verdict |
| KerberosSession.Session.Round | kerberos_session.go:178-226 | the body of the retry loop ends the bootstrap with its outcome or leaves the rest of it to the next round, with less budget |
| KerberosSession.Session.Negotiation | kerberos_session.go:178-228 | the retry loop computes the recursive bootstrap; it ends for every environment |
| KerberosSession.EstablishStep | kerberos_session.go:167-229 | a bootstrap leaves the session established or invalid, never negotiating, and with both context and connection or neither |
| KerberosSession.Session.EstablishLocked | kerberos_session.go:167-229 | the method refines that step and reports success exactly when the session is established |
| KerberosSession.PostPlaintext | kerberos_session.go:231-263 | the representation invariant survives every outcome of the SOAP exchange |
| KerberosSession.Session.PostPlaintextLocked | kerberos_session.go:231-263 | the method refines that step, errors included |
| KerberosSession.PostStep | kerberos_session.go:152-165 | `post` keeps the representation invariant from every state |
| KerberosSession.Session.Post | kerberos_session.go:152-165 | the method refines that step |
| KerberosSession.CloseStep | kerberos_session.go:271-287 | `close` ends in the closed state without context or connection |
| KerberosSession.Session.Close | kerberos_session.go:271-287 | the method refines that step |
| KerberosSessionProofs.TrackIff | kerberos_session.go:313-328 | the tracker reports a change exactly when two of the connections, or one of them and the expected one, differ, and it ends with the last one |
| KerberosSessionProofs.UnchangedIsOneConnection | kerberos_session.go:248-251 | an exchange that passes the check ran on one connection only, the expected one if there is one |
| KerberosSessionProofs.EstablishIsLegal | kerberos_session.go:178-228 | a bootstrap keeps the protocol: exchanges belong to the latest negotiator, and a negotiator is bound once, to the one connection of all its exchanges |
| KerberosSessionProofs.EstablishWithinBudget | kerberos_session.go:175-228 | one establishment performs at most its budget of round trips, across all restarts, and creates at most as many negotiators |
| KerberosSessionProofs.FewNegotiators | kerberos_session.go:178-203 | with one connection event for each exchange, a budget of five serves at most three negotiators |
| KerberosSessionOutcomes.JudgeIff | kerberos_session.go:187-225 | each verdict on an attempt, exactly: it restarts if it was answered on two different connections; it is accepted if it was answered with 200 on one connection and published a context; otherwise the bootstrap fails |
| KerberosSessionOutcomes.EstablishIff | kerberos_session.go:178-226 | a bootstrap succeeds, with which negotiator and on which connection, exactly if some attempt within the budget completes mutual authentication on one connection and every attempt before it was answered on two different ones |
| KerberosSessionOutcomes.EstablishFailsIff | kerberos_session.go:178-228 | it fails exactly if there is no such attempt |
| KerberosSessionOutcomes.EstablishCosts | kerberos_session.go:175-203 | its requests are exactly the round trips that its budget lets through |
| KerberosSessionOutcomes.EstablishedIff | kerberos_session.go:167-226 | to which connection a call of `post` finds or makes the session bound |
| KerberosSessionOutcomes.PlaintextIff | kerberos_session.go:231-263 | exactly when the SOAP exchange returns a response, and which: a 200 reply of SOAP content, whole and within the limit, exchanged on the bound connection only |
| KerberosSessionOutcomes.PlaintextState | kerberos_session.go:231-269 | when the exchange takes place, what it leaves in the trace, and that it invalidates the session exactly if there is no reply or it left the bound connection |
| KerberosSessionOutcomes.PlaintextErrors | kerberos_session.go:231-261 | which failure is reported when several checks would fail |
| KerberosSessionOutcomes.PostIff | kerberos_session.go:152-165 | exactly when a call of `post` returns a response, and which |
| KerberosSessionOutcomes.PostPhase | kerberos_session.go:152-165 | exactly in which cases `post` leaves the session established, and on which connection |
| KerberosSessionOutcomes.PostTrace | kerberos_session.go:152-165 | what `post` sends: its bootstrap if it needs one, and the SOAP exchange exactly if the session is bound, needs no encryption and the request can be built |
| KerberosSessionOutcomes.RunAuthenticates | kerberos_session.go:167-226 | in every run the context of an established session was made by a call of `post` at an attempt that completed mutual authentication on the session's connection |
| KerberosSessionOutcomes.CredentialsDestroyedIff | kerberos_session.go:271-287 | the credentials are destroyed exactly in the runs that close the session, if there are any |
| KerberosSessionProofs.BoundMeansBootstrapped | kerberos_session.go:200-224 | in a legal trace a bound context was negotiated on its connection only, by at least one exchange |
| KerberosSessionProofs.SoapFollowsBound | kerberos_session.go:158-164 | every SOAP exchange follows a successful bootstrap, with nothing but exchanges of the same context in between |
| KerberosSessionProofs.CallsIncrease | kerberos_session.go:152-165 | SOAP exchanges happen in call order, at most one for each call |
| KerberosSessionProofs.NothingFollowsDestroyed | kerberos_session.go:271-287 | the credentials are destroyed at most once, and nothing is sent afterwards |
| KerberosSessionProofs.PostKeeps | kerberos_session.go:152-165 | every `post` keeps the run invariant, makes at most six requests, and sends no body but its own message |
| KerberosSessionProofs.CloseKeeps | kerberos_session.go:271-287 | every `close` keeps the run invariant and sends no request |
| KerberosSessionProofs.RunKeeps | kerberos_session.go:152-287 | every run keeps the run invariant, only adds to the trace, stays within six requests for each `post`, and leaves a closed session as it is |
| KerberosSessionProofs.RunSends | kerberos_session.go:152-263 | in every run from the start the trace is legal, there are at most six requests for each `post`, and every SOAP body is the message of the call that sent it |
| KerberosSessionProofs.RunOrder | kerberos_session.go:152-287 | in every run SOAP exchanges happen in call order, at most one for each call, each after a successful bootstrap of its context with nothing else in between, and the credentials are destroyed at most once, as the last event |
| KerberosSessionProofs.PostReturns | kerberos_session.go:231-263 | a response that is returned is a whole 200 body, exchanged on one connection to which the context was bound |
| KerberosSessionOutcomes.RunBinding | kerberos_session.go:178-263 | in every run, every response returned to a caller was exchanged only on the connection on which the context that sent it was established; all bootstrap exchanges of that context, and at least one, used that connection, and the attempt that made it was answered with 200 and published a context |
| KerberosSessionProofs.ClosedIsAbsorbing | kerberos_session.go:155-157 | after `close`, in every continuation, calls fail and the trace does not grow |
| KerberosSessionProofs.ProtectedRunSendsNoBody | kerberos_session.go:161-163 | a session that requires encryption sends no SOAP body in any run |
| KerberosConfig.Validate | kerberos_session.go:88-118 | exactly which configurations are accepted, the service name with its default, and that encryption is required exactly by a protecting mode, in any letter case and padding |
| KerberosConfig.ModeSpelling | kerberos_session.go:105-111 | a mode is recognised in any letter case, between any ASCII padding |
| KerberosConfig.ProtectedSpelling | kerberos_session.go:105-116 | which spellings protect: `always` does, `never` does not, `auto` and a blank text do exactly without TLS |
| KerberosConfig.PlaintextIsSent | kerberos_session.go:152-165 | without the encryption requirement there is a run in which any message is sent in the clear |
| KerberosConfig.ProtectionPolicy | kerberos_session.go:105-164 | for every accepted configuration, no run ever sends a SOAP body exactly when the mode is always, or auto or blank on an endpoint without TLS |
| SlurpResponse.ContentSelects | response.go:125-134 | the bytes of a stream are the decoded texts of the selected elements |
| SlurpResponse.ContentConcat | response.go:125-134 | the elements of several responses read like one list |
| SlurpResponse.ContentOfOne | response.go:125-134 | an element adds its decoded text to the stream that it names and nothing to another |
| SlurpResponse.ExitCodeMeans | response.go:138-143 | the exit code of a Done response is the 64-bit number that its text spells, and zero without a number and before Done |
| SlurpResponse.WriteNodes | response.go:125-134 | the loop over the selected nodes writes exactly the bytes of that stream, in document order |
| SlurpResponse.ParseSlurpOutputErrResponse | response.go:114-149 | both streams, the Done flag, and the exit code: a printed number, with or without a minus sign, is read back, and anything else is zero; nothing is written for a response that cannot be parsed |
| Command.RemoteCommand.Close | command.go:118-134 | signals a command with an identifier every time, closes the cancel channel only if it is open, and returns no error exactly if the check passes and the request succeeds |
| Command.RemoteCommand.SlurpAllOutput | command.go:136-187 | one poll refines the step function on all its branches |
| Command.RemoteCommand.TakeDocument | command.go:166-186 | the half of a poll after its answer: both writes, the exit code and the two closes |
| Command.RemoteCommand.FetchTurn | command.go:81-100 | one turn of the select loop refines the step function |
| Command.RemoteCommand.FetchOutput | command.go:78-102 | the loop refines the recursive function over any sequence of rounds, and closes the done channel only while it is open |
| CommandProofs.PollKeeps | command.go:136-187 | one poll conserves output, assigns the exit code only when it finishes, and closes both pipes exactly then |
| CommandProofs.FetchKeeps | command.go:78-102 | every run of the loop keeps the invariant that ties the pipes, the exit code, the error and the channels to the polls made |
| CommandProofs.FinishingIff | command.go:147-172 | exactly which answers end the polling: every error but a timeout, known by its kind or its text, a response that cannot be parsed, and Done |
| CommandProofs.OutputAndCompletion | command.go:78-187 | over every run the pipes hold exactly the decoded elements of all parsed responses in order, done is closed at most once and only after both pipes, and the exit code is assigned at most once, by the finishing poll |
| CommandProofs.StopsAtFirstFinish | command.go:93-99 | without cancellation the loop polls up to and including the first finishing answer and then returns |
| CommandProofs.CancelledSoon | command.go:81-92 | once cancellation reaches a command with an identifier the loop polls exactly once more and returns within two turns; its error is that of the context exactly if it had observed it, meets it alone, or prefers it |
| CommandProofs.NoCommandStops | command.go:104-141 | a command without an identifier makes no request, and its check error replaces an observed context error |
| CommandWriter.StdinWriter.SendInput | command.go:189-199 | one Send request, unless the check fails |
| CommandWriter.WriteStep | command.go:219-248 | a closed writer refuses with its own error and changes nothing; an open one reports a short write exactly if it did not accept everything |
| CommandWriter.CloseStep | command.go:265-274 | an open writer of a command sends one End frame, and succeeds exactly if that is answered |
| CommandWriter.WriteCloseStep | command.go:251-254 | accepts nothing, sends nothing and closes the writer |
| CommandWriter.StdinWriter.Write | command.go:219-248 | the chunking loop refines the recursive function, its error included |
| CommandWriter.StdinWriter.Close | command.go:265-274 | sends the End frame of an open writer |
| CommandWriter.StdinWriter.WriteClose | command.go:251-254 | closes the writer first and therefore accepts and sends nothing |
| CommandWriter.StdinWriter.CopyInput | client.go:245-256 | the stdin goroutine: copy until a write falls short, then close |
| CommandWriterProofs.WriteDelivers | command.go:232-240 | what the remote command receives grows by exactly the prefix that the write reports |
| CommandWriterProofs.WriteChunks | command.go:232-240 | every request is non-empty and at most EnvelopeSize - 1000 bytes, and all but the last are full and answered |
| CommandWriterProofs.WriteStops | command.go:235-245 | a short write stopped at an unanswered request for the bytes right after the accepted prefix |
| CommandWriterProofs.WriteCounts | command.go:232-240 | a complete write uses the ceiling number of requests, all answered |
| CommandWriterProofs.WriteAccepts | command.go:232-247 | with every request answered the whole input is accepted |
| CommandWriterProofs.NothingAfterEof | command.go:223-225 | a closed writer sends and accepts nothing more in any run |
| CommandWriterProofs.RunStream | command.go:219-274 | over every run the remote command receives the concatenation of the accepted prefixes, and an End frame is the last request |
| CommandWriterProofs.EndSentIff | command.go:251-274 | the End frame is sent exactly when the first closing operation is Close and the check passes |
| CommandWriterProofs.WriteCompleteIff | command.go:232-247 | a write accepts all its data exactly if the network answers as many requests as the data has pieces |
| CommandWriterProofs.InputDelivered | client.go:245-256 | whatever the network does, the remote command receives a prefix of standard input and then the End frame; the prefix is everything exactly if the network answers every request that the whole input takes |
| CommandWriterProofs.NothingArrives | client.go:245-256 | if the first request is not answered nothing arrives, and the End frame is still sent |
| CommandWriterProofs.TruncationIsSilent | client.go:245-256 | the answered requests of an input cut off after its first chunk are those of a complete input that is this chunk |
| RunCompositionProofs.FetchAppend | command.go:78-102 | a run of the loop can be extended turn by turn |
| RunCompositionProofs.ContextPumped | command.go:89-92 | the micro-steps of Close inside the loop amount to one turn of it |
| RunCompositionProofs.EndPollPumped | command.go:81-99 | the end of a poll, after its pipe writes, is the end of a turn of the loop |
| RunCompositionProofs.RunKeeps | client.go:231-271 | every interleaving keeps the invariant: the pump refines the loop, the caller waits where it must, the log has the protocol's shape |
| RunCompositionProofs.RequestProtocol | client.go:231-271 | in every interleaving of a finished run: Create, Execute, the requests of the goroutines, the final Signal, and one Delete, which is last; no Receive or Send follows the final Signal, and there is at most one other Signal; a failed Create or Execute gives exit code 1 |
| RunCompositionProofs.ChannelsClosedOnce | command.go:118-134 | neither channel is ever closed twice, although two goroutines test and close the cancel channel; a finished run with an identifier has closed it exactly once |
| RunCompositionProofs.OutputDelivered | client.go:257-267 | what the caller's writers accept is a prefix of the decoded output of all parsed responses, in order, and all of it when the run returns, unless the writer of that stream has failed |
| RunCompositionProofs.RunResult | client.go:266-270 | the result of a finished run is the exit code of the finishing poll and the error that goes with the reason for which the loop returned |
| RunCompositionProofs.RunExitCode | command.go:157-182 | the exit code of a finished run from the text of its last answer: the number that a Done response spells, 16001 after an error that mentions EOF and is no timeout, and otherwise zero |
| RunCompositionProofs.InputOfRun | client.go:245-256 | in every interleaving the remote command of a finished run received a prefix of standard input and then one End frame; the prefix is everything exactly if the network answered every request that the whole input takes |
| RunCompositionProofs.StrandedNeverReturns | command.go:172-177 | if a copier has stopped while its pipe is owed bytes, the run never returns, whatever the context and the server do |
| RunCompositionProofs.CanFinish | client.go:231-271 | otherwise it can still return, from every reachable state of the caller, the pump and the copiers |
| RunCompositionProofs.CanReturnIff | client.go:231-271 | in every interleaving, with pipe writes that wait for their reader, a run can still return exactly if no copier has stopped while its pipe is owed bytes |
| RunCompositionProofs.WorkingWritersSuffice | client.go:257-264 | with writers that do not fail no interleaving leads to a deadlock |
| RunCompositionProofs.FailingWriterStrands | client.go:257-264 | a writer that fails on the first of several bytes leads to one |

## Left out

Weaker than the code in a named respect:

- KerberosMessageProofs.OpenIff: `mime.ParseMediaType` is an arbitrary function from text to a media type and parameters; the grammar of media types is not modelled.
- KerberosMessageProofs.SealedOpens: the GSS context is a pair of function values, for the moment of one call, and the receiver's is assumed to open what the sender's sealed; its keys and sequence numbers are not modelled. The parsed content type is assumed to name the boundary, since the media type parser is not part of this model.
- KerberosMessageProofs.SealedBodyInjective: lengths are below 2^63, as every Go length is.
- NtlmCodecProofs.DecryptEncryptedIff: plaintext lengths are below 2^63, as every Go length is; the security session is a function of how many messages it has unwrapped.
- NtlmCodec.DecryptResponse: a slice expression that leaves the length of its slice is out of range, although Go allows one that stays within the capacity; the indexing of parts and fields has no such allowance.
- Agreement.AcceptedBodiesAgree: the stream holds no delimiter and the metadata `Length=` only once, since the splitting parser cuts at every delimiter and at the first `Length=`; only the fixed boundary is compared, since the NTLM parser knows no other.
- KerberosSessionProofs.FewNegotiators: assumes that an exchange obtains at most one connection; the bound without that assumption is `EstablishWithinBudget`.
- KerberosSession.Session.Post: one call of the HTTP client counts as one request, whether or not it reached the network; a reported connection is never nil.
- KerberosConfig.Validate: the case folding of two arbitrary host names is a parameter; the URL of the endpoint that the original also returns is not computed.
- SlurpResponse.ParseSlurpOutputErrResponse: the XML layer supplies the Stream elements in document order, and the base64 decoder is any function from text to bytes, since its error is ignored.
- CommandWriter.StdinWriter.Write: EnvelopeSize must exceed 1000; at 1000 the loop does not end and below it the slice bound is negative. The bound is on raw bytes: the base64 text of a full chunk can exceed EnvelopeSize.
- CommandWriter.StdinWriter.WriteClose: it sets its flag without the mutex; a race with a concurrent write is not modelled.
- Command.RemoteCommand.Close: between turns of the loop it is one step, so two closers are not interleaved here; the interleaving of the two closers of a run is `ChannelsClosedOnce`.
- Command.RemoteCommand.SlurpAllOutput: a pipe write returns at once, as it does for a reader that drains the pipe; the wait for the reader is part of `CanReturnIff`.
- Command.RemoteCommand.FetchOutput: it is given a finite sequence of rounds, which stands for any prefix of an execution.
- RunCompositionProofs.RunKeeps: a run is a state machine on values instead of methods, since its goroutines interleave; what a goroutine does between two points where another can act is one step.
- RunCompositionProofs.CanReturnIff: that the server answers, that standard input ends and that a writer accepts what it is given are choices of the environment, so a run that can return need not.

Not modelled at all:

- Cryptography, SPNEGO and KDC exchanges, and the sequence numbers of the security contexts.
- HTTP, TLS, dialing, proxies, certificates, timeouts and the closing of idle connections.
- The building and parsing of XML, XPath, and the fault responses of Create and Execute beyond success and failure.
- The loading of credentials, the text of errors, and the deprecated wrappers of the client.
- The CredSSP branch of the NTLM codec, which its constructor makes unreachable, and the choice between an encrypted and a plain response by content type.
- The 32-bit machine word: `strconv.Atoi` and `int` are those of a 64-bit machine, except in `NewFramer`, which takes the largest integer as a parameter.
- Lengths of signatures and payloads beyond the memory of a machine.
