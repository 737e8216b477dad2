# Verification model of the Modbus slave and its metrics agent

A Dafny model of the parts of the repository in which something can go subtly wrong, with proofs of what
they guarantee. Check everything with `dafny verify dfyconfig.toml`.

* **The server's life cycle** (`Lifecycle`, `Guarantees`, `Server`). The accept loop, one goroutine per
  connection, `Shutdown` and the goroutine waiting on the WaitGroup are interleaved step by step in any
  order. `Lifecycle` is the state machine and its invariant, `Guarantees` holds what follows for all runs,
  and `Server` is the class with the source's own fields: each of its methods is one atomic step, and
  an object's whole history is proved to be a run of the machine, so that the theorems about runs are
  theorems about its fields (`Server.Server.FieldLimits`).
* **The Modbus/TCP stream engine** (`Frame`, `Handler`, `Stream`, `HandleConn`), with its two clients
  (`Poll`, and `Health` with `Config`). `Stream.Output` is the meaning of the request loop as a function
  from request bytes to response bytes; the loop in `HandleConn`, with its three reused buffers, refines
  it for every chunking, every failure and every moment at which the socket is closed under it. `Handler`
  is the 256-entry table against sections 6.3, 6.4 and 7 of the MODBUS Application Protocol Specification
  V1.1b3; framing follows section 3.1.3 of the MODBUS Messaging on TCP/IP Implementation Guide V1.0b.
* **The Redis client** (`Decimal`, `Resp`, `Redis`, `Session`). RESP2 printing and reading, byte for
  byte, and the reconnecting client that must never get out of step with its connection.
* **The metrics agent** (`Collectors`, `Sampler`). The range list compiled into a port index, and the
  delta sampler, with exact rates, over whole runs.

`Net` is the environment: a connection whose peer will ever send a given, arbitrary byte string, and of it
no more than what has been written to it gives reason for; whose reads return any non-empty part of what
there is, whose reads and writes may fail at any time, and which, if it is `shared`, another goroutine may
close before any read or write; and the buffered reader on top of it. A `steady` connection fails only
where the peer gives no byte or once it is closed, a `Reliable` one moreover has a peer that holds nothing
back; these appear only where success is promised.

## Where the code does less than one might think

Each of these is a theorem about the code as it is, with the run or input that shows it.

* The slot is returned before `wg.Done`, so the WaitGroup may exceed `MaxConns` by any number
  (`Guarantees.WaitGroupUnbounded`), although open sockets never exceed `MaxConns + 1`. It exceeds the
  semaphore by exactly the connections between returning their slot and `Done`, less those between taking
  it and `Add` (`Guarantees.WaitGroupAccount`).
* `Shutdown` may return nil and one connection accepted earlier be served afterwards
  (`Guarantees.GracefulMayLeaveOne`). It is at most one, and only one that `Serve` was carrying from
  `Accept` to the start of its goroutine when the WaitGroup reached zero (`Guarantees.ReturnedMeansGone`).
  After the return a connection can still be served if and only if there is such a connection and it is
  being handled or has not been refused (`Guarantees.ServedAfterReturnIff`).
* The comment on `Shutdown` says that remaining connections are closed by force when the context ends. A
  connection on its way to `track` is missed by `closeAll` and can then keep `Shutdown` waiting without
  bound (`Guarantees.StragglerBlocksForced`). Once closeAll is over it can be kept waiting for any length of
  time if and only if the WaitGroup has not yet let its waiter go and such a connection is open and not
  about to be refused (`Guarantees.WaitsForeverIffStraggler`); what all goroutines together have left to do
  is bounded if and only if there is no such connection (`Guarantees.BoundedIffNoStraggler`).
* `poll` and a server with R registers stay aligned over a scan of n registers if and only if n <= R,
  16-bit wrap-around of the start address included (`Poll.ScanFitsIff`); against the
  server itself all scans of a run finish then, and otherwise not one does (`Poll.PollServer`).
* The sampler's rates add up to last minus first if and only if the counter was never reset, provided the
  clock advances from one reading to the next (`Sampler.Telescopes`). Where it stands still bytes may be
  lost (`Sampler.StandingClockLoses`): without resets the rates add up if and only if no counter rose at
  such a tick (`Sampler.TelescopesOnAnyClock`).
* An array reply with an error reply among its elements makes `readReply` stop right after that element,
  with the rest of the array unread (`Resp.ReplyOfValue`). The client is not out of step for it, because
  every error closes the connection (`Session.Client.DoOrClose`).

## Model

| member | source | states |
|---|---|---|
| Lifecycle.InvInit | internal/server/server.go:32-40 | A new server satisfies the life-cycle invariant, for any limit |
| Lifecycle.StepShape | internal/server/server.go:70-138 | Every step moves at most one connection, and changes semaphore, WaitGroup and map by exactly what that connection's move accounts for; a slot is never taken beyond the limit |
| Lifecycle.CountersKept | internal/server/server.go:79-94 | Every step keeps: semaphore = connections between taking and returning a slot <= limit, WaitGroup = connections between Add and Done, map = connections between track and untrack |
| Lifecycle.OwnershipKept | internal/server/server.go:70-96 | Every step keeps: Serve carries at most one connection, the newest; a socket is open only if Serve or a running handler has it |
| Lifecycle.ClosingKept | internal/server/server.go:100-118 | Every step keeps the agreement of the closing flag, the listener, the waiter and Shutdown's progress |
| Lifecycle.WaitsKept | internal/server/server.go:105-109 | Every step keeps: once the WaitGroup has let its waiter go, every connection is over except the one Serve was carrying at that moment |
| Lifecycle.SweptKept | internal/server/server.go:132-138 | Every step keeps: during and after closeAll an open socket is one still to be closed by it or the one that was on its way to track |
| Lifecycle.InvKept | internal/server/server.go:70-138 | All five parts of the invariant together survive every step of every goroutine |
| Lifecycle.InvAlways | internal/server/server.go:70-138 | The invariant holds after every run, in every interleaving |
| Lifecycle.TurnIsSteps | internal/server/conn.go:34-86 | Whatever a turn of the request loop, as proved of the loop itself, makes of the bytes buffered, on an open socket or a closed one, the machine's steps make too |
| Lifecycle.CutTurnIsSteps | internal/server/server.go:132-138 | So they do for a turn during which closeAll closes the socket: receive, close, frame, with the same bytes left |
| Guarantees.ConnectionLimits | internal/server/server.go:70-96 | After every run from the start the three counters mean what they should, at most MaxConns sockets are open behind a slot, and at most MaxConns + 1 at all; the map is never larger than the semaphore, nor than the WaitGroup by more than one |
| Guarantees.WaitGroupUnbounded | internal/server/server.go:90-92 | For every n a run exists after which the WaitGroup counts n: slots are returned before Done |
| Guarantees.WaitGroupAccount | internal/server/server.go:79-92 | After every run the WaitGroup is the semaphore plus the connections between returning the slot and Done, less those between taking it and Add; so it is exactly known when it is within MaxConns |
| Guarantees.ServeGoesOn | internal/server/server.go:70-96 | After every run Serve is in its loop if and only if no Accept has failed: refusing a connection does not end it |
| Guarantees.RefusedThenNext | internal/server/server.go:79-86 | From every state with a refused connection and an open listener the refused one is closed, no counter changes, and the next connection is accepted |
| Guarantees.AcceptTurn | internal/server/server.go:70-96 | One undisturbed turn of the loop, from every state: with a free slot the new connection ends up handled, in the map, with a slot and counted, without one it is closed and nothing else changes; either way Serve accepts again |
| Guarantees.ServeErrorIsSpurious | internal/server/server.go:71-78 | Serve returns an error only if Accept failed while the listener was still open; after Shutdown closed it, nil |
| Guarantees.ReturnedMeansGone | internal/server/server.go:100-118 | Once Shutdown has returned every connection is closed, untracked and done, except possibly the one carried from Accept to its goroutine when the WaitGroup reached zero; if there was none, the server is empty; and a connection can still be served if and only if that one is live |
| Guarantees.ServedAfterReturnIff | internal/server/server.go:72-94 | After Shutdown has returned some run leads to a connection being handled if and only if the one it overlooked is accepted, slotted, tracked, counted or handled by then |
| Guarantees.GracefulMayLeaveOne | internal/server/server.go:72-94 | A run on which Shutdown returns nil and a connection accepted before is then handled |
| Guarantees.CloseAllSpares | internal/server/server.go:113-117 | After closeAll the only socket that can be open is the one that was on its way to track |
| Guarantees.MeasureDrops | internal/server/server.go:87-93 | After closeAll every step of every goroutine, other than reading off a socket closeAll missed, lowers the measure, in which a handler weighs by the whole frames the bytes it holds can still make |
| Guarantees.FramesAfterClose | internal/server/conn.go:34-86 | Once its socket is closed a handler finishes no more frames than the bytes it has received and not used allow, and never more than 128 |
| Guarantees.QuietRunsEnd | internal/server/server.go:113-117 | Without a straggler no run after closeAll is longer than the measure |
| Guarantees.ForcedNeverStuck | internal/server/server.go:113-117 | From the context's end until Shutdown returns, some step can always be taken: there is no deadlock |
| Guarantees.ForcedShutdownCompletes | internal/server/server.go:113-117 | Forced shutdown terminates if closeAll found nothing on its way to track: every run is bounded by a number linear in the connections, and one that cannot go on has Shutdown returned |
| Guarantees.WaitsForeverIffStraggler | internal/server/server.go:113-117 | After closeAll there are runs of every length at whose end Shutdown still waits for the WaitGroup if and only if the WaitGroup has not been down to zero and a socket is open that is not about to be refused |
| Guarantees.BoundedIffNoStraggler | internal/server/server.go:132-138 | What all goroutines together can still do after closeAll is bounded if and only if every socket left open is about to be refused |
| Guarantees.StragglerBlocksForced | internal/server/server.go:79-94 | For every MaxConns from 1 a run after which Shutdown waits for a connection closeAll missed, which can go on receiving frames and having them served for any number of steps |
| Server.Server.constructor | internal/server/server.go:32-40 | A new server is the machine's initial state, with an empty history |
| Server.Server.AcceptOne | internal/server/server.go:72-73 | ln.Accept: the next connection or a failure, and certainly a failure once the listener is closed; the history stays a run |
| Server.Server.LeaveAcceptLoop | internal/server/server.go:73-78 | Returns an error exactly if the closing flag is not set, and then only if Accept failed on an open listener |
| Server.Server.TrySlot | internal/server/server.go:79-81 | Takes a slot exactly if fewer than MaxConns are taken |
| Server.Server.CloseRefused | internal/server/server.go:82-86 | The refused connection is closed, Serve goes back to accepting, and semaphore, WaitGroup and map stay as they are |
| Server.Server.TrackConn | internal/server/server.go:120-124 | With the mutex free, enters a connection that was not in the map |
| Server.Server.StartHandler | internal/server/server.go:89-94 | The goroutine starts and Serve goes back to accepting; like every other step of a goroutine, that is one step of the machine, and the history stays a run |
| Server.Server.ServeOnce | internal/server/server.go:70-96 | The body of the accept loop, undisturbed: it goes on unless Accept fails, and then returns nil if and only if the closing flag is set; a slot, a count and a map entry more if a slot was free, and otherwise none |
| Server.Server.EndHandler | internal/server/server.go:90-93 | The deferred calls in their order, undisturbed: map entry, slot and count are given back, the socket is closed |
| Server.Server.TurnTaken | internal/server/conn.go:34-86 | Every turn the request loop can take, as proved of ServeFrame, keeps the history a run |
| Server.Server.TurnCutShort | internal/server/server.go:132-138 | So does a turn during which closeAll closes the socket |
| Server.Server.UntrackConn | internal/server/server.go:126-130 | The first deferred call, with the mutex free: the connection was in the map and leaves it |
| Server.Server.GiveSlotBack | internal/server/server.go:91 | The second deferred call: there is always a slot to give back, so it never waits |
| Server.Server.FinishInGroup | internal/server/server.go:90 | The third deferred call: the counter is positive before, so it never goes below zero; reaching zero releases the waiter |
| Server.Server.SetClosingFlag | internal/server/server.go:101 | The flag was not set before, and the history stays a run |
| Server.Server.CloseTheListener | internal/server/server.go:102-104 | The listener was open and is closed |
| Server.Server.CloseTracked | internal/server/server.go:134-136 | What is still to be closed is in the map, whatever other goroutines did meanwhile; closes that socket and no other |
| Server.Server.CloseAll | internal/server/server.go:132-138 | Undisturbed, closes the socket of every connection in the map, in any order, and changes nothing else |
| Server.Server.BeginWait | internal/server/server.go:107 | wg.Wait passes at once exactly if the counter is zero |
| Server.Server.FieldLimits | internal/server/server.go:22-29 | Of the fields of any object, whatever its goroutines did: the map is no larger than the semaphore, which is within MaxConns, nor than the WaitGroup plus one; a closed listener means the flag is set; after Shutdown has returned with no connection on its way all three are empty |
| Frame.DecodeEncode | internal/modbus/frame.go:25-40 | Decoding an encoded header gives the header back, whatever follows |
| Frame.EncodeDecode | internal/modbus/frame.go:25-40 | Encoding a decoded header gives the seven bytes back |
| Frame.Encode | internal/modbus/frame.go:35-40 | Overwrites the first seven bytes with the header and nothing else |
| Frame.NextInOctets | internal/modbus/frame.go:24-49 | Exactly when a byte string starts with a frame, octet by octet: bytes 2 and 3 zero, a length from 2 to 254, and that many bytes; and which frame it is |
| Frame.NextOfFrame | internal/modbus/frame.go:42-49 | A whole frame in front of anything is the next frame, and exactly it is taken off |
| Frame.FrameOfNext | internal/modbus/frame.go:42-49 | What is taken off as a frame is a valid frame and is byte for byte what was there |
| Frame.ParseSerialize | internal/modbus/frame.go:24-49 | Cutting serialised frames up again gives the frames, whatever follows |
| Frame.SerializeParse | internal/modbus/frame.go:24-49 | Every byte string is whole valid frames followed by something that does not start with one |
| Handler.Handler.constructor | internal/modbus/handler.go:21-33 | The table says of each of the 256 codes whether it is among the configured and implemented ones |
| Handler.Handler.Handle | internal/modbus/handler.go:40-45 | For any request and any prior contents of the buffer: the reply of the declarative rule, in its place, and not a byte outside it; none exactly for an empty PDU |
| Handler.Handler.ReadInto | internal/modbus/handler.go:48-66 | Length, quantity and address checks in the order of the state diagram, then zeros over whatever the buffer held |
| Handler.Handler.ExceptionInto | internal/modbus/handler.go:72-76 | Two bytes, function code with its top bit set and the exception code, and no other |
| Handler.ReplyConforms | internal/modbus/handler.go:21-70 | A reply meets sections 6.3, 6.4 and 7 for a list of codes if and only if it is the server's; order and repetition of the codes do not matter |
| Handler.ReplyInNumbers | internal/modbus/handler.go:40-76 | The reply to every request in plain numbers: codes 1, 3 and 2 under their conditions, the function code with its top bit set; otherwise the byte count and zeros |
| Handler.TopBitTells | internal/modbus/handler.go:72-76 | To a function code below 128 the top bit of a reply is set if and only if it is one of the three exceptions |
| Handler.ExceptionPrecedence | internal/modbus/handler.go:48-70 | Exactly when each of the exceptions 01, 03 and 02 is given, in this precedence |
| Stream.Response | internal/server/conn.go:66-77 | The response is a frame within the limits, with transaction and unit id echoed |
| Stream.OneToOne | internal/server/conn.go:60-77 | Responses correspond one to one and in order to the frames for this unit |
| Stream.UnansweredIff | internal/config/config.go:47-49 | A frame gets no answer if and only if it is for another unit and not every unit is accepted |
| Stream.AnswerInOctets | internal/server/conn.go:66-82 | The answer octet by octet: transaction and unit of the request, protocol 0, the length of the reply and one, the reply |
| Stream.OutputOfFrames | internal/server/conn.go:34-86 | output(a + b) = output(a) + output(b) if a is whole valid frames |
| Stream.OutputIsResponses | internal/server/conn.go:34-86 | The output is the responses to the frames of the input, serialised, and nothing else |
| Stream.OutputReparses | internal/server/conn.go:66-82 | What the server writes is again a stream of whole valid frames; cutting it up gives the list of responses and leaves nothing |
| Stream.OutputStopsAtBadHeader | internal/server/conn.go:45-51 | Nothing from the first invalid header on has any effect |
| Stream.OutputGrows | internal/server/conn.go:34-86 | More input only ever appends to the output |
| HandleConn.ReceiveHeader | internal/server/conn.go:38-51 | For any chunking, failure and closing: the next header of the stream, valid, or an end at which all that is due has been written |
| HandleConn.ReceivePdu | internal/server/conn.go:53-57 | The same for the PDU: the next frame of the stream exactly, or the end |
| HandleConn.AnswerFrame | internal/server/conn.go:59-85 | Writes the answer to the frame, or a prefix of it if the write fails; nothing for another unit |
| HandleConn.ServeFrame | internal/server/conn.go:34-86 | One turn of the loop keeps: everything received has been answered; on a socket that was closed before, the buffer shrinks by a whole frame, at least eight bytes |
| HandleConn.EndingAfterTakeBytes | internal/modbus/frame.go:12-13 | Frames that end beyond a point of the stream take eight bytes each, but for the start of the first |
| HandleConn.FewEndAfter | internal/server/conn.go:14 | Of the frames in the bytes received, no more than 128 end beyond any point from which at most a full buffer of 1024 bytes was received |
| HandleConn.HandleConn | internal/server/conn.go:18-87 | The frames dealt with are the first that were received; what has been written is their responses, and part of one more answer if a write failed; otherwise all frames received, and the output for all bytes received; the output for the peer's whole stream if nothing failed and nobody closed the socket, or the stream was cut off at a bad header. If somebody closed it, be it between two reads within one frame, at most 1024 bytes beyond where the reader was have been received and at most 128 frames that end there been dealt with. The socket is closed in the end |
| HandleConn.ServeAll | internal/server/conn.go:18-87 | Over a connection on which nothing fails, the bytes written are the output for the whole input |
| Net.BufReader.ReadFull | internal/redisc/redisc.go:179-189 | For any chunking: exactly the next bytes of the stream in the asked-for part of the buffer and nothing elsewhere, or failure |
| Poll.CutUp | scripts/poll.go:31-39 | The chunks are the multiples of 125 below the register count, n/125 rounded up of them |
| Poll.ChunksTile | scripts/poll.go:31-39 | Every register is in exactly one chunk, no other number is in any, and each chunk is of a size the protocol allows |
| Poll.NewRequest | scripts/poll.go:60-63 | The request buffer before the first chunk |
| Poll.Patch | scripts/poll.go:77-78 | Patching two fields in place turns the buffer into the chunk's request, whatever it asked for before |
| Poll.AskFor | scripts/poll.go:76-87 | One request and its reply: over a steady connection it succeeds if and only if the peer, having been sent the request, gives all the bytes due |
| Poll.Scan | scripts/poll.go:75-89 | A scan that succeeds has written the requests of all chunks and consumed exactly the bytes due for them; over a steady connection it succeeds if and only if the peer gives the reply to each chunk before the next is asked for |
| Poll.RunScans | scripts/poll.go:71-96 | The same over any number of scans on one connection, given up at the first error |
| Poll.ChunkAnswered | scripts/poll.go:76-89 | The server's answer to a chunk has the length the client reads if and only if it has all the chunk's registers, and then it is the normal reply |
| Poll.StaysInStep | scripts/poll.go:71-96 | Over any number of requests the server writes exactly as many bytes as the client reads |
| Poll.WindowIsReply | scripts/poll.go:84 | The bytes the client reads for a request are the normal reply to that request, whatever came before and comes later |
| Poll.ScanFitsIff | scripts/poll.go:31-89 | All chunks of a scan are answered in the lengths the client reads if and only if the server has as many registers as are polled, for every register count, wrap-around included |
| Poll.ScansAnswered | scripts/poll.go:71-96 | Client and server aligned over any number of scans |
| Poll.FallsBehind | scripts/poll.go:76-89 | The server never writes more than the client reads, and strictly less once one answer is too short |
| Poll.ServerInTime | scripts/poll.go:71-96 | A server with the registers polled has answered every chunk of every scan when the client waits for it |
| Poll.FirstScanFails | scripts/poll.go:75-89 | A server without them never gives the bytes that the first scan waits for |
| Poll.PollServer | scripts/poll.go:31-96 | Client and server together, the server answering what it has been sent, over a connection that does not fail: all scans finish if the server has the registers polled, and none if it has not |
| Config.ParseFunctionCodes | internal/config/config.go:183-209 | Succeeds exactly if all codes named are implemented and there is one; then the codes named, each once, in the order in which they are first named; an error is that of the first part that cannot be used |
| Config.Parse | internal/config/config.go:136-179 | Exactly which settings are refused, that an accepted configuration holds the settings given, and what it guarantees downstream |
| Config.ConfiguredServerAnswers | internal/server/server.go:32-40 | A server built from a validated configuration answers a read of a configured code within its registers with zeros, and one beyond them with exception 02, octet by octet |
| Health.FirstReadFC | internal/health/health.go:102-109 | The first read code of the list, none exactly if there is none |
| Health.FirstRead | internal/health/health.go:102-109 | The result is a read code of the list with none before it; without a result the list has none |
| Health.BuildRequest | internal/health/health.go:64-68 | The request bytes: one register from address 0 |
| Health.JudgeReply | internal/health/health.go:73-88 | Which verdict is given for which bytes of the peer, over a reliable connection: no header, a bad one, no body, another first byte, or healthy; and never healthy otherwise |
| Health.Run | internal/health/health.go:22-89 | When there is no port and when no connection; a given port comes before the state file; the request written, octet by octet, for the first read code; and the verdict exactly as the peer's first frame deserves |
| Health.HealthyIff | internal/health/health.go:64-88 | A server's reply is healthy if and only if it answers for the unit asked and the code asked for is active |
| Health.ValidatedServerIsHealthy | internal/health/health.go:22-89 | Every configuration that passes validation describes a server its own check finds healthy, whether the check's process is given the same unit and codes or restores them from the state file |
| Decimal.ValueOfDigits | internal/redisc/redisc.go:130-132 | Printed digits denote the number printed |
| Decimal.AtoiItoa | internal/redisc/redisc.go:152 | Reading a printed number gives it back if and only if it fits 64 bits |
| Decimal.ItoaInOctets | internal/redisc/redisc.go:130-132 | What is printed, digit by digit in octets, and the sign in front of it |
| Decimal.AtoiOtherwise | internal/redisc/redisc.go:152 | A plus sign or a leading zero changes nothing; what is not all digits after its sign is no number |
| Decimal.ItoaInjective | internal/redisc/redisc.go:130-132 | Different numbers print differently |
| Redis.Encode | internal/redisc/redisc.go:129-134 | Appends the RESP array of bulk strings for the arguments and changes nothing before it |
| Redis.EncodedIsOneReply | internal/redisc/redisc.go:129-189 | An encoded command, CR and LF in its arguments or not, is read as one reply to the byte, whatever follows |
| Redis.EncodePrefixFree | internal/redisc/redisc.go:129-134 | If one command's encoding is a prefix of another's the commands are equal |
| Resp.PrintInOctets | internal/redisc/redisc.go:129-134 | The wire format of every kind of value in octets |
| Redis.ReadReply | internal/redisc/redisc.go:137-177 | For any bytes, well formed or not, any chunking and any failure: result and bytes consumed are those of the reply function, or the network failed; it terminates, and a success consumes at least one byte |
| Redis.ReadRest | internal/redisc/redisc.go:143-176 | The same for the switch on a line already read |
| Redis.ReadBulk | internal/redisc/redisc.go:159-163 | The body and the two bytes after it, neither more nor less |
| Redis.ReadItems | internal/redisc/redisc.go:164-174 | The same for the elements of an array, up to the first that fails |
| Resp.Reply | internal/redisc/redisc.go:137-177 | A reply read leaves strictly fewer bytes than there were |
| Resp.TrimLine | internal/redisc/redisc.go:142 | Trimming a line's end gives back the text in front of it |
| Resp.ReplyOfLine | internal/redisc/redisc.go:138-146 | The bytes up to the first LF decide the reply |
| Resp.DecidedByFirstLine | internal/redisc/redisc.go:142-176 | For any bytes with a line end: what each first octet does, with blank lines and every other first octet malformed, lengths that are no number malformed and negative ones nil |
| Resp.NoLineNoReply | internal/redisc/redisc.go:138-141 | Without a line end there is no reply |
| Resp.TrimmedOfEndings | internal/redisc/redisc.go:142 | All line endings at the end of a line are removed, and nothing else |
| Session.ElementsAreReplies | internal/redisc/redisc.go:164-174 | For any bytes: the elements of an array are as many replies in a row, and the first that fails is the outcome of the array |
| Resp.ReplyOfValue | internal/redisc/redisc.go:137-177 | Every well-formed value, nested at will, nil bulks and null arrays included, is consumed exactly; one that holds an error reply, exactly up to the first |
| Resp.ElementsOfValues | internal/redisc/redisc.go:164-174 | The same for any list of values |
| Resp.PrintPrefixFree | internal/redisc/redisc.go:129-134 | No printed value is a proper prefix of another, and different values print differently |
| Resp.PrintAllPrefixFree | internal/redisc/redisc.go:129-134 | The same for lists of values of one length |
| Session.Client.constructor | internal/redisc/redisc.go:27-29 | A new client is disconnected |
| Session.Client.Close | internal/redisc/redisc.go:32-38 | The connection is closed, and connection and reader are both gone |
| Session.Client.Send | internal/redisc/redisc.go:119-124 | The command's encoding is written after what was written before; nothing is read |
| Session.Client.Do | internal/redisc/redisc.go:119-126 | One command written; on success one reply consumed exactly and the client in step; over a reliable connection it succeeds if the next reply is not an error |
| Session.Client.DoOrClose | internal/redisc/redisc.go:112-115 | A command that fails in any way leaves the client disconnected, one that succeeds leaves it in step |
| Session.Client.LogIn | internal/redisc/redisc.go:53-79 | On success exactly AUTH first, then SELECT, where configured, and PING last have been sent, in octets, and answered, otherwise the client is disconnected; over a reliable connection it succeeds if and only if the peer grants them all |
| Session.HandshakeLogsIn | internal/redisc/redisc.go:53-79 | What the handshake consists of, and in which order, in octets |
| Session.GrantedIff | internal/redisc/redisc.go:53-79 | A server that answers an error to everything before AUTH with its password grants the whole handshake if and only if the client has that password |
| Session.LogInTo | internal/redisc/redisc.go:41-81 | Against such a server, over a connection that does not fail, the client logs in if and only if it has the password |
| Session.Client.Attach | internal/redisc/redisc.go:49-50 | A new connection comes with a new reader: no buffered byte crosses connections |
| Session.Client.Open | internal/redisc/redisc.go:45-51 | Dialling gives a new connection with a new reader, or nothing |
| Session.Client.Connect | internal/redisc/redisc.go:41-81 | An existing connection is left as it is; a new one is ready for service or gone again |
| Session.Client.Set | internal/redisc/redisc.go:107-117 | A success has sent SET, key, value, EX and the time, in this order, after what was sent before or after a complete handshake; under any failure the client ends either disconnected or in step with as many replies read as commands written, after the handshake; past connections keep their discipline |
| Session.AfterRepliesOfValues | internal/redisc/redisc.go:119-177 | Reading as many replies as the peer sent values leaves exactly what follows them |
| Session.AfterSomeReplies | internal/redisc/redisc.go:137-177 | After n replies have been read off any number of values, exactly the values from the n-th on are left |
| Session.ExactlyAnswered | internal/redisc/redisc.go:107-126 | If the peer answers each command with one error-free value, then between any two calls exactly the replies to the commands written have been read, whatever the peer sends later, and the next reply read is the value for the next command |
| Session.SetsFollowHandshake | internal/redisc/redisc.go:41-81 | A SET was written to a connection only after its whole handshake was written and answered |
| Collectors.Cut | cmd/metrics-agent/collectors.go:96 | The index of the first dash |
| Collectors.ParsePortRange | cmd/metrics-agent/collectors.go:95-109 | A range it accepts is not empty and lies within 1 to 65535 |
| Collectors.PortRangeOfParts | cmd/metrics-agent/collectors.go:95-109 | For every string: with a first dash both parts must be numbers with 1 <= start <= end <= 65535, without one it is a single port |
| Collectors.PortRead | cmd/metrics-agent/collectors.go:95-109 | A single port, written out in decimal, is read back if and only if it is from 1 to 65535, for every integer |
| Collectors.PortRangeRead | cmd/metrics-agent/collectors.go:95-109 | `a-b`, written out in decimal for any integers, is read back if and only if 1 <= a <= b <= 65535 |
| Collectors.LineAdded | cmd/metrics-agent/collectors.go:56-84 | One more line with none of its ports taken: the lines stay acceptable and disjoint, and the enlarged index is exactly what they say, and as large |
| Collectors.AddRange | cmd/metrics-agent/collectors.go:77-83 | Adds exactly the ports of the range, or names the first that is taken |
| Collectors.ParseCollectors | cmd/metrics-agent/collectors.go:52-92 | Succeeds if and only if every line that counts is well formed and no port is given twice; then the index is exactly what the lines say and its size the sum of the ranges; a failure names the first line that spoils it, and why: too few fields, an unreadable range, or the first of its ports that an earlier line has |
| Collectors.IndexIsScan | cmd/metrics-agent/collectors.go:23-33 | Looking a port up is reading the lines for it |
| Collectors.LookupIsScan | cmd/metrics-agent/collectors.go:23-33 | For every port string: the lookup is reading the lines for its number, and nothing if it is none |
| Collectors.LineGivesPort | cmd/metrics-agent/collectors.go:62-83 | A line `collector a-b server ip` in an accepted file makes the lookup of every port from a to b give exactly that collector, server and address, empty where the line has no such field |
| Collectors.CommentChangesNothing | cmd/metrics-agent/collectors.go:58-61 | A blank line or one that starts with # changes neither acceptance nor any lookup, whatever follows and wherever it stands |
| Collectors.ScanIsTheCover | cmd/metrics-agent/collectors.go:77-83 | With disjoint ranges the scan gives the one line that holds the port |
| Collectors.OrderIrrelevant | cmd/metrics-agent/collectors.go:52-92 | Acceptance and every lookup are the same for any order of the lines |
| Collectors.DisjointPermuted | cmd/metrics-agent/collectors.go:77-83 | Reordering lines, repeated ones included, keeps their ranges disjoint |
| Collectors.FieldNameOfDashed | cmd/metrics-agent/main.go:241-248 | What follows a container name's last dash is its label if and only if it is a number; otherwise the whole name is |
| Collectors.FieldName | cmd/metrics-agent/main.go:241-248 | A name without a dash is kept |
| Collectors.LabelOfContainer | cmd/metrics-agent/main.go:241-248 | A container named prefix-port is labelled with the collector the lines give that port |
| Sampler.Sampler.Prime | cmd/metrics-agent/main.go:167-174 | A failed collection changes nothing, a successful one becomes the baseline |
| Sampler.Sampler.Measure | cmd/metrics-agent/main.go:199-228 | One sample per container of the reading, from the previous reading and the time since; the reading becomes the baseline; a failed collection changes nothing |
| Sampler.SampleInNumbers | cmd/metrics-agent/main.go:208-224 | A sample field by field: each of the three rates, times the seconds and its units, is the rise of its own counter or zero after a reset; memory and total are the reading's own |
| Sampler.TotalOf | cmd/metrics-agent/main.go:250-256 | The sum of the rates, for every order in which the map is ranged over |
| Sampler.SumWithout | cmd/metrics-agent/main.go:250-256 | The sum does not depend on which container is taken first |
| Sampler.Conservation | cmd/metrics-agent/main.go:199-228 | Over any run, for each of the three counters, rate times elapsed time adds up to the counter's rises, with failed ticks, resets, restarts and any clock |
| Sampler.Account | cmd/metrics-agent/main.go:208-223 | A counter's whole movement over a run is what was counted, plus what a standing clock lost, less the resets |
| Sampler.Telescopes | cmd/metrics-agent/main.go:199-228 | With an advancing clock the rates add up to last minus first if and only if the counter was never reset |
| Sampler.TelescopesOnAnyClock | cmd/metrics-agent/main.go:208-223 | With any clock and no reset they do if and only if the counter never rose at a tick whose clock stood still |
| Sampler.StandingClockLoses | cmd/metrics-agent/main.go:212 | A tick at which the clock has not advanced loses the bytes since the tick before |
| Sampler.RatesNotNegative | cmd/metrics-agent/main.go:209-223 | No rate is ever negative |
| Sampler.TotalConservation | cmd/metrics-agent/main.go:199-256 | The totals, too, add up to the rises counted, over all containers that ever appeared |

## Left out

- Sockets, TCP options, deadlines and clocks: a timeout is a read or write that fails, the context's end a step that can happen at any moment, the time of a tick a given number.
- Lifecycle.InvAlways: of a handler the machine's state keeps how many bytes it holds, not which; what it writes is proved in `HandleConn.HandleConn`. A turn of its loop enters as the predicate `HandleConn.Turn`, which `HandleConn.ServeFrame` ensures and `Lifecycle.TurnIsSteps` matches with the machine's steps.
- Server.Server.CloseAll: says what closeAll does if no other goroutine acts meanwhile; for every interleaving that is `Lifecycle.SweptKept` and `Guarantees.CloseAllSpares`. Where the goroutines are and which sockets are open is ghost state of the class; the source keeps it in its stacks and in the kernel.
- `Shutdown` called more than once, before `Listen`, or on a server that `Serve` has not been called for; `Listen`, `Addr` and `Port`.
- Go run-time panics: the WaitGroup's check for reuse while a waiter wakes up (the waiter simply goes on), and allocating a bulk body that does not fit memory.
- Net.BufReader.ReadFull: models what callers of bufio see, not how bufio slides its buffer; the reader here reads from the socket only when its buffer is empty.
- Health.Run: the source refills the configuration's own slice of function codes in place; here the restored codes are a new value, so the aliasing is not captured.
- Integer widths: lengths and counts are natural numbers, with 16-bit fields, 8-bit fields and the 64-bit range of Atoi written out; byte counters do not overflow, and `start + quantity` does not in Go's int either.
- Sampler.Sampler.Measure: rates and times are exact reals, not floating-point numbers.
- Collectors.ParseCollectors: starts from each line's list of fields, so strings.Fields and strings.TrimSpace are not modelled, nor are the scanner's own read error and its limit on a line's length.
- Config.ParseFunctionCodes: starts from the comma-separated parts, each blank, unreadable or a code, so Go's general number syntax is not modelled.
- Config.Parse: starts from the values of the flags, so flag and environment parsing and the order of the errors are not modelled; nor are usage text, logging and signals.
- The text of error messages, `IsAuthError`, `dialHost`, `FunctionName`, `ImplementedList`, `FunctionCodeList`.
- The Docker API, JSON in the state file, Prometheus text and the formatting of the Redis value: readings and restored state are given.
- The fan-out of `poll` over targets and clients, its latency percentiles and counters other than requests; scripts, compose files and the dashboard.
