# rafka Redis front end: the per-connection command loop

rafka exposes Kafka consumers through a small Redis-protocol server. Each
accepted connection is served by `RedisServer.handleConnection`. It reads one
command at a time, upper-cases the verb, and answers with one reply per
command. The replies go into a buffered writer. The writer is flushed when the
parser reports the command as the last one of the current pipelined batch. The
handler answers four kinds of verb:

- `PING` is answered with the bulk string `PONG`.
- `GET` waits for whichever comes first (chosen at random if both are ready):
  the server's shutdown (answered with the error `SHUTDOWN`) or a message from
  the consumer (answered with the message as a bulk string).
- `DEL` is answered with the bulk string `OK`.
- Any other verb is answered with the error `Command not support`.

A recoverable protocol error is answered with an error carrying its text, and
the loop goes on. Any other read error ends the loop at once. So does a failed
write.

The model has three modules:

- `Commands` (commands.dfy) holds the verb switch as pure functions.
  `Upper` upper-cases the verb rune by rune. It agrees with `strings.ToUpper`
  wherever the result is compared with an ASCII command name, but it is not a
  full Unicode upper-casing. `MatchesVerb` is an independent,
  letter-by-letter statement of case-insensitive matching. `Dispatch` gives
  the reply for a command, given what the GET select yields.
- `Session` (session.dfy) holds the loop as a state machine over the inputs
  a connection sees. Each `Input` is one read result: a command with its
  `isLast` flag, a protocol error, or a read failure. It comes with the answers
  the loop cannot compute itself: the outcome of the GET select, whether the
  write succeeds, whether a flush succeeds and, if it fails, how many whole
  pending replies it sent before the error. The `State` holds the flushed
  replies, the pending (buffered) replies, whether the buffered writer holds an
  error, whether the loop has stopped, and how many inputs it has read. `Step`
  is one iteration and `Serve` runs it over a sequence of inputs. The lemmas
  state what the loop promises for every input sequence.
- `Handler` (handler.dfy) holds the class `Connection`. Its fields are the
  writer's buffers and the loop's `stopped` flag. `HandleConnection` is the
  imperative loop, and its final state is proved equal to `Serve(inputs)`.

The buffered writer follows Go's `bufio.Writer`. Once a write or a flush has
failed, the writer keeps that error and refuses every later write and flush.
A flush that fails keeps on the socket what it had already sent. The handler
ignores the error of its own `Flush` call. After a failed flush the loop
therefore keeps running, and it ends at the next write, which fails
(`FailedFlushEndsAtNextWrite`).

Two consequences of the code are easy to miss, and the model keeps both:

- The PING reply is the bulk string `PONG`, not a simple string.
- A GET answered with the error `SHUTDOWN` does not end the session. The loop
  goes on with the next command.

## Model

| member | source | states |
|---|---|---|
| Commands.Upper | handler.go:51 | The upper-cased verb has the verb's length, and each rune is upper-cased on its own: ASCII letters and the two runes Go maps onto ASCII letters (dotless i, long s) become upper case. This agrees with `strings.ToUpper` wherever the result is compared with an ASCII command name; it is not full Unicode upper-casing. |
| Commands.UpperMatchesVerb | handler.go:51-52 | The upper-cased verb equals a command name exactly when each of the verb's characters is that letter in upper or lower case, or a non-ASCII rune that Go upper-cases onto it (dotless i, long s). |
| Commands.Dispatch | handler.go:51-68 | Any spelling of PING gets bulk "PONG", whatever the other arguments. Any spelling of GET gets error "SHUTDOWN" when the select picks shutdown, and otherwise the delivered message as a bulk string. Any spelling of DEL gets bulk "OK" whatever the wait yields. The reply is error "Command not support" exactly when the verb is none of the three; in particular, a command with no arguments gets that reply. |
| Commands.DispatchIgnoresCase | handler.go:51-53 | A command whose verb is a case variant of a command name, with any further arguments, gets the same reply as that name alone. |
| Session.Write | handler.go:54-67 | Writing a reply fails exactly when the write fails or the writer already holds an error. A failure leaves the error in the writer and accepts nothing. Otherwise the reply is appended after everything already accepted. |
| Session.Flush | handler.go:70-72 | A flush never changes what has been accepted, and never takes back a flushed reply. On a writer that already holds an error, or that has nothing buffered, it changes nothing. If it succeeds on a healthy writer, every accepted reply is on the socket and nothing is pending. If it fails, the writer keeps the error, and the pending replies it sent before the error (as many as the environment says, at most all of them) stay on the socket. |
| Session.ReplyTo | handler.go:42-68 | A protocol error is answered with an error carrying its own text. A command gets a bulk string exactly when its verb is PING or DEL, or GET whose select yields a message. Every other command gets an error. |
| Session.Step | handler.go:41-76 | One iteration reads exactly one input. It never retracts a flushed or accepted reply and adds at most one reply. Once the loop has stopped, it changes nothing. |
| Session.ServeConsistent | handler.go:39-77 | After any input sequence, the state satisfies the loop invariant. The loop stopped only on a read failure or a failed writer. The accepted replies are those of the answered inputs, in order. The writer holds an error exactly when a write or flush failed. With a healthy writer, exactly the replies up to the last batch end have been flushed. |
| Session.Serve | handler.go:39-77 | Running the loop over a sequence of inputs reads at most those inputs. A loop that has not stopped has read every one of them. |
| Session.OneReplyPerInputInOrder | handler.go:39-77 | Every input before the last one read is answered. The writer holds exactly one reply per answered input. The reply at position j is the reply to the j-th input, and none of the answered inputs is a read failure. |
| Session.StopsOnlyOnFailure | handler.go:42-76 | The loop stops only right after a read failure, or once some write or flush has failed. If it has not stopped, it has read every input. The writer holds an error exactly when a write or flush failed among the inputs read. |
| Session.ServesAllWithoutFailure | handler.go:39-77 | Suppose no read failure occurs and no write or flush fails. Then the loop reads every input and never stops, and the writer accepts the replies to all of them in order. Unsupported verbs, SHUTDOWN answers and protocol errors do not end the session. |
| Session.FlushOnlyAtBatchEnd | handler.go:70-72 | With a healthy writer, the flushed replies are exactly those of the inputs up to the last one that ended a batch. The replies after it are still pending. |
| Session.StopIsFinal | handler.go:73-76 | Once the loop has stopped, no later input is read and no further reply is written or flushed. |
| Session.ReadFailureEndsAtOnce | handler.go:42-49 | A non-protocol read error ends the loop with no reply and no flush, leaving the buffers unchanged. |
| Session.WriteFailureEndsLoop | handler.go:70-76 | A failed write ends the loop. That input gets no reply, nothing more is flushed, and no later input changes the state. |
| Session.AnswerContinues | handler.go:42-76 | From a healthy running state, an input whose write (and flush, if any) succeeds appends exactly its reply, and the loop keeps running. |
| Session.FailedFlushEndsAtNextWrite | handler.go:70-76 | A failed flush does not stop the loop. The reply stays accepted. What was flushed before is kept, and the replies the failed flush sent (as many as the environment says, at most all the pending ones and the new reply) are added. The next reply's write then fails and ends the loop without adding or flushing anything. |
| Session.WaitOnlyMattersForGet | handler.go:55-65 | Changing what the consumer wait would yield for inputs that are not GET commands never changes the state. PING, DEL and unsupported verbs never consult the consumer. |
| Handler.Connection.constructor | handler.go:35-36 | A fresh connection has an empty, healthy writer and has read nothing. |
| Handler.Connection.Write | handler.go:54-67 | The buffered write, with the state change `Session.Write` describes. It reports failure exactly when the write failed or the writer already held an error. |
| Handler.Connection.Flush | handler.go:70-72 | The buffered flush, with the state change `Session.Flush` describes. |
| Handler.Connection.HandleInput | handler.go:41-76 | One iteration of the loop changes the connection exactly as `Session.Step` says. |
| Handler.Connection.HandleConnection | handler.go:32-78 | Running the loop over the inputs leaves the connection in the state `Session.Serve` describes. All the Session lemmas therefore hold of it. |

## Left out

- `ListenAndServe` (handler.go:80-118) is not modelled. It is the accept loop,
  the per-connection goroutines, the in-flight `WaitGroup` and the goroutine
  that closes the listener on shutdown. Its substance is concurrency and
  networking.
- The `select` between `ctx.Done()` and the consumer channel (handler.go:58-63)
  is not modelled as a race. Its outcome is an input to each step
  (`Io.wait`). Nothing constrains it across steps: after shutdown, Go's select
  can still deliver a ready message.
- The Redis framing of the parser and writer is not modelled, and neither is
  the `ProtocolError` type. They belong to the go-redisproto library. Three
  things the library decides are inputs: whether a read error is a protocol
  error, the `IsLast` flag, and whether a write succeeds.
- `isLast` of a protocol error is an input too. The handler calls `IsLast()`
  on the command returned with the error, and the library's answer there
  cannot be seen.
- A command with no arguments has the empty verb and falls to the default
  reply. This relies on the library's `Get(0)` yielding an empty value.
- `Manager.Get`, `ConsumerID` and `c.Out()` (handler.go:56-57, 61) are not
  modelled. They are defined in files that are not part of this model. The GET
  identifier is never inspected, and any effect of looking up a consumer is
  not represented.
- Logging, `conn.Close` (handler.go:33) and `NewRedisServer`
  (handler.go:22-30) are left out. They are I/O side effects or plain
  construction.
- config.go is a data-only configuration struct with no behaviour.
- FlushOnlyAtBatchEnd: describes only the handler's own `Flush` calls. A real
  `bufio.Writer` also writes its buffer out when it fills up (4096 bytes), so
  replies may reach the socket before a batch ends. Reply sizes belong to the
  codec, so this is not modelled.
- Session.Flush: a failed flush sends whole replies only. Part of a reply
  reaching the socket before the error is not represented, because replies are
  not modelled as bytes.
- Session.Write: a write is modelled as all or nothing. How much of a failed
  write reaches the buffer is not represented.
- Commands.UpperMatchesVerb: characters are Unicode scalar values, not bytes.
  Invalid UTF-8 in a verb is not modelled. The case mapping of non-ASCII runes
  other than dotless i and long s is not modelled, because their upper case is
  never an ASCII letter and cannot match a verb.
- The input sequence is finite. A run that ends without a read failure
  describes a prefix of a session; the end of the stream (EOF) is a
  `ReadFailure` input.
