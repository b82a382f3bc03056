# OTPP connection core in Dafny

This project models the per-connection pipeline of the okto-nsd daemon. Each
accepted connection gets two threads:

- **Client thread** (`src/client_thread.c`). It reads the socket one byte at
  a time into a 500-byte shifting ring buffer. On every carriage return it
  hands the buffered bytes, carriage return included, to a queue as one
  frame.
- **Command processor** (`src/cmd_processor.c`). It takes frames off that
  queue and splits each one into tab fields and the command clause into
  space tokens. It then dispatches on the command name and writes at most
  one reply line, `kind\tid\tcontent\r`, to the socket.

The files, in dependency order:

| file | module | what it holds |
|---|---|---|
| `c_string.dfy` | `CString` | The C library behaviour the core relies on: NUL-terminated strings, `strtok` on one delimiter, base-10 `strtol` on a 64-bit `long`, the cast to `uint32_t`, and `itoa2`. |
| `cmd_processor.dfy` | `CmdProcessor` | Replies and handlers, and the parse as the source indexes it. Also lemmas saying what the parse means on the wire, and the `Processor` class: its queue, alive flag and socket output, and its loop. |
| `client_thread.dfy` | `ClientThread` | The framer as a function of the bytes read, its invariants, and the `Reader` class, which holds the ring buffer and feeds the processor's queue. |
| `worked_frames.dfy` | `WorkedFrames` | Single frames worked through to the exact reply line. |
| `connection.dfy` | `Connection` | The two threads together, interleaved at byte granularity, and a two-request session. |

## How the code reads a frame

The model follows `CmdProcessor_run` as written. Three points of it are
easy to misread:

- **Field order.** Both `strtok` loops of `CmdProcessor_run` prepend what
  they find, so the lists they build are reversed (`cmd_processor.c` lines
  102-107 and 153-168). Field 0, the command clause, is therefore the last
  tab piece of the frame. The packet id is the second-to-last, and the
  (unchecked) type tag the third-to-last. Within the clause, the element
  list is reversed too, and the code takes its last two elements
  (`cmd_processor.c` lines 198 and 221): the command name is the first space
  token of the clause, and argument 1 is the second.
  - `FieldsWireOrder`, `RespondWireOrder` and `ReplyWireOrder` state this.
  - `WorkedFrames.TypeFirstFrame` shows that `"version\t1\tX\r"` draws
    `e\t1\tUnknown command\r`.
  - `WorkedFrames.VersionFrame` shows that `"X\t1\tversion\r"` draws the
    version reply.
- **Malformed-reply codes.** `t_re` writes a fixed line for codes `"0"` to
  `"3"`, whatever the request's id: `"0"` gives `_\t1\terror\r` (a bad
  kind), `"1"` gives `r\terror\r` (a missing field), `"2"` gives
  `r\ta\terror\r` (a non-numeric id) and `"3"` gives `r\t1234\terror\r`
  (an arbitrary id). Any other code draws `e\t<id>\tUnknown type\r`
  (`cmd_processor.c` lines 68-87).
  `WorkedFrames.BrokenReplyFrame` shows the code-`"0"` case.
- **The carriage return.** A frame handed to the processor includes its
  closing carriage return. That byte sticks to the last space token and is
  stripped from it there.

## Model

| member | source | states |
|---|---|---|
| CString.CStr | src/cmd_processor.c:101-102 | The string a NUL-terminated buffer holds contains no NUL and is no longer than the buffer. When it is shorter, the buffer has a NUL right after it. |
| CString.TokenLen | src/cmd_processor.c:102-107 | The run of non-delimiters that starts a string stops at the first delimiter or at the end. |
| CString.Split | src/cmd_processor.c:102-107 | The tokens `strtok` returns on one delimiter are never empty and never hold the delimiter. There are no more of them than the string has characters. |
| CString.CStrAppend | src/cmd_processor.c:101-102 | The C string a buffer holds is everything before its first NUL, so appending after a NUL-free prefix appends to the C string. |
| CString.SplitAppend | src/cmd_processor.c:102-107 | `strtok` on a delimiter: a delimiter separates, and the tokens of `a d b` are those of `a` followed by those of `b`. |
| CString.SplitJoin | src/cmd_processor.c:153-168 | Tokens that are non-empty and free of the delimiter, joined by it, split back into exactly themselves. |
| CString.SplitEmptyIff | src/cmd_processor.c:153-171 | `strtok` finds no token exactly when the string is all delimiters. |
| CString.SplitThree | src/cmd_processor.c:102-107 | Three delimiter-free, non-empty tokens joined by single delimiters split back into the three. |
| CString.Strtol | src/cmd_processor.c:127 | `strtol(s, NULL, 10)`: the value always lies in the range of a 64-bit `long`. |
| CString.StrtolPositive | src/cmd_processor.c:127 | A decimal numeral followed by a non-digit is read in full, and a value past `LONG_MAX` saturates to `LONG_MAX`. |
| CString.StrtolNegative | src/cmd_processor.c:127 | A minus sign and a numeral read as the negated value, saturating to `LONG_MIN` below it. |
| CString.StrtolSkipsSpace | src/cmd_processor.c:127 | Leading white space does not change the value read. |
| CString.U32 | src/cmd_processor.c:127 | The cast to `uint32_t` lands below 2^32, agrees with the value modulo 2^32, and leaves values already in range unchanged. |
| CString.Decimal | src/cmd_processor.c:16 | The `itoa2` numeral is a non-empty run of digits with no leading zero. |
| CString.StrtolDecimal | src/cmd_processor.c:127 | `strtol` reads back the number `itoa2` wrote, whatever non-digit follows it. |
| CString.StrtolNoDigits | src/cmd_processor.c:127 | `strtol` of text without a digit is 0. |
| CString.DecimalValue | src/cmd_processor.c:16 | The `itoa2` numeral of n denotes n. |
| CmdProcessor.CreateResponse | src/cmd_processor.c:15-24 | The reply line ends in its carriage return. The line plus the NUL that `sprintf` writes fill the `pmalloc` buffer exactly: no overflow, no slack. |
| CmdProcessor.CreateResponseAnswers | src/cmd_processor.c:15-24 | A response line starts with its kind and packet id, each followed by a tab. It ends in a carriage return, and what stands between is exactly the content. |
| CmdProcessor.NotEnoughArgs | src/cmd_processor.c:26-30 | The reply is an error response (`e`) under the request's packet id, carrying `Not enough arguments`. |
| CmdProcessor.CmdVersion | src/cmd_processor.c:35-40 | The reply is a success response (`r`) under the request's packet id, carrying the version `0.0.1`. |
| CmdProcessor.CmdEcho | src/cmd_processor.c:43-48 | The reply is a success response under the request's packet id, carrying the argument unchanged. |
| CmdProcessor.CmdTmt | src/cmd_processor.c:51-57 | After the delay, the reply is a success response under the request's packet id, carrying `ok`. |
| CmdProcessor.CmdErr | src/cmd_processor.c:60-65 | The reply is an error response under the request's packet id, carrying the argument. |
| CmdProcessor.CmdRe | src/cmd_processor.c:67-87 | Every line ends in a carriage return. Any code other than `"0"` to `"3"` gives an error response carrying `Unknown type`. None of the four malformed lines is an error response under the request's id. Those of codes `"0"` to `"2"` are not responses of kind `r` under it either. |
| CmdProcessor.Command | src/cmd_processor.c:218-257 | Whatever the command name and argument, the dispatch writes one line closed by a carriage return. |
| CmdProcessor.ResponseRoundTrip | src/cmd_processor.c:15-24 | With a non-empty kind and content free of tabs and CRs, the response splits back into `[kind, id, content]`. The id field reads back, via `strtol` and the `uint32_t` cast, as the packet id. |
| CmdProcessor.CommandAnswersUnderId | src/cmd_processor.c:218-257 | Every dispatch outcome except `t_re` codes 0-3 is an ordinary response under the request's own packet id. Its kind is `r` exactly when the command succeeded: `version`, `t_echo` with an argument, or `t_tmt` with a non-zero delay. Otherwise it is `e`. |
| CmdProcessor.BrokenReplies | src/cmd_processor.c:67-87 | `t_re` codes `"0"` to `"3"` give their four fixed malformed lines, whatever the packet id. |
| CmdProcessor.PrependAllReverses | src/cmd_processor.c:105-108 | A loop that prepends each item onto a list yields the items back to front, ahead of what the list held. |
| CmdProcessor.StripCr | src/cmd_processor.c:155-166 | A token loses at most its last character, and loses it exactly when it holds a carriage return. |
| CmdProcessor.StripCrAll | src/cmd_processor.c:153-168 | Every token of the clause goes through the CR branch on its own, and none is added or dropped. |
| CmdProcessor.ParseFields | src/cmd_processor.c:112-192 | A packet that survives the parse has a packet id in 1..2^32-1 and a non-empty element list. |
| CmdProcessor.Parse | src/cmd_processor.c:101-192 | A frame survives the parse only if its C string has at least three tab pieces. |
| CmdProcessor.Get | src/cmd_processor.c:196-227 | `get` returns NULL exactly when the index is past the end, and otherwise an element of the list. |
| CmdProcessor.Respond | src/cmd_processor.c:196-257 | The reply is one line closed by a carriage return. Below 65536 elements, the `uint16_t` indices pick the last element as the command name and the one before it, if any, as argument 1. |
| CmdProcessor.Reply | src/cmd_processor.c:99-257 | A frame draws a reply only if it has at least three tab pieces, and the reply is one line closed by a carriage return. |
| CmdProcessor.Index16 | src/cmd_processor.c:196-198 | The `uint16_t` index `(uint16_t)(cmdSize - back)` is below 65536. |
| CmdProcessor.Index16Small | src/cmd_processor.c:196-227 | Below 65536 elements the command name is the last element and argument 1 the one before it. With a single element, argument 1 is out of range, so `get` returns NULL. |
| CmdProcessor.FieldsWireOrder | src/cmd_processor.c:102-192 | In wire terms, a frame is discarded when it has fewer than three tab pieces, when its second-to-last piece converts to packet id 0, or when its last piece has no space token. Otherwise the packet is the third-to-last piece as type, that id, and the last piece's tokens, stripped of CR and reversed. |
| CmdProcessor.RespondWireOrder | src/cmd_processor.c:196-251 | Read from the end of the reversed list, the command name is the first token of the clause and argument 1 the second. A single token means a missing argument. |
| CmdProcessor.PiecesReply | src/cmd_processor.c:102-257 | The reply to a list of tab pieces whose last piece is shorter than 65536 bytes, stated in wire order. |
| CmdProcessor.ReplyWireOrder | src/cmd_processor.c:99-257 | The reply to any frame shorter than 65536 bytes, stated on its tab pieces and the clause's tokens in wire order. |
| CmdProcessor.SamePiecesSameReply | src/cmd_processor.c:102-108 | The reply depends on the frame only through its tab pieces. |
| CmdProcessor.FieldsLastTwo | src/cmd_processor.c:126-127 | Piece lists whose last two pieces agree parse alike: both discarded, or both kept with the same id and elements. |
| CmdProcessor.TypeTagIgnored | src/cmd_processor.c:126 | The type tag is never checked: frames that agree on the command clause and packet id draw the same reply. |
| CmdProcessor.LeadingPieces | src/cmd_processor.c:102-108 | Text before a tab, free of NUL, adds its own tab pieces in front of the frame's. |
| CmdProcessor.FieldsLastThree | src/cmd_processor.c:112-127 | Piece lists whose last three pieces agree parse identically. |
| CmdProcessor.LeadingPiecesParse | src/cmd_processor.c:102-127 | Extra tab pieces in front of a frame with at least three pieces leave the parse unchanged. |
| CmdProcessor.LeadingPiecesIgnored | src/cmd_processor.c:102-127 | ... and so leave the reply unchanged. |
| CmdProcessor.ConsecutiveTabPieces | src/cmd_processor.c:102-107 | A doubled tab gives the same tab pieces as a single one. |
| CmdProcessor.ConsecutiveTabs | src/cmd_processor.c:102-107 | A doubled tab never creates an empty field: the reply is the same as with one tab. |
| CmdProcessor.NoDigitsIdDiscarded | src/cmd_processor.c:127-151 | With at least three pieces, a packet-id piece without any digit makes the parse a discard. |
| CmdProcessor.NonNumericIdDiscarded | src/cmd_processor.c:127-151 | A frame whose packet-id piece has no digit draws no reply. |
| CmdProcessor.FramedClause | src/cmd_processor.c:153-171 | A frame as the client thread delivers it (ending in CR, no NUL) is its own C string, and its command clause always has a space token. |
| CmdProcessor.ClauseHasWord | src/cmd_processor.c:153-171 | The last tab piece of a string ending in CR always holds a space token. |
| CmdProcessor.FramedDiscardIff | src/cmd_processor.c:112-192 | For such a frame the empty-clause discard never applies: it is discarded exactly when it has fewer than three pieces or its id converts to 0. |
| CmdProcessor.RequestPieces | src/cmd_processor.c:102-108 | A well-formed request line splits into exactly three tab pieces: type, decimal id, and clause with its CR. |
| CmdProcessor.WithCrStripped | src/cmd_processor.c:155-166 | A CR stuck to the last word is stripped from it again; other words pass unchanged. |
| CmdProcessor.ClauseWords | src/cmd_processor.c:153-169 | The clause of a request yields exactly the words sent, in order. |
| CmdProcessor.RequestReply | src/cmd_processor.c:99-257 | End to end: a well-formed request draws the dispatch entry for its first word, with its second word as argument 1, under its own packet id. |
| CmdProcessor.CollectFields | src/cmd_processor.c:102-108 | The `strtok` loop over the frame lists the tab pieces, prepended. |
| CmdProcessor.CollectElements | src/cmd_processor.c:153-169 | The `strtok` loop over the clause lists the space tokens, prepended. A token holding a CR loses its last character; a bare CR is kept as the empty string. |
| CmdProcessor.RepliesAppend | src/cmd_processor.c:99-101 | Answering two runs of frames one after the other writes the two outputs in that order. |
| CmdProcessor.RepliesSplit | src/cmd_processor.c:99-101 | The socket output of a run of frames splits wherever the run is cut. |
| CmdProcessor.RepliesSnoc | src/cmd_processor.c:99-101 | Answering one more frame appends its output. |
| CmdProcessor.FewPiecesSilent | src/cmd_processor.c:112-124 | Frames with fewer than three tab pieces add nothing to the socket output. |
| CmdProcessor.Processor.constructor | src/client_thread.c:21-24 | The processor starts alive, with an empty queue and nothing written. |
| CmdProcessor.Processor.Step | src/cmd_processor.c:99-281 | One pass with a frame waiting: the head of the queue is dequeued and its reply, if any, appended to the socket output. The body runs the two `strtok` loops and the discard checks in the source's order. |
| CmdProcessor.Processor.Drain | src/cmd_processor.c:99-284 | While alive, the loop empties the queue and writes the replies to all queued frames, in queue order. |
| CmdProcessor.Processor.Shutdown | src/cmd_processor.c:286-291 | Once the alive flag is cleared, the frames still queued are freed without reply. |
| ClientThread.Newest | src/client_thread.c:20 | A shifting ring buffer of 500 bytes holds the newest 500 bytes written, as a suffix. |
| ClientThread.NewestAppend | src/client_thread.c:33-41 | Writing more into the ring buffer depends only on what it holds. |
| ClientThread.RingWrite | src/client_thread.c:33-41 | Writing one byte leaves at most 500 bytes, the last of them that byte. Below capacity, nothing is dropped. |
| ClientThread.FrameStep | src/client_thread.c:31-42 | One byte hands on exactly one frame if it is a CR and none otherwise. Frames already handed on stay in front. On a CR the buffer empties into the new frame. Below capacity no byte is lost: a CR hands on the buffer followed by the CR, and any other byte is appended to the buffer. |
| ClientThread.FrameAll | src/client_thread.c:28-47 | Reading more input never takes back a frame already handed on. |
| ClientThread.FrameAllAppend | src/client_thread.c:28-47 | Reading two stretches of input is reading one, then the other. |
| ClientThread.FrameStepGood | src/client_thread.c:31-42 | One byte keeps the framer's invariant: the buffer fits and holds no CR, and every frame ends in its one CR and fits the buffer. |
| ClientThread.FramesWellFormed | src/client_thread.c:28-47 | For any input, the buffer never exceeds 500 bytes, and every frame handed on ends in its CR, holds no other CR and is at most 500 bytes. |
| ClientThread.OneFramePerTerminator | src/client_thread.c:32-39 | Exactly one frame is enqueued per CR in the input, and frames already handed on stay in front, in order. |
| ClientThread.FeedText | src/client_thread.c:40-42 | Bytes without a CR only fill the buffer, which keeps the newest 500. |
| ClientThread.FeedLine | src/client_thread.c:31-42 | A line and its CR hand on one frame: the newest 500 bytes of buffer, line and CR. |
| ClientThread.LineFromEmpty | src/client_thread.c:31-42 | From an empty buffer, a line and its CR hand on the newest 500 bytes of the line and CR. |
| ClientThread.LineAfter | src/client_thread.c:31-42 | From an empty buffer, a line shorter than 500 bytes comes back whole as one frame. |
| ClientThread.FramesOfLines | src/client_thread.c:28-47 | A run of CR-free lines, each closed by a CR, gives one frame per line, in order, and leaves the buffer empty. |
| ClientThread.FramingRoundTrip | src/client_thread.c:28-47 | Lines shorter than the buffer come back exactly as sent, each with its CR. |
| ClientThread.NewestOverflow | src/client_thread.c:20 | Past 500 bytes the ring buffer drops the oldest bytes. |
| ClientThread.OverflowKeepsNewest | src/client_thread.c:20-39 | A line of 500 bytes or more loses its oldest bytes: the frame is its newest 499 bytes and the CR. |
| ClientThread.Reader.constructor | src/client_thread.c:19-25 | The client thread starts with an empty ring buffer, bound to its processor. |
| ClientThread.Reader.Feed | src/client_thread.c:31-42 | One byte read: the ring buffer and the processor's queue move exactly as the framer says. On a CR that means write, take the length, extract, clear and enqueue. |
| ClientThread.Reader.Close | src/client_thread.c:49-51 | After the read loop the processor's alive flag is cleared and the ring buffer freed. |
| ClientThread.Reader.Run | src/client_thread.c:28-51 | Reading until the socket closes enqueues every frame of the input, in order and nothing else, then clears the alive flag. |
| Connection.Tick | src/client_thread.c:31-39 | One byte read, then optionally a processor run until the queue is empty. This keeps the agreement between the two threads and the framer, and after a run every frame so far is answered. |
| Connection.Drained | src/client_thread.c:28-47 | The number of bytes read when the processor last ran: at most the input length, and the schedule ran the processor right after that byte. |
| Connection.DrainedIsLast | src/client_thread.c:28-47 | The processor did not run after any later byte. |
| Connection.AnsweredStep | src/client_thread.c:31-39 | One more byte moves the count of answered frames on: to all frames so far when the processor runs, unchanged when it does not. |
| Connection.PumpStart | src/client_thread.c:19-28 | Before the first byte, the threads are in the state they started in. |
| Connection.TickAt | src/client_thread.c:31-39 | Reading byte `pos`, then draining when the schedule says so, keeps the threads in step with the framer and the answered count in step with the last drain. |
| Connection.PumpEnd | src/client_thread.c:28-47 | After the last byte, the threads agree with the framer fed all of the input. |
| Connection.Pump | src/client_thread.c:28-47 | The read loop with the processor running on a schedule keeps that agreement across all of the input. The frames answered are exactly those made by the time of the last drain. |
| Connection.AnsweredAll | src/client_thread.c:28-47 | At the end of the input, the answered count is 0 when the processor never ran, and otherwise the number of frames made by the last drain; all frames when it ran after the last byte. |
| Connection.Serve | src/client_thread.c:15-53 | The whole connection: under any byte-granular interleaving, the socket receives the replies to the first frames, in arrival order, with none lost, duplicated or reordered. For every schedule, the frames answered are exactly those made by the time the processor last ran. When it runs after the last byte, every frame is answered before the socket closes. |
| Connection.TwoFrameReplies | src/cmd_processor.c:99-101 | Two answered frames put their two replies on the wire in order. |
| Connection.TwoLineFrames | src/client_thread.c:28-47 | Two short lines sent back to back come out as two frames. |
| Connection.SessionFrames | src/client_thread.c:28-47 | The session `X\t1\tversion\r X\t2\tt_echo hello\r` frames into its two requests. |
| Connection.SessionWire | src/client_thread.c:15-53 | That session puts exactly `r\t1\t0.0.1\r` then `r\t2\thello\r` on the wire. |
| WorkedFrames.VersionFrame | src/cmd_processor.c:35-40 | `X\t1\tversion\r` draws `r\t1\t0.0.1\r`. |
| WorkedFrames.EchoFrame | src/cmd_processor.c:220-223 | `X\t2\tt_echo hello\r` draws `r\t2\thello\r`: argument 1 is the second word. |
| WorkedFrames.TypeFirstFrame | src/cmd_processor.c:252-257 | `version\t1\tX\r` is read with `X` as the command and draws `e\t1\tUnknown command\r`. |
| WorkedFrames.MissingArgFrame | src/cmd_processor.c:220-225 | `X\t3\tt_echo\r` draws `e\t3\tNot enough arguments\r`. |
| WorkedFrames.AbcNotNumber | src/cmd_processor.c:229 | `strtol("abc")` is 0. |
| WorkedFrames.NonNumericDelayFrame | src/cmd_processor.c:226-236 | `X\t4\tt_tmt abc\r` draws `e\t4\tFirst arg must be a number\r`. |
| WorkedFrames.BrokenReplyFrame | src/cmd_processor.c:72-73 | `X\t5\tt_re 0\r` draws the fixed line `_\t1\terror\r`. |
| WorkedFrames.BareCrWords | src/cmd_processor.c:153-168 | A clause ending in a space leaves a bare CR as its last token. |
| WorkedFrames.TabPieces | src/cmd_processor.c:102-107 | Three tab-free, NUL-free, non-empty pieces joined by tabs split back into the three. |
| WorkedFrames.MinusOneId | src/cmd_processor.c:127 | The id field `-1` is read as -1 and cast to 4294967295. |
| WorkedFrames.NegativeIdFrame | src/cmd_processor.c:126-151 | A negative id is not discarded: `X\t-1\tversion\r` draws the version reply under id 4294967295. |
| WorkedFrames.BareCrFrame | src/cmd_processor.c:155-162 | The bare CR is kept as an empty argument, because line 161 tests the token's original length: `X\t1\tt_echo \r` draws `r\t1\t\r`. |

## Left out

- **Threads and the blocking queue.** These are not modelled as
  concurrency. The two threads are interleaved one byte at a time by an
  explicit schedule (`Connection.Serve`). Finer interleavings inside one
  queue operation are not modelled.
- **Queue capacity.** The queue is an unbounded sequence. Its capacity of
  50 and the blocking of `enqueue` when full are not modelled.
- **The idle poll.** The processor's `DelayMillis(100)` when the queue is
  empty is not modelled.
- **The `t_tmt` delay.** It is not modelled; only the reply sent after it
  is.
- **Logging, `pmalloc`/`pfree`/`free` and `close(sockfd)`.** None are
  modelled. Memory is not modelled, so the frees that end every path are
  left out.
- **The socket.** Reads are given as the bytes the socket will deliver
  before it closes. Writes are appended to the processor's `sent` string.
- **Outside libraries.** The ring-buffer library (`rings`), the blocking
  queue (`lbq`), the list library and `itoa2` are not part of this model.
  The ring buffer is taken to keep the newest 500 bytes under
  `RINGS_OVERFLOW_SHIFT`. The list's `get` is taken to return NULL out of
  range. `itoa2` is taken to write the decimal numeral.
- **CString.Strtol.** It assumes a 64-bit `long`, as on LP64 platforms;
  the source does not fix the width. With a 32-bit `long`, an id of
  `4294967295` would saturate to `2147483647`, and `4294967296` would draw
  a reply instead of being discarded. The model does not cover that case.
- **Bytes.** A byte is modelled as a `char`. `strtok`'s hidden global state
  is modelled by the token list it yields.
- **`CmdProcessor.ReplyWireOrder`.** It requires a frame shorter than 65536
  bytes. Only then is the `uint16_t` element count exact. The client thread
  never delivers a frame longer than 500 bytes.
- **`CmdProcessor.RequestReply`.** It requires fewer than 65536 words, for
  the same reason.
- **`Connection.Serve`.** It fixes the interleaving at byte granularity,
  with the processor either running to an empty queue or not at all.
- **Residual bytes.** Bytes read after the last CR are dropped at close,
  together with the ring buffer. The model says so (`Reader.Close` clears
  `inBuf`) but proves nothing further about them.
