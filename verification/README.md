# Verified models of the buffers, handlers, frames and audio path of aixd

Each module models one component of the repository and is verified on its own.

| module | what it models |
|---|---|
| `BasicStreambuf` | `asio::basic_streambuf`: a growable array with get and put areas, against a plain byte queue |
| `SocketStreambuf` | `asio::basic_socket_streambuf`: fixed buffers over a socket that transfers what it can; connecting to a list of endpoints |
| `HandlerMemory` | the over-aligned allocator lent out by `asio::any_completion_handler` |
| `HandlerOwnership` | creation, moves, swap, call and destruction of the handler's type-erased target |
| `Words`, `HuoshanProto`, `Builders` | 32-bit words, the frame layout and its parser, the frames the engine sends |
| `LocalAi`, `Dialogue`, `HuoshanEngine` | local actions; the event-driven dialogue as a transition system with its properties over all runs; the objects and callbacks that implement it |
| `Sound`, `PcmConverter` | the locked audio queue, the device's callback list, the size arithmetic of sample rate conversion |
| `Common` | bytes, `std::size_t`, sequence helpers |

`dafny verify dfyconfig.toml` checks everything.

## How the model is built

* Code that updates objects in place is a class; its methods are proved against functions on sequences, maps and small
  records, and the long-run properties are lemmas about those functions. A method that carries out a whole list of
  operations (`BasicStreambuf.Run`, `HandlerMemory.Run`, `HandlerOwnership.Program.Execute`,
  `SocketStreambuf.RunOutput`, `HuoshanEngine.Execute`, `Sound.Interleave`) ties the two together.
* `std::size_t` in `BasicStreambuf` is a bounded type, so the absence of wrap-around is proved and not assumed. The
  narrowing of an amount to `int` for `pbump` and `gbump` is modelled; `Commit` and `Consume` say exactly when it is
  harmless.
* The socket's answers are scripts with one entry for each turn of a retry loop. A script that has run out means that
  the expiry time has passed; a call that never returns has no script and no claim is made about it.
* JSON parsing, the JSON text of a string, regular expressions and the sample rate converter are functions passed in
  (`Dialogue.Env`); each can report an exception where the code can meet one: serializing a string throws where it is
  not UTF-8 (include/json.hpp:18433). The answer of a local command and the random number arrive with the input. The
  converter's output may depend on everything it has converted before. Runs are not cut off where an exception leaves a
  callback, so what is proved holds up to that point and beyond it.
* The underlying allocator may hand out any block that overlaps none in use. What it is asked for and given back is a
  trace of events beside the operations of a run.
* One callback of the engine, and one region under the audio queue's mutex, is one atomic step; the order of steps is
  arbitrary.

## Where the code differs from what it says or seems to say

* `basic_streambuf::prepare` moves the readable bytes before it throws and corrects the offsets only afterwards, so a
  throwing `prepare` can destroy readable bytes. `Prepare` gives the exact bytes left, `ShiftedKeepsAllContents` exactly
  when nothing can be lost, `ThrowingPrepareDamages` a buffer in which "ab" becomes "bb", and `QueueConservedIff` that
  nothing else ever breaks first in, first out.
* `basic_socket_streambuf::close` reports success even if the flush before it failed. It succeeds with nothing dropped
  exactly when closing the socket succeeds and so does the flush (`SocketStreambuf.Streambuf.Close`);
  `CloseDropsBytes` is a stream that loses a byte. A retry after a failed flush sends from the start of the put area, so
  what a failed flush did get out the peer sees again (`FailedFlushesRepeat`), and it sees no more than was written
  exactly when no failed flush of the run gets a byte out (`OutputConservedIff`).
* `connect_to_endpoints` takes a poll that timed out for success, because the socket's pending error is still 0: the
  stream reports success on a link that still waits (`TimeoutPassesForSuccess`). `ConnectToEndpoints` says exactly when
  no error means a link that is up.
* `any_completion_handler` is documented as empty after a call; its function table is still set (`CallLeavesTable`).
  Exactly the calls of a handler with a target have that effect (`StepKeepsTablesIff`, `TablesWithTargetsIff`).
* `from_byteb` works on plain `char`. Where that is signed it is wrong for some words (`SignedWordRoundTrip`), and a
  frame survives its round trip exactly if all its words are safe (`SignedFrameRoundTrip`). No four bytes are read as
  the codes for SessionStarted, SessionFinished, ASRResponse and ASREnded (`SignedCharMissesEvents`), so the engine does
  nothing but connect (`SignedNeverReady`).
* `allocate` in `any_completion_handler` leaks the raw block when the space computation wraps (`NoLeakIffNoneFails`), and
  stores its slot outside the raw block when only the slot's eight bytes wrap (`HandlerMemory.Memory.Allocate`).
* A greeting or a reply whose JSON text cannot be built is not sent. For the greeting the exception leaves
  `HandleResponse`; for a reply it is caught, and the engine is then not muted although an action was found
  (`UndumpableReplyIsDropped`).
* `PcmConverter::Convert` computes its capacity in 64 bits. Where that wraps around, the chunk does not fit
  (`CapacityEnoughIff`).
* `optional.event` is unassigned unless the frame carries an event; the model has "no event" there, which equals no
  code. `payload += "\0"` appends nothing.

## Model

| member | source | states |
|---|---|---|
| BasicStreambuf.Streambuf.constructor | include/asio/basic_streambuf.hpp:131-141 | a new buffer is empty, valid, and has min(max_size, 128) bytes of put area |
| BasicStreambuf.Streambuf.Reserve | include/asio/basic_streambuf.hpp:308-346 | throws iff size() + n > max_size(); otherwise keeps the readable bytes and leaves room for n; a throw leaves all offsets and exactly the shifted bytes; no size_t operation wraps |
| BasicStreambuf.Streambuf.Prepare | include/asio/basic_streambuf.hpp:214-219 | throws iff size() + n > max_size(); yields n in-bounds bytes behind unchanged readable bytes; even when it throws nothing is lost if the get position is at the start or size() does not exceed it |
| BasicStreambuf.ShiftedKeepsAllContents | include/asio/basic_streambuf.hpp:321-340 | a throwing prepare keeps every possible content iff the get position is 0 or size() does not exceed it |
| BasicStreambuf.ThrowingPrepareDamages | include/asio/basic_streambuf.hpp:321-340 | in a buffer for three bytes, after putting "xab" and taking one byte, asking for room for two throws and "ab" has become "bb" |
| BasicStreambuf.Streambuf.Commit | include/asio/basic_streambuf.hpp:233-238 | appends exactly the first min(n, available) bytes of the output sequence; the move is right iff that amount is below 2^31 |
| BasicStreambuf.Streambuf.Consume | include/asio/basic_streambuf.hpp:247-254 | drops exactly the first min(n, size()) bytes; the move is right iff that amount is below 2^31 |
| BasicStreambuf.Streambuf.Underflow | include/asio/basic_streambuf.hpp:263-274 | returns the first readable byte, or end-of-file iff there is none, and changes no byte |
| BasicStreambuf.Streambuf.Overflow | include/asio/basic_streambuf.hpp:283-306 | appends the byte, making room for 128 or what max_size leaves when the put area is full; throws iff size() == max_size(), and then contents and every offset are unchanged |
| BasicStreambuf.Streambuf.ReadSizeHelper | include/asio/basic_streambuf.hpp:353-359 | asks for at most what is wanted and fits, never for more than 512 bytes beyond what the allocated capacity holds, for something whenever something is wanted and fits, and for less than both only from 512 bytes and the spare capacity on; no subtraction wraps |
| BasicStreambuf.Streambuf.PrepareForRead | include/asio/basic_streambuf.hpp:353-359 | preparing what the helper asks for never throws, in any valid state; the region is within 512 bytes or the old capacity |
| BasicStreambuf.Run | include/asio/basic_streambuf.hpp:131-346 | every sequence of operations, going on after exceptions, is a run of the plain byte queue with a get position: never over max_size, throwing exactly where the queue says so, a throwing prepare leaving the shifted bytes and a throwing put nothing changed |
| BasicStreambuf.QueueConservedIff | include/asio/basic_streambuf.hpp:131-346 | initial bytes ++ everything put or committed == everything consumed ++ what is readable, at every point of a run, iff each throwing prepare of it finds bytes that the shift does not change |
| BasicStreambuf.QueueConserved | include/asio/basic_streambuf.hpp:131-346 | it holds whenever each throwing prepare finds the get position at the start or size() not above it |
| HandlerMemory.FromToBytes | include/asio/any_completion_handler.hpp:148-149 | a distance copied out of its object representation is the one copied in |
| HandlerMemory.AdjustmentAligns | include/asio/detail/memory.hpp:54-58 | the adjusted address is a multiple of the alignment and less than one alignment away |
| HandlerMemory.AlignFailsIffSumWraps | include/asio/any_completion_handler.hpp:140-155 | the bad_alloc branch is reached iff size + align - 1 wraps around |
| HandlerMemory.RequestCoversSlotIffNoWrap | include/asio/any_completion_handler.hpp:140-149 | the request covers user bytes and slot for every base address iff adding the slot's eight bytes does not wrap |
| HandlerMemory.Memory.Allocate | include/asio/any_completion_handler.hpp:131-156 | bad_alloc iff size + align - 1 wraps, and the raw block then leaks; otherwise the address is aligned, the distance to the raw block is stored behind the user bytes and nothing else is written; slot and user bytes lie inside a fresh raw block, and all live blocks stay sound, iff adding the slot does not wrap |
| HandlerMemory.Memory.Write | include/asio/any_completion_handler.hpp:131-176 | any write inside a live block keeps every hidden distance intact |
| HandlerMemory.Memory.Deallocate | include/asio/any_completion_handler.hpp:158-176 | hands back exactly the base and byte count that the underlying allocator had given, and nothing for null |
| HandlerMemory.LiveBlocksDisjoint | include/asio/any_completion_handler.hpp:140-150 | user bytes and slots of different live blocks never overlap |
| HandlerMemory.SlotReadBack | include/asio/any_completion_handler.hpp:169-171 | what is read from behind a live block is the distance to its raw block |
| HandlerMemory.Run | include/asio/any_completion_handler.hpp:131-176 | every sequence of allocations, writes and matching deallocations, failing ones included, is a run with a trace of what was obtained and returned; memory, live and raw blocks are what operations and trace make of them |
| HandlerMemory.EveryReturnIsObtained | include/asio/any_completion_handler.hpp:131-176 | what a deallocation hands back is the base and byte count that the latest allocation of that address had obtained, and nothing in between handed that block back |
| HandlerMemory.ReturnedOnce | include/asio/any_completion_handler.hpp:131-176 | a base is handed back twice only if it was obtained again in between |
| HandlerMemory.RawIffKept | include/asio/any_completion_handler.hpp:131-176 | at any point the raw blocks are exactly those obtained or leaked and not handed back since |
| HandlerMemory.LiveIffLent | include/asio/any_completion_handler.hpp:131-176 | at any point the live addresses are exactly those lent out and not deallocated since, with the size and alignment asked for |
| HandlerMemory.NoLeakIffNoneFails | include/asio/any_completion_handler.hpp:140-155 | every raw block has its live user block iff no request so far has made the space computation wrap |
| HandlerMemory.LastWriteStays | include/asio/any_completion_handler.hpp:131-176 | a byte the user wrote stays until the user overwrites it or deallocates the block, whatever happens elsewhere |
| HandlerOwnership.StepLinear | include/asio/any_completion_handler.hpp:639-756 | every operation, self-assignment and self-swap included, keeps: one owner at most for each target, through the table of its type; created once; destroyed once iff unowned; invoked only after destruction |
| HandlerOwnership.StepDoes | include/asio/any_completion_handler.hpp:639-756 | what each operation does to the fields of the handlers, to the targets and to the log: a call of a target destroys it and then runs its handler unless the move throws, a call of an empty handler and self-assignment change nothing, moves empty the source, swap exchanges, an old target goes when its handler gives it up |
| HandlerOwnership.RunDoes | include/asio/any_completion_handler.hpp:639-756 | every operation of every run does that |
| HandlerOwnership.InvokedIffCalled | include/asio/any_completion_handler.hpp:179-191 | in every run a target's handler runs exactly once iff some operation calls a handler that then has the target and the move does not throw, and otherwise never |
| HandlerOwnership.RunLinear | include/asio/any_completion_handler.hpp:639-756 | ownership is linear after every run from the empty program |
| HandlerOwnership.NothingLeaks | include/asio/any_completion_handler.hpp:698-703 | once no handler has a target, every target ever created has been destroyed exactly once |
| HandlerOwnership.StepKeepsTablesIff | include/asio/any_completion_handler.hpp:639-756 | an operation keeps "function table iff target" iff it is no call of a handler that has a target |
| HandlerOwnership.TablesWithTargetsIff | include/asio/any_completion_handler.hpp:639-756 | it holds at every point of a run iff the run calls no handler that has a target |
| HandlerOwnership.CallLeavesTable | include/asio/any_completion_handler.hpp:746-756 | after a call the table is still set though the target is gone |
| HandlerOwnership.Handler.MovedFrom | include/asio/any_completion_handler.hpp:671-677 | takes both fields over and leaves the other handler without |
| HandlerOwnership.Handler.Swap | include/asio/any_completion_handler.hpp:718-722 | exchanges both fields, also with itself |
| HandlerOwnership.Handler.MoveAssign | include/asio/any_completion_handler.hpp:683-689 | takes the other's target and destroys the old one, unless both are the same handler, which then keeps its target |
| HandlerOwnership.Handler.AssignNull | include/asio/any_completion_handler.hpp:692-696 | empties the handler and destroys its target if it had one |
| HandlerOwnership.Handler.Call | include/asio/any_completion_handler.hpp:179-191 | throws iff empty; otherwise the target is destroyed first, and the handler runs unless moving it out threw |
| HandlerOwnership.Program.Do | include/asio/any_completion_handler.hpp:639-756 | the operation on the objects, with the source's temporaries, is the transition of the abstract world and does to fields, targets and log what the operation says |
| HandlerOwnership.Program.Execute | include/asio/any_completion_handler.hpp:639-756 | any sequence of operations on the objects ends in the world of the abstract run, which is linear |
| SocketStreambuf.Streambuf.Underflow | include/asio/basic_socket_streambuf.hpp:373-425 | refills only an empty get area, with exactly what one receive delivered, behind the untouched putback area and inside the 512 bytes; end-of-file leaves the error of the turn that ended the loop |
| SocketStreambuf.ReceiveAfterWaiting | include/asio/basic_socket_streambuf.hpp:380-423 | any number of would-block and try-again turns are waited out; then data is what the receive gives, and a late turn, the end of the stream, any other error number or a failing poll ends it with exactly that error |
| SocketStreambuf.Streambuf.UnderflowAfterWaiting | include/asio/basic_socket_streambuf.hpp:373-425 | the same on the stream buffer: the first arriving byte is returned and up to 504 become readable, or end-of-file with that error |
| SocketStreambuf.Streambuf.Read | include/asio/basic_socket_streambuf.hpp:373-425 | unread ++ received meanwhile == delivered ++ still unread, for any number of reads; it falls short only with an error |
| SocketStreambuf.Streambuf.SendTurns | include/asio/basic_socket_streambuf.hpp:449-482 | for any pattern of partial sends and retries, success means that all went out in order, failure that a proper prefix did, with the error of the turn that ended the loop; would-block and try-again turns never make it fail |
| SocketStreambuf.SendsAll | include/asio/basic_socket_streambuf.hpp:449-482 | turns that take some bytes, mixed with would-block and try-again turns, send everything once they offer enough, and no later turn is used |
| SocketStreambuf.SendsUntil | include/asio/basic_socket_streambuf.hpp:449-482 | if they offer less, just that goes out, and the first turn of another kind ends the attempt with exactly its error |
| SocketStreambuf.Streambuf.Overflow | include/asio/basic_socket_streambuf.hpp:427-499 | success extends the socket's stream by exactly the put area (or, unbuffered, the character) and stores the character; failure leaves the put area untouched |
| SocketStreambuf.PutsAreBuffered | include/asio/basic_socket_streambuf.hpp:427-499 | as long as they fit the put area, characters are only collected there and nothing is sent |
| SocketStreambuf.PutWhenFull | include/asio/basic_socket_streambuf.hpp:427-499 | a character for a full put area makes exactly the area be sent and then starts the next; unbuffered it is sent itself; if not all goes out it is not accepted |
| SocketStreambuf.Streambuf.SetBuf | include/asio/basic_socket_streambuf.hpp:506-517 | switches to unbuffered mode iff asked with null and 0 while nothing is pending, and sends nothing |
| SocketStreambuf.Streambuf.Sync | include/asio/basic_socket_streambuf.hpp:501-504 | what the send turns let out of the put area goes out, in order; the area is emptied iff all of it did |
| SocketStreambuf.Streambuf.Close | include/asio/basic_socket_streambuf.hpp:258-265 | succeeds iff closing the socket does, and else leaves its error; what went out is a beginning of the put area fixed by the send turns; it succeeds with nothing dropped iff the flush succeeds too |
| SocketStreambuf.CloseDropsBytes | include/asio/basic_socket_streambuf.hpp:258-265 | a stream whose close succeeds and loses an accepted character |
| SocketStreambuf.SentIsDeliveredIffNoPartialFailure | include/asio/basic_socket_streambuf.hpp:427-499 | what the peer sees equals what successful flushes sent iff no failed flush had got a byte out |
| SocketStreambuf.RunAccounts | include/asio/basic_socket_streambuf.hpp:427-517 | over every run, buffered or not: bytes of successful flushes ++ pending == pending before ++ accepted |
| SocketStreambuf.OutputConservedIff | include/asio/basic_socket_streambuf.hpp:427-517 | all bytes that went out ++ pending == pending before ++ accepted iff none of the flushes that operations, send turns and put area lead to fails after getting a byte out |
| SocketStreambuf.FailedFlushesRepeat | include/asio/basic_socket_streambuf.hpp:427-499 | what a failed flush got out is the beginning of what is delivered later and then of what is still pending |
| SocketStreambuf.RunOutput | include/asio/basic_socket_streambuf.hpp:427-517 | any sequence of operations on the objects accepts, keeps and sends what the run on values says, with the conservation and the repeats above |
| SocketStreambuf.ConnectToEndpoints | include/asio/basic_socket_streambuf.hpp:556-616 | no error iff the socket belongs to the first endpoint, in order, whose attempt succeeds before any that makes the code give up; else the error is that of the attempt that made it give up, or of the last, and the refusal itself where all are refused; not_found for an empty list; an earlier error is kept; no error with a link that is up iff that attempt was immediate or its poll did not time out |
| SocketStreambuf.Decides | include/asio/basic_socket_streambuf.hpp:567-613 | field by field, which attempts succeed, which make the code give up, which let it go on, and with which error; in-progress and would-block are both polled |
| SocketStreambuf.TimeoutPassesForSuccess | include/asio/basic_socket_streambuf.hpp:596-613 | an endpoint that does not answer: no error is reported on a link that still waits |
| Words.WordRoundTrip | src/HuoshanEngine.hpp:146-162 | unsigned char: from_byteb undoes to_bytesb for all 2^32 words |
| Words.BytesRoundTrip | src/HuoshanEngine.hpp:146-162 | unsigned char: to_bytesb undoes from_byteb for all four bytes |
| Words.SignedWordRoundTrip | src/HuoshanEngine.hpp:158-162 | signed char: the round trip holds iff every low byte from 0x80 on has only 0xFF above it |
| Words.LengthRoundTrip | src/HuoshanEngine.hpp:198-203 | a length below 2^32 survives conversion to a word and back |
| HuoshanProto.HeaderRoundTrip | src/HuoshanEngine.hpp:124-144 | parsing the header's nibbles gives back every field |
| HuoshanProto.FrameRoundTrip | src/HuoshanEngine.hpp:164-240 | parsing a laid out 0x9 or 0xB frame gives back sequence, event, session id and payload, and the cursor ends at the frame's end |
| HuoshanProto.EventOnTheWire | src/HuoshanEngine.hpp:164-196 | byte by byte: exactly frames of type 0x9 and 0xB with flag 4 have an event, it is the big-endian number at byte 4, or at byte 8 with flag 2 |
| HuoshanProto.ErrorFrame | src/HuoshanEngine.hpp:224-239 | a frame of type 0xF gives its code, its text and no event |
| HuoshanProto.DecodedFrameEncodes | src/HuoshanEngine.hpp:164-240 | a well-formed response with nothing behind its payload is the layout of what parsing finds |
| HuoshanProto.EncodeInjective | src/HuoshanEngine.hpp:277-290 | two different frames never have the same bytes |
| HuoshanProto.SignedFrameRoundTrip | src/HuoshanEngine.hpp:158-240 | signed char: parsing gives back a laid out frame iff its sequence, event and two length words are all safe from the sign bits |
| HuoshanProto.SignedCharMissesEvents | src/HuoshanEngine.hpp:158-194 | signed char: no four bytes are read as the code of SessionStarted, SessionFinished, ASRResponse or ASREnded |
| HuoshanEngine.Proto.Parse | src/HuoshanEngine.hpp:164-240 | every read stays inside the response iff the frame holds what it announces; then the cursor finds what the layout says, the flags change as the event demands, and it throws iff reading the TTS type throws while muted |
| Builders.SentHasWire | src/HuoshanEngine.hpp:293-366 | in every run each message sent is one whose bytes can be built |
| Builders.WireIsEncodedFrame | src/HuoshanEngine.hpp:264-366 | what the session-bearing builders append piece by piece is the common layout |
| Builders.FirstBytes | src/HuoshanEngine.hpp:124-157 | the first eight bytes of each message, literally: version, type, flags, serialization, event number |
| Builders.LaterBytes | src/HuoshanEngine.hpp:242-366 | all bytes behind them: the session id behind its big-endian length, except in StartConnect, and the payload behind its own |
| Builders.PayloadSpelled | src/HuoshanEngine.hpp:242-366 | the payload of each message, letter by letter, with the serialized text in its place |
| Builders.WireDistinguishes | src/HuoshanEngine.hpp:242-366 | equal bytes of two messages of a session mean equal messages, down to text and flags in the JSON, if the serializer tells strings apart |
| LocalAi.ActionForIsFirst | src/HuoshanEngine.hpp:465-475 | the action chosen is the first in load order that matches, or an exception if that one throws |
| LocalAi.ActionForNone | src/HuoshanEngine.hpp:465-475 | with no match the nameless action is returned |
| LocalAi.AskedForIsFound | src/HuoshanEngine.hpp:421-475 | an action with a pattern that matches, behind patterns of its own and of earlier actions that all fail to, is the one found |
| LocalAi.FoundIsAskedFor | src/HuoshanEngine.hpp:421-475 | and a named action that is found is such a one |
| LocalAi.Match | src/HuoshanEngine.hpp:421-433 | true iff some pattern matches and none before it throws |
| LocalAi.MatchAction | src/HuoshanEngine.hpp:465-475 | the loop over the actions finds the chosen action |
| Dialogue.ReadyIffSessionOpen | src/HuoshanEngine.hpp:187-194 | is_ready iff the latest of SessionStarted, SessionFinished, close and error is SessionStarted |
| Dialogue.DisabledIffMuted | src/HuoshanEngine.hpp:610-660 | muted iff some ASREnded with a named action and a reply that can be built has been followed by no TTSEnded and no TTSSentenceStart of type chat_tts_text |
| Dialogue.AsrTextIsLast | src/HuoshanEngine.hpp:610-613 | the text an ASREnded is about is the payload of the latest ASRResponse |
| Dialogue.SpeakerGetsUnmutedAudio | src/HuoshanEngine.hpp:661-674 | played ++ queued == the conversions, in order, of exactly the audio frames that arrive unmuted, a frame's own event taking effect first; a frame whose greeting throws is not played |
| Dialogue.PlaybackTakesAllItCan | src/HuoshanEngine.hpp:515-529 | in every run exactly the first part of that audio has been played that the playbacks asked for while it was there |
| Dialogue.SentIsDue | src/HuoshanEngine.hpp:530-650 | what is sent is, in this very order, what the inputs call for: StartConnect per opening, StartSession per ConnectionStarted, SayHello per SessionStarted if it can be built, TaskRequest per microphone callback in an open session, a pair of ChatTTSText per ASREnded with a named action and a reply that can be built, with the text of the branch taken |
| Dialogue.ReplySays | src/HuoshanEngine.hpp:614-651 | in every run an ASREnded whose latest recognised text first matches a named action is answered at once, and mutes: with the command's own answer, with one of the positive replies if that is empty, with one of the negative ones if the command failed, with nothing from an empty list, provided the text can be serialized |
| Dialogue.SilentOtherwise | src/HuoshanEngine.hpp:614-651 | an ASREnded for which that does not hold sends nothing and leaves the muting as it was |
| Dialogue.RepliesAreBracketed | src/HuoshanEngine.hpp:614-650 | among all messages each start of a ChatTTSText pair is directly followed by its end, ends occur nowhere else, and there is one pair per ASREnded with a named action and a reply that can be built |
| Dialogue.UndumpableReplyIsDropped | src/HuoshanEngine.hpp:624-651 | a run in which a named action is found, its answer is not UTF-8, and nothing is sent and nothing muted |
| HuoshanEngine.Engine.HandleResponse | src/HuoshanEngine.hpp:598-675 | processing the bytes of a message, exceptions included, is one step of the dialogue; an exception leaves it iff, muted, the TTS type of a TTSSentenceStart cannot be read, or the greeting a SessionStarted asks for cannot be serialized |
| HuoshanEngine.Engine.OnPlayback | src/HuoshanEngine.hpp:515-529 | pops all that is asked for and there from the pool into the start of the output buffer, and is one step of the dialogue |
| HuoshanEngine.Engine.OnMicrophone | src/HuoshanEngine.hpp:530-540 | sends a TaskRequest iff a session is ready |
| HuoshanEngine.Execute | src/HuoshanEngine.hpp:504-675 | any sequence of callbacks on a fresh engine is a run of the dialogue, with its readiness, muting and messages |
| HuoshanEngine.SignedNeverReady | src/HuoshanEngine.hpp:158-194 | signed char: whatever bytes arrive, the engine is never ready or muted and sends only StartConnect and StartSession |
| Sound.AudioQueue.PopFront | include/sound.hpp:104-114 | returns and removes the first min(requested, available) bytes |
| Sound.Interleave | include/sound.hpp:98-114 | for every interleaving: popped ++ queued == initial ++ pushed, and each pop returns all it can |
| Sound.OverlayLastReaching | include/sound.hpp:48-51 | an output byte is that of the last callback whose chunk reaches it, else its old value |
| Sound.SoundDev.AudioCallback | include/sound.hpp:42-52 | runs the callbacks in order; the output is the overlay of what they popped, and no queue, shared or not, loses or reorders a byte |
| Sound.PlayCb | include/sound.hpp:229-245 | pops what is available and overwrites just the start of the output |
| Sound.SoundDev.RemoveCb | include/sound.hpp:57-64 | drops every registration of the callback and keeps the others in order |
| Sound.WithoutAppend | include/sound.hpp:57-64 | what is left of a list is what is left of its parts, in order |
| Sound.RemoveUndoesAdd | include/sound.hpp:53-64 | registering a callback and removing it restores the list, if it was not registered before |
| PcmConverter.CapacityEnoughIff | include/sound.hpp:154-164 | wherever the stream is cut, floor(n * out / in) + 1 frames, in 64-bit arithmetic, hold what falls due, for output rounded down or up, iff nothing wraps around |
| PcmConverter.CapacityNeeded | include/sound.hpp:154-164 | no smaller capacity would do: rounded up, a first chunk that does not come out even needs all of it |
| PcmConverter.Converter.Convert | include/sound.hpp:149-173 | the output's size is exactly what falls due for the frames taken in, which are all of the chunk's iff its capacity does not wrap around; a failing conversion yields nothing |
| PcmConverter.ConvertAll | include/sound.hpp:149-173 | how much comes out of a stream depends on the frames taken in, not on how it was cut, and all whole frames are taken in iff no chunk wraps around |

## Left out

- HandlerMemory.Run: a request of which only the slot's eight bytes wrap around ends a run, because the source then writes to memory it did not get; RequestCoversSlotIffNoWrap says exactly which these are.
- HuoshanEngine.Proto.Parse: what happens from the first read outside the response on, and responses of 2^31 bytes or more.
- HuoshanEngine.Engine.HandleResponse: responses that are read outside their bounds.
- PcmConverter.Converter.Convert: sample values, and sizes in bytes beyond 64 bits.
- HandlerOwnership.Handler.Holding: exceptions while a target is being created, which leave no handler behind.
- Real devices and transport: the WebSocket client, LCM, miniaudio and ALSA, logging, configuration files.
- Sending that throws: the engine's sends are taken to succeed.
- Data races on the engine's flags: callbacks are atomic steps.
- Failing memory allocation, and the particular growth of `std::vector` capacity.
- Putback and seeking on the stream buffers; address arithmetic that overflows.
- Move construction and assignment of the socket stream buffer, and expiry times beyond "passed or not".
- Executors, cancellation slots and associators of handlers: forwarding only.
- FinishConnect, FinishSession and the second SayHello: laid out like the builders that are modelled.
- The duplicate of the engine in src/ai.cpp and the PortAudio code in src/rksound.cpp.
