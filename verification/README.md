# Chuck, verified

This project models the hard parts of the chuck networking library and proves what they promise. Each module follows one
component; classes stand where the original updates fields in place, functions and lemmas where it computes.

- **Timing wheel** (`NaiveTimers`, `TimerWheel`). The three-level wheel refines a manager that simply knows every timer:
  each operation is a sequence of that manager's events and leads to exactly its state. So the assertion
  `tick == expire` holds in every run, with callbacks registering and unregistering freely while the higher wheels have
  not advanced yet, and no timer is late or lost.
- **Stream socket** (`SendPath`, `ChunkHeap`, `Framing`, `RecvPath`). Sending: two queues, gathered and short writes, with
  a history of what went on the wire. Receiving: refcounted chunks filled by `readv`, a length-prefixed decoder over them,
  clients that keep and drop packets.
- **Chunk buffers** (`ByteBuffer`, `BufferAccess`, `BufferObject`). A buffer over linked chunks refines a byte string.
- **Redis client** (`Resp`, `RespCodec`, `RespResume`, `RespGrammar`, `RedisStream`, `RedisClient`). The resumable reply
  parser against a byte-at-a-time machine, that machine against a grammar, the command formatter, and the pairing of replies with requests under timeouts and closing.
- **Big integers of dtoa** (`Words`, `Bigints`). Word arrays against the integers they stand for, in the 32-bit word,
  64-bit product configuration.
- **HTTP body framing** (`HttpBody`). Block jumps and body marks against a byte-at-a-time parser; section 4.1 and section
  3.3.3 of RFC 7230.
- **String codecs** (`JsonString`, `Sds`). JSON strings (section 7 of RFC 8259, section 3 of RFC 3629) and sds quoting,
  splitting and joining.
- **Object pool** (`ObjPool`). The index-linked free lists.

The kernel, the clock and client code are parameters or nondeterministic choices: `readv` and `writev` return any
legal count or fail, callbacks do anything the interface allows, uninitialised memory holds anything.

## Where the code falls short of a property

For each, the members named give the exact condition under which the property holds and inputs for which it fails.

- A timer whose delay exceeds 90001000 ms is filed outside the day wheel for some cursor. Registration clamps, a callback's
  return value is not clamped (`TimerWheel.DaySlotInRange`, `TimerWheel.LargestReturnMissesTheWheel`).
- A packet header whose length plus four wraps in 32 bits breaks framing (`Framing.CutIsWholeIffNoWrap`,
  `Framing.WrappedHeaderMakesNoProgress`).
- A null array inside a reply makes the parser wait for a reply that never comes
  (`RespCodec.ReadBackIffNoNullArray`).
- The reply parser accepts more than RESP2: bytes between the CR and the LF of a line, signs anywhere in a number, and any
  two bytes behind a bulk string; `RespGrammar.RepliesAreForms` says exactly what.
- A negative integer cut behind its sign loses the sign, and the value shows it unless a null array swallows it
  (`RespResume.ResumesIffNoSign`, `RespCodec.SplitSignIsLost`, `RespResume.SignInNullArray`).
- `_chk_stream_socket_send` may report an error for a buffer it has accepted, exactly when it tries to write at once
  (`SendPath.AcceptedIsOkIff`). On a socket that stays open this happens when that write empties the buffer's queue or
  leaves it at the high-water mark (`SendPath.LateErrorIff`, `SendPath.LateError`); the redis client then hands replies to
  the wrong requests (`RedisClient.PairingSurvivesIff`, `RedisClient.CompleteWriteShiftsReplies`).
- The size of a redis command is added up in an `int`, so it is wrong from 2^31 bytes on (`RespCodec.CommandLength`).
- Bytes from 128 up pass as chunk size digits of value zero (`HttpBody.SizeDigitsAccepted`). An error right behind chunk
  data of the same call discards that data (`HttpBody.LosesBodyIff`, `HttpBody.ErrorLosesUncutData`). A call without data
  does not leave the state of a body without length, so a second one completes the message again (`HttpBody.Execute`).
- Copy-on-write reads past the head chunk when the data starts inside it and leaves it (`ByteBuffer.CopyIsExactIff`).
- A rewrite at offset 0 uses an uninitialised index (`BufferAccess.RewriteRightIff`, `BufferAccess.RewriteAtZeroIff`). One
  whose 32-bit end wraps may change data although it is refused (`BufferAccess.PastEndIsHarmlessIff`). A rewrite or a
  drain of the original reaches its clones (`BufferAccess.CloneSurvivesRewriteIff`, `BufferAccess.CloneSurvivesDrainIff`).
- `_pool_new` rounds the number asked for down to whole chunks in both branches, so there is room for it at once if and
  only if it is a multiple of 64 (`ObjPool.PoolNew`).
- JSON strings may contain raw control characters, which section 7 of RFC 8259 forbids; `JsonString.AcceptsIff` says exactly
  what is accepted.
- A second release of the same object closes a cycle in its chunk's free list (`ObjPool.ReleaseKeepsChainIff`).

## Model

| member | source | states |
|---|---|---|
| `NaiveTimers.EveryRunIsSound` | src/util/chk_timer.c:138-165 | over every run of the reference manager each timer is destroyed at most once, no destroyed timer stays live, and no live timer is ever overdue |
| `NaiveTimers.NoTimerIsMissed` | src/util/chk_timer.c:204-210 | once the clock has passed the expiry of a live timer, its callback was started exactly at that tick or the timer was destroyed; no timer is late, early or lost |
| `NaiveTimers.NeverFiredAfterCleaning` | src/util/chk_timer.c:233-240 | after a timer is destroyed its callback is never started again, in any run |
| `NaiveTimers.FiredExactlyAtExpiry` | src/util/chk_timer.c:147-150 | the reference accepts a callback only at its timer's expiry tick; that the wheel meets this is `TimerWheel.PopInv`, `TimerWheel.FireInv` and `TimerWheel.TimerManager.Start` |
| `NaiveTimers.StepSound` | src/util/chk_timer.c:138-165 | each event of the reference manager keeps its invariant |
| `NaiveTimers.StepAccounts` | src/util/chk_timer.c:138-165 | each event keeps the account of a waiting timer: still waiting and not due, fired at its expiry, or destroyed |
| `TimerWheel.DaySlotInRange` | src/util/chk_timer.c:116-122 | the day slot lies inside the 24-slot wheel for every cursor if and only if the delay is at most 90001000 ms |
| `TimerWheel.LargestReturnMissesTheWheel` | src/util/chk_timer.c:153-155 | a callback's positive return value is not clamped: the largest one yields a slot outside the day wheel |
| `TimerWheel.PlacementOnTime` | src/util/chk_timer.c:112-131 | the slot chosen for any admissible delay is in range and comes up no later than the timer is due, also while higher wheels still lag in the current tick |
| `TimerWheel.ChooseSlot` | src/util/chk_timer.c:117-130 | the division loop ends in the slot given by the closed form of the delay |
| `TimerWheel.SlotFor` | src/util/chk_timer.c:112-131 | `_reg` picks a slot inside its wheel that comes up in time |
| `TimerWheel.AdvanceOnTime` | src/util/chk_timer.c:142-145 | moving a cursor keeps every other slot on time and makes the timers of the new slot due exactly now on the first wheel, strictly later on the others |
| `TimerWheel.NothingDue` | src/util/chk_timer.c:204-210 | between ticks nothing linked into a slot is due |
| `TimerWheel.RegInv` | src/util/chk_timer.c:112-131 | linking a timer into an on-time slot keeps the invariant: every live timer is in exactly the one list its link names, and every list is on time |
| `TimerWheel.RegisterInv` | src/util/chk_timer.c:212-231 | registering adds one timer, clamped to the allowed timeouts, as one event of the reference manager |
| `TimerWheel.RemovalInv` | src/util/chk_timer.c:233-240 | destroying a linked timer is one event of the reference manager and keeps the invariant |
| `TimerWheel.DestroyInv` | src/util/chk_timer.c:133-136 | destroying a timer outside every list keeps the invariant and logs it as cleaned once |
| `TimerWheel.TickInv` | src/util/chk_timer.c:204-210 | a tick is allowed because nothing is due, and only the first wheel lags after it |
| `TimerWheel.AdvanceInv` | src/util/chk_timer.c:138-145 | taking over the slot a cursor reaches keeps the invariant |
| `TimerWheel.PopInv` | src/util/chk_timer.c:147-160 | a popped timer is due exactly now while callbacks run and strictly later while cascading |
| `TimerWheel.FireInv` | src/util/chk_timer.c:147-150 | starting a popped timer's callback is a legal event: its expiry is this tick |
| `TimerWheel.RearmInv` | src/util/chk_timer.c:151-155 | re-arming after a callback is a legal event |
| `TimerWheel.TimerManager.constructor` | src/util/chk_timer.c:167-175 | a new manager has no timers and the empty run |
| `TimerWheel.TimerManager.Reg` | src/util/chk_timer.c:112-131 | links a held timer into a slot and changes nothing else |
| `TimerWheel.TimerManager.Register` | src/util/chk_timer.c:212-231 | from outside or inside a callback: a new timer is due after 1 ms for 0, after ms for 1 to 86399999 and after 86399999 ms above that; the run grows by exactly this registration and the manager still refines the reference |
| `TimerWheel.TimerManager.Unregister` | src/util/chk_timer.c:233-240 | outside its own callback a timer is gone and destroyed at once; inside it is only marked; one event of the reference |
| `TimerWheel.TimerManager.Callback` | src/util/chk_timer.c:147-151 | any client callback: any number of registrations and unregistrations keeps the invariant while `fire` is under way |
| `TimerWheel.TimerManager.Start` | src/util/chk_timer.c:147-150 | the asserted equality of tick and expiry holds when a callback starts |
| `TimerWheel.TimerManager.Finish` | src/util/chk_timer.c:151-156 | after a callback the timer is destroyed if it was unregistered meanwhile or the value is negative, due again after the value if that is positive and after its old timeout if it is zero; no other timer changes |
| `TimerWheel.TimerManager.RunDue` | src/util/chk_timer.c:146-157 | the callback loop empties the slot; every timer in it is due now |
| `TimerWheel.TimerManager.Cascade` | src/util/chk_timer.c:158-161 | the cascade loop moves every timer to a lower wheel and changes nothing else |
| `TimerWheel.TimerManager.Fire` | src/util/chk_timer.c:138-165 | advancing a wheel and carrying into the next one ends with no wheel lagging and no list left over |
| `TimerWheel.TimerManager.RunTo` | src/util/chk_timer.c:204-210 | ticking up to `now` refines the reference manager at every tick on the way; of every timer due by then the callback was started at exactly its expiry, or the timer was destroyed |
| `TimerWheel.WheelServes` | src/util/chk_timer.c:138-165 | between any two moments of the wheel, whatever calls lie between: a timer whose expiry the clock has reached was called back at exactly that tick, or destroyed |
| `TimerWheel.RegisterAndRun` | src/util/chk_timer.c:204-231 | a timer registered now and any later time past its expiry: it was called back at its expiry or destroyed |
| `NaiveTimers.RunDetermined` | src/util/chk_timer.c:138-165 | the events decide the states: a longer run has the states of the shorter one |
| `TimerWheel.TimerManager.Finalize` | src/util/chk_timer.c:177-191 | finalizing leaves no timer and every one that was live is destroyed |
| `TimerWheel.WheelForgets` | src/util/chk_timer.c:151-156 | between any two moments of the wheel, a timer destroyed or unregistered in its own callback is not called again, and is destroyed once that callback has returned |
| `TimerWheel.WheelKeeps` | src/util/chk_timer.c:133-165 | between any two moments of the wheel, a timer stays or is destroyed; none disappears |
| `NaiveTimers.ReturnDecides` | src/util/chk_timer.c:151-156 | over every run, what the return value of a callback means for its timer |
| `NaiveTimers.UnregisterIsFinal` | src/util/chk_timer.c:233-240 | over every run, an unregistered timer is never called again and is destroyed unless its callback is still running |
| `NaiveTimers.NeverDropped` | src/util/chk_timer.c:133-165 | over every run, a timer that was live is live or destroyed |
| `SendPath.GatherBuffer` | src/socket/chk_stream_socket.c:137-154 | the iovecs of one buffer are its memory stretches up to the iovec limit; if the size cap is reached, exactly as many of their bytes |
| `SendPath.GatherQueue` | src/socket/chk_stream_socket.c:164-185 | the iovecs hold exactly the bytes of the first 1024 memory stretches of the queue, cut at 64 KiB |
| `SendPath.GatheredIsAllIff` | src/socket/chk_stream_socket.c:164-185 | these are the first pending bytes, never none, and all of them if and only if the queue has at most 1024 stretches and 64 KiB |
| `SendPath.PrepareSend` | src/socket/chk_stream_socket.c:118-186 | urgent data is chosen unless a normal buffer has been begun, then only the rest of that buffer is offered; exactly which bytes |
| `SendPath.AdvanceBuffer` | src/socket/chk_stream_socket.c:98-113 | a partly sent buffer keeps exactly its unsent bytes |
| `SendPath.UpdateSendList` | src/socket/chk_stream_socket.c:80-115 | exactly the first n pending bytes are dropped; at most the last touched buffer is cut |
| `SendPath.SendKeepsHistory` | src/socket/chk_stream_socket.c:80-115 | taking the first n pending bytes keeps the wire a sequence of whole buffers and at most one prefix, and each queue first in, first out |
| `SendPath.NothingElseBegun` | src/socket/chk_stream_socket.c:126-156 | a write confined to a begun buffer begins no other |
| `SendPath.DoWrite` | src/socket/chk_stream_socket.c:382-396 | exactly the first n bytes of the iovecs go on the wire, n being what the kernel takes of them |
| `SendPath.Commit` | src/socket/chk_stream_socket.c:407-409 | when the bytes taken are the first pending ones, the wire grows by exactly them and the queues lose exactly them |
| `SendPath.WriteKeepsOk` | src/socket/chk_stream_socket.c:407-409 | a short or complete write of the first n pending bytes keeps the socket invariant, the 32-bit count of pending bytes included |
| `SendPath.QueueKeepsOk` | src/socket/chk_stream_socket.c:547-556 | queueing a buffer keeps the socket invariant and appends to what its queue accepted |
| `SendPath.ProcessWrite` | src/socket/chk_stream_socket.c:399-434 | one gathered write with any kernel answer: exactly the bytes taken of what was offered leave the chosen queue, are logged as sent and counted, whole buffers and at most one prefix; while urgent buffers wait no normal buffer is begun; when the socket closes for writing |
| `SendPath.Sender.OnWritable` | src/socket/chk_stream_socket.c:399-434 | the write event: the actual wire stays equal to the logged one |
| `SendPath.Sender.Send` | src/socket/chk_stream_socket.c:527-579 | which buffers are refused, unchanged; an accepted buffer joins its queue whatever code is returned; for every kernel answer the code, what stays pending and whether the socket stays open, all in terms of the state before the call |
| `SendPath.AcceptedIsOkIff` | src/socket/chk_stream_socket.c:557-578 | an accepted buffer is reported as accepted for every kernel answer if and only if the guard for an immediate write is false |
| `SendPath.OkStaysOpen` | src/socket/chk_stream_socket.c:404-434 | a send call that closes the socket for writing does not return 0 |
| `SendPath.LateErrorIff` | src/socket/chk_stream_socket.c:557-578 | an error for an accepted buffer on a socket that stays open is possible if and only if a write is tried and it can empty the buffer's queue in one gather, or the 32-bit count after it can be at the high-water mark |
| `SendPath.LateErrorWitness` | src/socket/chk_stream_socket.c:557-578 | under that condition, a kernel answer that brings it about |
| `SendPath.IdleLateError` | src/socket/chk_stream_socket.c:559-564 | on an idle socket a complete write of at most 64 KiB is reported as a write error and leaves the socket idle and open |
| `SendPath.LateError` | src/socket/chk_stream_socket.c:527-579 | on a new socket: 64 KiB taken at once are reported as a failure, the next smaller buffer as accepted, whatever the kernel answers |
| `ChunkHeap.ReleaseOk` | src/util/chk_bytechunk.c:72-78 | giving up a reference frees exactly the chunks no owner is left for, and every refcount stays the number of owners |
| `ChunkHeap.RetainOk` | src/util/chk_bytechunk.c:64-70 | taking a reference keeps every refcount equal to the number of owners |
| `ChunkHeap.StoreMem` | src/socket/chk_stream_socket.c:226-249 | bytes stored at the end of the stream disturb nothing before it |
| `ChunkHeap.RootMem` | src/util/chk_bytechunk.c:64-78 | from an owned chunk on, every chunk of the chain is in memory |
| `ChunkHeap.BytesAreStream` | src/util/chk_bytechunk.c:83-101 | what can be read in memory along the links from an owned chunk on is the stream |
| `ChunkHeap.Read` | src/util/chk_bytechunk.c:83-101 | reading across chunk boundaries yields the bytes of the stream |
| `Framing.WholeIsFrame` | src/socket/chk_decoder.c:22-39 | a cut is complete and legal if and only if it is the frame of its payload |
| `Framing.BigEndian` | src/socket/chk_decoder.c:25-27 | the length in network byte order, most significant byte first |
| `Framing.NextOfHeader` | src/socket/chk_decoder.c:22-39 | for every announced length and whatever follows: undecided before the first payload byte, zero and too large refused at once, otherwise the packet as soon as it is complete |
| `Framing.CutIsWholeIffNoWrap` | src/socket/chk_decoder.c:32-38 | the packet cut off is the one the header announces if and only if length plus four does not wrap in 32 bits |
| `Framing.WrappedHeaderMakesNoProgress` | src/socket/chk_decoder.c:32-61 | a header that wraps to zero yields an empty packet and no progress |
| `Framing.DecodingUnique` | src/socket/chk_decoder.c:15-64 | a stream has only one decoding into packets and a rest |
| `Framing.LegalStreamDecodes` | src/socket/chk_decoder.c:15-64 | frames followed by a part of one more decode to exactly the frames |
| `Framing.DecodedIsUnwrapped` | src/socket/chk_decoder.c:15-64 | a stream that decodes into packets has no wrapping header |
| `Framing.PrefixIsUnwrapped` | src/socket/chk_decoder.c:15-64 | nor has any part of it that has arrived |
| `Framing.PacketsArePrefix` | src/socket/chk_decoder.c:15-64 | packets that make up the beginning of a stream are the first of its decoding |
| `RecvPath.PrepareRecv` | src/socket/chk_stream_socket.c:189-223 | one or two iovecs over the chunk being filled and its successor |
| `RecvPath.UpdateNextRecvPos` | src/socket/chk_stream_socket.c:226-249 | after a read the receive cursor is at the end of the stream |
| `RecvPath.Unpack` | src/socket/chk_decoder.c:15-64 | the decoder cuts off exactly the next packet of the unread stream, or leaves everything as it is |
| `RecvPath.Advance` | src/socket/chk_decoder.c:47-61 | the decoder window moves by the packet, chunk by chunk, with its reference |
| `RecvPath.ReadHeader` | src/socket/chk_decoder.c:22-26 | the header is read correctly across a chunk boundary |
| `RecvPath.CloneInv` | src/util/chk_bytechunk.c:180-188 | cloning a packet keeps refcounts equal to owners |
| `RecvPath.DropInv` | src/util/chk_bytechunk.c:216-219 | dropping a packet keeps refcounts equal to owners and what others still reach |
| `RecvPath.DecoderStepInv` | src/socket/chk_decoder.c:55-60 | moving the decoder to the next chunk keeps the receive invariant |
| `RecvPath.GrowInv` | src/socket/chk_stream_socket.c:189-223 | adding a chunk behind the one being filled keeps the receive invariant |
| `RecvPath.PacketLogOk` | src/socket/chk_decoder.c:39-63 | the packets delivered make up the consumed part of the stream |
| `RecvPath.PacketSocket.Callback` | src/socket/chk_stream_socket.c:471-502 | any callback may clone and delete packets and close the socket; the invariant survives |
| `RecvPath.PacketSocket.DeliverAll` | src/socket/chk_stream_socket.c:471-502 | every complete packet is delivered unless a callback closes the socket |
| `RecvPath.PacketSocket.OnReadable` | src/socket/chk_stream_socket.c:452-523 | one read event with any legal count: the stream grows by the bytes read, the packets delivered are its decoding, and what the decoder says of the rest, an error included, is reported |
| `RecvPath.PacketSocket.Close` | src/socket/chk_stream_socket.c:251-281 | closing releases the socket's and decoder's references; packets the client kept can still be read in memory with the bytes delivered, and memory is empty when none is kept |
| `RecvPath.LegalPacketsDelivered` | src/socket/chk_stream_socket.c:452-523 | however `readv` segments a stream of legal frames, exactly the complete frames are delivered, in order |
| `RecvPath.DeliveredArePackets` | src/socket/chk_stream_socket.c:471-502 | at any time, closed or not, the packets delivered are the first frames of the stream |
| `RecvPath.KeptPacketsUnchanged` | src/socket/chk_stream_socket.c:226-249 | later reads never change the bytes in chunk memory of a packet the client still holds, and they are those of a delivered packet |
| `RecvPath.PacketInMemory` | src/util/chk_bytechunk.c:64-101 | a packet whose head chunk is owned can be read in memory and has the bytes it was cut from |
| `RecvPath.ServeLegal` | src/socket/chk_stream_socket.c:452-523 | a new socket fed a stream of legal frames and a part of one more, with any counts from `readv`: only the frames are delivered, in order, and all of them unless a callback closes |
| `RecvPath.NoOwners` | src/util/chk_bytechunk.c:72-78 | memory without owners is empty: nothing leaks |
| `RecvPath.ReaderInit` | src/socket/chk_buffer_reader.c:3-21 | the reader starts behind the header even when it straddles chunks |
| `RecvPath.ReaderRead` | src/socket/chk_buffer_reader.c:23-27 | the reader yields the next payload bytes, or nothing if fewer remain |
| `Resp.Parse` | src/redis/chk_client.c:266-310 | one call agrees with the byte-at-a-time machine from the reset state: same reply, same position, retry only with all input used |
| `Resp.ParseMulti` | src/redis/chk_client.c:188-261 | an array agrees with the byte machine, nested replies included |
| `Resp.ParseBulk` | src/redis/chk_client.c:119-151 | a bulk string agrees with the byte machine |
| `Resp.ParseInteger` | src/redis/chk_client.c:99-117 | an integer agrees with the byte machine |
| `Resp.ParseLine` | src/redis/chk_client.c:73-97 | a line agrees with the byte machine |
| `Resp.ParseSized` | src/redis/chk_client.c:73-97 | a text of known length agrees with the byte machine |
| `Resp.RunConcat` | src/redis/chk_client.c:266-310 | input behind a finished reply does not matter; behind an unfinished one parsing goes on |
| `Resp.ChildRun` | src/redis/chk_client.c:188-261 | an array's run is its current child's run, then its own |
| `Resp.ResetUnlessSign` | src/redis/chk_client.c:288-293 | the reset on resume changes the state if and only if a sign is pending |
| `RespGrammar.RepliesAreForms` | src/redis/chk_client.c:62-310 | the byte strings read as replies are exactly those of the grammar, each with its end and its meaning |
| `RespGrammar.FormRun` | src/redis/chk_client.c:62-310 | every form of the grammar, at any nesting depth, is read exactly and with its meaning |
| `RespGrammar.FormMust` | src/redis/chk_client.c:62-310 | whatever is read as a reply is a form of the grammar |
| `RespGrammar.ErrorIffHopeless` | src/redis/chk_client.c:62-310 | the parser gives up if and only if nothing that could follow makes the input begin with a reply |
| `RespGrammar.DecimalIsNumber` | src/redis/chk_client.c:62-71 | decimal numbers are number lines of their value, without needless zeros |
| `RespGrammar.CommandIsForm` | src/redis/chk_client.c:724-731 | a formatted command is the count of its arguments, then each with its length, all ended by CR LF |
| `RespCodec.ReadsValue` | src/redis/chk_client.c:266-310 | every legal reply, nested to any depth, is read back exactly and no byte behind it is touched |
| `RespCodec.Consumes` | src/redis/chk_client.c:188-261 | reading a value brings the parser one reply forward and one back for every null array in it |
| `RespCodec.ReadBackIffNoNullArray` | src/redis/chk_client.c:188-261 | a reply is read back if and only if it contains no null array; otherwise the parser goes on waiting |
| `RespCodec.SegmentationIndependent` | src/redis/chk_client.c:266-310 | feeding a reply in any pieces that do not end behind a sign gives the same result as one piece |
| `RespCodec.ReplyArrives` | src/redis/chk_client.c:266-310 | a legal reply arrives in any such pieces from exactly its own bytes |
| `RespCodec.SplitSignIsLost` | src/redis/chk_client.c:288-293 | a negative number cut behind its sign comes out positive |
| `RespResume.ResumesIffNoSign` | src/redis/chk_client.c:288-293 | a caller cannot tell a resumed parser from an uninterrupted one, for every continuation, if and only if no sign is pending outside null arrays; otherwise a given continuation ends in two replies with different values |
| `RespResume.LostSignShows` | src/redis/chk_client.c:288-293 | from every reachable state with such a sign, in arrays nested to any depth, the same input gives different values with and without it |
| `RespResume.RunAlike` | src/redis/chk_client.c:266-310 | two parser states that differ only where it does not show have the same outcome on every input |
| `RespResume.RunShaped` | src/redis/chk_client.c:266-310 | every state in which the parser waits satisfies what the condition above asks for |
| `RespResume.SignInNullArray` | src/redis/chk_client.c:188-261 | a sign pending inside a null array does not show |
| `RespCodec.IntLenIsLength` | src/redis/chk_client.c:470-494 | `intlen` is the number of decimal digits |
| `RespCodec.CommandLength` | src/redis/chk_client.c:705-714 | the size added up in a 32-bit int, wrapping included: it is the size of the command if and only if that is below 2^31 |
| `RespCodec.FormatCommand` | src/redis/chk_client.c:716-734 | the command fills its buffer exactly |
| `RespCodec.CommandRoundTrip` | src/redis/chk_client.c:716-734 | a formatted command parsed as a reply is the array of its arguments, byte for byte |
| `RedisStream.PiecesDoNotMatter` | src/redis/chk_client.c:345-414 | however a reply stream is cut up, away from signs, the same replies come out |
| `RedisStream.PartOfReply` | src/redis/chk_client.c:345-414 | a part of a legal reply leaves the parser waiting |
| `RedisStream.RepliesArrive` | src/redis/chk_client.c:345-414 | legal replies and a part of one more, in any such pieces: exactly the complete replies come out, in order |
| `RedisClient.Accounting` | src/redis/chk_client.c:345-414 | replies received, timeouts outstanding and requests waiting add up to the requests sent; a reply finds somebody it is meant for if and only if not all requests are answered |
| `RedisClient.PairingSurvivesIff` | src/redis/chk_client.c:815-841 | the pairing survives a send for every kernel answer if and only if the socket refuses the command, does not write at once, or can in that write neither empty the command's queue nor stay at the high-water mark |
| `RedisClient.LateErrorShiftsReplies` | src/redis/chk_client.c:815-841 | from any client and socket: after a command accepted with an error on a socket that stays open and one accepted without, the replies to all earlier requests are followed by reply N reaching the callback of request N + 1 |
| `RedisClient.CompleteWriteShiftsReplies` | src/redis/chk_client.c:815-841 | for every client with an idle socket a 64 KiB command written completely at once brings that about |
| `RedisClient.ShiftedReply` | src/redis/chk_client.c:815-841 | on a new connection: the reply to the first command, reported as failed, goes to the callback of the second |
| `RedisClient.SkipOk` | src/redis/chk_client.c:363-366 | the reply to a timed-out request is dropped and keeps the pairing |
| `RedisClient.AnswerOk` | src/redis/chk_client.c:366-374 | a reply reaches the waiting request with the same number |
| `RedisClient.ExpireOk` | src/redis/chk_client.c:789-813 | a timeout settles the oldest request and is remembered for its reply |
| `RedisClient.EveryCallbackOnce` | src/redis/chk_client.c:324-343 | of a destroyed client every request with a callback was called back exactly once, with its own reply if with any |
| `RedisClient.RedisClient.Execute` | src/redis/chk_client.c:815-841 | a request reported as sent is numbered and waits until 10000 ms later, any other leaves no trace; the pairing holds afterwards if and only if the report is right |
| `RedisClient.RedisClient.Destroy` | src/redis/chk_client.c:324-343 | whoever still waits is told, in order, that the connection is lost, requests sent by those callbacks included, and nobody is told anything else |
| `RedisClient.RedisClient.Close` | src/redis/chk_client.c:462-467 | closing outside a callback tells all that wait, in order, and ends with every request settled |
| `RedisClient.RedisClient.OnTimer` | src/redis/chk_client.c:789-813 | exactly the first waiting requests whose deadline has passed are told so, in order, and are remembered for their replies; the others go on waiting in order; if a callback closes the client the rest are told that the connection is lost |
| `RedisClient.RedisClient.OnReply` | src/redis/chk_client.c:362-383 | one reply: skipped if a timed-out request is owed one, otherwise the oldest waiting request is told it and only that one; its callback may send and close |
| `RedisClient.RedisClient.OnPiece` | src/redis/chk_client.c:356-402 | one chunk: exactly the replies it completes are received |
| `RedisClient.RedisClient.OnData` | src/redis/chk_client.c:345-414 | a received buffer: exactly the replies its chunks complete are received, unless the client was closed on the way |
| `RedisClient.RedisClient.OnDisconnect` | src/redis/chk_client.c:404-413 | a lost connection settles every request, and no reply is invented |
| `RedisClient.Converse` | src/redis/chk_client.c:345-414 | a new client sends requests and is fed legal replies in any pieces that part no sign from its digits: unless it is closed it has received exactly the replies, and the callback of every answered request was given the reply to it |
| `Bigints.MultAdd` | deps/lua-cjson-2.1.0/dtoa.c:612-667 | exactly b*m + a, growing when it must |
| `Bigints.Mult` | deps/lua-cjson-2.1.0/dtoa.c:805-913 | exactly the product |
| `Bigints.PowerCache.Power` | deps/lua-cjson-2.1.0/dtoa.c:917-972 | the lazily grown chain holds 5^(4*2^i) at position i in every reachable state |
| `Bigints.PowerCache.Pow5Mult` | deps/lua-cjson-2.1.0/dtoa.c:917-972 | exactly b*5^k for every k |
| `Bigints.LShift` | deps/lua-cjson-2.1.0/dtoa.c:974-1032 | exactly b*2^k |
| `Bigints.Cmp` | deps/lua-cjson-2.1.0/dtoa.c:1034-1066 | the sign of the difference |
| `Bigints.Diff` | deps/lua-cjson-2.1.0/dtoa.c:1068-1160 | the absolute difference and which operand was smaller |
| `Bigints.SubMul` | deps/lua-cjson-2.1.0/dtoa.c:2160-2190 | the in-place multiply-and-subtract loop takes off exactly q*S, with what is missing as the last borrow |
| `Bigints.SubWord` | deps/lua-cjson-2.1.0/dtoa.c:2163-2169 | one word of the subtraction in wrapping 64-bit arithmetic: product, carry and borrow add up |
| `Bigints.QuotientEstimate` | deps/lua-cjson-2.1.0/dtoa.c:2143-2149 | the estimate from the top words is the quotient or one less |
| `Bigints.TakeEstimate` | deps/lua-cjson-2.1.0/dtoa.c:2146-2190 | the estimated digit is taken off and less than twice the divisor is left |
| `Bigints.Correct` | deps/lua-cjson-2.1.0/dtoa.c:2192-2241 | one comparison and at most one more subtraction leave less than the divisor |
| `Bigints.Quorem` | deps/lua-cjson-2.1.0/dtoa.c:2119-2241 | returns the quotient and leaves the remainder, with at most one correction |
| `Bigints.Hi0Bits` | deps/lua-cjson-2.1.0/dtoa.c:707-739 | the number of zero bits above the top one bit |
| `Bigints.DShift` | deps/lua-cjson-2.1.0/dtoa.c:2106-2117 | the shift amount modulo 32 that `dshift` computes |
| `Bigints.ShiftLeavesFourZeroBits` | deps/lua-cjson-2.1.0/dtoa.c:2106-2117 | shifting by it leaves exactly four zero bits above the divisor, which is what the digit loop needs |
| `HttpBody.RunInv` | deps/http-parser/http_parser.c:1719-1883 | in every reachable state the asserted conditions hold and no length wraps or meets the sentinel |
| `HttpBody.JumpRun` | deps/http-parser/http_parser.c:1719-1760 | jumping over body bytes equals taking them one at a time |
| `HttpBody.RunConcat` | deps/http-parser/http_parser.c:1676-1883 | a run over two pieces is the run over the first continued on the second |
| `HttpBody.Execute` | deps/http-parser/http_parser.c:576-1922 | on data, one call agrees with the byte-at-a-time parser, and the body callbacks add up to the body if and only if no error strikes right behind chunk data; without data it completes a body without length, does nothing between messages and fails elsewhere |
| `HttpBody.PiecesDoNotMatter` | deps/http-parser/http_parser.c:1676-1883 | any segmentation into non-empty pieces gives the run of the whole input |
| `HttpBody.ExecuteAll` | deps/http-parser/http_parser.c:576-1922 | calls on any non-empty pieces, and one without data when the connection closes, report the body of the whole input and complete the message at most once, exactly where it ends; only a failing call may report less |
| `HttpBody.ErrorLosesUncutData` | deps/http-parser/http_parser.c:1847-1876 | the same malformed input loses its chunk data or not, depending on where it was cut |
| `HttpBody.LosesBodyIff` | deps/http-parser/http_parser.c:1847-1876 | data is lost if and only if, inside the piece, the input ends behind chunk data and goes on without the CR |
| `HttpBody.SizeDigitsAccepted` | deps/http-parser/http_parser.c:180-189 | a byte passes as a size digit if and only if it is a hexadecimal digit, with its value, or at least 128, as a zero |
| `HttpBody.SizeRefusedIff` | deps/http-parser/http_parser.c:1806-1816 | a chunk size is refused if and only if it would reach 2^64 - 16 |
| `HttpBody.RunSizeLine` | deps/http-parser/http_parser.c:1767-1845 | a size line with any extension announces its hexadecimal value |
| `HttpBody.RunChunk` | deps/http-parser/http_parser.c:1847-1883 | a chunk's data is body and the parser is ready for the next one |
| `HttpBody.DecodesChunked` | deps/http-parser/http_parser.c:1767-1883 | every legal chunked body is decoded exactly, up to the end of the message |
| `HttpBody.OnlyCodings` | deps/http-parser/http_parser.c:1767-1883 | whatever is decoded to the end of a message is a legal chunked body with that payload |
| `HttpBody.DecodesChunkedIff` | deps/http-parser/http_parser.c:1767-1883 | a chunked message completes if and only if a legal coding stands there, at its end and with its payload |
| `HttpBody.MessageBody` | deps/http-parser/http_parser.c:1676-1717 | from the end of the headers on, for every branch: no body, the payload of a legal coding, exactly the next n bytes, or everything until the connection closes; complete exactly where that ends |
| `HttpBody.HeadersEnd` | deps/http-parser/http_parser.c:1676-1717 | the line end behind the headers leads to the body state the headers call for; any other byte is an error |
| `HttpBody.DecodesIdentity` | deps/http-parser/http_parser.c:1719-1760 | a body with a length is the next that many bytes and a close before that is an error; one without is everything until the call without data, which completes it |
| `HttpBody.CloseEndsMessageIff` | deps/http-parser/http_parser.c:1676-1717 | the closing of the connection ends a message if and only if it is a response that may have a body and says nothing about its length |
| `ByteBuffer.SizeOfPow2Rounds` | src/util/chk_util.h:28-41 | the smallest power of two not below the size, if and only if there is one in 32 bits |
| `ByteBuffer.CapacitySuffices` | src/util/chk_bytechunk.c:48-62 | a new chunk holds what was asked for if and only if that is at most 2^31 bytes, despite the unparenthesised MAX |
| `ByteBuffer.WrittenOk` | src/util/chk_bytechunk.c:240-266 | writing behind the data extends the content and disturbs nothing before it |
| `ByteBuffer.GrownOk` | src/util/chk_bytechunk.c:240-266 | a new tail chunk keeps the content |
| `ByteBuffer.AppendLoop` | src/util/chk_bytechunk.c:240-266 | the copy loop appends all bytes |
| `ByteBuffer.CopyIsExactIff` | src/util/chk_bytechunk.c:190-214 | a copy equals the content whatever memory holds if and only if the data starts at the head chunk's first byte or stays inside it |
| `ByteBuffer.CollectLoop` | src/util/chk_bytechunk.c:200-207 | the copy loop collects up to a whole capacity from every chunk |
| `ByteBuffer.DoCopy` | src/util/chk_bytechunk.c:190-214 | copy-on-write moves the content into a chunk of its own |
| `ByteBuffer.Append` | src/util/chk_bytechunk.c:225-266 | the content grows by the bytes, a read-only buffer is refused, and no earlier byte of any sharer changes |
| `ByteBuffer.CloneHasContent` | src/util/chk_bytechunk.c:180-188 | a clone has the content of its original |
| `ByteBuffer.SnapshotSurvives` | src/util/chk_bytechunk.c:180-266 | a buffer over the same chunks keeps its content through another's append |
| `BufferAccess.Read` | src/util/chk_bytechunk.c:319-357 | the bytes at an offset, cut at the end of the data |
| `BufferAccess.ReadDrain` | src/util/chk_bytechunk.c:359-389 | all or nothing off the front; the rest stays readable and appendable |
| `BufferAccess.CloneSurvivesDrainIff` | src/util/chk_bytechunk.c:373-379 | draining a shared head chunk leaves a clone whole if and only if the clone's data ends in that chunk |
| `BufferAccess.WriteAt` | src/util/chk_bytechunk.c:103-121 | writing from a cursor overwrites the path as far as it goes |
| `BufferAccess.Seek` | src/util/chk_bytechunk.c:413-430 | finds the chunk and index of an offset, or the end of the chain; at offset 0 it leaves the uninitialised index |
| `BufferAccess.Rewrite` | src/util/chk_bytechunk.c:391-437 | for every index and every offset: refused, out of the head chunk, or the content is overwritten as far as it reaches, after copying if need be, when the index is right; the 32-bit sum may wrap |
| `BufferAccess.RewriteInPlace` | src/util/chk_bytechunk.c:413-437 | what is written where, for every value of the uninitialised index |
| `BufferAccess.RewriteRightIff` | src/util/chk_bytechunk.c:391-437 | a rewrite inside the data is right for every value of the uninitialised index if and only if the offset is at least 1 or nothing is written |
| `BufferAccess.InPlaceIsRight` | src/util/chk_bytechunk.c:413-437 | the in-place part succeeds and leaves the intended content if and only if the rewrite is right in that sense |
| `BufferAccess.PastEndIsHarmlessIff` | src/util/chk_bytechunk.c:398-401 | a rewrite past the data leaves it alone if and only if the 32-bit sum is refused or the rewrite starts behind the data |
| `BufferAccess.RewriteAtZeroIff` | src/util/chk_bytechunk.c:413-432 | at offset 0 an index is right for all data of a length if and only if it is the start position |
| `BufferAccess.CloneSurvivesRewriteIff` | src/util/chk_bytechunk.c:391-437 | a clone keeps its content through a rewrite of its original if and only if nothing new is written |
| `BufferObject.OwnedBuffer.constructor` | src/util/chk_bytechunk.c:145-152 | a new buffer is empty |
| `BufferObject.OwnedBuffer.Append` | src/util/chk_bytechunk.c:225-266 | in any mix of calls: the byte string grows at its end |
| `BufferObject.OwnedBuffer.Read` | src/util/chk_bytechunk.c:319-357 | in any mix of calls: a slice of the byte string |
| `BufferObject.OwnedBuffer.ReadDrain` | src/util/chk_bytechunk.c:359-389 | in any mix of calls: a prefix is taken off, or nothing |
| `BufferObject.OwnedBuffer.Rewrite` | src/util/chk_bytechunk.c:391-437 | in any mix of calls: a stretch is overwritten, or nothing, whenever the index is right |
| `BufferObject.ClonePair.constructor` | src/util/chk_bytechunk.c:180-188 | a buffer and its clone start with the same byte string |
| `BufferObject.ClonePair.AppendOriginal` | src/util/chk_bytechunk.c:225-266 | in any interleaving, an append to the original leaves the clone as it was |
| `BufferObject.ClonePair.AppendClone` | src/util/chk_bytechunk.c:225-266 | in any interleaving, an append to the clone leaves the original as it was |
| `JsonString.Utf8RoundTripIff` | deps/lua-cjson-2.1.0/lua_cjson.c:780-815 | the encoding of a code point is well-formed UTF-8 for it if and only if it is a character |
| `JsonString.Utf8Examples` | deps/lua-cjson-2.1.0/lua_cjson.c:780-815 | four encodings given as examples in RFC 3629 |
| `JsonString.DecodeHex4` | deps/lua-cjson-2.1.0/lua_cjson.c:746-778 | the value of four hexadecimal digits or an error, without reading past the terminator |
| `JsonString.AppendUnicodeEscape` | deps/lua-cjson-2.1.0/lua_cjson.c:826-882 | an escape or surrogate pair becomes the UTF-8 of its character; everything else is an error |
| `JsonString.EveryScalarEscapes` | deps/lua-cjson-2.1.0/lua_cjson.c:826-882 | every character has an escape whose value is the character's UTF-8 |
| `JsonString.NextStringToken` | deps/lua-cjson-2.1.0/lua_cjson.c:892-950 | the token the reference gives, with every unchecked append inside the buffer |
| `JsonString.AcceptsIff` | deps/lua-cjson-2.1.0/lua_cjson.c:892-950 | a string is accepted, with its value and end, if and only if it is a quoted sequence of legal units |
| `JsonString.RejectsIff` | deps/lua-cjson-2.1.0/lua_cjson.c:909-934 | a string is refused, with the error and its position, if and only if legal units lead to a position where the text ends, an escape letter is unknown, or no character is escaped |
| `JsonString.UnitForOk` | deps/lua-cjson-2.1.0/lua_cjson.c:160-197 | which bytes are written as they are, with a letter and with a code; each is written as a unit that stands for it |
| `JsonString.DecodedFits` | deps/lua-cjson-2.1.0/lua_cjson.c:1294-1297 | the value is at least two bytes shorter than the text it is read from |
| `JsonString.AppendString` | deps/lua-cjson-2.1.0/lua_cjson.c:470-494 | the JSON text of a byte string, inside the room set aside |
| `JsonString.JsonRoundTrip` | deps/lua-cjson-2.1.0/lua_cjson.c:470-494 | every byte string is read back from wherever its JSON text stands |
| `Sds.CatRepr` | src/util/sds.c:858-881 | the quoted form of a byte string |
| `Sds.ReprOfByte` | src/util/sds.c:861-878 | how each byte is written: as it is, by its letter or by two lower-case digits, always printable and standing for the byte |
| `Sds.GetArg` | src/util/sds.c:943-1021 | the text of the word that stands there and the position behind it, or an error if and only if its quotes are not closed, or not followed by a blank or the end |
| `Sds.SplitArgs` | src/util/sds.c:933-1041 | exactly what the line says: its words, or an error if one is broken |
| `Sds.ArgsIff` | src/util/sds.c:933-1041 | a list of arguments if and only if the line is blanks and words, bare, single-quoted or double-quoted, with these texts; nothing if and only if it is blanks and words up to a broken one |
| `Sds.ArgsOfParse` | src/util/sds.c:933-1041 | however a line is read as blanks and words, the result is what it says |
| `Sds.ParseOf` | src/util/sds.c:933-1041 | every line can be read as blanks and words, up to its end or a broken word |
| `Sds.ReprRead` | src/util/sds.c:950-980 | a quoted string followed by a blank or the end is one argument, whatever its bytes |
| `Sds.ArgsRoundTrip` | src/util/sds.c:933-1041 | any list of byte strings comes back from its quoted forms, whatever blanks stand between them |
| `Sds.ReprRoundTrip` | src/util/sds.c:858-881 | a single quoted string is read back as the one argument |
| `Sds.SplitLen` | src/util/sds.c:795-842 | no tokens for an empty string, none at all for an empty separator, otherwise the split; the token array always has room |
| `Sds.SplitJoin` | src/util/sds.c:795-842 | joining the tokens gives the string back and no token contains the separator |
| `Sds.SplitUnique` | src/util/sds.c:795-842 | a string has only one split with every cut at the first separator |
| `Sds.JoinSds` | src/util/sds.c:1080-1089 | the tokens with the separator between them |
| `ObjPool.NewChunk` | src/util/chk_obj_pool.h:42-56 | a new chunk's links lead through all 64 slots in order |
| `ObjPool.ReleaseKeepsChainIff` | src/util/chk_obj_pool.h:93-105 | releasing a slot leaves an acyclic chain if and only if the slot was not free |
| `ObjPool.AllocatedOk` | src/util/chk_obj_pool.h:58-90 | taking the front slot keeps chains, free list and counts, and the object was not live |
| `ObjPool.ReleasedOk` | src/util/chk_obj_pool.h:93-105 | releasing a live object keeps chains, free list and counts |
| `ObjPool.EmptyListIsFull` | src/util/chk_obj_pool.h:58-90 | the free list is empty if and only if no slot is free |
| `ObjPool.Pool.AddChunk` | src/util/chk_obj_pool.h:63-82 | a new chunk adds 64 free slots and keeps every live object |
| `ObjPool.Pool.NewObj` | src/util/chk_obj_pool.h:58-90 | a zeroed object that was not live, or none if and only if the pool is full at its largest; live objects keep their data |
| `ObjPool.Pool.ReleaseObj` | src/util/chk_obj_pool.h:93-105 | the object is no longer live; the others keep their data |
| `ObjPool.PoolNew` | src/util/chk_obj_pool.h:107-129 | no pool above the chunk limit; otherwise room for the request rounded down to whole chunks |

## Left out

- TimerWheel.TimerManager.Register: asks for a clock that leaves the timer due after the last tick and at most 90001000 ms later; the wrap-around branch of `cal_remain` is not modelled.
- TimerWheel.TimerManager.Callback: returns at most 90001000, since larger return values are filed outside the wheel.
- RecvPath.PacketSocket.OnReadable: asks that no header in the stream wraps in 32 bits, since such a header stops the decoder.
- RedisClient.RedisClient.Callback: sends only commands whose report is right; `Execute` alone covers the others, after which `Ok` no longer holds.
- RespCodec.FormatCommand: asks for a command shorter than 2^31 - 1 bytes; from there on `totlen + 1` overflows the original's `int`.
- RedisClient.RedisClient.Destroy: callbacks run during destruction send at most a given number of requests, since otherwise the loop need not end.
- BufferAccess.Rewrite: says nothing about memory after a write outside the head chunk.
- BufferObject.OwnedBuffer.Rewrite: says nothing about the buffer after a write outside the head chunk.
- ByteBuffer.DoCopy: asks for data that the copy gets right and at most 2^31 bytes; the old head chunk's reference, which the original never gives up, is not counted.
- RedisClient.RedisClient.OnReply: asks that the server sends no more replies than it was asked for; the original takes a waiting request without looking whether there is one, and `Accounting` says when there is.
- RedisClient.RedisClient.OnPiece: asks the same of a chunk.
- RedisClient.RedisClient.OnData: asks the same of a buffer.
- SendPath.Sender.Send: wake-ups of the event loop are not modelled, only queues, counts, flags and codes.
- RespCodec.ReadsValue: status and error lines fit the 512-byte line buffer and numbers fit 64 bits.
- HttpBody.DecodesChunked: trailers are empty; non-empty trailer fields run through the header states.
- Parser, buffer and socket records are passed as values or held in one field of a class: aliasing between C structs is not modelled except for shared chunks.
- SSL branches of the socket, the default decoder, delayed close and shutdown.
- Event loops, acceptor, connector, datagram sockets, signals and threads.
- Lua bindings and Lua-side packing.
- Floating-point parts of dtoa and JSON numbers, objects and arrays.
- HTTP request line, headers, URLs and upgrade handling.
- printf-style argument decoding of `redisvFormatCommand`; the model starts from the finished argument list.
- Allocation failure, the thread-local timer pool and memory alignment.
- Logging, exceptions, base64, bitsets and the intrusive lists, whose contents appear as sequences.
