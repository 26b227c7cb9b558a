# A verified model of the player's FIFO, task pool and FLV field decoding

This project models three parts of the Android media player's native
support code in Dafny and proves what they do.

- **The circular byte FIFO** (`avutil/fifo.c`, `avutil/fifo.h`): a
  `FifoBuffer` owns a byte array. Its read and write cursors wrap at the
  end of the array, and its read and write counters give the number of
  unread bytes. The model is the class `Fifo.FifoBuffer`. `buffer` is an
  `array<bv8>`, the cursors are indices into it, and `Contents()` is the
  ghost sequence of unread bytes: the `Size()` bytes that follow the read
  cursor around the ring. Every operation is proved against `Contents()`.
  The operations are reset, size, space, write (from a byte array or a
  producer callback), peek, peek at an offset, read, drain, realloc, grow
  and `av_fifo_peek2`. The counters keep the widths the C code gives
  them. `rndx` counts modulo 2^64. `wndx` counts modulo 2^32, because the
  write goes through a 32-bit local. The size is their difference
  truncated to 32 bits. `av_fifo_grow` calls `fifo_size` and
  `fifo_realloc2`; they are read as `av_fifo_size` and `av_fifo_realloc2`.
  Capacities stay below 2^31, because size and space are returned as a C
  `int`.
- **The worker pool** (`avutil/threadpool.c`, `avutil/threadpool.h`): a
  bounded circular queue of tasks with a head, a tail, a pending count, a
  shutdown mode and a count of running workers. Threads are not
  modelled. Each critical section is one atomic method of the class
  `ThreadPool.Pool`:
  - admission, with growth of the queue;
  - one iteration of a worker's loop;
  - the shutdown transition of destroy;
  - the guards of create and free.

  The ghost sequence `Pending()` holds the queued tasks, oldest first.

  Three parts of the pool are modelled in their corrected form, and the
  rest of the pool is built on them (Findings rows 2, 3 and 7):
  - Growth (`Pool.Regrow`, used by `Pool.GrowIfNearlyFull` and `Pool.Add`)
    moves the pending tasks to slot 0. threadpool.c lines 157-161 keep
    the head and tail instead. That written form is `AddGrownAsWritten`,
    and `GrownAsWrittenLosesOrder` shows the order it loses.
  - The exit test (`Exits`, used by `Pool.WorkerStep`, `Pool.JoinStep`,
    `Pool.JoinWorkers` and `Pool.Destroy`) lets a worker leave on any
    nonzero mode once the queue is empty. threadpool.c lines 42-46 leave
    only on mode 1, or on mode 2 with an empty queue. That written test is
    `ExitsAsWritten`. `ExitsAgree` shows the two agree for the running
    state and the two shutdown modes the header defines, and
    `WorkerDequeuesFromEmpty` shows where
    they differ.
  - The clean-up after a failed thread start (`RollBack`, used by
    `Create`) destroys the pool with an immediate shutdown, so the workers
    already started leave and are joined. threadpool.c line 121 passes
    mode 0, under which no worker ever leaves (`DestroyZeroKeepsRunning`),
    so the joins never return.
- **The FLV test parser's decoding** (`test/test.cpp`):
  - `reverse_bytes` and the three-byte DataSize and Timestamp sums;
  - the bit fields of the first byte of audio and video tags, and the
    names the parser prints for them (Adobe Flash Video File Format
    Specification 10.1, sections E.2, E.4.1, E.4.2.1 and E.4.3.1);
  - the offset walk of `parseMeta` over the AMF0 ECMA array of the
    onMetaData tag (AMF0 specification, sections 2.2 to 2.4, 2.10 and
    2.14).

  The walk is modelled twice: as written (`Reading.AsWritten`) and as the
  AMF0 format requires (`Reading.Corrected`). An encoder for well-formed
  arrays is its partner: the corrected walk reads back exactly what the
  encoder wrote. The walk as written does too, for fewer than 0x80
  entries that are Numbers or Strings, with names and strings shorter
  than 0x80 bytes.

Files: `fifo.dfy` (module `Fifo`), `threadpool.dfy` (module `ThreadPool`),
`flv.dfy` (module `Flv`) and `amf.dfy` (module `Amf`).

External effects become parameters:

- Allocation results (`allocOk`, `reallocOk`).
- Mutex, signal and join outcomes (`lockOk`, `signalOk`, `wakeOk`,
  `unlockOk`, `joinOk`).
- The number of thread starts that succeed (`spawnable`).
- The producer callback: a function from the call index and the room
  offered to the bytes it stores.

Consumer callbacks are modelled by returning the pieces handed to them
(`segs`).

## Model

| member | source | states |
|---|---|---|
| Fifo.FifoBuffer.Size | third-library/mediaplayer/player/avutil/fifo.c:79-82 | the size is the counter difference taken modulo 2^32, so it is below 2^32 |
| Fifo.FifoBuffer.Space | third-library/mediaplayer/player/avutil/fifo.c:84-87 | the free space plus the number of unread bytes is the capacity, and the space is never negative |
| Fifo.FifoBuffer.constructor | third-library/mediaplayer/player/avutil/fifo.c:29-43 | a FIFO over the given storage starts valid and empty: both cursors at the start and both counters 0 |
| Fifo.FifoBuffer.Reset | third-library/mediaplayer/player/avutil/fifo.c:73-77 | reset keeps the storage, returns the FIFO to the state right after allocation, and leaves no unread bytes and the whole capacity free |
| Fifo.Alloc | third-library/mediaplayer/player/avutil/fifo.c:45-49 | the result is null exactly when an allocation fails; otherwise it is a fresh, valid, empty FIFO over `size` fresh bytes |
| Fifo.AllocArray | third-library/mediaplayer/player/avutil/fifo.c:51-55 | like Alloc for `nmemb * size` bytes, and every byte of the storage is zero |
| Fifo.FifoBuffer.GenericWrite | third-library/mediaplayer/player/avutil/fifo.c:124-151 | the unread bytes become the old ones followed by what the passes stored, and the count returned is the number of bytes stored. A byte array is stored whole, in at most two passes. Each pass is offered the room from the write cursor up to `end`, at most the bytes still wanted; the cursor starts at `wptr` and stands past what the earlier passes stored (`Offered`). So the first pass is offered min(`end` - `wptr`, `size`) bytes, which is not zero when `size` is not. A callback write ends early only at the first pass that stores nothing. The read side and the storage array are untouched, and the size grows by the count |
| Fifo.WriteLoop | third-library/mediaplayer/player/avutil/fifo.c:131-147 | the loop appends the stored bytes to the ring and leaves the cursor just past them, wrapped at `end`. Every pass is offered min(`end` - cursor, bytes still wanted), the cursor standing past what the earlier passes stored. It stops early only when the callback stored nothing |
| Fifo.WritePass | third-library/mediaplayer/player/avutil/fifo.c:132-146 | one pass, offered min(`end` - cursor, bytes still wanted), keeps the loop state (bookkeeping and ring layout) and decreases the bytes still wanted, or ends the loop; the room it was offered is appended to `rooms` |
| Fifo.OfferedWritePass | third-library/mediaplayer/player/avutil/fifo.c:132-146 | a pass run after passes that were each offered their room was offered its own: every pass so far was offered min(`end` - cursor, bytes still wanted), counting the cursor from where the write began |
| Fifo.WriteStep | third-library/mediaplayer/player/avutil/fifo.c:132-146 | a pass offered min(`end` - cursor, bytes still wanted), which appends what the source delivers and moves the cursor past it (or delivers nothing), keeps the loop state |
| Fifo.OfferedSnoc | third-library/mediaplayer/player/avutil/fifo.c:132 | a pass offered min(`end` - cursor, bytes still wanted), with the cursor past the bytes stored so far, extends the record of rooms offered |
| Fifo.FirstRoom | third-library/mediaplayer/player/avutil/fifo.c:132 | the first pass is offered min(`end` - `wptr`, `size`), which is not zero when `size` is not and the buffer is not empty |
| Fifo.WrapFrom | third-library/mediaplayer/player/avutil/fifo.c:141-143 | moving a cursor that wrapped once at `end` on by `done` bytes, wrapping again at `end`, lands where wrapping the whole advance lands |
| Fifo.LoopResult | third-library/mediaplayer/player/avutil/fifo.c:131-150 | once the loop stops, the bytes the passes stored follow the old ring contents, the cursor is just past them, the first pass was offered min(`end` - `wptr`, `size`), and the loop stopped short only on an empty delivery |
| Fifo.LoopStopped | third-library/mediaplayer/player/avutil/fifo.c:131-147 | the loop stopped because everything wanted was stored or because the last pass, and only it, stored nothing; a byte array took at most two passes and was stored whole |
| Fifo.StoreSegment | third-library/mediaplayer/player/avutil/fifo.c:138-144 | copying a piece at the write cursor appends it to the ring; the cursor moves past it and goes back to the start of the buffer on reaching `end` |
| Fifo.FifoBuffer.CommitWrite | third-library/mediaplayer/player/avutil/fifo.c:145-150 | publishing the 32-bit write counter and the cursor grows the size by exactly the bytes written and keeps the FIFO valid |
| Fifo.Chunk | third-library/mediaplayer/player/avutil/fifo.c:132-140 | a pass never stores more than the room it offers, and from a byte array it takes the next source bytes in order |
| Fifo.StoredBytes | third-library/mediaplayer/player/avutil/fifo.c:137-139 | the bytes a byte-array write stores, over all passes, are a prefix of the array |
| Fifo.ProgressStep | third-library/mediaplayer/player/avutil/fifo.c:132-147 | one pass extends the stored bytes by its chunk and keeps the loop's bookkeeping: the loop goes on only while something is stored and something is wanted |
| Fifo.RingAppend | third-library/mediaplayer/player/avutil/fifo.c:138-142 | writing a piece at the position just after the unread bytes appends it to them and changes none of them |
| Fifo.RingAdvance | third-library/mediaplayer/player/avutil/fifo.c:242-244 | moving the read cursor `k` bytes forward, with one wrap, drops exactly the first `k` unread bytes |
| Fifo.SizeAfterWrite | third-library/mediaplayer/player/avutil/fifo.c:145-148 | advancing the 32-bit write counter by `k` grows the truncated counter difference by `k` |
| Fifo.SizeAfterDrain | third-library/mediaplayer/player/avutil/fifo.c:245 | advancing the 64-bit read counter by `k` shrinks the truncated counter difference by `k` |
| Fifo.SegmentsAreRing | third-library/mediaplayer/player/avutil/fifo.c:198-212 | a transfer is split into at most two pieces at the wrap point; together they are the ring's bytes in order, and the second exists exactly when the transfer crosses `end` |
| Fifo.PassStep | third-library/mediaplayer/player/avutil/fifo.c:199-211 | each pass of a peek or read loop hands over the next piece of the split, and bytes remain exactly when another piece follows |
| Fifo.Deliver | third-library/mediaplayer/player/avutil/fifo.c:199-205 | a pass hands over the storage from the cursor up to `end`, at most the bytes left; without a callback it copies them right after what was already delivered |
| Fifo.PeekPass | third-library/mediaplayer/player/avutil/fifo.c:197-211 | one do-while pass delivers the next piece and advances the cursor, wrapping it at `end` |
| Fifo.PeekLoop | third-library/mediaplayer/player/avutil/fifo.c:196-212 | the peek loop hands over exactly the two-piece split of the ring at the read cursor; without a callback the destination receives those bytes |
| Fifo.FifoBuffer.GenericPeek | third-library/mediaplayer/player/avutil/fifo.c:191-215 | peek leaves every byte of the storage unchanged and returns 0. It hands over the first `n` unread bytes in order, in at most two pieces (past `Size()`, the stale bytes of the ring). Without a callback `dest` starts with them |
| Fifo.PeekAtPass | third-library/mediaplayer/player/avutil/fifo.c:171-185 | one pass wraps the position at `end`, delivers the next piece and advances the position |
| Fifo.PeekAtLoop | third-library/mediaplayer/player/avutil/fifo.c:170-186 | the while loop makes no pass for zero bytes, and otherwise hands over the two-piece split of the ring from the offset position |
| Fifo.FifoBuffer.GenericPeekAt | third-library/mediaplayer/player/avutil/fifo.c:153-189 | peek at an offset hands over unread bytes `offset` to `offset + n` in order, in at most two pieces and none when `n` is 0. It changes nothing in the storage and returns 0 |
| Fifo.FifoBuffer.ReadPass | third-library/mediaplayer/player/avutil/fifo.c:223-233 | a read pass delivers the next piece as a peek pass does and drains it; the unread bytes lose exactly that piece |
| Fifo.FifoBuffer.DrainPass | third-library/mediaplayer/player/avutil/fifo.c:232 | draining a piece in the middle of a read keeps the cursor and counter in step with the bytes consumed so far |
| Fifo.FifoBuffer.GenericRead | third-library/mediaplayer/player/avutil/fifo.c:217-236 | read hands over the same pieces a peek would and returns 0. Afterwards the unread bytes are the old ones without the first `n`: the effect of draining `n`. The write side is unchanged |
| Fifo.FifoBuffer.Drain | third-library/mediaplayer/player/avutil/fifo.c:239-246 | drain removes exactly the first `size` unread bytes. The read cursor advances with one wrap, the read counter advances modulo 2^64, and the write side is unchanged |
| Fifo.FifoBuffer.Commit | third-library/mediaplayer/player/avutil/fifo.c:100-101 | on the fresh FIFO, moving the write cursor and counter past the copied bytes makes them the unread contents |
| Fifo.FifoBuffer.Adopt | third-library/mediaplayer/player/avutil/fifo.c:103 | after the structure copy the FIFO has the other FIFO's fields and unread bytes |
| Fifo.FifoBuffer.Realloc2 | third-library/mediaplayer/player/avutil/fifo.c:89-107 | realloc keeps the unread bytes and returns 0, or -1 exactly when a larger size was asked for and the allocation failed. On failure, or when the size is not larger, nothing changes. Otherwise the storage is a fresh array of the new size with the unread bytes from index 0 |
| Fifo.FifoBuffer.Grow | third-library/mediaplayer/player/avutil/fifo.c:109-120 | grow keeps the unread bytes. It fails exactly when `size` plus the unread count overflows 32 bits or the needed reallocation fails, and then changes nothing. On success at least `size` bytes are free. A reallocation takes the larger of the needed size and twice the old capacity (a 32-bit product) |
| Fifo.FifoBuffer.Peek2 | third-library/mediaplayer/player/avutil/fifo.h:168-176 | the position is inside the storage and differs from read cursor plus offset by 0 or one capacity, whichever direction the offset wraps |
| Fifo.FifoBuffer.Peek2Unread | third-library/mediaplayer/player/avutil/fifo.h:159-172 | for an offset below the number of unread bytes, peek2 points at unread byte number `offs` |
| Fifo.FifoBuffer.PeekAtGuardAsWritten | third-library/mediaplayer/player/avutil/fifo.c:163 | the guard as written: the 32-bit sum `buf_size + offset` against the 64-bit counter difference. It admits every peek that the corrected guard `offset + n <= Size()` admits |
| Fifo.PeekAtGuardAdmitsOverread | third-library/mediaplayer/player/avutil/fifo.c:163 | the guard as written lets a 1000-byte peek through on a FIFO holding 8 unread bytes once the write counter has wrapped at 2^32 while the read counter has not; from then on the guard checks nothing |
| ThreadPool.Pool.constructor | third-library/mediaplayer/player/avutil/threadpool.c:98-107 | a zero-filled context with a fresh queue of the given size: no pending task, no worker, running |
| ThreadPool.Create | third-library/mediaplayer/player/avutil/threadpool.c:89-135 | create yields a pool exactly when the thread count is in 1..100 and the queue size in 1..1024, the allocations succeed and every thread starts. The pool then has that queue size and thread count, all workers running, no pending task and no shutdown. A failed start is cleaned up by the corrected `RollBack` (Findings row 7) |
| ThreadPool.RollBack | third-library/mediaplayer/player/avutil/threadpool.c:119-122 | the clean-up after a failed thread start, with an immediate shutdown in place of mode 0 (Findings row 7): every started worker has left and been joined, and the pool is freed (result 0) |
| ThreadPool.Free | third-library/mediaplayer/player/avutil/threadpool.c:67-71 | free refuses (-1) exactly a missing pool or one with running workers, and otherwise returns 0 |
| ThreadPool.Pool.Add | third-library/mediaplayer/player/avutil/threadpool.c:137-192 | add rejects a null function (Invalid), a failed lock (LockFailure) and a full queue (QueueFull), all without any state change. A growth fires exactly at one free slot with a successful realloc, even before a shutdown refusal. A shutting-down pool refuses (ShuttingDown) with the queue unchanged. Otherwise the task joins the end of the queue, and a failed signal or unlock turns the result into LockFailure. A 0 result always means the task was appended. Growth is the corrected one of `Regrow` (Findings row 2; the written growth is `AddGrownAsWritten`) |
| ThreadPool.Pool.GrowIfNearlyFull | third-library/mediaplayer/player/avutil/threadpool.c:156-163 | with one free slot and a successful realloc the queue becomes min(2 * size, 1024) slots with the same pending tasks in order; otherwise nothing changes. This is the corrected growth (Findings row 2); threadpool.c keeps head and tail, see `AddGrownAsWritten` |
| ThreadPool.Pool.Regrow | third-library/mediaplayer/player/avutil/threadpool.c:157-161 | moving to a larger queue keeps the pending tasks in order, now from slot 0. This is the corrected growth (Findings row 2): the cited lines keep head and tail, which `AddGrownAsWritten` models |
| ThreadPool.Pool.Enqueue | third-library/mediaplayer/player/avutil/threadpool.c:165-178 | storing at the tail appends the task to the pending tasks; the tail advances modulo the queue size and the pending count grows by one |
| ThreadPool.Pool.WorkerStep | third-library/mediaplayer/player/avutil/threadpool.c:38-60 | a woken worker leaves exactly when the exit test holds, and then stops counting as started. Otherwise it takes the oldest pending task, which leaves the queue, and the head advances modulo the queue size. The exit test is the corrected `Exits` (Findings row 3); the written one is `ExitsAsWritten` |
| ThreadPool.Pool.BeginShutdown | third-library/mediaplayer/player/avutil/threadpool.c:214-232 | a failed lock or an already-shutting-down pool changes nothing and reports LockFailure or ShuttingDown. Otherwise `flags` becomes the shutdown mode, and the result is 0 or LockFailure as the wake-up went |
| ThreadPool.Pool.Destroy | third-library/mediaplayer/player/avutil/threadpool.c:206-247 | the tasks the workers still run, followed by those left queued, are the tasks that were pending. An immediate shutdown runs none, and a leisurely one (with a worker) drains the queue. Once a nonzero mode is stored every worker has left, and the result is 0, ThreadFailure when a join failed, or the earlier errors. Workers use the corrected exit test `Exits` (Findings row 3; the written one is `ExitsAsWritten`) |
| ThreadPool.Pool.JoinWorkers | third-library/mediaplayer/player/avutil/threadpool.c:234-239 | after the joins no worker runs and the tasks run plus those left are the old queue. On an immediate shutdown none ran; otherwise the queue was drained if any worker was left. Workers use the corrected exit test `Exits` (Findings row 3) |
| ThreadPool.Pool.JoinStep | third-library/mediaplayer/player/avutil/threadpool.c:35-60 | one more worker iteration during shutdown keeps the run-then-left split of the queue and makes progress, with the corrected exit test `Exits` (Findings row 3) |
| ThreadPool.RingSnoc | third-library/mediaplayer/player/avutil/threadpool.c:174-178 | writing the slot at the tail of a queue that is not full appends the task to the pending tasks |
| ThreadPool.RingTail | third-library/mediaplayer/player/avutil/threadpool.c:49-53 | advancing the head past the task taken drops exactly the first pending task |
| ThreadPool.ModOnce | third-library/mediaplayer/player/avutil/threadpool.c:52 | the C remainder of an index just past the end equals one wrap step |
| ThreadPool.ExitsAsWritten | third-library/mediaplayer/player/avutil/threadpool.c:42-46 | the exit test as written: leave on mode 1, or on mode 2 with an empty queue. Every exit it allows the corrected `Exits` allows too |
| ThreadPool.ExitsAgree | third-library/mediaplayer/player/avutil/threadpool.c:42-46 | for the running state and both shutdown modes the corrected exit test is the one written; a worker that stays always finds a task |
| ThreadPool.WorkerDequeuesFromEmpty | third-library/mediaplayer/player/avutil/threadpool.c:42-53 | with shutdown mode 3 on an empty queue the written exit test keeps the worker in its loop (it dequeues from an empty queue) while the corrected one lets it leave |
| ThreadPool.DestroyZeroKeepsRunning | third-library/mediaplayer/player/avutil/threadpool.c:119-122 | destroying with flags 0, as create does after a failed thread start, leaves the pool running: neither exit test lets a worker leave, so the joins of destroy never return (Findings row 7) |
| ThreadPool.AddGrownAsWritten | third-library/mediaplayer/player/avutil/threadpool.c:156-178 | the written growth keeps head and pending, stores the task at the old tail and yields `newSize` slots |
| ThreadPool.GrownAsWrittenInOrder | third-library/mediaplayer/player/avutil/threadpool.c:156-178 | when growth fires with the head not past the tail, the written admission still appends the task in order |
| ThreadPool.GrownAsWrittenLosesOrder | third-library/mediaplayer/player/avutil/threadpool.c:156-178 | when growth fires on a wrapped queue, the written admission breaks the queue shape and the order of the pending tasks |
| Flv.ReverseBytes | third-library/test/test.cpp:33-39 | the loop's result is the big-endian value of the first `c` bytes, so it is below 2^(8c) |
| Flv.ReverseStep | third-library/test/test.cpp:36-37 | each iteration ORs the next byte in just below the bytes already placed, with no overlapping bits |
| Flv.ShiftOverflow | third-library/test/test.cpp:34-37 | the shifted byte leaves the range of a signed `int` exactly for the top byte of a 4-byte value with its high bit set |
| Flv.BigEndianBound | third-library/test/test.cpp:33-39 | `n` bytes decode to a value below 2^(8n) |
| Flv.BigEndianRoundTrip | third-library/test/test.cpp:33-39 | encoding a value that fits in `width` bytes and decoding it gives the value back |
| Flv.ToBigEndianRoundTrip | third-library/test/test.cpp:33-39 | decoding a byte string and encoding it again gives the string back |
| Flv.UI24 | third-library/test/test.cpp:232-233 | the hand-written sum is the big-endian value of the three bytes, which reverse_bytes also computes, and is below 2^24 |
| Flv.TagTypeName | third-library/test/test.cpp:236-241 | the label is UNKNOWN exactly for tag types other than 8, 9 and 18 |
| Flv.HighNibble | third-library/test/test.cpp:284-285 | bits 7-4 of the first data byte form a 4-bit field; the audio sound format and the video frame type (lines 357-358) are both this field |
| Flv.SoundRate | third-library/test/test.cpp:305-306 | the sound rate is a 2-bit field |
| Flv.SoundSize | third-library/test/test.cpp:316-317 | the sample size is a 1-bit field |
| Flv.SoundType | third-library/test/test.cpp:325 | the channel type is a 1-bit field |
| Flv.AudioRoundTrip | third-library/test/test.cpp:283-325 | the four audio fields determine the byte, and any fields in range are read back unchanged |
| Flv.AudioNames | third-library/test/test.cpp:286-331 | only sound formats 12 and 13 print UNKNOWN, and the rate, size and type always have a name (those UNKNOWN arms are dead) |
| Flv.CodecId | third-library/test/test.cpp:369 | the codec id is a 4-bit field |
| Flv.VideoRoundTrip | third-library/test/test.cpp:356-369 | the two video fields determine the byte, and any fields in range are read back unchanged |
| Flv.FrameTypeName | third-library/test/test.cpp:359-367 | a frame type is named exactly for values 1 to 5 |
| Flv.CodecName | third-library/test/test.cpp:370-380 | a codec is named exactly for values 1 to 7 |
| Amf.ParseMeta | third-library/test/test.cpp:56-147 | the walk returns the outcome of the whole-buffer specification MetaOf |
| Amf.WalkEntries | third-library/test/test.cpp:94-147 | the entry loop returns the outcome of walking `count` entries from the offset, entry by entry |
| Amf.MetaOf | third-library/test/test.cpp:57-79 | the walk refuses exactly when the byte at offset 13 is not the ECMA array marker 0x08. A complete walk starts at offset 18 and yields as many entries as the 4-byte count after the marker says |
| Amf.EntriesFrom | third-library/test/test.cpp:94-147 | walking entries never reports a missing array marker, and a complete walk of `count` entries yields `count` entries |
| Amf.EntriesFromStep | third-library/test/test.cpp:94-112 | a walk stops at an entry that cannot be read and otherwise continues after it |
| Amf.SignExtend | third-library/test/test.cpp:66 | a `char` widened to `unsigned int` is a 32-bit value |
| Amf.OrShiftLength | third-library/test/test.cpp:66-72 | the literal `n |= m_meta[offset++]` / `n <<= 8` accumulation over sign-extended bytes (also lines 99-102, 126-129 and 134-141) stays a 32-bit value, and a last byte at or above 0x80 sets every bit above its own |
| Amf.LengthAsWritten | third-library/test/test.cpp:99-102 | the written length accumulation is a 32-bit value |
| Amf.ShiftedByte | third-library/test/test.cpp:67 | `<<= 8` on a 32-bit unsigned value keeps its low three bytes, moved up one byte, and leaves the low byte clear |
| Amf.LengthIsOrShift | third-library/test/test.cpp:66-72 | the OR-and-shift accumulation of sign-extended bytes equals its byte-by-byte description: a low byte is appended, a high byte sets every bit above its own |
| Amf.LengthStep | third-library/test/test.cpp:100-102 | one OR of a sign-extended byte into the shifted length: below 0x80 it appends the byte, otherwise every higher bit is set |
| Amf.ReadLength | third-library/test/test.cpp:66-72 | a length field of up to four bytes is a 32-bit value in both readings |
| Amf.Wrap32 | third-library/test/test.cpp:130 | the 32-bit offset after skipping a string stays below 2^32 |
| Amf.LengthFieldAt | third-library/test/test.cpp:99-102 | a length written big-endian in 2 or 4 bytes reads back (corrected reading) |
| Amf.NumberAt | third-library/test/test.cpp:113-117 | a Number reads back as its eight raw bytes and the offset moves past them |
| Amf.BooleanAt | third-library/test/test.cpp:119-123 | a Boolean reads back its flag (corrected reading) and the offset moves one byte |
| Amf.StrAt | third-library/test/test.cpp:125-131 | a String reads back its length and the offset skips the length field and the contents |
| Amf.LongStrAt | third-library/test/test.cpp:133-143 | a Long String (marker 0x0C) reads back its length and the offset skips the 4-byte length field and the contents |
| Amf.OtherAt | third-library/test/test.cpp:145-146 | a marker of no other arm is kept and the offset stays right after it |
| Amf.ValueAtEncoded | third-library/test/test.cpp:112-146 | every encoded value reads back, with the offset just past its encoding |
| Amf.EntryAt | third-library/test/test.cpp:96-112 | one iteration of the entry loop: a 2-byte name length, the name, and the value after the marker byte. It fails only when a read lies past the end of the buffer; the name is exactly the bytes after the length field, and the marker byte lies inside the buffer |
| Amf.ValueAt | third-library/test/test.cpp:112-146 | the marker switch, in both readings: it fails only when fewer than 8 bytes remain and the arm's read runs past the end; the offset after the value is a 32-bit value; exactly the markers of no arm give `Other` (the Long String arm is 0x12 as written, 0x0C corrected), keeping the marker and leaving the offset right after it. The arms themselves are stated by `NumberAt`, `BooleanAt`, `StrAt` and `LongStrAt` |
| Amf.EntryAtParts | third-library/test/test.cpp:99-112 | in either reading, an entry reads back from its name length, name and value |
| Amf.EntryPieces | third-library/test/test.cpp:99-110 | an encoded entry in the buffer consists of its name length, its name and its value, in that order |
| Amf.EntryAtEncoded | third-library/test/test.cpp:99-146 | an encoded entry reads back wherever it sits in the buffer, and the offset moves past it |
| Amf.EntriesEncoded | third-library/test/test.cpp:94-147 | the corrected walk reads back every entry of an encoded array and stops where the encoding ends |
| Amf.EncodedStep | third-library/test/test.cpp:94-147 | an encoded entry in front of entries that read back is read back with them |
| Amf.HeadPlaced | third-library/test/test.cpp:99-146 | the first entry of an encoded array sits at the array's offset |
| Amf.TailPlaced | third-library/test/test.cpp:94-147 | the rest of an encoded array sits right after its first entry and ends where the array ends |
| Amf.MetaPieces | third-library/test/test.cpp:64-72 | an encoded script body has the array marker at offset 13, its entry count after it and its entries from offset 18 |
| Amf.ParseEncoded | third-library/test/test.cpp:56-147 | round trip: the corrected walk of an encoded script body, followed by any bytes, yields exactly the encoded entries and stops at the end of the encoding |
| Amf.BooleanAsWritten | third-library/test/test.cpp:119-123 | as written, a false Boolean reads as true, while the corrected reading gives false |
| Amf.LongStringAsWritten | third-library/test/test.cpp:133-143 | as written, a Long String (0x0C) falls to the default arm and its length is not skipped; the corrected reading skips it |
| Amf.LengthSignExtends | third-library/test/test.cpp:100-102 | as written, the name length bytes 00 80 read as 0xFFFFFF80 instead of 128 |
| Amf.LengthsAgree | third-library/test/test.cpp:66-72 | while every length byte is below 0x80, the written and the corrected readings agree |
| Amf.SmallLengthBytes | third-library/test/test.cpp:99-102 | a length field that reads below 0x80 has every byte below 0x80 |
| Amf.SmallLengthAgrees | third-library/test/test.cpp:99-102 | both readings agree on a length field whose value is below 0x80 |
| Amf.PlainValueAt | third-library/test/test.cpp:112-131 | as written, an encoded Number, or String shorter than 0x80 bytes, reads back with the offset just past it |
| Amf.PlainEntryAt | third-library/test/test.cpp:99-131 | as written, an encoded entry with a name shorter than 0x80 bytes and such a value reads back wherever it sits |
| Amf.PlainEntriesEncoded | third-library/test/test.cpp:94-147 | as written, the walk reads back every entry of an encoded array of such entries and stops where the encoding ends |
| Amf.ParseEncodedAsWritten | third-library/test/test.cpp:56-147 | round trip as written: a script body of fewer than 0x80 entries, each a Number or a short String under a short name, followed by any bytes, reads back exactly |

## Left out

- Threads, the mutex and the condition variable (threadpool.c lines 36-40, 55, 62-63, 110-126, 181, 228-239) are not modelled. Each critical section is one atomic step. The wait loop becomes WorkerStep's precondition, and lock, signal, broadcast and join outcomes are boolean parameters.
- Destroy on a pool that is already shutting down returns without unlocking the mutex (threadpool.c lines 220-223). The mutex is not modelled, so this lock leak is not either.
- A NULL context passed to threadpool_add or threadpool_destroy (threadpool.c lines 143 and 210) is not modelled: Add and Destroy work on a pool that exists. Add does model a NULL function.
- Running a task (threadpool.c line 57) and the consumer callbacks of peek, peek-at and read (fifo.c lines 178, 201, 225) are foreign code. The model returns the pieces handed to them instead.
- The producer callback of av_fifo_generic_write is a function of the call index and the room offered. Its updates to the `src` context are folded into the call index.
- Memory release is not modelled: av_fifo_free and av_fifo_freep (fifo.c lines 57-71), the free calls of av_fifo_realloc2 (lines 102 and 104), and threadpool_free's releases and threadpool_freep (threadpool.c lines 73-86 and 194-204). Free models only the guard.
- The `threads` array of the pool and the unused `flags` parameter of threadpool_create and threadpool_add are not modelled.
- ThreadPool.Pool.Destroy: with `flags` 0 and running workers, the joins would wait forever. The model runs no worker and reports what the free guard then returns.
- ThreadPool.Create: the clean-up after a failed thread start assumes that the lock, the wake-up and the joins of that destroy succeed.
- Fifo.FifoBuffer.GenericWrite: requires `size <= Space()`. The source does not check, and a longer write overwrites unread bytes. A byte-array source must also hold `size` bytes.
- Fifo.FifoBuffer.GenericPeek: requires `n` to be at most the capacity. A longer peek would go round the ring more than once.
- Fifo.FifoBuffer.Peek2: offsets that reach more than one capacity beyond the storage are excluded, since the source then points outside the buffer.
- Negative `int` sizes and offsets passed to the FIFO functions are not modelled; they are natural numbers.
- Flv.ReverseBytes: the signed-`int` overflow for the top byte of a 4-byte value is undefined behaviour in C and is not modelled. ShiftOverflow states exactly when it happens.
- The FLV parser's file handling is not modelled: fopen, fread of the header and tag structures, fseek, fgetc and fputc, the output files, and every fprintf (test.cpp lines 189-437).
- parseMeta's numbers are kept as their eight raw bytes. hexStr2double (test.cpp lines 41-54) is floating point and libc formatting.
- Also not modelled in parseMeta: the name comparisons and field assignments (lines 152-176), the final fprintf (line 180), and the contents of strings, which the walk skips.
- The name buffer of parseMeta (test.cpp lines 105-109) is not modelled; the name is the slice of the input. This includes the out-of-bounds write `name[nameLen + 1]`.
- Reads past the end of the metadata buffer are undefined behaviour in C; the model ends the walk with `Truncated`. This covers a name, length field, marker or number that does not fit.
- Outcomes are not modelled where the offset has gone past the buffer. The 32-bit offset wraps only where a skipped string length is added.
- Fifo.FifoBuffer.Size: capacities of 2^31 bytes or more are excluded by `Valid`. av_fifo_size (fifo.c lines 79-82) returns an `int`, so a size of 2^31 or more would turn negative, and the model keeps it non-negative.
- Fifo.FifoBuffer.Space: capacities of 2^31 bytes or more are excluded. av_fifo_space (fifo.c lines 84-87) returns an `int` and would also turn negative there.
- Fifo.FifoBuffer.Realloc2: requires a new size below 2^31 whenever it reallocates. A larger capacity would leave the bound of `Valid`, which keeps capacities below 2^31 because av_fifo_size and av_fifo_space (fifo.c lines 79-87) return an `int`.
- Fifo.FifoBuffer.Grow: requires any reallocation target below 2^31, for the same reason as Realloc2. The 32-bit overflow failure of fifo.c line 112 stays in the model.
- Fifo.AllocArray: requires `nmemb * size` below 2^31. The `size_t` product of fifo.c line 54 can reach 2^32 or more, which the `unsigned int old_size` of fifo.c line 91 would later truncate.
- Fifo.Alloc and Fifo.FifoBuffer.Reset: capacities of 2^31 bytes or more are excluded, as for Size.
- Amf.EntriesFrom: buffers of 2^24 bytes or more are excluded; a script tag's DataSize is a 24-bit field.

## Findings

| source | as written | input that shows it | evidently intended | confidence | as-written member | corrected member |
|---|---|---|---|---|---|---|
| third-library/mediaplayer/player/avutil/fifo.c:163 | the guard compares the 32-bit sum `buf_size + offset` with the 64-bit difference `wndx - rndx`, but every write stores `wndx` through a 32-bit local | `wndx` 5 and `rndx` 2^32 - 3 (8 unread bytes), offset 0 and 1000 bytes requested: the difference is huge, so the guard passes | compare with the 32-bit `av_fifo_size` | not executed | Fifo.PeekAtGuardAdmitsOverread | Fifo.FifoBuffer.GenericPeekAt |
| third-library/mediaplayer/player/avutil/threadpool.c:156-163 | growth reallocates the slot array but keeps head and tail, so a queue that has wrapped is not unwrapped | two slots holding one task at slot 1 (head 1, tail 0); adding task b grows to four slots and stores b in slot 0, but the queue from slot 1 next reads the new, uninitialised slot 2 | keep the pending tasks in order across growth (move them to the front) | not executed | ThreadPool.GrownAsWrittenLosesOrder | ThreadPool.Pool.GrowIfNearlyFull |
| third-library/mediaplayer/player/avutil/threadpool.c:42-46 | a worker leaves only on mode 1, or on mode 2 with an empty queue, while destroy stores any `flags` value as the mode | destroy with flags 3 on an empty queue: the woken workers skip the exit and take a task from the empty queue | every nonzero mode leaves once the queue is empty | not executed; low, as it needs a flags value outside the enum | ThreadPool.WorkerDequeuesFromEmpty | ThreadPool.Pool.WorkerStep |
| third-library/test/test.cpp:120 | the Boolean arm tests `offset++ != 0x00`, the offset itself, instead of the byte at the offset | any Boolean entry with value byte 0: the offset is at least 21, so the flag reads true | test the byte `m_meta[offset++]` | not executed | Amf.BooleanAsWritten | Amf.BooleanAt |
| third-library/test/test.cpp:133 | the Long String arm is `case 0x12`; AMF0 (section 2.14) gives the Long String marker as 0x0C | a Long String entry: marker 0x0C falls to the default arm, and its length bytes are walked as the next entry's name length | `case 0x0C` | not executed | Amf.LongStringAsWritten | Amf.LongStrAt |
| third-library/test/test.cpp:100-102 | length bytes are read from a `char *` and sign-extended before they are OR-ed into the unsigned length | a name of 128 bytes (length bytes 00 80) reads as length 0xFFFFFF80 | unsigned bytes, so that the big-endian length reads back | not executed; applies where `char` is signed (x86; on ARM `char` is unsigned) | Amf.LengthSignExtends | Amf.LengthFieldAt |
| third-library/mediaplayer/player/avutil/threadpool.c:119-122 | after a failed thread start, create calls `threadpool_destroy(ctx, 0)`. Mode 0 never lets a started worker leave its loop, so the joins of destroy block | thread count 2, the first thread starts and the second fails: the first worker is woken with shutdown 0 and an empty queue, goes back to waiting, and its join never returns, so create hangs | destroy with a shutdown mode that lets the started workers leave (an immediate one) | not executed | ThreadPool.DestroyZeroKeepsRunning | ThreadPool.RollBack |
