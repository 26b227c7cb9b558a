/**
 * A model of the circular byte FIFO of avutil/fifo.c and avutil/fifo.h.
 *
 * The storage `buffer` is an array of bytes; the pointers `rptr` and `wptr`
 * of the C structure become indices into it (`buffer` itself is index 0 and
 * `end` is `buffer.Length`).  The logical counters `rndx` and `wndx` are
 * kept with the widths the C code gives them: `rndx` is a 64-bit counter and
 * `wndx`, although declared 64-bit, is only ever stored from the 32-bit
 * local of av_fifo_generic_write, so it stays below 2^32.
 *
 * The unread bytes are the ghost view `Contents()`: the `Size()` bytes that
 * follow `rptr` around the ring.
 */
module Fifo {

  const U32: nat := 0x1_0000_0000
  const U64: nat := 0x1_0000_0000_0000_0000
  /** Sizes and spaces are returned as a C `int`, so a capacity must stay
      below 2^31 for them to be non-negative. */
  const I32: nat := 0x8000_0000

  /** One step of wrap-around, as the C code does it: a position at or past
      `end` is moved back by the capacity. */
  function Wrap(x: int, cap: int): int {
    if x < cap then x else x - cap
  }

  /** The `count` bytes of the ring `buf` starting at physical index `start`. */
  ghost function Ring(buf: seq<bv8>, start: nat, count: nat): (r: seq<bv8>)
    requires count <= |buf|
    requires start < |buf| || count == 0
    ensures |r| == count
  {
    seq(count, i requires 0 <= i < count => buf[Wrap(start + i, |buf|)])
  }

  /** Writing `chunk` at the write position appends it to the ring's contents. */
  lemma RingAppend(before: seq<bv8>, after: seq<bv8>, r: nat, n: nat, p: nat, chunk: seq<bv8>)
    requires |before| == |after| && r < |before|
    requires n + |chunk| <= |before|
    requires p == Wrap(r + n, |before|) && p + |chunk| <= |before|
    requires after == before[..p] + chunk + before[p + |chunk|..]
    ensures Ring(after, r, n + |chunk|) == Ring(before, r, n) + chunk
  {
    var c := |before|;
    forall i | 0 <= i < n + |chunk|
      ensures Ring(after, r, n + |chunk|)[i] == (Ring(before, r, n) + chunk)[i]
    {
      var q := Wrap(r + i, c);
      if i < n {
        assert q < p || q >= p + |chunk|;
        assert after[q] == before[q];
      } else {
        assert q == p + (i - n);
        assert after[q] == chunk[i - n];
      }
    }
  }

  /** Advancing the start by `k` (one wrap step) drops the first `k` bytes. */
  lemma RingAdvance(buf: seq<bv8>, r: nat, m: nat, k: nat)
    requires r < |buf| && k <= m <= |buf|
    ensures Wrap(r + k, |buf|) < |buf|
    ensures Ring(buf, Wrap(r + k, |buf|), m - k) == Ring(buf, r, m)[k..]
  {
    var c := |buf|;
    var r' := Wrap(r + k, c);
    forall i | 0 <= i < m - k
      ensures Ring(buf, r', m - k)[i] == Ring(buf, r, m)[k..][i]
    {
      assert Wrap(r' + i, c) == Wrap(r + k + i, c);
    }
  }

  /** A segment of the ring that does not cross `end` is a plain slice of the buffer. */
  lemma RingSegment(buf: seq<bv8>, r: nat, m: nat, k: nat, len: nat)
    requires r < |buf| && m <= |buf| && k + len <= m
    requires Wrap(r + k, |buf|) + len <= |buf|
    ensures Ring(buf, r, m)[k..k + len] == buf[Wrap(r + k, |buf|)..Wrap(r + k, |buf|) + len]
  {
    var c := |buf|;
    var p := Wrap(r + k, c);
    var piece, slice := Ring(buf, r, m)[k..k + len], buf[p..p + len];
    forall i | 0 <= i < len
      ensures piece[i] == slice[i]
    {
      assert Wrap(r + (k + i), c) == p + i;
    }
  }

  /** A ring that starts at index 0 is a prefix of the buffer. */
  lemma RingFromZero(buf: seq<bv8>, m: nat)
    requires m <= |buf|
    ensures Ring(buf, 0, m) == buf[..m]
  {
    forall i | 0 <= i < m
      ensures Ring(buf, 0, m)[i] == buf[i]
    {
      assert Wrap(0 + i, |buf|) == i;
    }
  }

  /** Advancing a wrapped position by `k` without passing `end` is one more
      wrap step of the advanced position. */
  lemma WrapAdvance(x: nat, k: nat, cap: nat)
    requires x + k < 2 * cap && Wrap(x, cap) + k <= cap
    ensures Wrap(x + k, cap) == if Wrap(x, cap) + k == cap then 0 else Wrap(x, cap) + k
  {
  }

  /** The 32-bit truncation of a write-index advance grows the size by the amount written. */
  lemma SizeAfterWrite(w: int, r: int, k: nat)
    requires 0 <= w < U32 && (w - r) % U32 + k < U32
    ensures ((w + k) % U32 - r) % U32 == (w - r) % U32 + k
  {
  }

  /** Advancing a truncated counter is truncating the advanced counter. */
  lemma ModAdd(a: int, b: int)
    ensures (a % U32 + b) % U32 == (a + b) % U32
  {
  }

  /** Advancing a 64-bit counter twice is advancing it once by the sum. */
  lemma ModAdd64(a: int, b: int)
    ensures (a % U64 + b) % U64 == (a + b) % U64
  {
  }

  /** A 64-bit counter advanced from `done` to `done'` bytes past `x0`. */
  lemma Advance64(x0: int, done: int, k: int, done': int)
    requires done' == done + k
    ensures ((x0 + done) % U64 + k) % U64 == (x0 + done') % U64
  {
    ModAdd64(x0 + done, k);
  }

  /** Advancing a wrapped cursor by `len` without passing `end`, and
      wrapping once, is wrapping the total advance. */
  lemma WrapTwice(r: nat, done: nat, len: nat, cap: nat)
    requires r < cap && done + len <= cap
    requires Wrap(r + done, cap) + len <= cap
    ensures Wrap(Wrap(r + done, cap) + len, cap) == Wrap(r + (done + len), cap)
  {
    WrapAdvance(r + done, len, cap);
  }

  /** Wrapping a position that lies less than two buffers out, then
      advancing it by `done`, is wrapping the advanced position. */
  lemma WrapFrom(w: nat, done: nat, cap: nat)
    requires w + done < 2 * cap || w + done == 0
    ensures Wrap(Wrap(w, cap) + done, cap) == Wrap(w + done, cap)
  {
  }

  /** A 64-bit read-index advance shrinks the 32-bit size by the amount drained. */
  lemma SizeAfterDrain(w: int, r: int, k: nat)
    requires k <= (w - r) % U32
    ensures (w - (r + k) % U64) % U32 == (w - r) % U32 - k
  {
  }

  /** Where a write gets its bytes: a plain byte array (`func == NULL`) or a
      producer callback.  `fill(k, room)` is what the k-th call of the
      callback stores when offered `room` bytes; an empty result stands for a
      return value <= 0 ("no more data").  The callback's own state (the
      `src` context it may update) is folded into the call index. */
  datatype Source =
    | Bytes(data: seq<bv8>)
    | Producer(fill: (nat, nat) -> seq<bv8>)

  /** The callback contract of fifo.h: it never stores more than it is offered. */
  ghost predicate WellBehaved(fill: (nat, nat) -> seq<bv8>) {
    forall k: nat, room: nat :: |fill(k, room)| <= room
  }

  /** What pass `k` of a write stores when `done` bytes are already stored
      and `room` bytes are offered: the next `room` source bytes, or what
      the callback delivers.  (The guard on the byte array is never false
      for a caller that supplies `size` bytes.) */
  function Chunk(src: Source, k: nat, done: nat, room: nat): (c: seq<bv8>)
    requires src.Producer? ==> WellBehaved(src.fill)
    ensures |c| <= room
    ensures src.Bytes? && done + room <= |src.data| ==> c == src.data[done..done + room]
  {
    match src
    case Bytes(data) => if done + room <= |data| then data[done..done + room] else []
    case Producer(fill) => fill(k, room)
  }

  /** The bytes stored by passes offered `rooms`, in order. */
  ghost function Stored(src: Source, rooms: seq<nat>): seq<bv8>
    requires src.Producer? ==> WellBehaved(src.fill)
  {
    if rooms == [] then []
    else
      var prev := Stored(src, rooms[..|rooms| - 1]);
      prev + Chunk(src, |rooms| - 1, |prev|, rooms[|rooms| - 1])
  }

  lemma StoredSnoc(src: Source, rooms: seq<nat>, room: nat)
    requires src.Producer? ==> WellBehaved(src.fill)
    ensures Stored(src, rooms + [room]) == Stored(src, rooms) + Chunk(src, |rooms|, |Stored(src, rooms)|, room)
  {
    assert (rooms + [room])[..|rooms|] == rooms;
  }

  /** Pass `k` ended the write because the callback returned <= 0. */
  ghost predicate Stops(src: Source, rooms: seq<nat>, k: nat)
    requires k < |rooms|
  {
    src.Producer? && src.fill(k, rooms[k]) == []
  }

  lemma StopsSnoc(src: Source, rooms: seq<nat>, room: nat)
    requires src.Producer? ==> WellBehaved(src.fill)
    ensures forall k | 0 <= k < |rooms| :: Stops(src, rooms + [room], k) == Stops(src, rooms, k)
    ensures Stops(src, rooms + [room], |rooms|) <==> src.Producer? && Chunk(src, |rooms|, 0, room) == []
  {
  }

  /** No pass before the last one was stopped by the callback. */
  ghost predicate OnlyLastStops(src: Source, rooms: seq<nat>) {
    forall k | 0 <= k < |rooms| - 1 :: !Stops(src, rooms, k)
  }

  /** The last pass was stopped by the callback. */
  ghost predicate LastStopped(src: Source, rooms: seq<nat>) {
    |rooms| > 0 && Stops(src, rooms, |rooms| - 1)
  }

  /** The concatenation of the segments handed to a consumer. */
  ghost function Concat(segs: seq<seq<bv8>>): seq<bv8> {
    if segs == [] then [] else Concat(segs[..|segs| - 1]) + segs[|segs| - 1]
  }

  function Min(a: int, b: int): int { if a <= b then a else b }
  function Max(a: int, b: int): int { if a >= b then a else b }

  /** memcpy(dst + at, src, |src|). */
  method CopyIn(dst: array<bv8>, at: nat, src: seq<bv8>)
    requires at + |src| <= dst.Length
    modifies dst
    ensures dst[..] == old(dst[..])[..at] + src + old(dst[..])[at + |src|..]
  {
    forall i | 0 <= i < |src| {
      dst[at + i] := src[i];
    }
  }

  /** One segment of a write (fifo.c lines 138-144): copy `chunk` to
      position `p` of the ring and advance `p`, resetting it to the start of
      the buffer on reaching `end`.  The ring that starts at `r` and held `n`
      bytes now holds `chunk` after them. */
  method StoreSegment(buf: array<bv8>, ghost r: nat, ghost n: nat, p: nat, chunk: seq<bv8>) returns (p': nat)
    requires r < buf.Length || (buf.Length == 0 && r == 0)
    requires n + |chunk| <= buf.Length
    requires p == Wrap(r + n, buf.Length) && p + |chunk| <= buf.Length
    modifies buf
    ensures Ring(buf[..], r, n + |chunk|) == Ring(old(buf[..]), r, n) + chunk
    ensures p' == Wrap(r + n + |chunk|, buf.Length)
    ensures p' == if p + |chunk| == buf.Length then 0 else p + |chunk|
    ensures buf.Length > 0 ==> p' < buf.Length
    ensures buf.Length == 0 ==> p' == 0
  {
    ghost var before := buf[..];
    CopyIn(buf, p, chunk);
    if buf.Length > 0 {
      RingAppend(before, buf[..], r, n, p, chunk);
    }
    p' := p + |chunk|;
    if p' >= buf.Length {
      p' := 0;
    }
  }

  /** The bookkeeping of the write loop after the passes offered `rooms`:
      `remaining` bytes are still wanted, `more` says whether the loop goes
      on, and `p` is the write cursor in a buffer of `cap` bytes.  The loop
      stops only when everything is stored or the callback returned <= 0,
      and a byte array is stored in at most two passes. */
  ghost predicate Progress(src: Source, size: nat, cap: nat, p: nat, rooms: seq<nat>, remaining: nat, more: bool)
    requires src.Producer? ==> WellBehaved(src.fill)
  {
    && remaining <= size
    && |Stored(src, rooms)| == size - remaining
    && (more ==> remaining > 0 || rooms == [])
    && OnlyLastStops(src, rooms)
    && (more ==> !LastStopped(src, rooms))
    && (!more ==> 1 <= |rooms|)
    && (!more && remaining > 0 ==> LastStopped(src, rooms))
    && (src.Bytes? && |rooms| == 1 && more ==> p == 0)
    && (src.Bytes? ==> |rooms| <= 2 && (|rooms| <= 1 || remaining == 0))
  }

  /** One pass of the write loop keeps its bookkeeping: the pass offered
      `len` bytes stores `chunk`, leaving `remaining'` bytes wanted, the
      cursor at `p'` and the loop going on exactly when something was stored
      and something is still wanted. */
  lemma ProgressStep(src: Source, size: nat, cap: nat, p: nat, rooms: seq<nat>, remaining: nat, len: nat,
                     p': nat, remaining': nat, more': bool)
    requires src.Producer? ==> WellBehaved(src.fill)
    requires src.Bytes? ==> size <= |src.data|
    requires Progress(src, size, cap, p, rooms, remaining, true)
    requires size <= cap
    requires p < cap || (cap == 0 && p == 0 && remaining == 0)
    requires len == Min(cap - p, remaining)
    requires var chunk := Chunk(src, |rooms|, size - remaining, len);
      && remaining' == remaining - |chunk|
      && more' == (chunk != [] && remaining' > 0)
      && (chunk != [] && p + |chunk| == cap ==> p' == 0)
    ensures Stored(src, rooms + [len]) == Stored(src, rooms) + Chunk(src, |rooms|, size - remaining, len)
    ensures Progress(src, size, cap, p', rooms + [len], remaining', more')
  {
    StoredSnoc(src, rooms, len);
    StopsSnoc(src, rooms, len);
  }

  /** The room offered to a pass (fifo.c line 132): the bytes from the
      write cursor up to `end`, but no more than are still wanted.  The
      cursor stands `done` bytes past `p0`, where it was when the write
      began. */
  function Room(cap: nat, p0: nat, size: nat, done: nat): int
  {
    Min(cap - Wrap(p0 + done, cap), size - done)
  }

  /** Pass `k` was offered the room left after the bytes the passes
      before it stored. */
  ghost predicate RoomOffered(src: Source, size: nat, cap: nat, p0: nat, rooms: seq<nat>, k: nat)
    requires src.Producer? ==> WellBehaved(src.fill)
    requires k < |rooms|
  {
    rooms[k] == Room(cap, p0, size, |Stored(src, rooms[..k])|)
  }

  /** Every pass was offered its room. */
  ghost predicate Offered(src: Source, size: nat, cap: nat, p0: nat, rooms: seq<nat>)
    requires src.Producer? ==> WellBehaved(src.fill)
  {
    forall k | 0 <= k < |rooms| :: RoomOffered(src, size, cap, p0, rooms, k)
  }

  /** A pass from cursor `p`, with `remaining` bytes still wanted, is
      offered its room. */
  lemma OfferedSnoc(src: Source, size: nat, cap: nat, p0: nat, rooms: seq<nat>, p: nat, remaining: nat, len: nat)
    requires src.Producer? ==> WellBehaved(src.fill)
    requires Offered(src, size, cap, p0, rooms)
    requires |Stored(src, rooms)| == size - remaining && remaining <= size
    requires p == Wrap(p0 + (size - remaining), cap) && len == Min(cap - p, remaining)
    ensures Offered(src, size, cap, p0, rooms + [len])
  {
    var all := rooms + [len];
    forall k | 0 <= k < |all|
      ensures RoomOffered(src, size, cap, p0, all, k)
    {
      if k < |rooms| {
        assert RoomOffered(src, size, cap, p0, rooms, k);
        assert all[..k] == rooms[..k];
      } else {
        assert all[..k] == rooms;
      }
    }
  }

  /** The first pass is offered the room from the write cursor `p0` up to
      `end`, but no more than `size`; with a non-empty buffer that room
      is not empty when `size` is not. */
  lemma FirstRoom(src: Source, size: nat, cap: nat, p0: nat, rooms: seq<nat>)
    requires src.Producer? ==> WellBehaved(src.fill)
    requires Offered(src, size, cap, p0, rooms) && rooms != []
    requires size <= cap && (p0 < cap || p0 == 0)
    ensures rooms[0] == Min(cap - p0, size) && (size > 0 ==> rooms[0] > 0)
  {
    assert RoomOffered(src, size, cap, p0, rooms, 0);
    assert rooms[..0] == [];
  }

  /** A byte array is stored as its own prefix. */
  lemma {:induction false} StoredBytes(data: seq<bv8>, rooms: seq<nat>)
    ensures |Stored(Bytes(data), rooms)| <= |data|
    ensures Stored(Bytes(data), rooms) == data[..|Stored(Bytes(data), rooms)|]
  {
    if rooms != [] {
      StoredBytes(data, rooms[..|rooms| - 1]);
    }
  }

  /** The layout half of the write loop's state: `buf` is the storage,
      whose ring starts at `r` and held `n` bytes (`start`) when the write
      began; `done` of the `size` bytes wanted have been appended as
      `stored`, and `p` is the position after them. */
  ghost predicate Laid(buf: seq<bv8>, r: nat, n: nat, size: nat, done: nat, start: seq<bv8>, stored: seq<bv8>, p: nat) {
    && (r < |buf| || (|buf| == 0 && r == 0))
    && n + size <= |buf| && done <= size
    && p == Wrap(r + n + done, |buf|)
    && (p < |buf| || (|buf| == 0 && p == 0 && done == size))
    && Ring(buf, r, n + done) == start + stored
  }

  /** The state of the write loop after the passes offered `rooms`. */
  ghost predicate WriteState(buf: seq<bv8>, src: Source, size: nat, r: nat, n: nat, start: seq<bv8>,
                             p: nat, rooms: seq<nat>, remaining: nat, more: bool)
    requires src.Producer? ==> WellBehaved(src.fill)
  {
    && Progress(src, size, |buf|, p, rooms, remaining, more)
    && Laid(buf, r, n, size, size - remaining, start, Stored(src, rooms), p)
  }

  /** A pass that was offered `len` bytes and appended its delivery `chunk`
      to the ring, moving the cursor past it (or delivered nothing and
      changed nothing), keeps the loop state. */
  lemma WriteStep(before: seq<bv8>, after: seq<bv8>, src: Source, size: nat, r: nat, n: nat, start: seq<bv8>,
                  p: nat, rooms: seq<nat>, remaining: nat, len: nat, chunk: seq<bv8>,
                  p': nat, remaining': nat, more': bool)
    requires src.Bytes? ==> size <= |src.data|
    requires src.Producer? ==> WellBehaved(src.fill)
    requires Progress(src, size, |before|, p, rooms, remaining, true)
    requires Laid(before, r, n, size, size - remaining, start, Stored(src, rooms), p)
    requires len == Min(|before| - p, remaining)
    requires chunk == Chunk(src, |rooms|, size - remaining, len)
    requires |after| == |before|
    requires remaining' == remaining - |chunk| && more' == (chunk != [] && remaining' > 0)
    requires chunk == [] ==> after == before && p' == p
    requires chunk != [] ==> Ring(after, r, n + (size - remaining) + |chunk|) == Ring(before, r, n + (size - remaining)) + chunk
    requires chunk != [] ==> p' == if p + |chunk| == |before| then 0 else p + |chunk|
    ensures WriteState(after, src, size, r, n, start, p', rooms + [len], remaining', more')
  {
    ProgressStep(src, size, |before|, p, rooms, remaining, len, p', remaining', more');
    LaidStep(before, after, src, size, r, n, start, p, rooms, remaining, len, chunk, p', remaining');
  }

  /** The layout half of `WriteStep`. */
  lemma LaidStep(before: seq<bv8>, after: seq<bv8>, src: Source, size: nat, r: nat, n: nat, start: seq<bv8>,
                 p: nat, rooms: seq<nat>, remaining: nat, len: nat, chunk: seq<bv8>, p': nat, remaining': nat)
    requires src.Producer? ==> WellBehaved(src.fill)
    requires |chunk| <= remaining <= size
    requires Laid(before, r, n, size, size - remaining, start, Stored(src, rooms), p)
    requires Stored(src, rooms + [len]) == Stored(src, rooms) + chunk
    requires |after| == |before| && remaining' == remaining - |chunk| && p + |chunk| <= |before|
    requires chunk == [] ==> after == before && p' == p
    requires chunk != [] ==> Ring(after, r, n + (size - remaining) + |chunk|) == Ring(before, r, n + (size - remaining)) + chunk
    requires chunk != [] ==> p' == if p + |chunk| == |before| then 0 else p + |chunk|
    ensures Laid(after, r, n, size, size - remaining', start, Stored(src, rooms + [len]), p')
  {
    if chunk != [] {
      RingStep(before, after, r, n, size, size - remaining, size - remaining', start,
               Stored(src, rooms), Stored(src, rooms + [len]), chunk, p, p');
    } else {
      assert Stored(src, rooms + [len]) == Stored(src, rooms);
    }
  }

  /** The layout after one nonempty pass: the ring grows by `chunk` and the
      cursor moves past it. */
  lemma RingStep(before: seq<bv8>, after: seq<bv8>, r: nat, n: nat, size: nat, done: nat, done': nat,
                 start: seq<bv8>, stored: seq<bv8>, stored': seq<bv8>, chunk: seq<bv8>, p: nat, p': nat)
    requires Laid(before, r, n, size, done, start, stored, p)
    requires |after| == |before| && done' == done + |chunk| <= size && stored' == stored + chunk
    requires chunk != [] && p + |chunk| <= |before|
    requires Ring(after, r, n + done + |chunk|) == Ring(before, r, n + done) + chunk
    requires p' == if p + |chunk| == |before| then 0 else p + |chunk|
    ensures Laid(after, r, n, size, done', start, stored', p')
  {
    WrapAdvance(r + n + done, |chunk|, |before|);
  }

  /** One pass of the copy loop of av_fifo_generic_write (fifo.c lines
      128-146): offer the room up to `end` (at most what is still wanted),
      copy what the source delivers to the write position and advance it,
      resetting it to the start of the buffer at `end`; an empty delivery
      ends the loop. */
  method WritePass(buf: array<bv8>, src: Source, size: nat, ghost r: nat, ghost n: nat, ghost start: seq<bv8>,
                   p: nat, ghost rooms: seq<nat>, calls: nat, remaining: nat)
    returns (p': nat, ghost rooms': seq<nat>, remaining': nat, more': bool)
    requires src.Bytes? ==> size <= |src.data|
    requires src.Producer? ==> WellBehaved(src.fill)
    requires WriteState(buf[..], src, size, r, n, start, p, rooms, remaining, true)
    requires calls == |rooms|
    modifies buf
    ensures WriteState(buf[..], src, size, r, n, start, p', rooms', remaining', more')
    ensures rooms' == rooms + [Min(buf.Length - p, remaining)]
    ensures remaining' + (if more' then 1 else 0) < remaining + 1
  {
    ghost var before := buf[..];
    var len: nat := Min(buf.Length - p, remaining);
    var chunk := Chunk(src, calls, size - remaining, len);
    p' := p;
    remaining' := remaining;
    more' := false;
    if |chunk| != 0 {
      p' := StoreSegment(buf, r, n + (size - remaining), p, chunk);
      remaining' := remaining - |chunk|;
      more' := remaining' > 0;
    }
    WriteStep(before, buf[..], src, size, r, n, start, p, rooms, remaining, len, chunk, p', remaining', more');
    rooms' := rooms + [len];
  }

  /** A pass of the write loop is offered its room (fifo.c line 132). */
  method OfferedWritePass(buf: array<bv8>, src: Source, size: nat, ghost r: nat, ghost n: nat, ghost start: seq<bv8>,
                          ghost p0: nat, p: nat, ghost rooms: seq<nat>, calls: nat, remaining: nat)
    returns (p': nat, ghost rooms': seq<nat>, remaining': nat, more': bool)
    requires src.Bytes? ==> size <= |src.data|
    requires src.Producer? ==> WellBehaved(src.fill)
    requires WriteState(buf[..], src, size, r, n, start, p, rooms, remaining, true)
    requires calls == |rooms|
    requires p0 == Wrap(r + n, buf.Length)
    requires Offered(src, size, buf.Length, p0, rooms)
    modifies buf
    ensures WriteState(buf[..], src, size, r, n, start, p', rooms', remaining', more')
    ensures rooms' == rooms + [Min(buf.Length - p, remaining)]
    ensures Offered(src, size, buf.Length, p0, rooms')
    ensures remaining' + (if more' then 1 else 0) < remaining + 1
  {
    WrapFrom(r + n, size - remaining, buf.Length);
    OfferedSnoc(src, size, buf.Length, p0, rooms, p, remaining, Min(buf.Length - p, remaining));
    p', rooms', remaining', more' := WritePass(buf, src, size, r, n, start, p, rooms, calls, remaining);
  }

  /** The copy loop of av_fifo_generic_write (fifo.c lines 126-147) on the
      storage `buf`, whose ring starts at `r` and holds `n` unread bytes;
      `p` is the write cursor.  The loop ends when `size` bytes are stored
      or the callback returns <= 0. */
  method WriteLoop(buf: array<bv8>, src: Source, size: nat, ghost r: nat, ghost n: nat, p: nat)
    returns (p': nat, written: nat, ghost rooms: seq<nat>)
    requires r < buf.Length || (buf.Length == 0 && r == 0)
    requires n + size <= buf.Length
    requires p == Wrap(r + n, buf.Length) && (buf.Length > 0 ==> p < buf.Length)
    requires src.Bytes? ==> size <= |src.data|
    requires src.Producer? ==> WellBehaved(src.fill)
    modifies buf
    ensures written <= size && 1 <= |rooms|
    ensures Ring(buf[..], r, n + written) == Ring(old(buf[..]), r, n) + Stored(src, rooms)
    ensures written == |Stored(src, rooms)|
    ensures p' == Wrap(r + n + written, buf.Length) && (buf.Length > 0 ==> p' < buf.Length)
    ensures Offered(src, size, buf.Length, p, rooms)
    ensures rooms[0] == Min(buf.Length - p, size) && (size > 0 ==> rooms[0] > 0)
    ensures OnlyLastStops(src, rooms)
    ensures written < size ==> LastStopped(src, rooms)
    ensures src.Bytes? ==> |rooms| <= 2 && Stored(src, rooms) == src.data[..size]
  {
    var remaining: nat := size;
    p' := p;
    var calls: nat := 0;
    ghost var start := Ring(buf[..], r, n);
    rooms := [];
    var more := true;
    while more
      invariant calls == |rooms|
      invariant WriteState(buf[..], src, size, r, n, start, p', rooms, remaining, more)
      invariant Offered(src, size, buf.Length, p, rooms)
      decreases remaining + (if more then 1 else 0)
    {
      p', rooms, remaining, more := OfferedWritePass(buf, src, size, r, n, start, p, p', rooms, calls, remaining);
      calls := calls + 1;
    }
    written := size - remaining;
    LoopResult(buf[..], src, size, r, n, start, p, p', rooms, remaining);
  }

  /** What the write loop leaves once it stops: the passes' deliveries
      follow the old contents, each pass was offered its room, the first
      one from the cursor `p0` where the loop began, and the loop stopped
      for one of its two reasons. */
  lemma LoopResult(buf: seq<bv8>, src: Source, size: nat, r: nat, n: nat, start: seq<bv8>,
                   p0: nat, p: nat, rooms: seq<nat>, remaining: nat)
    requires src.Bytes? ==> size <= |src.data|
    requires src.Producer? ==> WellBehaved(src.fill)
    requires WriteState(buf, src, size, r, n, start, p, rooms, remaining, false)
    requires Offered(src, size, |buf|, p0, rooms)
    requires p0 < |buf| || p0 == 0
    ensures remaining <= size && 1 <= |rooms|
    ensures Ring(buf, r, n + (size - remaining)) == start + Stored(src, rooms)
    ensures size - remaining == |Stored(src, rooms)|
    ensures p == Wrap(r + n + (size - remaining), |buf|) && (|buf| > 0 ==> p < |buf|)
    ensures rooms[0] == Min(|buf| - p0, size) && (size > 0 ==> rooms[0] > 0)
    ensures OnlyLastStops(src, rooms)
    ensures remaining > 0 ==> LastStopped(src, rooms)
    ensures src.Bytes? ==> |rooms| <= 2 && Stored(src, rooms) == src.data[..size]
  {
    LoopStopped(src, size, |buf|, p, rooms, remaining);
    FirstRoom(src, size, |buf|, p0, rooms);
  }

  /** Why the write loop stopped: everything wanted was stored, or the
      last pass (and only it) stored nothing.  A byte array took at most
      two passes and was stored whole. */
  lemma LoopStopped(src: Source, size: nat, cap: nat, p: nat, rooms: seq<nat>, remaining: nat)
    requires src.Bytes? ==> size <= |src.data|
    requires src.Producer? ==> WellBehaved(src.fill)
    requires Progress(src, size, cap, p, rooms, remaining, false)
    ensures remaining <= size && 1 <= |rooms| && size - remaining == |Stored(src, rooms)|
    ensures OnlyLastStops(src, rooms)
    ensures remaining > 0 ==> LastStopped(src, rooms)
    ensures src.Bytes? ==> |rooms| <= 2 && Stored(src, rooms) == src.data[..size]
  {
    if src.Bytes? {
      StoredBytes(src.data, rooms);
    }
  }

  /** The contiguous pieces in which `n` bytes of the ring `buf` starting
      at `r` are handed over: up to `end`, then from the start of the
      buffer. */
  function Segments(buf: seq<bv8>, r: nat, n: nat): (segs: seq<seq<bv8>>)
    requires r < |buf| || (|buf| == 0 && r == 0)
    requires n <= |buf|
  {
    if r + n <= |buf| then [buf[r..r + n]] else [buf[r..], buf[..r + n - |buf|]]
  }

  lemma ConcatSnoc(segs: seq<seq<bv8>>, s: seq<bv8>)
    ensures Concat(segs + [s]) == Concat(segs) + s
  {
    assert (segs + [s])[..|segs|] == segs;
  }

  /** The pieces are the ring's bytes, in order: at most two of them, the
      second starting at the beginning of the buffer, and none empty unless
      nothing is transferred. */
  lemma SegmentsAreRing(buf: seq<bv8>, r: nat, n: nat)
    requires r < |buf| || (|buf| == 0 && r == 0)
    requires n <= |buf|
    ensures Concat(Segments(buf, r, n)) == Ring(buf, r, n)
    ensures 1 <= |Segments(buf, r, n)| <= 2
    ensures |Segments(buf, r, n)| == 2 <==> r + n > |buf|
    ensures n > 0 ==> Segments(buf, r, n)[0] != [] && Segments(buf, r, n)[|Segments(buf, r, n)| - 1] != []
  {
    var segs := Segments(buf, r, n);
    if r + n <= |buf| {
      ConcatSnoc([], segs[0]);
      if n > 0 {
        RingSegment(buf, r, n, 0, n);
      }
    } else {
      SplitRing(buf, r, n);
    }
  }

  /** A ring that crosses `end` is the tail of the buffer followed by its head. */
  lemma SplitRing(buf: seq<bv8>, r: nat, n: nat)
    requires r < |buf| && n <= |buf| && r + n > |buf|
    ensures Concat(Segments(buf, r, n)) == Ring(buf, r, n)
  {
    var c := |buf|;
    var segs := Segments(buf, r, n);
    ConcatSnoc([], segs[0]);
    ConcatSnoc([segs[0]], segs[1]);
    assert [segs[0]] + [segs[1]] == segs;
    assert Concat(segs) == buf[r..] + buf[..r + n - c];
    var ring := Ring(buf, r, n);
    RingSegment(buf, r, n, 0, c - r);
    assert ring[0..c - r] == buf[r..];
    RingSegment(buf, r, n, c - r, r + n - c);
    assert ring[c - r..n] == buf[..r + n - c];
    assert ring == ring[0..c - r] + ring[c - r..n];
  }

  /** A ring of `n` bytes is the first `n` bytes of any longer ring from the same start. */
  lemma RingPrefix(buf: seq<bv8>, r: nat, n: nat, m: nat)
    requires r < |buf| || (|buf| == 0 && r == 0)
    requires n <= m <= |buf|
    requires r < |buf| || m == 0
    ensures Ring(buf, r, n) == Ring(buf, r, m)[..n]
  {
  }

  /** Copying `seg` right after the `|a|` bytes already delivered to a
      destination extends the delivered prefix and keeps the rest. */
  lemma Splice(a: seq<bv8>, d: seq<bv8>, seg: seq<bv8>)
    requires |a| + |seg| <= |d|
    ensures var cur := a + d[|a|..];
      cur[..|a|] + seg + cur[|a| + |seg|..] == (a + seg) + d[|a| + |seg|..]
  {
    var cur := a + d[|a|..];
    assert cur[..|a|] == a;
    assert cur[|a| + |seg|..] == d[|a| + |seg|..];
  }

  /** One pass of a peek or read loop: hand over the piece of the storage
      `buf` from `q` up to `end` (at most `left` bytes), copying it after
      the `|done|` bytes already delivered to `dest` when there is no
      callback. */
  method Deliver(buf: seq<bv8>, q: nat, left: nat, dest: array<bv8>, at: nat, copy: bool,
                 ghost done: seq<bv8>, ghost d: seq<bv8>) returns (seg: seq<bv8>)
    requires q < |buf| || (|buf| == 0 && q == 0)
    requires at == |done|
    requires copy ==> |done| + left <= dest.Length && |d| == dest.Length
    requires copy ==> dest[..] == done + d[|done|..]
    modifies dest
    ensures seg == buf[q..q + Min(|buf| - q, left)]
    ensures copy ==> dest[..] == (done + seg) + d[|done| + |seg|..]
    ensures !copy ==> dest[..] == old(dest[..])
  {
    var len := Min(|buf| - q, left);
    seg := buf[q..q + len];
    if copy {
      Splice(done, d, seg);
      CopyIn(dest, at, seg);
    }
  }

  /** After some passes of a peek or read loop over `n` bytes: the pieces
      handed over so far are the first pieces of `all`, and `left` bytes
      remain to be handed over. */
  ghost predicate Passes(all: seq<seq<bv8>>, n: nat, segs: seq<seq<bv8>>, left: nat) {
    |segs| <= |all| && segs == all[..|segs|] && left + |Concat(segs)| == n
  }

  /** One pass from the wrapped position reached so far hands over the
      next piece of `Segments(b, r, n)`, and bytes remain exactly when
      another piece follows. */
  lemma PassStep(b: seq<bv8>, r: nat, n: nat, segs: seq<seq<bv8>>, left: nat, q: nat, seg: seq<bv8>)
    requires r < |b| || (|b| == 0 && r == 0)
    requires n <= |b|
    requires Passes(Segments(b, r, n), n, segs, left)
    requires |segs| < |Segments(b, r, n)|
    requires q == Wrap(r + (n - left), |b|)
    requires q < |b| || (|b| == 0 && q == 0)
    requires seg == b[q..q + Min(|b| - q, left)]
    ensures |seg| <= left && Concat(segs + [seg]) == Concat(segs) + seg
    ensures Passes(Segments(b, r, n), n, segs + [seg], left - |seg|)
    ensures left - |seg| > 0 <==> |segs| + 1 < |Segments(b, r, n)|
    ensures Wrap(q + |seg|, |b|) == Wrap(r + (n - (left - |seg|)), |b|)
  {
    ConcatSnoc(segs, seg);
    var all := Segments(b, r, n);
    if |segs| == 0 {
      assert seg == all[0];
    } else {
      SecondPass(b, r, n, segs, left);
      assert q == 0;
      assert seg == all[1];
    }
    assert (segs + [seg]) == all[..|segs| + 1];
  }

  /** A second pass happens only when the bytes wrap, and then starts at
      the beginning of the buffer with the wrapped remainder left. */
  lemma SecondPass(b: seq<bv8>, r: nat, n: nat, segs: seq<seq<bv8>>, left: nat)
    requires r < |b| || (|b| == 0 && r == 0)
    requires n <= |b|
    requires Passes(Segments(b, r, n), n, segs, left)
    requires 0 < |segs| < |Segments(b, r, n)|
    ensures r + n > |b| && left == r + n - |b|
  {
    var all := Segments(b, r, n);
    assert r + n > |b| && |segs| == 1;
    assert segs[0] == all[0] == b[r..];
    assert Concat(segs) == Concat([]) + segs[0];
  }

  /** One pass of the av_fifo_generic_peek loop (fifo.c lines 197-211):
      deliver the piece at `q`, then advance `q`, wrapping it at `end`. */
  method PeekPass(buf: seq<bv8>, ghost r: nat, n: nat, dest: array<bv8>, copy: bool,
                  ghost d: seq<bv8>, segs: seq<seq<bv8>>, q: nat, left: nat)
    returns (segs': seq<seq<bv8>>, q': nat, left': nat)
    requires r < |buf| || (|buf| == 0 && r == 0)
    requires n <= |buf|
    requires copy ==> n <= dest.Length && |d| == dest.Length
    requires Passes(Segments(buf, r, n), n, segs, left)
    requires |segs| < |Segments(buf, r, n)|
    requires q == Wrap(r + (n - left), |buf|)
    requires q < |buf| || (|buf| == 0 && q == 0)
    requires copy ==> dest[..] == Concat(segs) + d[n - left..]
    modifies dest
    ensures Passes(Segments(buf, r, n), n, segs', left')
    ensures left' > 0 <==> |segs'| < |Segments(buf, r, n)|
    ensures |segs'| == |segs| + 1 && left' <= left
    ensures q' == Wrap(r + (n - left'), |buf|) == Wrap(q + (left - left'), |buf|)
    ensures q' < |buf| || (|buf| == 0 && q' == 0)
    ensures copy ==> dest[..] == Concat(segs') + d[n - left'..]
    ensures !copy ==> dest[..] == old(dest[..])
  {
    var seg := Deliver(buf, q, left, dest, n - left, copy, Concat(segs), d);
    PassStep(buf, r, n, segs, left, q, seg);
    segs' := segs + [seg];
    q' := Wrap(q + |seg|, |buf|);
    left' := left - |seg|;
    assert Concat(segs') == Concat(segs) + seg;
    assert n - left' == |Concat(segs)| + |seg| && q + |seg| <= |buf|;
  }

  /** The copy loop of av_fifo_generic_peek (fifo.c lines 196-212) over
      the storage `buf`, starting at the read position `r`.  Each pass
      hands one contiguous piece to the consumer (and copies it to `dest`
      when there is no callback).  It is a do-while loop: with `n == 0` it
      still makes one pass, handing over an empty piece. */
  method PeekLoop(buf: seq<bv8>, r: nat, n: nat, dest: array<bv8>, copy: bool) returns (segs: seq<seq<bv8>>)
    requires r < |buf| || (|buf| == 0 && r == 0)
    requires n <= |buf|
    requires copy ==> n <= dest.Length
    modifies dest
    ensures segs == Segments(buf, r, n)
    ensures copy ==> dest[..] == Concat(segs) + old(dest[..])[n..]
    ensures !copy ==> dest[..] == old(dest[..])
  {
    ghost var all := Segments(buf, r, n);
    var q := r;
    var left: nat := n;
    segs := [];
    var going := true;
    while going
      invariant Passes(all, n, segs, left)
      invariant going <==> |segs| < |all|
      invariant q == Wrap(r + (n - left), |buf|)
      invariant q < |buf| || (|buf| == 0 && q == 0)
      invariant copy ==> dest[..] == Concat(segs) + old(dest[..])[n - left..]
      invariant !copy ==> dest[..] == old(dest[..])
      decreases |all| - |segs|
    {
      segs, q, left := PeekPass(buf, r, n, dest, copy, old(dest[..]), segs, q, left);
      going := left > 0;
    }
  }

  /** One pass of the av_fifo_generic_peek_at loop (fifo.c lines 171-185):
      wrap `q` at `end`, deliver the piece there and advance `q` past it. */
  method PeekAtPass(buf: seq<bv8>, ghost s: nat, n: nat, dest: array<bv8>, copy: bool,
                    ghost d: seq<bv8>, segs: seq<seq<bv8>>, q: nat, left: nat)
    returns (segs': seq<seq<bv8>>, q': nat, left': nat)
    requires s < |buf| || (|buf| == 0 && s == 0)
    requires n <= |buf| && left > 0
    requires copy ==> n <= dest.Length && |d| == dest.Length
    requires Passes(Segments(buf, s, n), n, segs, left)
    requires |segs| < |Segments(buf, s, n)|
    requires Wrap(q, |buf|) == Wrap(s + (n - left), |buf|)
    requires q <= |buf| && (|buf| == 0 ==> q == 0)
    requires copy ==> dest[..] == Concat(segs) + d[n - left..]
    modifies dest
    ensures Passes(Segments(buf, s, n), n, segs', left')
    ensures left' > 0 <==> |segs'| < |Segments(buf, s, n)|
    ensures |segs'| == |segs| + 1
    ensures Wrap(q', |buf|) == Wrap(s + (n - left'), |buf|)
    ensures q' <= |buf| && (|buf| == 0 ==> q' == 0)
    ensures copy ==> dest[..] == Concat(segs') + d[n - left'..]
    ensures !copy ==> dest[..] == old(dest[..])
  {
    var p := Wrap(q, |buf|);
    var seg := Deliver(buf, p, left, dest, n - left, copy, Concat(segs), d);
    PassStep(buf, s, n, segs, left, p, seg);
    segs' := segs + [seg];
    left' := left - |seg|;
    q' := p + |seg|;
  }

  /** The copy loop of av_fifo_generic_peek_at (fifo.c lines 170-186),
      starting at position `s`.  Unlike the peek loop it is a while loop
      that wraps the position at the top of each pass, so `n == 0` makes no
      pass at all. */
  method PeekAtLoop(buf: seq<bv8>, s: nat, n: nat, dest: array<bv8>, copy: bool) returns (segs: seq<seq<bv8>>)
    requires s < |buf| || (|buf| == 0 && s == 0)
    requires n <= |buf|
    requires copy ==> n <= dest.Length
    modifies dest
    ensures segs == if n == 0 then [] else Segments(buf, s, n)
    ensures copy ==> dest[..] == Concat(segs) + old(dest[..])[n..]
    ensures !copy ==> dest[..] == old(dest[..])
  {
    ghost var all := Segments(buf, s, n);
    var q := s;
    var left: nat := n;
    segs := [];
    while left > 0
      invariant Passes(all, n, segs, left)
      invariant left > 0 ==> |segs| < |all|
      invariant Wrap(q, |buf|) == Wrap(s + (n - left), |buf|)
      invariant q <= |buf| && (|buf| == 0 ==> q == 0)
      invariant n == 0 ==> segs == []
      invariant n > 0 && left == 0 ==> |segs| == |all|
      invariant copy ==> dest[..] == Concat(segs) + old(dest[..])[n - left..]
      invariant !copy ==> dest[..] == old(dest[..])
    {
      segs, q, left := PeekAtPass(buf, s, n, dest, copy, old(dest[..]), segs, q, left);
    }
  }

  /** The fields of a FifoBuffer, for "nothing changed" statements. */
  datatype Fields = Fields(buffer: array<bv8>, rptr: nat, wptr: nat, rndx: nat, wndx: nat)

  class FifoBuffer {
    var buffer: array<bv8>
    var rptr: nat
    var wptr: nat
    var rndx: nat
    var wndx: nat

    /** av_fifo_size: the 64-bit index difference truncated to 32 bits. */
    function Size(): (n: nat)
      reads this
      ensures n < U32
    {
      (wndx - rndx) % U32
    }

    /** The unread bytes, oldest first. */
    ghost function Contents(): (s: seq<bv8>)
      reads this, buffer
      requires Valid()
      ensures |s| == Size()
    {
      Ring(buffer[..], rptr, Size())
    }

    ghost function Snapshot(): Fields
      reads this
    {
      Fields(buffer, rptr, wptr, rndx, wndx)
    }

    /** The object invariant: cursors inside the storage, at most a full
        buffer of unread bytes, and the write cursor `Size()` bytes after
        the read cursor. */
    ghost predicate Valid()
      reads this
    {
      && buffer.Length < I32
      && rndx < U64 && wndx < U32
      && (buffer.Length == 0 ==> rptr == 0 && wptr == 0)
      && (buffer.Length > 0 ==> rptr < buffer.Length && wptr < buffer.Length)
      && Size() <= buffer.Length
      && wptr == Wrap(rptr + Size(), buffer.Length)
    }

    /** av_fifo_space. */
    function Space(): (s: int)
      reads this, buffer
      requires Valid()
      ensures 0 <= s && s + |Contents()| == buffer.Length
    {
      buffer.Length - Size()
    }

    /** fifo_alloc_common: adopt `buf` as storage and reset. */
    constructor (buf: array<bv8>)
      requires buf.Length < I32
      ensures Valid() && buffer == buf
      ensures rptr == 0 && wptr == 0 && rndx == 0 && wndx == 0 && Contents() == []
    {
      buffer := buf;
      new;
      Reset();
    }

    /** av_fifo_reset. */
    method Reset()
      requires buffer.Length < I32
      modifies this
      ensures Valid() && buffer == old(buffer)
      ensures rptr == 0 && wptr == 0 && rndx == 0 && wndx == 0
      ensures Contents() == [] && Space() == buffer.Length
    {
      wptr, rptr := 0, 0;
      wndx, rndx := 0, 0;
    }

    /** av_fifo_generic_write: append up to `size` bytes taken from `src`.
        The source does not check the free space: storing more than
        `Space()` bytes would overwrite unread data, so the caller must
        check first.  `rooms` records the room offered to each pass of the
        copy loop: the first from the write cursor, each later one after
        what the passes before it stored.  Only the write side changes. */
    method GenericWrite(src: Source, size: nat) returns (written: int, ghost rooms: seq<nat>)
      requires Valid()
      requires size <= Space()
      requires src.Bytes? ==> size <= |src.data|
      requires src.Producer? ==> WellBehaved(src.fill)
      modifies this, buffer
      ensures Valid() && buffer == old(buffer)
      ensures rptr == old(rptr) && rndx == old(rndx)
      ensures 0 <= written <= size
      ensures Size() == old(Size()) + written
      ensures wndx == (old(wndx) + written) % U32
      ensures 1 <= |rooms|
      ensures Offered(src, size, buffer.Length, old(wptr), rooms)
      ensures rooms[0] == Min(buffer.Length - old(wptr), size) && (size > 0 ==> rooms[0] > 0)
      ensures Contents() == old(Contents()) + Stored(src, rooms)
      ensures written == |Stored(src, rooms)|
      ensures OnlyLastStops(src, rooms)
      ensures written < size ==> LastStopped(src, rooms)
      ensures src.Bytes? ==> written == size && Contents() == old(Contents()) + src.data[..size]
      ensures src.Bytes? ==> |rooms| <= 2
    {
      ghost var n0 := Size();
      var p;
      p, written, rooms := WriteLoop(buffer, src, size, rptr, n0, wptr);
      CommitWrite(written, p);
    }

    /** The end of av_fifo_generic_write: publish the new write position
        and count the `k` bytes written. */
    method CommitWrite(k: nat, p: nat)
      requires Valid() && Size() + k <= buffer.Length
      requires p == Wrap(rptr + Size() + k, buffer.Length) && (buffer.Length > 0 ==> p < buffer.Length)
      modifies this
      ensures Valid() && buffer == old(buffer)
      ensures rptr == old(rptr) && rndx == old(rndx)
      ensures wptr == p && wndx == (old(wndx) + k) % U32
      ensures Size() == old(Size()) + k
    {
      ghost var n0 := Size();
      var w := (wndx + k) % U32;
      SizeAfterWrite(wndx, rndx, k);
      assert (w - rndx) % U32 == n0 + k;
      wndx, wptr := w, p;
      assert Size() == n0 + k;
    }

    /** av_fifo_generic_peek: hand the `n` bytes at the read position to
        the consumer (a callback, or a copy into `dest` when there is none)
        in at most two pieces, without discarding them.  The source does not
        compare `n` with the unread bytes: past `Size()` the bytes handed
        over are stale bytes of the ring. */
    method GenericPeek(dest: array<bv8>, n: nat, copy: bool) returns (r: int, segs: seq<seq<bv8>>)
      requires Valid() && n <= buffer.Length
      requires dest != buffer && (copy ==> n <= dest.Length)
      modifies dest
      ensures buffer[..] == old(buffer[..])
      ensures r == 0
      ensures segs == Segments(buffer[..], rptr, n)
      ensures Concat(segs) == Ring(buffer[..], rptr, n)
      ensures n <= Size() ==> Concat(segs) == Contents()[..n]
      ensures copy ==> dest[..] == Concat(segs) + old(dest[..])[n..]
      ensures !copy ==> dest[..] == old(dest[..])
    {
      segs := PeekLoop(buffer[..], rptr, n, dest, copy);
      SegmentsAreRing(buffer[..], rptr, n);
      if n <= Size() {
        RingPrefix(buffer[..], rptr, n, Size());
      }
      r := 0;
    }

    /** av_fifo_generic_peek_at: like GenericPeek, for the `n` unread bytes
        that follow the first `offset` ones; no piece at all when `n == 0`.
        The precondition is the one the source's assertion is meant to
        check (see PeekAtGuardAsWritten for what it checks). */
    method GenericPeekAt(dest: array<bv8>, offset: nat, n: nat, copy: bool) returns (r: int, segs: seq<seq<bv8>>)
      requires Valid() && offset + n <= Size()
      requires dest != buffer && (copy ==> n <= dest.Length)
      modifies dest
      ensures buffer[..] == old(buffer[..])
      ensures r == 0
      ensures Concat(segs) == Contents()[offset..offset + n]
      ensures |segs| <= 2 && (segs == [] <==> n == 0)
      ensures copy ==> dest[..] == Contents()[offset..offset + n] + old(dest[..])[n..]
      ensures !copy ==> dest[..] == old(dest[..])
    {
      var q := rptr;
      if offset >= buffer.Length - rptr {
        q := q + offset - buffer.Length;
      } else {
        q := q + offset;
      }
      ghost var b, c := buffer[..], Contents();
      segs := PeekAtLoop(buffer[..], q, n, dest, copy);
      if buffer.Length > 0 {
        assert q == Wrap(rptr + offset, buffer.Length);
        RingAdvance(b, rptr, Size(), offset);
        RingPrefix(b, q, n, Size() - offset);
        assert Ring(b, q, n) == c[offset..offset + n];
      }
      SegmentsAreRing(b, q, n);
      assert Concat(segs) == c[offset..offset + n];
      r := 0;
    }

    /** One pass of av_fifo_generic_read (fifo.c lines 223-233): hand over
        the piece from the read position up to `end` (at most `left`
        bytes), as a peek pass does, and drain it.  The ghost parameters
        describe the whole read: it started at `r0`/`x0` with contents `c0`
        and transfers `n` bytes of the storage `b`. */
    method ReadPass(dest: array<bv8>, copy: bool, ghost b: seq<bv8>, ghost r0: nat, ghost x0: nat,
                    ghost c0: seq<bv8>, n: nat, ghost d: seq<bv8>, segs: seq<seq<bv8>>, left: nat)
      returns (segs': seq<seq<bv8>>, left': nat)
      requires Valid() && buffer[..] == b
      requires r0 < |b| || (|b| == 0 && r0 == 0)
      requires n <= |b| && n <= |c0|
      requires Passes(Segments(b, r0, n), n, segs, left)
      requires |segs| < |Segments(b, r0, n)|
      requires rptr == Wrap(r0 + (n - left), |b|) && rndx == (x0 + (n - left)) % U64
      requires Contents() == c0[n - left..]
      requires dest != buffer && (copy ==> n <= dest.Length && |d| == dest.Length)
      requires copy ==> dest[..] == Concat(segs) + d[n - left..]
      modifies this, dest
      ensures Valid() && buffer == old(buffer) && buffer[..] == b
      ensures wptr == old(wptr) && wndx == old(wndx)
      ensures Passes(Segments(b, r0, n), n, segs', left')
      ensures left' > 0 <==> |segs'| < |Segments(b, r0, n)|
      ensures |segs'| == |segs| + 1
      ensures rptr == Wrap(r0 + (n - left'), |b|) && rndx == (x0 + (n - left')) % U64
      ensures Contents() == c0[n - left'..]
      ensures copy ==> dest[..] == Concat(segs') + d[n - left'..]
      ensures !copy ==> dest[..] == old(dest[..])
    {
      var q;
      assert |b| == buffer.Length;
      segs', q, left' := PeekPass(buffer[..], r0, n, dest, copy, d, segs, rptr, left);
      assert left - left' <= Size();
      DrainPass(left - left', r0, x0, c0, n - left, n - left');
    }

    /** A drain of `size` bytes in the middle of a read that started at
        `r0`/`x0` with contents `c0` and has consumed `done` bytes. */
    method DrainPass(size: nat, ghost r0: nat, ghost x0: nat, ghost c0: seq<bv8>, ghost done: nat, ghost done': nat)
      requires Valid() && size <= Size() && done' == done + size && done' <= |c0|
      requires r0 < buffer.Length || (buffer.Length == 0 && r0 == 0)
      requires Wrap(rptr + size, buffer.Length) == Wrap(r0 + done', buffer.Length)
      requires rndx == (x0 + done) % U64
      requires Contents() == c0[done..]
      modifies this
      ensures Valid() && buffer == old(buffer)
      ensures wptr == old(wptr) && wndx == old(wndx)
      ensures rptr == Wrap(r0 + done', buffer.Length) && rndx == (x0 + done') % U64
      ensures Contents() == c0[done'..]
    {
      Advance64(x0, done, size, done');
      assert c0[done..][size..] == c0[done'..];
      Drain(size);
    }

    /** av_fifo_generic_read: hand the first `n` unread bytes to the
        consumer, or copy them to `dest`, draining them pass by pass. */
    method GenericRead(dest: array<bv8>, n: nat, copy: bool) returns (r: int, segs: seq<seq<bv8>>)
      requires Valid() && n <= Size()
      requires dest != buffer && (copy ==> n <= dest.Length)
      modifies this, dest
      ensures Valid() && buffer == old(buffer) && buffer[..] == old(buffer[..])
      ensures r == 0
      ensures segs == Segments(buffer[..], old(rptr), n)
      ensures Concat(segs) == old(Contents())[..n]
      ensures Contents() == old(Contents())[n..]
      ensures rptr == Wrap(old(rptr) + n, buffer.Length) && rndx == (old(rndx) + n) % U64
      ensures wptr == old(wptr) && wndx == old(wndx)
      ensures copy ==> dest[..] == Concat(segs) + old(dest[..])[n..]
      ensures !copy ==> dest[..] == old(dest[..])
    {
      ghost var b, r0, x0, c0 := buffer[..], rptr, rndx, Contents();
      ghost var all := Segments(b, r0, n);
      SegmentsAreRing(b, r0, n);
      RingPrefix(b, r0, n, Size());
      var left: nat := n;
      segs := [];
      var going := true;
      while going
        invariant Valid() && buffer == old(buffer) && buffer[..] == b
        invariant wptr == old(wptr) && wndx == old(wndx)
        invariant Passes(all, n, segs, left)
        invariant going <==> |segs| < |all|
        invariant rptr == Wrap(r0 + (n - left), |b|) && rndx == (x0 + (n - left)) % U64
        invariant Contents() == c0[n - left..]
        invariant copy ==> dest[..] == Concat(segs) + old(dest[..])[n - left..]
        invariant !copy ==> dest[..] == old(dest[..])
        decreases |all| - |segs|
      {
        segs, left := ReadPass(dest, copy, b, r0, x0, c0, n, old(dest[..]), segs, left);
        going := left > 0;
      }
      r := 0;
    }

    /** av_fifo_drain: discard the first `size` unread bytes. */
    method Drain(size: nat)
      requires Valid() && size <= Size()
      modifies this
      ensures Valid() && buffer == old(buffer)
      ensures Contents() == old(Contents())[size..]
      ensures Size() == old(Size()) - size
      ensures rptr == Wrap(old(rptr) + size, buffer.Length)
      ensures rndx == (old(rndx) + size) % U64
      ensures wptr == old(wptr) && wndx == old(wndx)
    {
      ghost var before := Contents();
      SizeAfterDrain(wndx, rndx, size);
      if buffer.Length > 0 {
        RingAdvance(buffer[..], rptr, Size(), size);
      }
      rptr := Wrap(rptr + size, buffer.Length);
      rndx := (rndx + size) % U64;
    }
  
    /** The write step of av_fifo_realloc2 on the fresh FIFO: `data`
        already sits at the start of the empty buffer, and the write
        cursor and counter move past it without wrapping. */
    method Commit(len: nat, ghost data: seq<bv8>)
      requires Valid() && rptr == 0 && wptr == 0 && rndx == 0 && wndx == 0
      requires len == |data| < buffer.Length && buffer[..][..len] == data
      modifies this
      ensures Valid() && buffer == old(buffer) && Contents() == data
      ensures rptr == 0 && rndx == 0 && wptr == |data| && wndx == |data|
    {
      wptr := wptr + len;
      wndx := wndx + len;
      assert Size() == len;
      RingFromZero(buffer[..], len);
    }

    /** `*f = *f2`: take over every field of `other`. */
    method Adopt(other: FifoBuffer)
      requires other.Valid()
      modifies this
      ensures Valid() && Snapshot() == other.Snapshot() && Contents() == other.Contents()
    {
      buffer, rptr, wptr, rndx, wndx := other.buffer, other.rptr, other.wptr, other.rndx, other.wndx;
    }

    /** av_fifo_realloc2: when `newSize` exceeds the capacity, move the
        unread bytes to the start of a fresh buffer of `newSize` bytes
        (through av_fifo_alloc and av_fifo_generic_read); otherwise do
        nothing.  `allocOk` says whether the allocation succeeds.  A new
        capacity of 2^31 or more is outside the model (see `I32`). */
    method Realloc2(newSize: nat, allocOk: bool) returns (r: int)
      requires Valid() && newSize < U32
      requires buffer.Length < newSize ==> newSize < I32
      modifies this
      ensures Valid() && Contents() == old(Contents())
      ensures r == 0 || r == -1
      ensures r == -1 <==> old(buffer.Length) < newSize && !allocOk
      ensures r == -1 || newSize <= old(buffer.Length) ==> unchanged(this) && buffer[..] == old(buffer[..])
      ensures r == 0 && old(buffer.Length) < newSize ==>
        && fresh(buffer) && buffer.Length == newSize
        && rptr == 0 && rndx == 0 && wptr == old(Size()) && wndx == old(Size())
    {
      var oldSize := buffer.Length;
      if oldSize < newSize {
        var len := Size();
        var f2 := Alloc(newSize, allocOk);
        if f2 == null {
          return -1;
        }
        ghost var c0 := Contents();
        var _, segs := GenericRead(f2.buffer, len, true);
        assert f2.buffer[..][..len] == c0;
        f2.Commit(len, c0);
        Adopt(f2);
      }
      r := 0;
    }

    /** av_fifo_grow: make room for `size` more bytes.  The sum with the
        unread bytes is checked for 32-bit unsigned overflow; when the
        capacity is too small the buffer is reallocated to the larger of
        the sum and twice the capacity (a 32-bit unsigned product).  A
        reallocation to 2^31 bytes or more is outside the model (see
        `I32`); the overflow failure is not. */
    method Grow(size: nat, allocOk: bool) returns (r: int)
      requires Valid() && size < U32
      requires size + Size() < U32 && buffer.Length < size + Size() ==> Max(size + Size(), 2 * buffer.Length) < I32
      modifies this
      ensures Valid() && Contents() == old(Contents())
      ensures r == 0 || r == -1
      ensures r == -1 <==> size + old(Size()) >= U32 || (old(buffer.Length) < size + old(Size()) && !allocOk)
      ensures r == 0 ==> Space() >= size
      ensures r == -1 || old(buffer.Length) >= size + old(Size()) ==> unchanged(this) && buffer[..] == old(buffer[..])
      ensures r == 0 && old(buffer.Length) < size + old(Size()) ==>
        fresh(buffer) && buffer.Length == Max(size + old(Size()), (2 * old(buffer.Length)) % U32)
    {
      var oldSize := buffer.Length;
      if (size + Size()) % U32 < size {
        return -1;
      }
      var total := size + Size();
      if oldSize < total {
        r := Realloc2(Max(total, (2 * oldSize) % U32), allocOk);
      } else {
        r := 0;
      }
    }

    /** av_fifo_peek2: the position `offs` bytes from the read position,
        wrapped forwards past `end` or backwards before the start of the
        buffer.  Positions more than one capacity away are outside the
        storage in the source, so they are excluded. */
    function Peek2(offs: int): (p: nat)
      reads this
      requires Valid() && buffer.Length > 0
      requires -buffer.Length <= rptr + offs < 2 * buffer.Length
      ensures p < buffer.Length
      ensures p - (rptr + offs) in {-buffer.Length, 0, buffer.Length}
    {
      var ptr := rptr + offs;
      if ptr >= buffer.Length then ptr - buffer.Length
      else if ptr < 0 then buffer.Length - (0 - ptr)
      else ptr
    }

    /** Peeking `offs` bytes ahead of the read position finds unread byte
        number `offs`. */
    lemma Peek2Unread(offs: nat)
      requires Valid() && offs < Size()
      ensures buffer.Length > 0 && buffer[Peek2(offs)] == Contents()[offs]
    {
      assert Contents()[offs] == buffer[..][Wrap(rptr + offs, buffer.Length)];
    }

    /** The offset-peek guard as the source writes it: a 32-bit unsigned
        sum compared with the 64-bit difference of the counters. */
    predicate PeekAtGuardAsWritten(offset: nat, n: nat): (r: bool)
      reads this
      ensures offset + n <= Size() ==> r
    {
      (n + offset) % U32 <= (wndx - rndx) % U64
    }
  }

  /** av_fifo_alloc: a FIFO over a fresh, uninitialised buffer of `size`
      bytes, or null when an allocation fails. */
  method Alloc(size: nat, allocOk: bool) returns (f: FifoBuffer?)
    requires size < I32
    ensures f != null <==> allocOk
    ensures f != null ==> fresh(f) && fresh(f.buffer) && f.Valid() && f.buffer.Length == size
    ensures f != null ==> f.rptr == 0 && f.wptr == 0 && f.rndx == 0 && f.wndx == 0 && f.Contents() == []
  {
    if !allocOk {
      return null;
    }
    var buf := new bv8[size];
    f := new FifoBuffer(buf);
  }

  /** av_fifo_alloc_array: a FIFO over a fresh zero-filled buffer of
      `nmemb * size` bytes, or null when an allocation fails. */
  method AllocArray(nmemb: nat, size: nat, allocOk: bool) returns (f: FifoBuffer?)
    requires nmemb * size < I32
    ensures f != null <==> allocOk
    ensures f != null ==> fresh(f) && fresh(f.buffer) && f.Valid() && f.buffer.Length == nmemb * size
    ensures f != null ==> f.Contents() == [] && forall i | 0 <= i < f.buffer.Length :: f.buffer[i] == 0
  {
    if !allocOk {
      return null;
    }
    var buf := new bv8[nmemb * size](_ => 0);
    f := new FifoBuffer(buf);
  }

  /** The offset-peek guard as written admits a peek past the unread
      bytes: once the write counter has wrapped at 2^32 while the read
      counter has not, the 64-bit difference is huge, so eight unread
      bytes pass a request for a thousand.  GenericPeekAt uses the
      corrected guard `offset + n <= Size()`. */
  lemma PeekAtGuardAdmitsOverread(f: FifoBuffer)
    requires f.Valid() && f.wndx == 5 && f.rndx == U32 - 3
    ensures f.Size() == 8
    ensures f.PeekAtGuardAsWritten(0, 1000) && 0 + 1000 > f.Size()
  {
  }
}
