/** The page allocator of the line reader (`LineReader.MemoryAllocator`).
    Each `get()` hands the reader a page of 4 KiB to fill, in a buffer that
    still holds the bytes of the line being read: the range from the
    buffer's mark (where that line starts) to its limit (where the data read
    so far ends). The allocator pages through one 32 KiB direct buffer,
    compacts it in place once its start is garbage, migrates to a heap buffer
    of twice the size when compaction frees nothing, and goes back to the
    direct buffer once the pinned bytes fit in it again.

    Buffers are modelled as views over an explicit storage sequence.
    `Compress` and `SwapToHeap` place the new page right after the pinned
    bytes; the code as written computes the page offset from the capacity
    instead (`CompressAsWritten`, `SwapToHeapAsWritten`). */
module Allocator {
  import opened Streams

  const PAGE_SIZE: int := 4096
  const DIRECT_MEMORY_SIZE: int := 8 * PAGE_SIZE

  /** A `ByteBuffer`: its storage (whose length is the capacity) and its
      mark, position and limit. */
  datatype Buffer = Buffer(data: seq<byte>, mark: int, position: int, limit: int) {
    /** The ordering `ByteBuffer` itself maintains. */
    predicate WellFormed() {
      0 <= mark <= position <= limit <= |data|
    }

    /** The bytes the reader still needs when it asks for a page: the
        unfinished line from the mark up to the end of the data. */
    function Pinned(): seq<byte>
      requires WellFormed()
    {
      data[mark..limit]
    }
  }

  /** The allocator: the direct buffer, and the heap buffer while one is in
      use (`heap == null` is direct mode). */
  datatype Allocator = Allocator(direct: Buffer, heap: Option<Buffer>)

  /** The buffer the last `get()` returned. */
  function Current(a: Allocator): Buffer {
    if a.heap.Some? then a.heap.value else a.direct
  }

  /** The allocator's invariant. The direct buffer keeps its 32 KiB; a heap
      buffer is at least twice that, and exists only because the direct
      buffer was full, so the direct buffer's limit stays beyond the point
      where a page still fitted. That last fact is what lets the pinned
      bytes of the heap be copied back into the direct buffer. */
  predicate Valid(a: Allocator) {
    && a.direct.WellFormed()
    && |a.direct.data| == DIRECT_MEMORY_SIZE
    && (a.heap.Some? ==>
          && a.heap.value.WellFormed()
          && |a.heap.value.data| >= 2 * DIRECT_MEMORY_SIZE
          && a.direct.limit > DIRECT_MEMORY_SIZE - PAGE_SIZE)
  }

  /** Freshly allocated storage is zero-filled. */
  function Zeros(n: nat): (z: seq<byte>)
    ensures |z| == n && forall i :: 0 <= i < n ==> z[i] == 0
  {
    seq(n, _ => 0)
  }

  /** The constructor: an empty direct buffer with its mark at 0. */
  const Fresh: Allocator := Allocator(Buffer(Zeros(DIRECT_MEMORY_SIZE), 0, 0, 0), None)

  /** `addPage(memory, to)`: the page `[to, to + 4096)`. */
  function AddPage(m: Buffer, to: int): (r: Buffer)
    requires m.WellFormed() && m.mark <= to <= m.limit && to + PAGE_SIZE <= |m.data|
    ensures r.WellFormed() && r.data == m.data && r.mark == m.mark
    ensures r.position == to && r.limit == to + PAGE_SIZE
  {
    m.(position := to, limit := to + PAGE_SIZE)
  }

  /** `reset()`: back to the mark. `hasGarbage` does this as a side effect,
      and `compress` and `swapToHeap` rely on it. */
  function Reset(m: Buffer): Buffer {
    m.(position := m.mark)
  }

  /** The test of `hasGarbage`: a whole page before the mark can be reused. */
  predicate HasGarbage(m: Buffer) {
    m.mark >= PAGE_SIZE
  }

  /** `compact()` followed by `prepareForRead`: the bytes `[position, limit)`
      move to the front, the rest of the storage is left as it was, and the
      position and mark go to 0 with the limit at the capacity. */
  function Compacted(m: Buffer): (r: Buffer)
    requires m.WellFormed()
    ensures r.WellFormed() && |r.data| == |m.data|
    ensures r.mark == 0 && r.position == 0 && r.limit == |m.data|
    ensures r.data[..m.limit - m.position] == m.data[m.position..m.limit]
  {
    var n := m.limit - m.position;
    Buffer(m.data[m.position..m.limit] + m.data[n..], 0, 0, |m.data|)
  }

  /** `compress`: the pinned bytes move to offset 0 and the new page follows
      them directly. The source opens the page at `32768 - mark`, which is
      the same offset only for a full direct buffer (see
      `CompressAsWritten`). */
  function Compress(m: Buffer): (r: Buffer)
    requires m.WellFormed() && m.position == m.mark && HasGarbage(m)
    ensures r.WellFormed() && |r.data| == |m.data|
    ensures r.mark == 0 && r.data[..r.position] == m.Pinned()
    ensures r.limit == r.position + PAGE_SIZE
  {
    AddPage(Compacted(m), m.limit - m.mark)
  }

  /** `compress` as written: the page opens at `32768 - mark` whatever the
      buffer. `None` is the `IllegalArgumentException` that `position` or
      `limit` throw when that offset lies outside the buffer. */
  function CompressAsWritten(m: Buffer): (r: Option<Buffer>)
    requires m.WellFormed() && m.position == m.mark && HasGarbage(m)
    ensures r.Some? ==> r.value.position == DIRECT_MEMORY_SIZE - m.mark && r.value.mark == 0
    ensures r.Some? ==> r.value.data == Compacted(m).data
    ensures r.None? <==> m.mark > DIRECT_MEMORY_SIZE || |m.data| < DIRECT_MEMORY_SIZE - m.mark + PAGE_SIZE
  {
    var to := DIRECT_MEMORY_SIZE - m.mark;
    if to < 0 || to + PAGE_SIZE > |m.data| then None else Some(AddPage(Compacted(m), to))
  }

  /** `swapToHeap`: a zero-filled buffer of twice the capacity receives the
      pinned bytes (`put` copies `[position, limit)`, the position being at
      the mark) and the new page follows them directly. The source opens
      the page at `capacity - mark` (see `SwapToHeapAsWritten`). */
  function SwapToHeap(m: Buffer): (r: Buffer)
    requires m.WellFormed() && m.position == m.mark && |m.data| >= PAGE_SIZE
    ensures r.WellFormed() && |r.data| == 2 * |m.data|
    ensures r.mark == 0 && r.data[..r.position] == m.Pinned()
    ensures r.limit == r.position + PAGE_SIZE
  {
    var n := m.limit - m.mark;
    AddPage(Buffer(m.Pinned() + Zeros(2 * |m.data| - n), 0, 0, 2 * |m.data|), n)
  }

  /** `swapToHeap` as written: the page opens at `payload = capacity - mark`. */
  function SwapToHeapAsWritten(m: Buffer): (r: Buffer)
    requires m.WellFormed() && m.position == m.mark && |m.data| >= PAGE_SIZE
    ensures r.WellFormed() && |r.data| == 2 * |m.data|
    ensures r.mark == 0 && r.data[..m.limit - m.mark] == m.Pinned()
    ensures r.position == |m.data| - m.mark && r.limit == r.position + PAGE_SIZE
  {
    var n := m.limit - m.mark;
    var target := Buffer(m.Pinned() + Zeros(2 * |m.data| - n), 0, 0, 2 * |m.data|);
    target.(position := |m.data| - m.mark, limit := |m.data| - m.mark + PAGE_SIZE)
  }

  /** `trySwapToDirect`, called in heap mode. The heap is reset to its mark;
      when the pinned bytes span at most 28 KiB they are copied to the front
      of the direct buffer, whose mark and position go to 0 and whose limit
      goes to the end of the copy, and the heap is dropped. */
  function TrySwapToDirect(a: Allocator): (r: Allocator)
    requires Valid(a) && a.heap.Some?
    ensures Valid(r)
    ensures Current(r).Pinned() == Current(a).Pinned()
    ensures r.heap.None? <==> Current(a).limit - Current(a).mark <= DIRECT_MEMORY_SIZE - PAGE_SIZE
    ensures r.heap.None? ==> r.direct.mark == 0 && r.direct.position == 0
    ensures r.heap.Some? ==> r.direct == a.direct && r.heap.value == Reset(Current(a))
  {
    var h := a.heap.value;
    var span := h.limit - h.mark;
    if span > DIRECT_MEMORY_SIZE - PAGE_SIZE then a.(heap := Some(Reset(h)))
    else
      var copied := h.Pinned() + a.direct.data[span..];
      Allocator(Buffer(copied, 0, 0, span), None)
  }

  /** The allocator after the buffer in use was replaced by `m`. */
  function Replace(a: Allocator, m: Buffer): Allocator {
    if a.heap.Some? then a.(heap := Some(m)) else a.(direct := m)
  }

  /** `get()`. Whatever the mode, the bytes pinned in the buffer in use
      reappear, contiguous, from the mark of the buffer returned, and the new
      page of exactly 4 KiB starts right after them, so the reader never
      writes over them. The four modes:
      - paging: the direct buffer with room for a page returns itself with
        the page `[limit, limit + 4096)`, storage and mark untouched;
      - compaction: a full direct buffer with a page of garbage before the
        mark compacts in place;
      - migration: a full direct buffer without garbage moves to a heap
        buffer of 64 KiB;
      - return: a heap whose pinned span is at most 28 KiB hands its bytes
        back to the direct buffer. */
  function Get(a: Allocator): (r: Allocator)
    requires Valid(a)
    ensures Valid(r)
    ensures var c := Current(r);
            && c.data[c.mark..c.position] == Current(a).Pinned()
            && c.limit == c.position + PAGE_SIZE
    ensures a.heap.None? && DIRECT_MEMORY_SIZE - a.direct.limit >= PAGE_SIZE ==>
              r == a.(direct := a.direct.(position := a.direct.limit, limit := a.direct.limit + PAGE_SIZE))
    ensures a.heap.None? && DIRECT_MEMORY_SIZE - a.direct.limit < PAGE_SIZE ==>
              (r.heap.None? <==> HasGarbage(a.direct))
    ensures a.heap.None? && r.heap.Some? ==> |r.heap.value.data| == 2 * DIRECT_MEMORY_SIZE
    ensures a.heap.Some? ==>
              (r.heap.None? <==> Current(a).limit - Current(a).mark <= DIRECT_MEMORY_SIZE - PAGE_SIZE)
    ensures r.heap.None? ==> r.direct.limit <= DIRECT_MEMORY_SIZE
    ensures (a.heap.None? && DIRECT_MEMORY_SIZE - a.direct.limit < PAGE_SIZE) || (a.heap.Some? && r.heap.None?)
            ==> Current(r).mark == 0
  {
    var b := if a.heap.None? then a else TrySwapToDirect(a);
    var m := Current(b);
    if |m.data| - m.limit >= PAGE_SIZE then
      Replace(b, AddPage(m, m.limit))
    else
      var g := Reset(m);
      if HasGarbage(g) then
        Replace(b, Compress(g))
      else
        // `put` moves the source's position to its limit; only the direct
        // buffer outlives the swap
        var direct := if b.heap.None? then b.direct.(position := b.direct.limit) else b.direct;
        Allocator(direct, Some(SwapToHeap(g)))
  }

  /** `get()` as written, with `CompressAsWritten` and `SwapToHeapAsWritten`;
      `None` when `compress` throws. */
  function GetAsWritten(a: Allocator): (r: Option<Allocator>)
    requires Valid(a)
    ensures r.None? ==> HasGarbage(Current(a)) && Current(a).mark > DIRECT_MEMORY_SIZE
  {
    var b := if a.heap.None? then a else TrySwapToDirect(a);
    var m := Current(b);
    if |m.data| - m.limit >= PAGE_SIZE then
      Some(Replace(b, AddPage(m, m.limit)))
    else
      var g := Reset(m);
      if HasGarbage(g) then
        match CompressAsWritten(g)
        case None => None
        case Some(c) => Some(Replace(b, c))
      else
        var direct := if b.heap.None? then b.direct.(position := b.direct.limit) else b.direct;
        Some(Allocator(direct, Some(SwapToHeapAsWritten(g))))
  }

  /** The two versions of `get()` agree on a direct buffer whose data reaches
      its capacity: there `32768 - mark` is exactly where the compacted line
      ends. A direct buffer left short of its capacity by an earlier
      compaction is where they part (see `DirectCompressLeavesGap` and
      `SwapToHeapLeavesGap`). */
  lemma AsWrittenAgreesOnFullDirect(a: Allocator)
    requires Valid(a) && a.heap.None? && a.direct.limit == DIRECT_MEMORY_SIZE
    ensures GetAsWritten(a) == Some(Get(a))
  {
    var g := Reset(a.direct);
    if HasGarbage(g) {
      assert CompressAsWritten(g) == Some(Compress(g));
    } else {
      assert SwapToHeapAsWritten(g) == SwapToHeap(g);
    }
  }

  /** A heap of 64 KiB, full, whose line starts one page in: as written,
      `compress` opens the new page at 28672, inside the 61440 pinned bytes
      it has just moved to the front, so reading into the page overwrites
      the line. `Get` opens it at 61440. */
  lemma HeapCompressOverlapsPinned()
    ensures var h := Buffer(Zeros(2 * DIRECT_MEMORY_SIZE), PAGE_SIZE, PAGE_SIZE, 2 * DIRECT_MEMORY_SIZE);
            var a := Allocator(Buffer(Zeros(DIRECT_MEMORY_SIZE), 0, DIRECT_MEMORY_SIZE, DIRECT_MEMORY_SIZE), Some(h));
            && Valid(a)
            && var w := GetAsWritten(a);
            && w.Some? && w.value.heap.Some?
            && w.value.heap.value.position == 28672
            && w.value.heap.value.position < |h.Pinned()| == 61440
            && Current(Get(a)).position == 61440
  {
    var h := Buffer(Zeros(2 * DIRECT_MEMORY_SIZE), PAGE_SIZE, PAGE_SIZE, 2 * DIRECT_MEMORY_SIZE);
    var a := Allocator(Buffer(Zeros(DIRECT_MEMORY_SIZE), 0, DIRECT_MEMORY_SIZE, DIRECT_MEMORY_SIZE), Some(h));
    assert TrySwapToDirect(a) == a.(heap := Some(Reset(h)));
    assert Reset(h) == h;
    assert GetAsWritten(a) == Some(a.(heap := CompressAsWritten(h)));
    assert Get(a) == a.(heap := Some(Compress(h)));
  }

  /** A direct buffer whose data stops 777 bytes short of its capacity (as
      an earlier compaction leaves it) and whose line starts at 5000, past a
      page of garbage: as written, `compress` opens the page at
      `32768 - 5000 = 27768`, while the 26991 pinned bytes moved to the
      front end at 26991, so the 777 stale bytes in between become part of
      the line. `Get` opens the page at 26991. */
  lemma DirectCompressLeavesGap()
    ensures var a := Allocator(Buffer(Zeros(DIRECT_MEMORY_SIZE), 5000, 5000, 31991), None);
            && Valid(a)
            && var w := GetAsWritten(a);
            && w.Some? && w.value.heap.None?
            && w.value.direct.mark == 0
            && w.value.direct.position == 27768
            && |a.direct.Pinned()| == 26991
            && Get(a).heap.None?
            && Get(a).direct.position == 26991
  {
  }

  /** A full direct buffer whose data stops 777 bytes short of its capacity
      (the state `compress` leaves behind in the allocator's tests) and
      whose line starts at 0: as written, `swapToHeap` opens the page at
      32768, leaving 777 zero bytes between the copied line and the page,
      which the reader takes for part of the line. `Get` opens it at 31991. */
  lemma SwapToHeapLeavesGap()
    ensures var a := Allocator(Buffer(Zeros(DIRECT_MEMORY_SIZE), 0, 0, 31991), None);
            && Valid(a)
            && var w := GetAsWritten(a);
            && w.Some? && w.value.heap.Some?
            && w.value.heap.value.position == 32768
            && |a.direct.Pinned()| == 31991
            && Current(Get(a)).position == 31991
  {
  }

  /** `get()` called `k` times in a row, the reader writing nothing. */
  function Gets(a: Allocator, k: nat): (r: Allocator)
    requires Valid(a)
    ensures Valid(r)
    decreases k
  {
    if k == 0 then a else Get(Gets(a, k - 1))
  }

  /** The reader starting a new line at `p` (`position(p).mark()`). */
  function MarkAt(a: Allocator, p: int): (r: Allocator)
    requires Valid(a) && 0 <= p <= Current(a).limit
    ensures Valid(r) && r.heap.Some? == a.heap.Some?
    ensures Current(r) == Current(a).(mark := p, position := p)
  {
    Replace(a, Current(a).(mark := p, position := p))
  }

  /** The reader storing `v` at its position and moving past it (`put(v)`). */
  function PutNext(a: Allocator, v: byte): (r: Allocator)
    requires Valid(a) && Current(a).position < Current(a).limit
    ensures Valid(r) && r.heap.Some? == a.heap.Some?
    ensures var c := Current(a);
            Current(r) == c.(data := c.data[c.position := v], position := c.position + 1)
  {
    var c := Current(a);
    Replace(a, c.(data := c.data[c.position := v], position := c.position + 1))
  }

  /** The reader storing `v` at index `i` (`put(i, v)`). */
  function PutAt(a: Allocator, i: int, v: byte): (r: Allocator)
    requires Valid(a) && 0 <= i < Current(a).limit
    ensures Valid(r) && r.heap.Some? == a.heap.Some?
    ensures Current(r) == Current(a).(data := Current(a).data[i := v])
  {
    Replace(a, Current(a).(data := Current(a).data[i := v]))
  }

  /** The reader ending its data early (`position(p).limit(l)`). */
  function Narrow(a: Allocator, p: int, l: int): (r: Allocator)
    requires Valid(a) && Current(a).mark <= p <= l <= Current(a).limit
    ensures Valid(r) && r.heap.Some? == a.heap.Some?
    ensures Current(r) == Current(a).(position := p, limit := l)
  {
    Replace(a, Current(a).(position := p, limit := l))
  }

  /** While the direct buffer has room, successive pages follow one another
      in it, and its storage and mark are left alone. */
  lemma {:induction false} PagingFillsDirect(a: Allocator, k: nat)
    requires Valid(a) && a.heap.None? && 1 <= k
    requires a.direct.limit + k * PAGE_SIZE <= DIRECT_MEMORY_SIZE
    ensures Gets(a, k) == a.(direct := a.direct.(position := a.direct.limit + (k - 1) * PAGE_SIZE,
                                                 limit := a.direct.limit + k * PAGE_SIZE))
    decreases k
  {
    if k > 1 {
      PagingFillsDirect(a, k - 1);
    }
  }

  /** The first eight pages all come from the one direct buffer, the k-th at
      offset (k - 1) * 4096, the first one with its mark at 0. */
  lemma FirstEightPagesShareDirect(k: nat)
    requires 1 <= k <= 8
    ensures Gets(Fresh, k) == Allocator(Buffer(Zeros(DIRECT_MEMORY_SIZE), 0, (k - 1) * PAGE_SIZE, k * PAGE_SIZE), None)
  {
    PagingFillsDirect(Fresh, k);
  }

  /** The ninth page, with the line still starting at 0, no longer fits: the
      allocator moves to a heap buffer of 64 KiB, the page at 32768, the mark
      at 0. */
  lemma NinthPageMovesToHeap()
    ensures var r := Gets(Fresh, 9);
            && r.heap.Some? && |r.heap.value.data| == 2 * DIRECT_MEMORY_SIZE
            && r.heap.value.mark == 0
            && r.heap.value.position == 8 * PAGE_SIZE && r.heap.value.limit == 9 * PAGE_SIZE
  {
    FirstEightPagesShareDirect(8);
  }

  /** A line started at 10 whose bytes 11 to 13 were written survives the
      next page. */
  lemma SavesBytesFromMark()
    ensures var a := Narrow(PutAt(PutAt(PutAt(MarkAt(Get(Fresh), 10), 11, 1), 12, 2), 13, 3), 13, 13);
            var c := Current(Get(a));
            && c.mark == 10
            && c.data[c.mark + 1] == 1 && c.data[c.mark + 2] == 2 && c.data[c.mark + 3] == 3
  {
    FirstEightPagesShareDirect(1);
  }

  /** A line of one byte at the very end of the full direct buffer is
      compacted to offset 0, and the next page follows it. */
  lemma CompressesLastByte(a: Allocator)
    requires Valid(a) && a.heap.None?
    requires a.direct.limit == DIRECT_MEMORY_SIZE && a.direct.mark == DIRECT_MEMORY_SIZE - 1
    ensures var r := Get(a);
            && r.heap.None? && r.direct.mark == 0
            && r.direct.position == 1 && r.direct.limit == 1 + PAGE_SIZE
            && r.direct.data[0] == a.direct.data[DIRECT_MEMORY_SIZE - 1]
  {
    assert a.direct.Pinned() == [a.direct.data[DIRECT_MEMORY_SIZE - 1]];
  }

  /** After seven pages, a line of one byte started at the last byte of the
      eighth page is compacted to offset 0 of the direct buffer, and the next
      page follows it. */
  lemma CompactsMemory()
    ensures Gets(Fresh, 8) == Allocator(Buffer(Zeros(DIRECT_MEMORY_SIZE), 0, 7 * PAGE_SIZE, 8 * PAGE_SIZE), None)
    ensures var a := PutNext(MarkAt(Gets(Fresh, 8), 7 * PAGE_SIZE + PAGE_SIZE - 1), 7);
            var r := Get(a);
            && r.heap.None?
            && r.direct.data[0] == 7 && r.direct.mark == 0
            && r.direct.position == 1 && r.direct.limit == 1 + PAGE_SIZE
  {
    FirstEightPagesShareDirect(8);
    var a := PutNext(MarkAt(Gets(Fresh, 8), 7 * PAGE_SIZE + PAGE_SIZE - 1), 7);
    CompressesLastByte(a);
  }

  /** With the line starting at 0, a byte written on the second page is
      found at the same offset of the heap buffer after the ninth page. */
  lemma SwapKeepsEarlierBytes()
    ensures var a := PutNext(Gets(Fresh, 2), 77);
            var r := Gets(a, 7);
            && r.heap.Some? && r.heap.value.mark == 0
            && r.heap.value.position == 8 * PAGE_SIZE && r.heap.value.limit == 9 * PAGE_SIZE
            && r.heap.value.data[PAGE_SIZE] == 77
            && |r.heap.value.data| >= 9 * PAGE_SIZE
  {
    FirstEightPagesShareDirect(2);
    var a := PutNext(Gets(Fresh, 2), 77);
    PagingFillsDirect(a, 6);
  }

  /** The allocator returns to its direct buffer whenever it can: a line
      started at 4873 is compacted to 0 once the direct buffer is full, the
      next page needs the heap, and a line of one byte started at the end of
      that heap page brings the allocator back to the direct buffer. */
  lemma ReturnsToDirect()
    ensures var b := PutNext(MarkAt(Gets(Fresh, 2), PAGE_SIZE + 777), 9);
            var compacted := Gets(b, 7);
            && compacted.heap.None?
            && compacted.direct.position == 8 * PAGE_SIZE - PAGE_SIZE - 777
            && compacted.direct.limit == 8 * PAGE_SIZE - 777
            && compacted.direct.mark == 0 && compacted.direct.data[0] == 9
            && var temporal := Get(compacted);
            && temporal.heap.Some?
            && var t := PutNext(MarkAt(temporal, Current(temporal).limit - 1), 7);
            && var swapped := Get(t);
            && swapped.heap.None?
            && swapped.direct.position == 1 && swapped.direct.limit == 1 + PAGE_SIZE
            && swapped.direct.mark == 0 && swapped.direct.data[0] == 7
  {
    FirstEightPagesShareDirect(2);
    var b := PutNext(MarkAt(Gets(Fresh, 2), PAGE_SIZE + 777), 9);
    PagingFillsDirect(b, 6);
  }
}
