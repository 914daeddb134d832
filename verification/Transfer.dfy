/** Moving a buffer to or from the device memory: the library's chunk loop, and the driver's
  * split of one chunk into page entries. */
module Transfer {
  import opened Basics
  import opened Arith
  import opened Words
  import opened Buffers

  const RW_MAX_SIZE := 0x7fff_f000
  const PAGE_SIZE := 4096

  /** One byte to move: its host address and its device address. */
  type Move = (nat, nat)

  function Bytes(host: nat, dev: nat, len: nat): (s: seq<Move>)
    ensures |s| == len
  {
    seq(len, i requires 0 <= i < len => (host + i, dev + i))
  }

  lemma {:induction false} BytesSplit(host: nat, dev: nat, n: nat, len: nat)
    requires n <= len
    ensures Bytes(host, dev, n) + Bytes(host + n, dev + n, len - n) == Bytes(host, dev, len)
  {
  }

  // -------- the library: one request after another --------

  datatype Chunk = Chunk(buf: nat, offset: nat, bytes: nat)

  function Min(a: nat, b: nat): nat {
    if a < b then a else b
  }

  function Chunks(buf: nat, offset: nat, left: nat): (s: seq<Chunk>)
    ensures |s| > 0
    decreases left
  {
    var bytes := Min(left, RW_MAX_SIZE);
    [Chunk(buf, offset, bytes)] + if bytes < left then Chunks(buf + bytes, offset + bytes, left - bytes) else []
  }

  /** No request is above the limit, only the last is below it, and only an empty transfer
    * makes an empty request. */
  lemma {:induction false} ChunkSizes(buf: nat, offset: nat, left: nat)
    ensures forall i :: 0 <= i < |Chunks(buf, offset, left)| ==>
              var c := Chunks(buf, offset, left)[i];
              && c.bytes <= RW_MAX_SIZE
              && (i < |Chunks(buf, offset, left)| - 1 ==> c.bytes == RW_MAX_SIZE)
              && (c.bytes == 0 ==> left == 0)
    decreases left
  {
    if left > RW_MAX_SIZE {
      ChunkSizes(buf + RW_MAX_SIZE, offset + RW_MAX_SIZE, left - RW_MAX_SIZE);
    }
  }

  /** How many requests a transfer takes does not depend on where it goes. */
  lemma {:induction false} ChunkCount(buf: nat, offset: nat, offset': nat, left: nat)
    ensures |Chunks(buf, offset, left)| == |Chunks(buf, offset', left)|
    decreases left
  {
    if left > RW_MAX_SIZE {
      ChunkCount(buf + RW_MAX_SIZE, offset + RW_MAX_SIZE, offset' + RW_MAX_SIZE, left - RW_MAX_SIZE);
    }
  }

  /** What the system calls return for one request. */
  datatype Reply = Reply(seek: int, moved: int)

  predicate Accepted(c: Chunk, r: Reply) {
    r.seek == c.offset && r.moved == c.bytes
  }

  lemma {:induction false} ChunksStep(buf: nat, offset: nat, left: nat)
    ensures var bytes := Min(left, RW_MAX_SIZE);
            Chunks(buf, offset, left) ==
            [Chunk(buf, offset, bytes)]
            + if bytes < left then Chunks(buf + bytes, offset + bytes, left - bytes) else []
  {
  }

  ghost predicate AllAccepted(issued: seq<Chunk>, replies: seq<Reply>)
    requires |issued| <= |replies|
  {
    forall k :: 0 <= k < |issued| ==> Accepted(issued[k], replies[k])
  }

  lemma {:induction false} PrefixAccepted(issued: seq<Chunk>, all: seq<Chunk>, replies: seq<Reply>)
    requires issued <= all && |all| <= |replies| && AllAccepted(all, replies)
    ensures AllAccepted(issued, replies)
  {
  }

  /** The loop of both library calls. `issued` lists the requests made; a call fails with -EIO
    * (None here) at the first reply that is not the one asked for. */
  method MoveBuffer(buffer: nat, size: nat, devOffset: nat, replies: seq<Reply>)
    returns (count: Option<nat>, issued: seq<Chunk>)
    requires |replies| >= |Chunks(buffer, DeviceOffset(devOffset), size)|
    ensures |issued| > 0 && issued <= Chunks(buffer, DeviceOffset(devOffset), size)
    ensures AllAccepted(issued[..|issued| - 1], replies)
    ensures count.Some? <==> AllAccepted(issued, replies)
    ensures count.Some? ==> count == Some(size) && issued == Chunks(buffer, DeviceOffset(devOffset), size)
  {
    hide DeviceOffset, Chunks, Accepted;
    var buf, offset := buffer, DeviceOffset(devOffset);
    ghost var all := Chunks(buffer, offset, size);
    ghost var rest := all;
    var done: nat := 0;
    issued := [];
    var more := true;
    while more
      invariant done <= size && issued + rest == all
      invariant if more then rest == Chunks(buf, offset, size - done) else rest == [] && done == size
      invariant more || issued != []
      invariant AllAccepted(issued, replies)
      decreases more, size - done
    {
      var bytes := Min(size - done, RW_MAX_SIZE);
      ChunksStep(buf, offset, size - done);
      var chunk := Chunk(buf, offset, bytes);
      assert rest == [chunk] + rest[1..];
      assert issued + rest == (issued + [chunk]) + rest[1..];
      rest := rest[1..];
      issued := issued + [chunk];
      if !Accepted(chunk, replies[|issued| - 1]) {
        return None, issued;
      }
      done, buf, offset := done + bytes, buf + bytes, offset + bytes;
      more := done < size;
    }
    count := Some(done);
  }

  // -------- the driver: one entry per page --------

  datatype Entry = Entry(page: nat, offset: nat, len: nat)

  /** The page count, in the driver's 32-bit variable. */
  function PagesNr(buf: nat, len: nat): nat {
    if len == 0 then 1 else (len + buf % PAGE_SIZE + PAGE_SIZE - 1) % WORD64 / PAGE_SIZE % WORD32
  }

  /** One entry's length: the minimum is taken on 32-bit values. */
  function EntryBytes(buf: nat, len: nat): (n: nat)
    ensures n <= len && n <= PAGE_SIZE
  {
    Min(PAGE_SIZE - buf % PAGE_SIZE, len % WORD32)
  }

  /** n entries, the first for the pinned page `page`. */
  function Split(page: nat, n: nat, buf: nat, len: nat): (s: seq<Entry>)
    ensures |s| == n
    decreases n
  {
    if n == 0 then []
    else
      var bytes := EntryBytes(buf, len);
      [Entry(page, buf % PAGE_SIZE, bytes)] + Split(page + 1, n - 1, buf + bytes, len - bytes)
  }

  /** The length left over after n entries. */
  function LeftOver(n: nat, buf: nat, len: nat): nat
    decreases n
  {
    if n == 0 then len else LeftOver(n - 1, buf + EntryBytes(buf, len), len - EntryBytes(buf, len))
  }

  function ScatterList(buf: nat, len: nat): Option<seq<Entry>> {
    if PagesNr(buf, len) == 0 then None else Some(Split(buf / PAGE_SIZE, PagesNr(buf, len), buf, len))
  }

  lemma {:induction false} SplitUnfolds(done: seq<Entry>, page: nat, n: nat, buf: nat, len: nat)
    requires n > 0
    ensures var bytes := Min(PAGE_SIZE - buf % PAGE_SIZE, len % WORD32);
            && bytes <= len
            && done + Split(page, n, buf, len)
               == (done + [Entry(page, buf % PAGE_SIZE, bytes)]) + Split(page + 1, n - 1, buf + bytes, len - bytes)
            && LeftOver(n, buf, len) == LeftOver(n - 1, buf + bytes, len - bytes)
  {
  }

  lemma {:induction false} SplitEnds(done: seq<Entry>, page: nat, buf: nat, len: nat)
    ensures done + Split(page, 0, buf, len) == done && LeftOver(0, buf, len) == len
  {
  }

  const EINVAL := -22
  const ENOMEM := -12
  const EFAULT := -14

  /** What pinning the pages returns: a negative error, or how many it pinned and their frames. */
  datatype Pinning = Pinning(rv: int, frames: seq<nat>)

  datatype Mapping = Mapped(sgl: seq<Entry>) | Failed(code: int)

  predicate SameFrame(frames: seq<nat>, i: nat)
    requires i + 1 < |frames|
  {
    frames[i] == frames[i + 1]
  }

  /** Two neighbouring pages pinned to one frame. */
  predicate Repeats(frames: seq<nat>) {
    exists i: nat :: i + 1 < |frames| && SameFrame(frames, i)
  }

  function MapResult(buf: nat, len: nat, granted: bool, pin: Pinning): Mapping {
    var n := PagesNr(buf, len);
    if n == 0 then Failed(EINVAL)
    else if !granted then Failed(ENOMEM)
    else if pin.rv < 0 then Failed(pin.rv)
    else if pin.rv != n || Repeats(pin.frames) then Failed(EFAULT)
    else Mapped(Split(buf / PAGE_SIZE, n, buf, len))
  }

  /** A request is mapped exactly when its pages are counted, allocated and all pinned to frames
    * that do not repeat; otherwise the code says which of these failed first. Below 4 GB the
    * count does not fail, and the entries of a mapped request move exactly its bytes. */
  lemma {:induction false} MappedExactly(buf: nat, len: nat, granted: bool, pin: Pinning)
    requires pin.rv >= 0 ==> |pin.frames| == pin.rv
    ensures var r, n := MapResult(buf, len, granted, pin), PagesNr(buf, len);
            && (r.Mapped? <==>
                  && n != 0 && granted && pin.rv == n
                  && forall i :: 0 <= i < |pin.frames| - 1 ==> pin.frames[i] != pin.frames[i + 1])
            && (len < WORD32 ==> n != 0 && (r.Mapped? ==> Moved(r.sgl, 0) == Bytes(buf, 0, len)))
            && (n == 0 ==> r == Failed(EINVAL))
            && (n != 0 && !granted ==> r == Failed(ENOMEM))
            && (n != 0 && granted && pin.rv < 0 ==> r == Failed(pin.rv))
            && (n != 0 && granted && pin.rv >= 0 && !r.Mapped? ==> r == Failed(EFAULT))
  {
    hide Split, Moved, Bytes, Needed, PagesNr, Repeats;
    RepeatsIs(pin.frames);
    if len < WORD32 {
      PagesNrIsNeeded(buf, len);
      SplitCovers(PagesNr(buf, len), buf, len, 0);
    }
  }

  lemma {:induction false} RepeatsIs(frames: seq<nat>)
    ensures Repeats(frames) <==> exists i :: 0 <= i < |frames| - 1 && frames[i] == frames[i + 1]
  {
    if i: nat :| i < |frames| - 1 && frames[i] == frames[i + 1] {
      assert SameFrame(frames, i);
    }
  }

  method FindRepeat(frames: seq<nat>) returns (found: bool)
    ensures found == Repeats(frames)
  {
    found := false;
    var i := 1;
    while i < |frames|
      invariant 1 <= i && (|frames| > 0 ==> i <= |frames|)
      invariant forall j: nat :: j + 1 < i && j + 1 < |frames| ==> !SameFrame(frames, j)
    {
      if frames[i - 1] == frames[i] {
        assert SameFrame(frames, i - 1);
        return true;
      }
      i := i + 1;
    }
  }

  method MapUserBufToSgl(buf: nat, len: nat, granted: bool, pin: Pinning) returns (r: Mapping, left: nat)
    requires buf + len < WORD64 && (pin.rv >= 0 ==> |pin.frames| == pin.rv)
    ensures r == MapResult(buf, len, granted, pin)
    ensures r.Mapped? ==> ScatterList(buf, len) == Some(r.sgl) && left == LeftOver(PagesNr(buf, len), buf, len)
    ensures r.Failed? ==> left == len
  {
    hide Split, LeftOver, Repeats;
    left := len;
    var pagesNr := (len + buf % PAGE_SIZE + PAGE_SIZE - 1) % WORD64 / PAGE_SIZE % WORD32;
    if len == 0 {
      pagesNr := 1;
    }
    if pagesNr == 0 { return Failed(EINVAL), left; }
    if !granted { return Failed(ENOMEM), left; }
    if pin.rv < 0 { return Failed(pin.rv), left; }
    if pin.rv != pagesNr { return Failed(EFAULT), left; }
    var repeated := FindRepeat(pin.frames);
    if repeated { return Failed(EFAULT), left; }
    var entries;
    entries, left := FillEntries(pagesNr, buf, len);
    r := Mapped(entries);
  }

  method FillEntries(pagesNr: nat, buf: nat, len: nat) returns (entries: seq<Entry>, left: nat)
    ensures entries == Split(buf / PAGE_SIZE, pagesNr, buf, len)
    ensures left == LeftOver(pagesNr, buf, len)
  {
    hide Split, LeftOver;
    var page := buf / PAGE_SIZE;
    var b: nat := buf;
    entries, left := [], len;
    assert entries + Split(page, pagesNr, buf, len) == Split(page, pagesNr, buf, len);
    for i := 0 to pagesNr
      invariant entries + Split(page + i, pagesNr - i, b, left) == Split(page, pagesNr, buf, len)
      invariant LeftOver(pagesNr - i, b, left) == LeftOver(pagesNr, buf, len)
    {
      SplitUnfolds(entries, page + i, pagesNr - i, b, left);
      var offset := b % PAGE_SIZE;
      var nbytes := Min(PAGE_SIZE - offset, left % WORD32);
      entries := entries + [Entry(page + i, offset, nbytes)];
      b, left := b + nbytes, left - nbytes;
    }
    SplitEnds(entries, page + pagesNr, b, left);
  }

  /** The bytes a list of entries moves, with device addresses running up from ep. */
  function Moved(entries: seq<Entry>, ep: nat): seq<Move> {
    if entries == [] then []
    else Bytes(entries[0].page * PAGE_SIZE + entries[0].offset, ep, entries[0].len)
         + Moved(entries[1..], ep + entries[0].len)
  }

  predicate Needed(n: nat, buf: nat, len: nat) {
    if len == 0 then n <= 1 else n == (len + buf % PAGE_SIZE + PAGE_SIZE - 1) / PAGE_SIZE
  }

  lemma {:induction false} PagesNrIsNeeded(buf: nat, len: nat)
    requires len < WORD32
    ensures PagesNr(buf, len) > 0 && Needed(PagesNr(buf, len), buf, len)
  {
  }

  /** After a full entry the buffer is at the start of the next page, one page fewer needed. */
  lemma {:induction false} SplitStep(n: nat, buf: nat, len: nat)
    requires n > 0 && len < WORD32 && Needed(n, buf, len)
    ensures var bytes := EntryBytes(buf, len);
            && Needed(n - 1, buf + bytes, len - bytes)
            && (n == 1 ==> bytes == len)
            && (n > 1 ==> (buf + bytes) % PAGE_SIZE == 0 && (buf + bytes) / PAGE_SIZE == buf / PAGE_SIZE + 1)
  {
    var bytes := EntryBytes(buf, len);
    if bytes == PAGE_SIZE - buf % PAGE_SIZE {
      assert buf + bytes == (buf / PAGE_SIZE + 1) * PAGE_SIZE;
    }
  }

  /** Every byte of a request below 4 GB is moved once and in order, and no length is left. */
  lemma {:induction false} SplitCovers(n: nat, buf: nat, len: nat, ep: nat)
    requires len < WORD32 && Needed(n, buf, len)
    ensures Moved(Split(buf / PAGE_SIZE, n, buf, len), ep) == Bytes(buf, ep, len)
    ensures LeftOver(n, buf, len) == 0
    decreases n
  {
    hide Bytes, Needed, EntryBytes;
    if n == 0 {
      NothingNeeded(buf, len, ep);
    } else {
      var bytes := EntryBytes(buf, len);
      var page := buf / PAGE_SIZE;
      SplitStep(n, buf, len);
      var rest := Split(page + 1, n - 1, buf + bytes, len - bytes);
      assert Split(page, n, buf, len) == [Entry(page, buf % PAGE_SIZE, bytes)] + rest;
      if n > 1 {
        SplitCovers(n - 1, buf + bytes, len - bytes, ep + bytes);
        BytesSplit(buf, ep, bytes, len);
      } else {
        assert rest == [];
        assert Moved(rest, ep + bytes) == [];
      }
    }
  }

  lemma {:induction false} NothingNeeded(buf: nat, len: nat, ep: nat)
    requires Needed(0, buf, len)
    ensures len == 0 && Bytes(buf, ep, len) == []
  {
  }

  /** Each entry stays inside one page, and only the first may start inside it. */
  lemma {:induction false} EntriesInPages(page: nat, n: nat, buf: nat, len: nat)
    requires len < WORD32 && Needed(n, buf, len)
    ensures forall i :: 0 <= i < n ==>
              var e := Split(page, n, buf, len)[i];
              && e.page == page + i && e.offset + e.len <= PAGE_SIZE
              && (i > 0 ==> e.offset == 0)
              && (0 < i < n - 1 ==> e.len == PAGE_SIZE)
    decreases n
  {
    if n > 0 {
      hide Needed;
      var bytes := EntryBytes(buf, len);
      SplitStep(n, buf, len);
      EntriesInPages(page + 1, n - 1, buf + bytes, len - bytes);
      if n > 1 {
        MiddleEntriesFull(page + 1, n - 1, buf + bytes, len - bytes);
      }
    }
  }

  /** From a page boundary on, every entry but the last is a whole page. */
  lemma {:induction false} MiddleEntriesFull(page: nat, n: nat, buf: nat, len: nat)
    requires len < WORD32 && Needed(n, buf, len) && buf % PAGE_SIZE == 0
    ensures forall i :: 0 <= i < n - 1 ==> Split(page, n, buf, len)[i].len == PAGE_SIZE
    decreases n
  {
    if n > 1 {
      SplitStep(n, buf, len);
      assert EntryBytes(buf, len) == PAGE_SIZE;
      MiddleEntriesFull(page + 1, n - 1, buf + PAGE_SIZE, len - PAGE_SIZE);
    }
  }

  /** The 32-bit minimum never takes the length below a multiple of 4 GB. */
  lemma {:induction false} TruncationKeepsRest(n: nat, buf: nat, len: nat)
    requires len >= WORD32
    ensures LeftOver(n, buf, len) >= WORD32
    decreases n
  {
    if n > 0 {
      TruncationKeepsRest(n - 1, buf + EntryBytes(buf, len), len - EntryBytes(buf, len));
    }
  }

  /** The driver consumes the whole length of a request if and only if it is below 4 GB. */
  lemma {:induction false} SplitCompleteExactly(buf: nat, len: nat)
    ensures LeftOver(PagesNr(buf, len), buf, len) == 0 <==> len < WORD32
  {
    if len < WORD32 {
      PagesNrIsNeeded(buf, len);
      SplitCovers(PagesNr(buf, len), buf, len, 0);
    } else {
      TruncationKeepsRest(PagesNr(buf, len), buf, len);
    }
  }

  // -------- both together --------

  /** The bytes moved when each request goes through the driver. */
  function ThroughDriver(chunks: seq<Chunk>): seq<Move> {
    if chunks == [] then []
    else
      (match ScatterList(chunks[0].buf, chunks[0].bytes)
       case None => []
       case Some(sgl) => Moved(sgl, chunks[0].offset))
      + ThroughDriver(chunks[1..])
  }

  lemma {:induction false} ChunkMoved(buf: nat, offset: nat, bytes: nat)
    requires bytes < WORD32
    ensures ScatterList(buf, bytes).Some?
    ensures Moved(ScatterList(buf, bytes).value, offset) == Bytes(buf, offset, bytes)
  {
    hide Bytes, Needed, Split, Moved;
    PagesNrIsNeeded(buf, bytes);
    SplitCovers(PagesNr(buf, bytes), buf, bytes, offset);
  }

  /** For any size: the library's chunks through the driver's page entries move every byte of
    * the buffer exactly once, in order, to consecutive device addresses. */
  lemma {:induction false} TransferCovers(buf: nat, offset: nat, size: nat)
    ensures ThroughDriver(Chunks(buf, offset, size)) == Bytes(buf, offset, size)
    decreases size
  {
    hide Bytes, Moved, ScatterList, Chunks;
    var bytes := Min(size, RW_MAX_SIZE);
    ChunksStep(buf, offset, size);
    ChunkMoved(buf, offset, bytes);
    if bytes < size {
      TransferCovers(buf + bytes, offset + bytes, size - bytes);
      BytesSplit(buf, offset, bytes, size);
      var rest := Chunks(buf + bytes, offset + bytes, size - bytes);
      assert Chunks(buf, offset, size)[1..] == rest;
    } else {
      assert ThroughDriver([]) == [];
      assert Chunks(buf, offset, size)[1..] == [];
    }
  }

  /** Reading back an allocated device buffer reads exactly the bytes allocated to it. */
  lemma {:induction false} DeviceBufferTransfer(host: nat, off: nat, size: nat)
    requires off <= DEVICE_MEM_SIZE && 0 < size && Place(off, size) + size < WORD64
    requires AllocateDevice(off, size).Some?
    ensures var b := AllocateDevice(off, size).value.0;
            ThroughDriver(Chunks(host, DeviceOffset(b.addr), b.size)) == Bytes(host, Place(off, size), size)
  {
    hide Bytes, Chunks, ThroughDriver, DeviceOffset, Place;
    DeviceBufferAddresses(off, size, 0);
    TransferCovers(host, Place(off, size), size);
  }
}
