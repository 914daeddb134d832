/** The client of the networked matrix multiply: three device buffers, two operands fetched
  * into them, one command to the accelerator, the result read back. */
module Client {
  import opened Basics
  import opened Arith
  import opened Words
  import opened Buffers
  import opened Commands
  import opened Systolic
  import opened Transfer
  import opened Doorbell
  import opened QueuePair

  /** The device memory seen as 32-bit words. */
  const MEMORY_WORDS := 0x4000_0000

  function SecondOffset(off: nat, size: nat): nat {
    Bump(off, size)
  }

  function ThirdOffset(off: nat, size: nat): nat {
    Bump(Bump(off, size), size)
  }

  ghost predicate Accepted(off: nat, size: nat) {
    && AllocateDevice(off, size).Some?
    && AllocateDevice(SecondOffset(off, size), size).Some?
    && AllocateDevice(ThirdOffset(off, size), size).Some?
  }

  ghost predicate Aligned(x: nat) {
    x % 4 == 0
  }

  /** An accepted allocation ends inside the memory, with no wrap. */
  lemma {:induction false} AcceptedFits(off: nat, size: nat)
    requires off <= DEVICE_MEM_SIZE && 0 < size <= DEVICE_MEM_SIZE && AllocateDevice(off, size).Some?
    ensures off <= Place(off, size) && Place(off, size) + size == Bump(off, size) <= DEVICE_MEM_SIZE
  {
    hide Place, Or;
    PlaceFacts(off, size);
  }

  /** One accepted allocation of whole words: aligned, inside the memory, its address equal to
    * its place once truncated to 32 bits or masked to 37. */
  lemma {:induction false} OneBuffer(off: nat, size: nat)
    requires off <= DEVICE_MEM_SIZE && 0 < size <= DEVICE_MEM_SIZE && Aligned(off) && Aligned(size)
    requires AllocateDevice(off, size).Some?
    ensures var p, b := Place(off, size), AllocateDevice(off, size).value.0;
            && off <= p && p + size == Bump(off, size) <= DEVICE_MEM_SIZE
            && Aligned(p) && Aligned(p + size)
            && b.addr % WORD32 == p && DeviceOffset(b.addr) == p
  {
    hide Place, DeviceOffset, AllocateDevice, Bump, IsDeviceAddress;
    AcceptedFits(off, size);
    PlaceAligned(off, size);
    DeviceBufferAddresses(off, size, 0);
  }

  /** Room for six times the size is enough for the three buffers, padding included. */
  lemma {:induction false} RoomForThree(off: nat, size: nat)
    requires off + 6 * size <= DEVICE_MEM_SIZE
    ensures Accepted(off, size)
  {
    hide AllocateDevice, Bump, Place;
    BumpFacts(off, size);
    AcceptedExactly(off, size);
    BumpFacts(Bump(off, size), size);
    AcceptedExactly(Bump(off, size), size);
    BumpFacts(Bump(Bump(off, size), size), size);
    AcceptedExactly(Bump(Bump(off, size), size), size);
  }

  lemma {:induction false} PlaceAligned(off: nat, size: nat)
    requires off <= DEVICE_MEM_SIZE && Aligned(off)
    ensures Aligned(Place(off, size))
  {
    hide Place, Aligned, PageRule;
    MovedExactlyWhenNeeded(off, size);
    PageAligned(off / HARDWARE_PAGE_SIZE + 1);
  }

  lemma {:induction false} PageAligned(k: nat)
    ensures Aligned(k * HARDWARE_PAGE_SIZE)
  {
    DivModUnique(k * HARDWARE_PAGE_SIZE, 4, 1024 * k, 0);
  }

  /** The truncated 32-bit addresses of three buffers allocated in a row denote disjoint,
    * word-aligned regions of the memory. */
  lemma {:induction false} RegionsDisjoint(off: nat, size: nat)
    requires off <= DEVICE_MEM_SIZE && 0 < size <= DEVICE_MEM_SIZE && Aligned(off) && Aligned(size)
    requires Accepted(off, size)
    ensures var off2, off3 := SecondOffset(off, size), ThirdOffset(off, size);
            var a := AllocateDevice(off, size).value.0.addr % WORD32;
            var b := AllocateDevice(off2, size).value.0.addr % WORD32;
            var c := AllocateDevice(off3, size).value.0.addr % WORD32;
            && a + size <= b && b + size <= c && c + size <= DEVICE_MEM_SIZE
            && Aligned(a) && Aligned(b) && Aligned(c)
            && a == DeviceOffset(AllocateDevice(off, size).value.0.addr)
            && b == DeviceOffset(AllocateDevice(off2, size).value.0.addr)
            && c == DeviceOffset(AllocateDevice(off3, size).value.0.addr)
  {
    hide AllocateDevice, Bump, Place, DeviceOffset, Aligned;
    OneBuffer(off, size);
    OneBuffer(Bump(off, size), size);
    OneBuffer(Bump(Bump(off, size), size), size);
  }

  class Accelerator {
    var memory: array<int>

    constructor ()
      ensures memory.Length == MEMORY_WORDS && fresh(memory)
    {
      memory := new int[MEMORY_WORDS](_ => 0);
    }

    /** The effect of a completed transfer of data to a byte address. */
    method Fill(addr: nat, data: seq<int>)
      requires Aligned(addr) && addr / 4 + |data| <= memory.Length
      modifies memory
      ensures memory[addr / 4..addr / 4 + |data|] == data
      ensures forall t :: 0 <= t < memory.Length && !(addr / 4 <= t < addr / 4 + |data|) ==> memory[t] == old(memory[t])
    {
      forall t | 0 <= t < |data| {
        memory[addr / 4 + t] := data[t];
      }
    }

    /** One command taken from the stream and executed; the base addresses are the 32 bits of
      * the C ints the parser hands over. */
    method Execute(fifo: CommandFifo, ghost cmd: Command, n: nat)
      requires WellTyped(cmd) && cmd.size == 6 && fifo.words == Issued(cmd)
      requires 1 <= cmd.aCol <= n
      requires cmd.a / 4 + n * n <= memory.Length && cmd.b / 4 + n * n <= memory.Length
      requires cmd.c / 4 + n * n <= memory.Length
      modifies fifo, memory
      ensures fifo.words == []
      ensures memory[cmd.c / 4..cmd.c / 4 + n * n]
              == Product(old(memory[cmd.a / 4..cmd.a / 4 + n * n]), old(memory[cmd.b / 4..cmd.b / 4 + n * n]),
                         n, cmd.aRow, cmd.aCol, cmd.bCol)
      ensures forall t :: 0 <= t < memory.Length && !(cmd.c / 4 <= t < cmd.c / 4 + n * n) ==>
                memory[t] == old(memory[t])
    {
      hide Issued, Product, Parse, WellTyped;
      assert Issued(cmd) + [] == Issued(cmd);
      ParseIssuedExactly(cmd, []);
      FirstWord(cmd);
      var o := fifo.ParseCommand();
      var args := o.args;
      Mmult(n, memory, args.a % WORD32 / 4, args.b % WORD32 / 4, args.c % WORD32 / 4, args.aRow, args.aCol, args.bCol);
    }
  }

  lemma {:induction false} FirstWord(cmd: Command)
    requires WellTyped(cmd)
    ensures Issued(cmd) != [] && Issued(cmd)[0] < WORD32
  {
  }

  lemma {:induction false} CommandTyped(c: Command)
    requires c.size < WORD32 && c.a < WORD32 && c.b < WORD32 && c.c < WORD32
    requires c.aRow < 0x1_0000 && c.aCol < 0x1_0000 && c.bCol < 0x1_0000 && c.workId < 0x1_0000
    ensures WellTyped(c)
  {
  }

  /** The three allocations. None is a failed one, after which the program is aborted. */
  method AllocateThree(dev: RnDev, size: nat) returns (r: Option<(Buffer, Buffer, Buffer)>)
    requires size < WORD64
    modifies dev
    ensures var off := old(dev.devBufferOffset);
            && (r.Some? <==> Accepted(off, size))
            && (r.Some? ==>
                  && r.value.0 == AllocateDevice(off, size).value.0
                  && r.value.1 == AllocateDevice(SecondOffset(off, size), size).value.0
                  && r.value.2 == AllocateDevice(ThirdOffset(off, size), size).value.0)
  {
    hide Bump, Place;
    var bufA := dev.AllocateDev(size);
    if bufA == None { return None; }
    var bufB := dev.AllocateDev(size);
    if bufB == None { return None; }
    var bufC := dev.AllocateDev(size);
    if bufC == None { return None; }
    r := Some((bufA.value, bufB.value, bufC.value));
  }

  /** An operand is in memory once the device has completed the read request for it: the
    * completion head the poll saw has reached the producer index. */
  predicate Completed(o: Doorbell.Outcome) {
    o.Returned? && o.qp.cqCidb >= o.qp.sqPidb
  }

  /** One RDMA read of an operand: a request posted and polled for. */
  method FetchOperand(qp: RdmaQp, acc: Accelerator, addr: nat, data: seq<int>, heads: seq<int>)
    returns (o: Doorbell.Outcome)
    requires Aligned(addr) && addr / 4 + |data| <= acc.memory.Length
    modifies qp, acc.memory
    ensures o == PostSend(old(qp.Snapshot()), heads) && (o.Returned? ==> qp.Snapshot() == o.qp)
    ensures Completed(o) ==> acc.memory[addr / 4..addr / 4 + |data|] == data
    ensures forall t :: 0 <= t < acc.memory.Length && !(addr / 4 <= t < addr / 4 + |data|) ==>
              acc.memory[t] == old(acc.memory[t])
  {
    hide Aligned;
    o := qp.RdmaPostSend(heads);
    if Completed(o) {
      acc.Fill(addr, data);
    }
  }

  /** The two operand reads, one after the other; a failed one is reported and passed over. */
  method FetchOperands(qp: RdmaQp, acc: Accelerator, a: nat, b: nat, dataA: seq<int>, dataB: seq<int>,
                       headsA: seq<int>, headsB: seq<int>)
    returns (first: Doorbell.Outcome, second: Doorbell.Outcome)
    requires Aligned(a) && Aligned(b)
    requires a / 4 + |dataA| <= b / 4 && b / 4 + |dataB| <= acc.memory.Length
    modifies qp, acc.memory
    ensures first == PostSend(old(qp.Snapshot()), headsA)
    ensures second == if first.Returned? then PostSend(first.qp, headsB) else Waiting
    ensures second.Returned? ==> qp.Snapshot() == second.qp
    ensures Completed(first) ==> acc.memory[a / 4..a / 4 + |dataA|] == dataA
    ensures Completed(second) ==> acc.memory[b / 4..b / 4 + |dataB|] == dataB
  {
    hide Aligned, PostSend, Completed;
    first := FetchOperand(qp, acc, a, dataA, headsA);
    second := Waiting;
    if first.Returned? {
      ghost var before := acc.memory[..];
      assert Completed(first) ==> before[a / 4..a / 4 + |dataA|] == dataA;
      second := FetchOperand(qp, acc, b, dataB, headsB);
      assert acc.memory[a / 4..a / 4 + |dataA|] == before[a / 4..a / 4 + |dataA|];
    } else {
      NotCompleted();
    }
  }

  lemma {:induction false} NotCompleted()
    ensures !Completed(Waiting)
  {
  }

  /** Two successful posts from a queue in step with the device complete both requests. */
  lemma {:induction false} BothCompleted(q: Qp, head: int, headsA: seq<int>, headsB: seq<int>)
    requires InSync(q, head) && DeviceRun(head, head, [headsA, headsB])
    requires PostSend(q, headsA).Returned? && PostSend(q, headsA).code == 0
    ensures Completed(PostSend(q, headsA)) && InSync(PostSend(q, headsA).qp, head + 1)
    ensures var second := PostSend(PostSend(q, headsA).qp, headsB);
            second.Returned? && second.code == 0 ==> Completed(second) && InSync(second.qp, head + 2)
  {
    hide PollCq, PostSend;
    var runs := [headsA, headsB];
    assert Device(runs[0], head, head + 1);
    PostSendKeepsSync(q, head, headsA);
    var r := PostSend(q, headsA);
    DeviceGoesOn(head, head, runs, r.used - 1, head + 1);
    assert runs[1..][0] == headsB && Device(headsB, head + 1, head + 2);
    PostSendKeepsSync(r.qp, head + 1, headsB);
  }

  /** The device shows each of the two completions among the first 1001 reads of its post. */
  ghost predicate InTime(head: int, headsA: seq<int>, headsB: seq<int>) {
    Reaches(headsA, head + 1) && Reaches(headsB, head + 2)
  }

  /** A device that completes both reads in time makes both posts succeed. */
  lemma {:induction false} BothInTime(q: Qp, head: int, headsA: seq<int>, headsB: seq<int>)
    requires InSync(q, head) && DeviceRun(head, head, [headsA, headsB]) && InTime(head, headsA, headsB)
    ensures PostSend(q, headsA).Returned? && PostSend(q, headsA).code == 0
    ensures var second := PostSend(PostSend(q, headsA).qp, headsB); second.Returned? && second.code == 0
  {
    hide PostSend, Reaches;
    var runs := [headsA, headsB];
    assert Device(runs[0], head, head + 1);
    PostSendExactly(q, head, headsA);
    PostSendKeepsSync(q, head, headsA);
    var r := PostSend(q, headsA);
    DeviceGoesOn(head, head, runs, r.used - 1, head + 1);
    assert runs[1..][0] == headsB && Device(headsB, head + 1, head + 2);
    PostSendExactly(r.qp, head + 1, headsB);
  }

  /** One command through the stream, over operands already in memory. */
  method Compute(fifo: CommandFifo, acc: Accelerator, n: nat, cmd: Command)
    requires WellTyped(cmd) && cmd.size == 6 && 1 <= cmd.aCol <= n && fifo.words == []
    requires cmd.a / 4 + n * n <= cmd.b / 4 && cmd.b / 4 + n * n <= cmd.c / 4 && cmd.c / 4 + n * n <= acc.memory.Length
    modifies fifo, acc.memory
    ensures acc.memory[cmd.c / 4..cmd.c / 4 + n * n]
            == Product(old(acc.memory[cmd.a / 4..cmd.a / 4 + n * n]), old(acc.memory[cmd.b / 4..cmd.b / 4 + n * n]),
                       n, cmd.aRow, cmd.aCol, cmd.bCol)
    ensures acc.memory[cmd.a / 4..cmd.a / 4 + n * n] == old(acc.memory[cmd.a / 4..cmd.a / 4 + n * n])
    ensures acc.memory[cmd.b / 4..cmd.b / 4 + n * n] == old(acc.memory[cmd.b / 4..cmd.b / 4 + n * n])
    ensures fifo.words == []
  {
    hide Product, Issued, WellTyped;
    fifo.Issue(cmd);
    assert fifo.words == Issued(cmd);
    acc.Execute(fifo, cmd, n);
  }

  /** How the client's run ends: the assertion of a device allocation, a post that is still
    * polling, a read-back that fails, or the words read back. */
  datatype Ending = Aborted | StillPolling | ReadFailed | ReadBack(words: seq<int>)

  /** The bytes of the words at word address `at`, as the chunks of a read move them. */
  lemma {:induction false} ReadBackCovers(host: nat, off: nat, size: nat)
    requires off <= DEVICE_MEM_SIZE && 0 < size <= DEVICE_MEM_SIZE && AllocateDevice(off, size).Some?
    ensures ThroughDriver(Chunks(host, DeviceOffset(AllocateDevice(off, size).value.0.addr), size))
            == Bytes(host, Place(off, size), size)
  {
    hide ThroughDriver, Chunks, Bytes, DeviceOffset, Place, And, Or;
    PlaceFacts(off, size);
    DeviceBufferTransfer(host, off, size);
  }

  /** The driver moves every chunk of a read of n by n words in full. */
  ghost predicate AllMoved(host: nat, at: nat, n: nat, replies: seq<Reply>) {
    var chunks := Chunks(host, at, 4 * (n * n));
    |chunks| <= |replies| && AllAccepted(chunks, replies)
  }

  /** The client's sequence once it has its buffers. */
  method Session(qp: RdmaQp, fifo: CommandFifo, acc: Accelerator, n: nat, cmd: Command,
                 dataA: seq<int>, dataB: seq<int>, headsA: seq<int>, headsB: seq<int>,
                 host: nat, result: nat, replies: seq<Reply>)
    returns (r: Ending, first: Doorbell.Outcome, second: Doorbell.Outcome, issued: seq<Chunk>)
    requires Square(dataA, n) && Square(dataB, n)
    requires WellTyped(cmd) && cmd.size == 6 && 1 <= cmd.aCol <= n && fifo.words == []
    requires Aligned(cmd.a) && Aligned(cmd.b) && DeviceOffset(result) == cmd.c
    requires cmd.a / 4 + n * n <= cmd.b / 4 && cmd.b / 4 + n * n <= cmd.c / 4 && cmd.c / 4 + n * n <= acc.memory.Length
    requires |replies| >= |Chunks(host, 0, 4 * (n * n))|
    modifies qp, fifo, acc.memory
    ensures !r.Aborted? && (r.StillPolling? <==> !second.Returned?)
    ensures first == PostSend(old(qp.Snapshot()), headsA)
    ensures second == if first.Returned? then PostSend(first.qp, headsB) else Waiting
    ensures second.Returned? ==> qp.Snapshot() == second.qp
    ensures r.ReadBack? ==> issued == Chunks(host, cmd.c, 4 * (n * n))
    ensures second.Returned? && AllMoved(host, cmd.c, n, replies) ==> r.ReadBack?
    ensures r.ReadBack? && Completed(first) && Completed(second) ==>
              && r.words == Product(dataA, dataB, n, cmd.aRow, cmd.aCol, cmd.bCol)
              && acc.memory[cmd.a / 4..cmd.a / 4 + n * n] == dataA
              && acc.memory[cmd.b / 4..cmd.b / 4 + n * n] == dataB
  {
    assert |dataA| == n * n && |dataB| == n * n;
    hide Product, WellTyped, PostSend, Completed, Square, Aligned, DeviceOffset, Chunks, AllAccepted;
    issued := [];
    ChunkCount(host, 0, cmd.c, 4 * (n * n));
    first, second := FetchOperands(qp, acc, cmd.a, cmd.b, dataA, dataB, headsA, headsB);
    if !second.Returned? { return StillPolling, first, second, issued; }
    Compute(fifo, acc, n, cmd);
    var count;
    count, issued := MoveBuffer(host, 4 * (n * n), result, replies);
    if AllMoved(host, cmd.c, n, replies) {
      PrefixAccepted(issued, Chunks(host, cmd.c, 4 * (n * n)), replies);
    }
    if count == None { return ReadFailed, first, second, issued; }
    r := ReadBack(acc.memory[cmd.c / 4..cmd.c / 4 + n * n]);
  }

  /** Where the result buffer is. */
  function ResultPlace(off: nat, n: nat): nat {
    Place(ThirdOffset(off, 4 * (n * n)), 4 * (n * n))
  }

  /** The operands lie whole and apart at the places of the first two buffers. */
  ghost predicate HoldsOperands(memory: seq<int>, off: nat, n: nat, dataA: seq<int>, dataB: seq<int>) {
    var a, b := Place(off, 4 * (n * n)) / 4, Place(SecondOffset(off, 4 * (n * n)), 4 * (n * n)) / 4;
    && a + n * n <= b && b + n * n <= |memory|
    && memory[a..a + n * n] == dataA && memory[b..b + n * n] == dataB
  }

  /** The client's sequence. If the device completes both reads of the operands in time and the
    * driver moves every chunk of the read-back, the product of the operands is read back; and
    * whenever both reads succeed and something is read back, it is that product, the device
    * memory still holds the operands, and at full size it is the software result. The chunks
    * of the read-back move exactly the bytes of the result buffer. */
  method RunClient(dev: RnDev, qp: RdmaQp, fifo: CommandFifo, acc: Accelerator, n: nat,
                   dataA: seq<int>, dataB: seq<int>, headsA: seq<int>, headsB: seq<int>,
                   aRow: nat, aCol: nat, bCol: nat, workId: nat, host: nat, replies: seq<Reply>, ghost head: int)
    returns (r: Ending, first: Doorbell.Outcome, second: Doorbell.Outcome, issued: seq<Chunk>)
    requires Square(dataA, n) && Square(dataB, n) && 0 < 4 * (n * n) <= DEVICE_MEM_SIZE
    requires 1 <= aCol <= n && aRow < 0x1_0000 && aCol < 0x1_0000 && bCol < 0x1_0000 && workId < 0x1_0000
    requires dev.devBufferOffset <= DEVICE_MEM_SIZE && Aligned(dev.devBufferOffset)
    requires acc.memory.Length == MEMORY_WORDS && fifo.words == []
    requires InSync(qp.Snapshot(), head) && DeviceRun(head, head, [headsA, headsB])
    requires |replies| >= |Chunks(host, 0, 4 * (n * n))|
    modifies dev, qp, fifo, acc.memory
    ensures r.Aborted? <==> !Accepted(old(dev.devBufferOffset), 4 * (n * n))
    ensures !r.Aborted? ==>
              && first == PostSend(old(qp.Snapshot()), headsA)
              && second == (if first.Returned? then PostSend(first.qp, headsB) else Waiting)
              && (r.StillPolling? <==> !second.Returned?)
    ensures !r.Aborted? && InTime(head, headsA, headsB)
            && AllMoved(host, ResultPlace(old(dev.devBufferOffset), n), n, replies) ==>
              r == ReadBack(Product(dataA, dataB, n, aRow, aCol, bCol)) && first.code == 0 && second.code == 0
    ensures r.ReadBack? && first.code == 0 && second.code == 0 ==>
              && r.words == Product(dataA, dataB, n, aRow, aCol, bCol)
              && (aCol == n && aRow >= n && bCol >= n ==> r.words == Software(dataA, dataB, Systolic.Zeros(n), n))
              && InSync(qp.Snapshot(), head + 2)
    ensures r.ReadBack? && first.code == 0 && second.code == 0 ==>
              HoldsOperands(acc.memory[..], old(dev.devBufferOffset), n, dataA, dataB)
    ensures r.ReadBack? ==>
              var off, size := ThirdOffset(old(dev.devBufferOffset), 4 * (n * n)), 4 * (n * n);
              ThroughDriver(issued) == Bytes(host, Place(off, size), size)
  {
    hide AllocateDevice, Bump, Place, DeviceOffset, Product, Software, WellTyped, PostSend, Completed;
    hide InSync, DeviceRun, Chunks, Bytes, ThroughDriver, InTime, AllMoved, SecondOffset, ThirdOffset;
    var size := 4 * (n * n);
    ghost var off := dev.devBufferOffset;
    first, second, issued := Waiting, Waiting, [];
    var buffers := AllocateThree(dev, size);
    if buffers == None { return Aborted, first, second, issued; }
    var (bufA, bufB, bufC) := buffers.value;
    RegionsDisjoint(off, size);
    RegionPlaces(off, size);
    var cmd := Command(6, bufA.addr % WORD32, bufB.addr % WORD32, bufC.addr % WORD32, aRow, aCol, bCol, workId);
    CommandTyped(cmd);
    if PostSend(qp.Snapshot(), headsA).Returned? && PostSend(qp.Snapshot(), headsA).code == 0 {
      BothCompleted(qp.Snapshot(), head, headsA, headsB);
    }
    if InTime(head, headsA, headsB) {
      BothInTime(qp.Snapshot(), head, headsA, headsB);
      BothCompleted(qp.Snapshot(), head, headsA, headsB);
    }
    r, first, second, issued := Session(qp, fifo, acc, n, cmd, dataA, dataB, headsA, headsB, host, bufC.addr, replies);
    ReadBackCovers(host, ThirdOffset(off, size), size);
    if aCol == n && aRow >= n && bCol >= n {
      FullSizeAgrees(dataA, dataB, n, aRow, bCol);
    }
  }

  /** The truncated addresses are the places the allocator chose. */
  lemma {:induction false} RegionPlaces(off: nat, size: nat)
    requires off <= DEVICE_MEM_SIZE && 0 < size <= DEVICE_MEM_SIZE && Aligned(off) && Aligned(size)
    requires Accepted(off, size)
    ensures SecondOffset(off, size) <= DEVICE_MEM_SIZE && ThirdOffset(off, size) <= DEVICE_MEM_SIZE
    ensures AllocateDevice(off, size).value.0.addr % WORD32 == Place(off, size)
    ensures AllocateDevice(SecondOffset(off, size), size).value.0.addr % WORD32 == Place(SecondOffset(off, size), size)
    ensures AllocateDevice(ThirdOffset(off, size), size).value.0.addr % WORD32 == Place(ThirdOffset(off, size), size)
  {
    hide AllocateDevice, Bump, Place, Aligned;
    OneBuffer(off, size);
    OneBuffer(Bump(off, size), size);
    OneBuffer(Bump(Bump(off, size), size), size);
  }
}
