/** The pool of DMA queue ids kept by the character device of the driver, one
  * direction (reads or writes) at a time. The two directions share no variable, so
  * each is one instance of this module.
  *
  * Threads interleave one shared-memory access at a time. A counting semaphore admits
  * as many threads as there are free ids; one mutex serialises the takers and another
  * the putters; a taker and a putter may run at the same time.
  */
module QueuePool {
  import opened Arith

  // Where a thread stands: each point names what the thread does next.
  datatype Point =
    | Idle        // outside the driver
    | WantSem     // down(sem)
    | WantTake    // down(take mutex)
    | Load        // target_queue = pool[take index]
    | BumpTake    // advance the take index
    | EndTake     // up(take mutex)
    | Use         // map the buffer and run the DMA, or return early
    | WantPut     // down(put mutex)
    | Store       // pool[put index] = target_queue
    | BumpPut     // advance the put index
    | EndPut      // up(put mutex)
    | Post        // up(sem)

  datatype Thread = Thread(at: Point, q: int)

  /** The last three fields are history: how many ids were ever loaded, how many were
    * ever stored (the initial filling counts), and the ids lost by an early return. */
  datatype Pool = Pool(
    slots: seq<int>, takeIdx: int, putIdx: int, sem: nat, takeMutex: nat, putMutex: nat,
    threads: seq<Thread>, taken: nat, put: nat, leaked: multiset<int>)

  // -------- the program --------

  function Start(n: nat, threadCount: nat): Pool {
    Pool(seq(n, i => i), 0, 0, n, 1, 1, seq(threadCount, i => Thread(Idle, 0)), 0, n, multiset{})
  }

  /** Thread t is held up by a semaphore. */
  predicate Waits(s: Pool, t: nat)
    requires t < |s.threads|
  {
    match s.threads[t].at
    case WantSem => s.sem == 0
    case WantTake => s.takeMutex == 0
    case WantPut => s.putMutex == 0
    case _ => false
  }

  /** Thread t's next access stays inside the ring and does not divide by zero. */
  predicate Safe(s: Pool, t: nat)
    requires t < |s.threads|
  {
    match s.threads[t].at
    case Load => 0 <= s.takeIdx < |s.slots|
    case Store => 0 <= s.putIdx < |s.slots|
    case BumpTake => |s.slots| != 0
    case BumpPut => |s.slots| != 0
    case _ => true
  }

  predicate CanStep(s: Pool, t: nat) {
    t < |s.threads| && !Waits(s, t) && Safe(s, t)
  }

  /** One access by thread t. The flag only matters at Use: it selects the early return,
    * which leaves the driver without giving the id back. */
  function Next(s: Pool, t: nat, fails: bool): Pool
    requires CanStep(s, t)
  {
    var th := s.threads[t];
    var n := |s.slots|;
    match th.at
    case Idle => s.(threads := s.threads[t := th.(at := WantSem)])
    case WantSem => s.(sem := s.sem - 1, threads := s.threads[t := th.(at := WantTake)])
    case WantTake => s.(takeMutex := s.takeMutex - 1, threads := s.threads[t := th.(at := Load)])
    case Load =>
      s.(taken := s.taken + 1, threads := s.threads[t := Thread(BumpTake, s.slots[s.takeIdx])])
    case BumpTake =>
      s.(takeIdx := (s.takeIdx + 1) % n, threads := s.threads[t := th.(at := EndTake)])
    case EndTake => s.(takeMutex := s.takeMutex + 1, threads := s.threads[t := th.(at := Use)])
    case Use =>
      if fails then
        s.(leaked := s.leaked + multiset{th.q}, threads := s.threads[t := th.(at := Idle)])
      else
        s.(threads := s.threads[t := th.(at := WantPut)])
    case WantPut => s.(putMutex := s.putMutex - 1, threads := s.threads[t := th.(at := Store)])
    case Store =>
      s.(slots := s.slots[s.putIdx := th.q], put := s.put + 1,
         threads := s.threads[t := th.(at := BumpPut)])
    case BumpPut =>
      s.(putIdx := (s.putIdx + 1) % n, threads := s.threads[t := th.(at := EndPut)])
    case EndPut => s.(putMutex := s.putMutex + 1, threads := s.threads[t := th.(at := Post)])
    case Post => s.(sem := s.sem + 1, threads := s.threads[t := th.(at := Idle)])
  }

  // A schedule names, step by step, the thread that moves and whether Use fails.
  type Schedule = seq<(nat, bool)>

  predicate Runs(s: Pool, moves: Schedule)
    decreases |moves|
  {
    moves == [] ||
    (CanStep(s, moves[0].0) && Runs(Next(s, moves[0].0, moves[0].1), moves[1..]))
  }

  function After(s: Pool, moves: Schedule): Pool
    requires Runs(s, moves)
    decreases |moves|
  {
    if moves == [] then s else After(Next(s, moves[0].0, moves[0].1), moves[1..])
  }

  // -------- what the invariant talks about --------

  function Count(ts: seq<Thread>, p: Point): nat {
    if ts == [] then 0 else (if ts[0].at == p then 1 else 0) + Count(ts[1..], p)
  }

  predicate Holds(p: Point) {
    p == BumpTake || p == EndTake || p == Use || p == WantPut || p == Store
  }

  function Own(th: Thread): multiset<int> {
    if Holds(th.at) then multiset{th.q} else multiset{}
  }

  /** The ids in flight. */
  function Ids(ts: seq<Thread>): multiset<int> {
    if ts == [] then multiset{} else Own(ts[0]) + Ids(ts[1..])
  }

  /** The live window of the ring, oldest id first. */
  function Free(slots: seq<int>, taken: nat, put: nat): seq<int>
    requires taken < put ==> |slots| > 0
    requires taken <= put
  {
    seq(put - taken, i requires 0 <= i < put - taken => slots[(taken + i) % |slots|])
  }

  function Upto(n: nat): seq<int> {
    seq(n, i => i)
  }

  /** Every id is accounted for exactly once: free, in flight or leaked. */
  ghost predicate Ledger(s: Pool) {
    && s.taken <= s.put
    && (s.taken < s.put ==> |s.slots| > 0)
    && multiset(Free(s.slots, s.taken, s.put)) + Ids(s.threads) + s.leaked == multiset(Upto(|s.slots|))
  }

  /** The live slots are the semaphore's count plus the threads between a semaphore
    * operation and the ring access it stands for; each mutex has at most one owner. */
  ghost predicate Tally(s: Pool) {
    && s.put - s.taken == s.sem + Count(s.threads, WantTake) + Count(s.threads, Load)
                          + Count(s.threads, BumpPut) + Count(s.threads, EndPut) + Count(s.threads, Post)
    && s.takeMutex + Count(s.threads, Load) + Count(s.threads, BumpTake) + Count(s.threads, EndTake) == 1
    && s.putMutex + Count(s.threads, Store) + Count(s.threads, BumpPut) + Count(s.threads, EndPut) == 1
  }

  /** Each ring index lags its history count while its owner has yet to advance it. */
  ghost predicate Indices(s: Pool) {
    && (|s.slots| > 0 ==> s.takeIdx == (s.taken - Count(s.threads, BumpTake)) % |s.slots|)
    && (|s.slots| > 0 ==> s.putIdx == (s.put - Count(s.threads, BumpPut)) % |s.slots|)
  }

  ghost predicate Inv(s: Pool) {
    Ledger(s) && Tally(s) && Indices(s)
  }

  // -------- counting --------

  lemma {:induction false} CountUpdate(ts: seq<Thread>, i: nat, th: Thread, p: Point)
    requires i < |ts|
    ensures Count(ts[i := th], p) + (if ts[i].at == p then 1 else 0)
            == Count(ts, p) + (if th.at == p then 1 else 0)
  {
    if i == 0 {
      assert ts[i := th][1..] == ts[1..];
    } else {
      assert ts[i := th][1..] == ts[1..][i - 1 := th];
      CountUpdate(ts[1..], i - 1, th, p);
    }
  }

  lemma {:induction false} MultisetShift(o: multiset<int>, a: multiset<int>, b: multiset<int>, x: multiset<int>,
                                         y: multiset<int>)
    requires a + x == b + y
    ensures o + a + x == o + b + y
  {
    assert o + a + x == o + (a + x);
    assert o + b + y == o + (b + y);
  }

  lemma {:induction false} IdsFirst(ts: seq<Thread>)
    requires ts != []
    ensures Ids(ts) == Own(ts[0]) + Ids(ts[1..])
  {
  }

  lemma {:induction false} IdsUpdate(ts: seq<Thread>, i: nat, th: Thread)
    requires i < |ts|
    ensures Ids(ts[i := th]) + Own(ts[i]) == Ids(ts) + Own(th)
  {
    hide *;
    IdsFirst(ts);
    IdsFirst(ts[i := th]);
    if i == 0 {
      assert ts[i := th][1..] == ts[1..];
    } else {
      assert ts[i := th][1..] == ts[1..][i - 1 := th];
      IdsUpdate(ts[1..], i - 1, th);
      MultisetShift(Own(ts[0]), Ids(ts[1..][i - 1 := th]), Ids(ts[1..]), Own(ts[i]), Own(th));
    }
  }

  lemma {:induction false} CountBounds(ts: seq<Thread>, i: nat)
    requires i < |ts|
    ensures Count(ts, ts[i].at) >= 1
  {
    if i > 0 {
      CountBounds(ts[1..], i - 1);
    }
  }

  lemma {:induction false} OwnBound(ts: seq<Thread>, i: nat)
    requires i < |ts|
    ensures Own(ts[i]) <= Ids(ts)
  {
    hide *;
    IdsFirst(ts);
    if i > 0 {
      OwnBound(ts[1..], i - 1);
      assert ts[1..][i - 1] == ts[i];
    }
  }

  lemma {:induction false} SomeoneAt(ts: seq<Thread>, p: Point) returns (i: nat)
    requires Count(ts, p) > 0
    ensures i < |ts| && ts[i].at == p
  {
    if ts[0].at == p {
      i := 0;
    } else {
      var j := SomeoneAt(ts[1..], p);
      i := j + 1;
    }
  }

  lemma {:induction false} AllIdle(ts: seq<Thread>, p: Point)
    requires forall i :: 0 <= i < |ts| ==> ts[i].at == Idle
    ensures p != Idle ==> Count(ts, p) == 0
    ensures Ids(ts) == multiset{}
  {
    if ts != [] {
      AllIdle(ts[1..], p);
    }
  }

  lemma {:induction false} MoverExists(s: Pool, t: nat)
    requires CanStep(s, t)
    ensures t < |s.threads|
  {
  }

  lemma {:induction false} InvParts(s: Pool)
    requires Inv(s)
    ensures Ledger(s) && Tally(s) && Indices(s)
  {
  }

  // -------- every step keeps the invariant --------

  lemma {:induction false} FreeSize(s: Pool)
    requires Inv(s)
    ensures s.put - s.taken + |Ids(s.threads)| + |s.leaked| == |s.slots|
  {
    assert |multiset(Upto(|s.slots|))| == |s.slots|;
    assert |multiset(Free(s.slots, s.taken, s.put))| == s.put - s.taken;
  }

  /** A thread at one point of a critical section excludes every thread of that section. */
  lemma {:induction false} Exclusive(s: Pool, t: nat)
    requires Inv(s) && t < |s.threads|
    ensures s.threads[t].at == Load ==> Count(s.threads, BumpTake) == 0 && s.put - s.taken > 0
    ensures s.threads[t].at == BumpTake ==> Count(s.threads, BumpTake) == 1
    ensures s.threads[t].at == Store ==>
              Count(s.threads, BumpPut) == 0 && s.put - s.taken < |s.slots|
    ensures s.threads[t].at == BumpPut ==> Count(s.threads, BumpPut) == 1
    ensures s.threads[t].at in {BumpTake, BumpPut} ==> |s.slots| > 0
  {
    CountBounds(s.threads, t);
    OwnBound(s.threads, t);
    FreeSize(s);
    assert |Own(s.threads[t])| <= |Ids(s.threads)| by {
      assert Ids(s.threads) == Own(s.threads[t]) + (Ids(s.threads) - Own(s.threads[t]));
    }
  }

  /** A take reads the oldest live slot and a put overwrites no live slot; neither
    * indexes outside the ring nor divides by zero. */
  lemma {:induction false} TakesLiveStoresDead(s: Pool, t: nat)
    requires Inv(s) && t < |s.threads|
    ensures Safe(s, t)
    ensures s.threads[t].at == Load ==>
              Free(s.slots, s.taken, s.put) != [] &&
              s.slots[s.takeIdx] == Free(s.slots, s.taken, s.put)[0]
    ensures s.threads[t].at == Store ==>
              s.putIdx == s.put % |s.slots| &&
              forall k :: s.taken <= k < s.put ==> k % |s.slots| != s.putIdx
  {
    Exclusive(s, t);
    if s.threads[t].at == Store {
      forall k | s.taken <= k < s.put ensures k % |s.slots| != s.putIdx {
        ModApart(k, s.put, |s.slots|);
      }
    }
  }

  /** How the live window moves: only a take removes from it, at the front, and only a
    * put adds to it, at the back. */
  lemma {:induction false} WindowStep(s: Pool, t: nat, fails: bool)
    requires s.taken <= s.put && (s.taken < s.put ==> |s.slots| > 0) && CanStep(s, t)
    requires s.threads[t].at == Load ==> s.taken < s.put
    requires s.threads[t].at == Store ==>
               s.putIdx == s.put % |s.slots| &&
               forall k :: s.taken <= k < s.put ==> k % |s.slots| != s.putIdx
    ensures var s' := Next(s, t, fails);
            var at := s.threads[t].at;
            s'.taken <= s'.put && |s'.slots| == |s.slots| &&
            (s'.taken < s'.put ==> |s.slots| > 0) &&
            Free(s'.slots, s'.taken, s'.put) ==
              if at == Load then Free(s.slots, s.taken, s.put)[1..]
              else if at == Store then Free(s.slots, s.taken, s.put) + [s.threads[t].q]
              else Free(s.slots, s.taken, s.put)
  {
    var s' := Next(s, t, fails);
    var free, free' := Free(s.slots, s.taken, s.put), Free(s'.slots, s'.taken, s'.put);
    if s.threads[t].at == Load {
      assert free' == free[1..];
    } else if s.threads[t].at == Store {
      assert free' == free + [s.threads[t].q];
    }
  }

  /** A step moves an id between the window, the moving thread and the leaked ids, and loses none. */
  lemma {:induction false} OwnStep(s: Pool, t: nat, fails: bool, free: multiset<int>, free': multiset<int>)
    requires CanStep(s, t)
    requires s.threads[t].at == Load ==> free == free' + multiset{s.slots[s.takeIdx]}
    requires s.threads[t].at == Store ==> free' == free + multiset{s.threads[t].q}
    requires s.threads[t].at != Load && s.threads[t].at != Store ==> free' == free
    ensures var s' := Next(s, t, fails);
            free' + Own(s'.threads[t]) + s'.leaked == free + Own(s.threads[t]) + s.leaked
  {
  }

  /** Only the moving thread changes. */
  lemma {:induction false} ThreadMoves(s: Pool, t: nat, fails: bool)
    requires CanStep(s, t)
    ensures var s' := Next(s, t, fails);
            t < |s'.threads| && s'.threads == s.threads[t := s'.threads[t]]
  {
  }

  lemma {:induction false} StepKeepsLedger(s: Pool, t: nat, fails: bool)
    requires Inv(s) && CanStep(s, t)
    ensures Ledger(Next(s, t, fails))
  {
    hide Inv, Next, CanStep, Free, Ids, Own, Upto;
    InvParts(s);
    MoverExists(s, t);
    Exclusive(s, t);
    TakesLiveStoresDead(s, t);
    WindowStep(s, t, fails);
    ThreadMoves(s, t, fails);
    var s' := Next(s, t, fails);
    var free, free' := Free(s.slots, s.taken, s.put), Free(s'.slots, s'.taken, s'.put);
    if s.threads[t].at == Load {
      assert free == [free[0]] + free';
    }
    OwnStep(s, t, fails, multiset(free), multiset(free'));
    IdsUpdate(s.threads, t, s'.threads[t]);
    MultisetTransfer(multiset(free), Ids(s.threads), s.leaked, Own(s.threads[t]),
                     multiset(free'), Ids(s'.threads), s'.leaked, Own(s'.threads[t]));
  }

  lemma {:induction false} MultisetTransfer(f: multiset<int>, i: multiset<int>, l: multiset<int>, o: multiset<int>,
                         f': multiset<int>, i': multiset<int>, l': multiset<int>, o': multiset<int>)
    requires i' + o == i + o'
    requires f' + o' + l' == f + o + l
    ensures f' + i' + l' == f + i + l
  {
    forall x: int ensures (f' + i' + l')[x] == (f + i + l)[x] {
      assert (i' + o)[x] == (i + o')[x];
      assert (f' + o' + l')[x] == (f + o + l)[x];
    }
  }

  lemma {:induction false} CountsStep(s: Pool, t: nat, fails: bool, p: Point)
    requires CanStep(s, t)
    ensures var s' := Next(s, t, fails);
            Count(s'.threads, p) + (if s.threads[t].at == p then 1 else 0)
            == Count(s.threads, p) + (if s'.threads[t].at == p then 1 else 0)
  {
    CountUpdate(s.threads, t, Next(s, t, fails).threads[t], p);
  }

  lemma {:induction false} StepKeepsTally(s: Pool, t: nat, fails: bool)
    requires Tally(s) && CanStep(s, t)
    ensures Tally(Next(s, t, fails))
  {
    CountsStep(s, t, fails, WantTake);
    CountsStep(s, t, fails, Load);
    CountsStep(s, t, fails, BumpTake);
    CountsStep(s, t, fails, EndTake);
    CountsStep(s, t, fails, Store);
    CountsStep(s, t, fails, BumpPut);
    CountsStep(s, t, fails, EndPut);
    CountsStep(s, t, fails, Post);
  }

  lemma {:induction false} StepKeepsIndices(s: Pool, t: nat, fails: bool)
    requires Inv(s) && CanStep(s, t)
    ensures Indices(Next(s, t, fails))
  {
    hide Inv, Next, CanStep, Ledger, Tally, Count;
    InvParts(s);
    MoverExists(s, t);
    CountsStep(s, t, fails, BumpTake);
    CountsStep(s, t, fails, BumpPut);
    IndexMoves(s, t, fails);
    var s', at := Next(s, t, fails), s.threads[t].at;
    LagKept(|s.slots|, s.taken - Count(s.threads, BumpTake), s.takeIdx, at == BumpTake, s'.takeIdx);
    LagKept(|s.slots|, s.put - Count(s.threads, BumpPut), s.putIdx, at == BumpPut, s'.putIdx);
  }

  /** An index that follows a count modulo n follows it through one more increment. */
  lemma {:induction false} LagKept(n: nat, count: int, idx: int, moves: bool, idx': int)
    requires n > 0 ==> idx == count % n
    requires n > 0 ==> idx' == if moves then (idx + 1) % n else idx
    ensures n > 0 ==> idx' == (if moves then count + 1 else count) % n
  {
    if n > 0 { ModSucc(count, n); }
  }

  /** Which step moves an index or a history count, and where it leaves the thread. */
  lemma {:induction false} IndexMoves(s: Pool, t: nat, fails: bool)
    requires CanStep(s, t)
    ensures var s', at := Next(s, t, fails), s.threads[t].at;
            && |s'.slots| == |s.slots| && t < |s'.threads|
            && s'.taken == s.taken + (if at == Load then 1 else 0)
            && s'.put == s.put + (if at == Store then 1 else 0)
            && s'.takeIdx == (if at == BumpTake then (s.takeIdx + 1) % |s.slots| else s.takeIdx)
            && s'.putIdx == (if at == BumpPut then (s.putIdx + 1) % |s.slots| else s.putIdx)
            && (s'.threads[t].at == BumpTake <==> at == Load) && (s'.threads[t].at == BumpPut <==> at == Store)
  {
  }

  lemma {:induction false} StepKeepsInv(s: Pool, t: nat, fails: bool)
    requires Inv(s) && CanStep(s, t)
    ensures Inv(Next(s, t, fails))
  {
    StepKeepsLedger(s, t, fails);
    StepKeepsTally(s, t, fails);
    StepKeepsIndices(s, t, fails);
  }

  lemma {:induction false} StartInv(n: nat, threadCount: nat)
    ensures Inv(Start(n, threadCount))
  {
    var s := Start(n, threadCount);
    AllIdle(s.threads, WantTake);
    AllIdle(s.threads, Load);
    AllIdle(s.threads, BumpTake);
    AllIdle(s.threads, EndTake);
    AllIdle(s.threads, Store);
    AllIdle(s.threads, BumpPut);
    AllIdle(s.threads, EndPut);
    AllIdle(s.threads, Post);
    assert Ledger(s) by {
      forall i | 0 <= i < n ensures i % n == i {
        DivModUnique(i, n, 0, i);
      }
      assert Free(s.slots, 0, n) == Upto(n);
    }
    if n > 0 {
      DivModUnique(n, n, 1, 0);
      DivModUnique(0, n, 0, 0);
    }
  }

  lemma {:induction false} RunKeepsInv(s: Pool, moves: Schedule)
    requires Inv(s) && Runs(s, moves)
    ensures Inv(After(s, moves))
    ensures |After(s, moves).slots| == |s.slots| && |After(s, moves).threads| == |s.threads|
    decreases |moves|
  {
    hide Inv, Next, CanStep;
    if moves != [] {
      StepKeepsInv(s, moves[0].0, moves[0].1);
      StepKeepsSizes(s, moves[0].0, moves[0].1);
      RunKeepsInv(Next(s, moves[0].0, moves[0].1), moves[1..]);
    }
  }

  lemma {:induction false} StepKeepsSizes(s: Pool, t: nat, fails: bool)
    requires CanStep(s, t)
    ensures |Next(s, t, fails).slots| == |s.slots| && |Next(s, t, fails).threads| == |s.threads|
  {
  }

  // -------- safety over every run --------

  ghost predicate Reachable(s: Pool, n: nat, threadCount: nat) {
    exists moves: Schedule :: Runs(Start(n, threadCount), moves) && After(Start(n, threadCount), moves) == s
  }

  lemma {:induction false} ReachableInv(s: Pool, n: nat, threadCount: nat)
    requires Reachable(s, n, threadCount)
    ensures Inv(s) && |s.slots| == n && |s.threads| == threadCount
  {
    StartInv(n, threadCount);
    var moves: Schedule :| Runs(Start(n, threadCount), moves) && After(Start(n, threadCount), moves) == s;
    RunKeepsInv(Start(n, threadCount), moves);
  }

  lemma {:induction false} UptoCounts(n: nat, x: int)
    ensures multiset(Upto(n))[x] == if 0 <= x < n then 1 else 0
  {
    if n > 0 {
      assert Upto(n) == Upto(n - 1) + [n - 1];
      UptoCounts(n - 1, x);
    }
  }

  lemma {:induction false} TwoOwners(ts: seq<Thread>, i: nat, j: nat)
    requires i < j < |ts|
    ensures Own(ts[i]) + Own(ts[j]) <= Ids(ts)
  {
    hide *;
    IdsFirst(ts);
    assert ts[1..][j - 1] == ts[j];
    if i == 0 {
      OwnBound(ts[1..], j - 1);
    } else {
      TwoOwners(ts[1..], i - 1, j - 1);
    }
  }

  /** Mutual exclusion: two operations in flight never use the same DMA queue. */
  lemma {:induction false} NoSharedQueue(s: Pool, n: nat, threadCount: nat, t: nat, u: nat)
    requires Reachable(s, n, threadCount)
    requires t < u < |s.threads|
    requires Holds(s.threads[t].at) && Holds(s.threads[u].at)
    ensures s.threads[t].q != s.threads[u].q
    ensures 0 <= s.threads[t].q < n
  {
    ReachableInv(s, n, threadCount);
    TwoOwners(s.threads, t, u);
    var x := s.threads[t].q;
    UptoCounts(n, x);
    assert (Own(s.threads[t]) + Own(s.threads[u]))[x] <= Ids(s.threads)[x];
    assert Ids(s.threads)[x] <= multiset(Upto(n))[x];
  }

  /** The free window, the ids in flight and the leaked ids partition {0..n-1}, each id
    * exactly once. */
  lemma {:induction false} IdsPartition(s: Pool, n: nat, threadCount: nat, x: int)
    requires Reachable(s, n, threadCount)
    ensures s.taken <= s.put && (s.taken < s.put ==> |s.slots| > 0)
    ensures multiset(Free(s.slots, s.taken, s.put))[x] + Ids(s.threads)[x] + s.leaked[x]
            == if 0 <= x < n then 1 else 0
  {
    ReachableInv(s, n, threadCount);
    UptoCounts(n, x);
    assert (multiset(Free(s.slots, s.taken, s.put)) + Ids(s.threads) + s.leaked)[x] == multiset(Upto(n))[x];
  }

  /** No thread ever indexes outside the ring, divides by zero, loads a slot that is not
    * live or stores over one that is. */
  lemma {:induction false} RingAccessesSafe(s: Pool, n: nat, threadCount: nat, t: nat)
    requires Reachable(s, n, threadCount) && t < |s.threads|
    ensures s.taken <= s.put && (s.taken < s.put ==> |s.slots| > 0)
    ensures Safe(s, t)
    ensures s.threads[t].at == Load ==>
              Free(s.slots, s.taken, s.put) != [] &&
              s.slots[s.takeIdx] == Free(s.slots, s.taken, s.put)[0]
    ensures s.threads[t].at == Store ==>
              forall k :: s.taken <= k < s.put ==> k % |s.slots| != s.putIdx
  {
    ReachableInv(s, n, threadCount);
    TakesLiveStoresDead(s, t);
  }

  // -------- progress --------

  ghost predicate AllDone(s: Pool) {
    forall t :: 0 <= t < |s.threads| ==> s.threads[t].at == Idle
  }

  /** No operation in flight can move. */
  ghost predicate Stuck(s: Pool) {
    forall t :: 0 <= t < |s.threads| && s.threads[t].at != Idle ==> !CanStep(s, t)
  }

  lemma {:induction false} SomeoneHolds(ts: seq<Thread>) returns (i: nat)
    requires Ids(ts) != multiset{}
    ensures i < |ts| && Holds(ts[i].at)
  {
    if Holds(ts[0].at) {
      i := 0;
    } else {
      assert Ids(ts) == Ids(ts[1..]);
      var j := SomeoneHolds(ts[1..]);
      i := j + 1;
    }
  }

  /** Whoever waits for a mutex waits for a thread that can move. */
  lemma {:induction false} MutexOwnerMoves(s: Pool, t: nat) returns (u: nat)
    requires Inv(s) && t < |s.threads|
    requires s.threads[t].at != Idle && s.threads[t].at != WantSem
    ensures u < |s.threads| && s.threads[u].at != Idle && CanStep(s, u)
  {
    u := t;
    if Waits(s, t) {
      if s.threads[t].at == WantTake {
        if Count(s.threads, Load) > 0 { u := SomeoneAt(s.threads, Load); }
        else if Count(s.threads, BumpTake) > 0 { u := SomeoneAt(s.threads, BumpTake); }
        else { u := SomeoneAt(s.threads, EndTake); }
      } else {
        if Count(s.threads, Store) > 0 { u := SomeoneAt(s.threads, Store); }
        else if Count(s.threads, BumpPut) > 0 { u := SomeoneAt(s.threads, BumpPut); }
        else { u := SomeoneAt(s.threads, EndPut); }
      }
    }
    TakesLiveStoresDead(s, u);
  }

  /** While some id has not leaked, an operation in flight means one that can move. */
  lemma {:induction false} SomeoneMoves(s: Pool, t: nat) returns (u: nat)
    requires Inv(s) && t < |s.threads| && s.threads[t].at != Idle && |s.leaked| < |s.slots|
    ensures u < |s.threads| && s.threads[u].at != Idle && CanStep(s, u)
  {
    if s.threads[t].at != WantSem || s.sem > 0 {
      u := t;
      if s.threads[t].at != WantSem {
        u := MutexOwnerMoves(s, t);
      }
    } else {
      FreeSize(s);
      if Ids(s.threads) != multiset{} { u := SomeoneHolds(s.threads); }
      else if Count(s.threads, WantTake) > 0 { u := SomeoneAt(s.threads, WantTake); }
      else if Count(s.threads, Load) > 0 { u := SomeoneAt(s.threads, Load); }
      else if Count(s.threads, BumpPut) > 0 { u := SomeoneAt(s.threads, BumpPut); }
      else if Count(s.threads, EndPut) > 0 { u := SomeoneAt(s.threads, EndPut); }
      else { u := SomeoneAt(s.threads, Post); }
      u := MutexOwnerMoves(s, u);
    }
  }

  /** When every id has leaked, every operation still in flight waits for ever. */
  lemma {:induction false} AllLeakedBlocks(s: Pool, t: nat)
    requires Inv(s) && |s.leaked| == |s.slots| && t < |s.threads| && s.threads[t].at != Idle
    ensures !CanStep(s, t)
  {
    FreeSize(s);
    CountBounds(s.threads, t);
    OwnBound(s.threads, t);
    assert Ids(s.threads) == multiset{};
    assert Own(s.threads[t]) == multiset{};
  }

  /** Deadlock, exactly: the operations in flight are stuck if and only if there are none
    * or early returns have leaked all n ids. */
  lemma {:induction false} StuckExactlyWhenAllLeaked(s: Pool, n: nat, threadCount: nat)
    requires Reachable(s, n, threadCount)
    ensures Stuck(s) <==> AllDone(s) || |s.leaked| == n
  {
    ReachableInv(s, n, threadCount);
    FreeSize(s);
    if |s.leaked| == n {
      forall t | 0 <= t < |s.threads| && s.threads[t].at != Idle ensures !CanStep(s, t) {
        AllLeakedBlocks(s, t);
      }
    } else if Stuck(s) && !AllDone(s) {
      var t :| 0 <= t < |s.threads| && s.threads[t].at != Idle;
      var u := SomeoneMoves(s, t);
    }
  }

  // Steps left before a thread is back outside the driver.
  function Rank(p: Point): nat {
    match p
    case Idle => 0
    case WantSem => 11
    case WantTake => 10
    case Load => 9
    case BumpTake => 8
    case EndTake => 7
    case Use => 6
    case WantPut => 5
    case Store => 4
    case BumpPut => 3
    case EndPut => 2
    case Post => 1
  }

  function Work(ts: seq<Thread>): nat {
    if ts == [] then 0 else Rank(ts[0].at) + Work(ts[1..])
  }

  lemma {:induction false} WorkUpdate(ts: seq<Thread>, i: nat, th: Thread)
    requires i < |ts|
    ensures Work(ts[i := th]) + Rank(ts[i].at) == Work(ts) + Rank(th.at)
  {
    if i == 0 {
      assert ts[i := th][1..] == ts[1..];
    } else {
      assert ts[i := th][1..] == ts[1..][i - 1 := th];
      WorkUpdate(ts[1..], i - 1, th);
    }
  }

  lemma {:induction false} WorkBound(ts: seq<Thread>)
    ensures Work(ts) <= 11 * |ts|
  {
    if ts != [] {
      WorkBound(ts[1..]);
    }
  }

  /** The schedule moves only operations already in flight. */
  predicate NoArrivals(s: Pool, moves: Schedule)
    requires Runs(s, moves)
    decreases |moves|
  {
    moves == [] ||
    (s.threads[moves[0].0].at != Idle && NoArrivals(Next(s, moves[0].0, moves[0].1), moves[1..]))
  }

  lemma {:induction false} RunsAreShort(s: Pool, moves: Schedule)
    requires Runs(s, moves) && NoArrivals(s, moves)
    ensures |moves| + Work(After(s, moves).threads) <= Work(s.threads)
    decreases |moves|
  {
    if moves != [] {
      var s' := Next(s, moves[0].0, moves[0].1);
      WorkUpdate(s.threads, moves[0].0, s'.threads[moves[0].0]);
      RunsAreShort(s', moves[1..]);
    }
  }

  /** Once arrivals stop, any schedule at all runs dry within eleven accesses a thread,
    * and when it does every operation has returned unless all ids have leaked. */
  lemma {:induction false} EveryScheduleDrains(s: Pool, n: nat, threadCount: nat, moves: Schedule)
    requires Reachable(s, n, threadCount)
    requires Runs(s, moves) && NoArrivals(s, moves)
    ensures |moves| <= 11 * threadCount
    ensures Stuck(After(s, moves)) ==> AllDone(After(s, moves)) || |After(s, moves).leaked| == n
  {
    ReachableInv(s, n, threadCount);
    RunsAreShort(s, moves);
    WorkBound(s.threads);
    RunKeepsInv(s, moves);
    var e := After(s, moves);
    FreeSize(e);
    if Stuck(e) && !AllDone(e) && |e.leaked| < n {
      var t :| 0 <= t < |e.threads| && e.threads[t].at != Idle;
      var u := SomeoneMoves(e, t);
    }
  }

  /** Without early returns nothing leaks, so the pool never deadlocks. */
  lemma {:induction false} NoFailureNoLeak(s: Pool, moves: Schedule)
    requires Runs(s, moves)
    requires forall k :: 0 <= k < |moves| ==> !moves[k].1
    ensures After(s, moves).leaked == s.leaked
    decreases |moves|
  {
    if moves != [] {
      NoFailureNoLeak(Next(s, moves[0].0, moves[0].1), moves[1..]);
    }
  }

  // -------- how a pool is lost --------

  /** An id leaks at the early return alone: it is the one the thread held there, the thread
    * leaves the driver, and nothing else changes. A use that does not fail goes on to give
    * its id back. */
  lemma {:induction false} EarlyReturnLeaks(s: Pool, t: nat, fails: bool)
    requires CanStep(s, t)
    ensures var th, s' := s.threads[t], Next(s, t, fails);
            && |s'.threads| == |s.threads|
            && (th.at == Use && fails ==>
                  s' == s.(leaked := s.leaked + multiset{th.q}, threads := s'.threads) && s'.threads[t].at == Idle)
            && (th.at == Use && !fails ==> s' == s.(threads := s'.threads) && s'.threads[t] == Thread(WantPut, th.q))
            && (th.at != Use ==> s'.leaked == s.leaked)
            && forall u :: 0 <= u < |s.threads| && u != t ==> s'.threads[u] == s.threads[u]
  {
  }

  /** Nobody is in the driver, and the taking side is at rest with at least k ids free. */
  ghost predicate Rested(s: Pool, k: nat) {
    && |s.threads| > 0 && AllDone(s) && s.sem == k && s.takeMutex == 1
    && (|s.slots| > 0 ==> 0 <= s.takeIdx < |s.slots|) && k <= |s.slots|
  }

  lemma {:induction false} RunsOn(s: Pool, t: nat, fails: bool, rest: Schedule)
    requires CanStep(s, t) && Runs(Next(s, t, fails), rest)
    ensures Runs(s, [(t, fails)] + rest)
    ensures After(s, [(t, fails)] + rest) == After(Next(s, t, fails), rest)
  {
    var moves := [(t, fails)] + rest;
    assert moves[0] == (t, fails) && moves[1..] == rest;
  }

  /** One thread moves through one point after another up to the early return. */
  lemma {:induction false} OneFailure(s: Pool, k: nat) returns (e: Pool)
    requires Rested(s, k + 1)
    ensures Rested(e, k) && |e.leaked| == |s.leaked| + 1 && |e.slots| == |s.slots|
    ensures forall rest: Schedule :: Runs(e, rest) ==>
              Runs(s, FAILURE + rest) && After(s, FAILURE + rest) == After(e, rest)
  {
    var s1 := Next(s, 0, false);
    var s2 := Next(s1, 0, false);
    var s3 := Next(s2, 0, false);
    var s4 := Next(s3, 0, false);
    var s5 := Next(s4, 0, false);
    var s6 := Next(s5, 0, false);
    e := Next(s6, 0, true);
    forall rest: Schedule | Runs(e, rest)
      ensures Runs(s, FAILURE + rest) && After(s, FAILURE + rest) == After(e, rest)
    {
      hide Next, Runs, After;
      RunsOn(s6, 0, true, rest);
      var m6 := [(0, true)] + rest;
      RunsOn(s5, 0, false, m6);
      var m5 := [(0, false)] + m6;
      RunsOn(s4, 0, false, m5);
      var m4 := [(0, false)] + m5;
      RunsOn(s3, 0, false, m4);
      var m3 := [(0, false)] + m4;
      RunsOn(s2, 0, false, m3);
      var m2 := [(0, false)] + m3;
      RunsOn(s1, 0, false, m2);
      var m1 := [(0, false)] + m2;
      RunsOn(s, 0, false, m1);
      assert FAILURE + rest == [(0, false)] + m1;
    }
  }

  /** A whole operation that ends in the early return. */
  const FAILURE: Schedule :=
    [(0, false), (0, false), (0, false), (0, false), (0, false), (0, false), (0, true)]

  function Failures(k: nat): Schedule {
    if k == 0 then [] else FAILURE + Failures(k - 1)
  }

  lemma {:induction false} FailuresLeak(s: Pool, k: nat)
    requires Rested(s, k)
    ensures Runs(s, Failures(k)) && Rested(After(s, Failures(k)), 0)
    ensures |After(s, Failures(k)).leaked| == |s.leaked| + k
    decreases k
  {
    hide FAILURE;
    if k > 0 {
      var e := OneFailure(s, k - 1);
      FailuresLeak(e, k - 1);
    }
  }

  /** From the start, n early returns lose all n ids; the next operation waits for ever. */
  lemma {:induction false} FailuresLoseThePool(n: nat, threadCount: nat)
    requires threadCount > 0
    ensures var s := Start(n, threadCount);
            && Runs(s, Failures(n))
            && var e := After(s, Failures(n));
            && AllDone(e) && |e.leaked| == n && CanStep(e, 0)
            && var w := Next(e, 0, false); !AllDone(w) && Stuck(w)
  {
    var s := Start(n, threadCount);
    FailuresLeak(s, n);
    OneMoreWaits(After(s, Failures(n)));
  }

  lemma {:induction false} OneMoreWaits(s: Pool)
    requires Rested(s, 0)
    ensures CanStep(s, 0) && var w := Next(s, 0, false); !AllDone(w) && Stuck(w)
  {
    var w := Next(s, 0, false);
    assert w.threads[0].at == WantSem && forall t :: 0 < t < |w.threads| ==> w.threads[t] == s.threads[t];
  }
}

/** The driver's globals for one direction, updated in place one access at a time. */
module CdevPool {
  import opened QueuePool

  class QueueRing {
    var slots: array<int>
    var takeIdx: int
    var putIdx: int
    var sem: nat
    var takeMutex: nat
    var putMutex: nat
    var threads: seq<Thread>
    ghost var taken: nat
    ghost var put: nat
    ghost var leaked: multiset<int>

    ghost function Snapshot(): Pool
      reads this, slots
    {
      Pool(slots[..], takeIdx, putIdx, sem, takeMutex, putMutex, threads, taken, put, leaked)
    }

    /** The driver's initialisation of one direction: semaphores, indices and the loop
      * that fills the ring. */
    constructor (n: nat, threadCount: nat)
      ensures Snapshot() == Start(n, threadCount) && Inv(Snapshot())
      ensures fresh(slots)
    {
      sem, takeMutex, putMutex := n, 1, 1;
      takeIdx, putIdx := 0, 0;
      slots := new int[n];
      threads := seq(threadCount, i => Thread(Idle, 0));
      taken, put, leaked := 0, n, multiset{};
      new;
      for i := 0 to n
        invariant slots.Length == n && fresh(slots)
        invariant forall j :: 0 <= j < i ==> slots[j] == j
        invariant sem == n && takeMutex == putMutex == 1 && takeIdx == putIdx == 0
        invariant taken == 0 && put == n && leaked == multiset{}
        invariant threads == seq(threadCount, i => Thread(Idle, 0))
      {
        slots[i] := i;
      }
      assert slots[..] == Start(n, threadCount).slots;
      StartInv(n, threadCount);
    }

    /** Thread t makes its next access. */
    method Advance(t: nat, fails: bool)
      requires Inv(Snapshot()) && CanStep(Snapshot(), t)
      modifies this, slots
      ensures slots == old(slots)
      ensures Snapshot() == Next(old(Snapshot()), t, fails) && Inv(Snapshot())
    {
      hide Inv;
      ghost var s := Snapshot();
      var th := threads[t];
      match th.at {
        case Idle => th := th.(at := WantSem);
        case WantSem => sem, th := sem - 1, th.(at := WantTake);
        case WantTake => takeMutex, th := takeMutex - 1, th.(at := Load);
        case Load => taken, th := taken + 1, Thread(BumpTake, slots[takeIdx]);
        case BumpTake => takeIdx, th := (takeIdx + 1) % slots.Length, th.(at := EndTake);
        case EndTake => takeMutex, th := takeMutex + 1, th.(at := Use);
        case Use =>
          if fails {
            leaked, th := leaked + multiset{th.q}, th.(at := Idle);
          } else {
            th := th.(at := WantPut);
          }
        case WantPut => putMutex, th := putMutex - 1, th.(at := Store);
        case Store =>
          slots[putIdx] := th.q;
          assert slots[..] == s.slots[s.putIdx := th.q];
          put, th := put + 1, th.(at := BumpPut);
        case BumpPut => putIdx, th := (putIdx + 1) % slots.Length, th.(at := EndPut);
        case EndPut => putMutex, th := putMutex + 1, th.(at := Post);
        case Post => sem, th := sem + 1, th.(at := Idle);
      }
      threads := threads[t := th];
      assert Snapshot() == Next(s, t, fails);
      StepKeepsInv(s, t, fails);
    }
  }
}
