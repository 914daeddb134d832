/** The packet matcher: a content-addressed table of start addresses, filled by
  * configuration requests, searched by the first beat of each packet, with ring
  * replacement and deletes that write back a sentinel key. */
module MatchTable {
  import opened Basics
  import opened Arith

  datatype Key = Key(sfa: nat, pktid: nat, idx: nat)

  const SENTINEL := Key(0xffff_ffff, 3, 31)
  const NO_VALUE := 0xffff_ffff
  const TABLE_OP_WRITE := 2
  const TABLE_OP_DELETE := 3
  const REQUEST_DEPTH := 64

  datatype Request = Request(key: Key, addr: nat, op: nat)

  datatype Table = Table(keys: seq<Key>, vals: seq<nat>, ptr: nat)

  // The hit vector, read as the case statement does: zero, one-hot or neither.
  datatype Match = Miss | Hit(i: nat) | Many

  predicate Only(keys: seq<Key>, k: Key, i: nat) {
    i < |keys| && keys[i] == k && forall j :: 0 <= j < |keys| && j != i ==> keys[j] != k
  }

  function Find(keys: seq<Key>, k: Key): (m: Match)
    ensures m.Miss? <==> k !in keys
    ensures forall i: nat :: m == Hit(i) <==> Only(keys, k, i)
  {
    if k !in keys then Miss
    else if exists i: nat :: i < |keys| && Only(keys, k, i) then
      var i: nat :| i < |keys| && Only(keys, k, i); Hit(i)
    else Many
  }

  function ResetTable(n: nat): Table {
    Table(seq(n, i => SENTINEL), seq(n, i => NO_VALUE), 0)
  }

  /** A new entry goes to the slot under the pointer, whatever that slot holds. */
  function Insert(t: Table, k: Key, v: nat): Table
    requires t.ptr < |t.keys| == |t.vals|
  {
    Table(t.keys[t.ptr := k], t.vals[t.ptr := v], (t.ptr + 1) % |t.keys|)
  }

  /** A configuration request applied between packets. */
  function Configure(t: Table, r: Request): Table
    requires t.ptr < |t.keys| == |t.vals|
  {
    match Find(t.keys, r.key)
    case Miss => if r.op == TABLE_OP_WRITE then Insert(t, r.key, r.addr) else t
    case Hit(i) =>
      if r.op == TABLE_OP_WRITE then t.(vals := t.vals[i := r.addr])
      else if r.op == TABLE_OP_DELETE then t.(keys := t.keys[i := SENTINEL], vals := t.vals[i := NO_VALUE])
      else t
    case Many => t
  }

  // -------- one clock cycle --------

  /** The configuration pins pass two synchroniser stages; single is high unless the second
    * stage was valid a cycle ago. */
  datatype Sync = Sync(v0: bool, r0: Request, v1: bool, r1: Request, single: bool)

  datatype State = State(table: Table, waiting: bool, out: Option<(Key, nat)>, fifo: seq<Request>, sync: Sync)

  /** One cycle's pins: a transferred packet beat with its last flag, the key on the
    * metadata bus with its valid, and the configuration request with its valid. */
  datatype In = In(beat: Option<bool>, metaValid: bool, key: Key, vld: bool, req: Request)

  const NO_REQUEST := Request(Key(0, 0, 0), 0, 0)

  function Reset(n: nat): State {
    State(ResetTable(n), false, None, [], Sync(false, NO_REQUEST, false, NO_REQUEST, true))
  }

  predicate Ok(s: State) {
    s.table.ptr < |s.table.keys| == |s.table.vals|
  }

  /** The request at the head matches a packet that missed, and is a write. */
  predicate WritesForPacket(s: State, i: In) {
    && i.beat.Some? && !s.waiting && s.fifo != [] && i.metaValid && i.key == s.fifo[0].key
    && Find(s.table.keys, s.fifo[0].key).Miss? && s.fifo[0].op == TABLE_OP_WRITE
  }

  function NextTable(s: State, i: In): Table
    requires Ok(s)
  {
    if i.beat.Some? then
      if WritesForPacket(s, i) then Insert(s.table, s.fifo[0].key, s.fifo[0].addr) else s.table
    else if s.fifo != [] then Configure(s.table, s.fifo[0]) else s.table
  }

  /** The registered metadata: None when cleared, otherwise the packet's key with the
    * matched start address. */
  function NextOut(s: State, i: In): Option<(Key, nat)>
    requires Ok(s)
  {
    if i.beat.None? then s.out
    else if s.waiting then Some((i.key, 0))
    else
      match (if i.metaValid then Find(s.table.keys, i.key) else Miss)
      case Hit(j) => Some((i.key, s.table.vals[j]))
      case Many => Some((i.key, 0))
      case Miss =>
        if s.fifo == [] || !(i.metaValid && i.key == s.fifo[0].key) then None
        else if s.fifo[0].op == TABLE_OP_WRITE then Some((i.key, s.fifo[0].addr))
        else Some((i.key, 0))
  }

  predicate Pushes(s: State) {
    s.sync.v1 && s.sync.single
  }

  function NextFifo(s: State): seq<Request> {
    (if s.fifo == [] then [] else s.fifo[1..]) +
    (if Pushes(s) && |s.fifo| < REQUEST_DEPTH then [s.sync.r1] else [])
  }

  function Next(s: State, i: In): State
    requires Ok(s)
  {
    State(NextTable(s, i),
          if i.beat.Some? then !i.beat.value else s.waiting,
          NextOut(s, i),
          NextFifo(s),
          Sync(i.vld, i.req, s.sync.v0, s.sync.r0, !s.sync.v1))
  }

  lemma {:induction false} NextOk(s: State, i: In)
    requires Ok(s)
    ensures Ok(Next(s, i)) && |Next(s, i).table.keys| == |s.table.keys|
  {
  }

  function After(n: nat, ins: seq<In>): (s: State)
    requires n > 0
    ensures Ok(s) && |s.table.keys| == n
  {
    if ins == [] then Reset(n)
    else
      var s := After(n, ins[..|ins| - 1]);
      NextOk(s, ins[|ins| - 1]);
      Next(s, ins[|ins| - 1])
  }

  // -------- reference: a map that forgets --------

  /** Each key with its start address and the number of insertions before its own. */
  datatype Ref = Ref(m: map<Key, (nat, int)>, count: nat)

  const NO_KEYS := Ref(map[], 0)

  /** The keys left when insertion number count takes the slot of number count - n. */
  function Evict(a: Ref, n: nat): map<Key, (nat, int)> {
    map k | k in a.m && a.m[k].1 != a.count - n :: a.m[k]
  }

  predicate Kept(a: Ref, j: int) {
    exists k :: k in a.m && a.m[k].1 == j
  }

  predicate Full(a: Ref, n: nat) {
    forall j: int :: a.count - n <= j < a.count ==> Kept(a, j)
  }

  /** What one applied request does to the map. Writing the sentinel key stores nothing;
    * it still uses up a slot when none is free. */
  function RefApply(a: Ref, n: nat, r: Request): Ref {
    if r.key == SENTINEL then
      if r.op == TABLE_OP_WRITE && Full(a, n) then Ref(Evict(a, n), a.count + 1) else a
    else if r.op == TABLE_OP_WRITE then
      if r.key in a.m then a.(m := a.m[r.key := (r.addr, a.m[r.key].1)])
      else Ref(Evict(a, n)[r.key := (r.addr, a.count)], a.count + 1)
    else if r.op == TABLE_OP_DELETE then a.(m := a.m - {r.key})
    else a
  }

  function RefRun(n: nat, rs: seq<Request>): Ref {
    if rs == [] then NO_KEYS else RefApply(RefRun(n, rs[..|rs| - 1]), n, rs[|rs| - 1])
  }

  // -------- the table refines the map --------

  ghost predicate Refines(t: Table, a: Ref) {
    var n := |t.keys|;
    && n > 0 && |t.vals| == n && t.ptr == a.count % n
    && (forall j: int {:trigger t.keys[j % n]} :: a.count - n <= j < a.count && t.keys[j % n] != SENTINEL ==>
          t.keys[j % n] in a.m && a.m[t.keys[j % n]] == (t.vals[j % n], j))
    && (forall k :: k in a.m ==>
          && k != SENTINEL && a.count - n <= a.m[k].1 < a.count && t.keys[a.m[k].1 % n] == k)
  }

  /** The insertion number that slot i stands for. */
  lemma {:induction false} SlotNumber(count: int, n: int, i: int) returns (j: int)
    requires 0 <= i < n
    ensures count - n <= j < count && j % n == i
  {
    var d := (count - 1 - i) % n;
    j := count - 1 - d;
    var q := (count - 1 - i) / n;
    assert count - 1 - i == q * n + d;
    DivModUnique(j, n, q, i);
  }

  lemma {:induction false} SameSlot(count: int, n: int, j: int, j': int)
    requires 0 < n && count - n <= j < count && count - n <= j' < count
    ensures j % n == j' % n ==> j == j'
  {
    if j < j' { ModApart(j, j', n); }
    if j' < j { ModApart(j', j, n); }
  }

  /** Looking up a key other than the sentinel answers what the map holds: the vector is
    * one-hot if the key is there and zero if it is not. */
  lemma {:induction false} FindAgrees(t: Table, a: Ref, k: Key)
    requires Refines(t, a) && k != SENTINEL
    ensures k in a.m ==> Find(t.keys, k) == Hit(a.m[k].1 % |t.keys|) &&
                         t.vals[a.m[k].1 % |t.keys|] == a.m[k].0
    ensures k !in a.m ==> Find(t.keys, k) == Miss
  {
    var n := |t.keys|;
    forall i | 0 <= i < n && t.keys[i] == k ensures k in a.m && i == a.m[k].1 % n {
      var j := SlotNumber(a.count, n, i);
    }
    if k in a.m {
      assert Only(t.keys, k, a.m[k].1 % n);
    }
  }

  lemma {:induction false} InsertRefines(t: Table, a: Ref, k: Key, v: nat)
    requires Refines(t, a) && (k != SENTINEL ==> k !in a.m)
    ensures t.ptr < |t.keys| == |t.vals|
    ensures Refines(Insert(t, k, v),
                    Ref(if k == SENTINEL then Evict(a, |t.keys|) else Evict(a, |t.keys|)[k := (v, a.count)],
                        a.count + 1))
  {
    var n := |t.keys|;
    var t' := Insert(t, k, v);
    var m' := if k == SENTINEL then Evict(a, n) else Evict(a, n)[k := (v, a.count)];
    ModSucc(a.count, n);
    forall j: int | a.count + 1 - n <= j < a.count + 1 && t'.keys[j % n] != SENTINEL
      ensures t'.keys[j % n] in m' && m'[t'.keys[j % n]] == (t'.vals[j % n], j)
    {
      if j < a.count { ModApart(j, a.count, n); }
    }
    ModAddMultiple(a.count - n, 1, n);
    forall x | x in m'
      ensures x != SENTINEL && a.count + 1 - n <= m'[x].1 < a.count + 1 && t'.keys[m'[x].1 % n] == x
    {
      if x == k && k != SENTINEL {
      } else {
        ModApart(a.m[x].1, a.count, n);
      }
    }
  }

  /** A full ring, in the map's terms, is a table without a sentinel key. */
  lemma {:induction false} FullAgrees(t: Table, a: Ref)
    requires Refines(t, a)
    ensures Full(a, |t.keys|) <==> SENTINEL !in t.keys
  {
    var n := |t.keys|;
    if SENTINEL in t.keys {
      var i :| 0 <= i < n && t.keys[i] == SENTINEL;
      var j := SlotNumber(a.count, n, i);
      assert !Kept(a, j);
    } else {
      forall j: int | a.count - n <= j < a.count ensures Kept(a, j) {
        assert t.keys[j % n] != SENTINEL && t.keys[j % n] in a.m;
      }
    }
  }

  lemma {:induction false} ConfigureRefines(t: Table, a: Ref, r: Request)
    requires Refines(t, a)
    ensures t.ptr < |t.keys| == |t.vals|
    ensures Refines(Configure(t, r), RefApply(a, |t.keys|, r))
  {
    if r.key == SENTINEL {
      FullAgrees(t, a);
      if Find(t.keys, r.key).Miss? && r.op == TABLE_OP_WRITE {
        InsertRefines(t, a, r.key, r.addr);
      }
    } else {
      FindAgrees(t, a, r.key);
      if r.key in a.m {
        UpdateRefines(t, a, r);
      } else if r.op == TABLE_OP_WRITE {
        InsertRefines(t, a, r.key, r.addr);
      } else if r.op == TABLE_OP_DELETE {
        assert a.m - {r.key} == a.m;
      }
    }
  }

  lemma {:induction false} UpdateRefines(t: Table, a: Ref, r: Request)
    requires Refines(t, a) && r.key in a.m
    ensures t.ptr < |t.keys| == |t.vals|
    ensures Refines(Configure(t, r), RefApply(a, |t.keys|, r))
  {
    FindAgrees(t, a, r.key);
    var n := |t.keys|;
    var t', a' := Configure(t, r), RefApply(a, n, r);
    forall j: int | a'.count - n <= j < a'.count && t'.keys[j % n] != SENTINEL
      ensures t'.keys[j % n] in a'.m && a'.m[t'.keys[j % n]] == (t'.vals[j % n], j)
    {
      assert t.keys[j % n] != SENTINEL;
      SameSlot(a.count, n, j, a.m[r.key].1);
    }
    forall k | k in a'.m
      ensures k != SENTINEL && a'.count - n <= a'.m[k].1 < a'.count && t'.keys[a'.m[k].1 % n] == k
    {
      assert k in a.m;
    }
  }

  lemma {:induction false} ResetRefines(n: nat)
    requires n > 0
    ensures Refines(ResetTable(n), NO_KEYS)
  {
  }

  // -------- every run --------

  /** The request this cycle applies, if any. The FIFO gives up its head in every cycle it
    * is not empty; during a packet beat the head takes effect only when it writes the key
    * of a first beat that missed, and is lost otherwise. */
  function Applied(s: State, i: In): seq<Request> {
    if s.fifo != [] && (i.beat.None? || WritesForPacket(s, i)) then [s.fifo[0]] else []
  }

  function AppliedIn(n: nat, ins: seq<In>): seq<Request>
    requires n > 0
  {
    if ins == [] then []
    else AppliedIn(n, ins[..|ins| - 1]) + Applied(After(n, ins[..|ins| - 1]), ins[|ins| - 1])
  }

  /** The table changes exactly as the applied request asks, whichever branch applies it. */
  lemma {:induction false} OnlyAppliedRequestsCount(s: State, i: In)
    requires Ok(s)
    ensures NextTable(s, i) ==
            if Applied(s, i) == [] then s.table else Configure(s.table, Applied(s, i)[0])
  {
  }

  /** After any run the table holds exactly the map of the requests applied so far. */
  lemma {:induction false} TableRefinesMap(n: nat, ins: seq<In>)
    requires n > 0
    ensures Refines(After(n, ins).table, RefRun(n, AppliedIn(n, ins)))
  {
    if ins == [] {
      ResetRefines(n);
    } else {
      var before, i := ins[..|ins| - 1], ins[|ins| - 1];
      TableRefinesMap(n, before);
      var s := After(n, before);
      OnlyAppliedRequestsCount(s, i);
      var rs, r := AppliedIn(n, before), Applied(s, i);
      if r != [] {
        ConfigureRefines(s.table, RefRun(n, rs), r[0]);
        assert (rs + r)[..|rs + r| - 1] == rs;
      } else {
        assert rs + r == rs;
      }
    }
  }

  /** No key but the sentinel is ever stored twice. */
  lemma {:induction false} KeysDistinct(n: nat, ins: seq<In>, x: nat, y: nat)
    requires n > 0 && x < y < n
    ensures After(n, ins).table.keys[x] == After(n, ins).table.keys[y] ==>
            After(n, ins).table.keys[x] == SENTINEL
  {
    TableRefinesMap(n, ins);
    var t, a := After(n, ins).table, RefRun(n, AppliedIn(n, ins));
    if t.keys[x] == t.keys[y] != SENTINEL {
      FindAgrees(t, a, t.keys[x]);
      var jx := SlotNumber(a.count, n, x);
      var jy := SlotNumber(a.count, n, y);
    }
  }

  // -------- packet boundaries --------

  /** The last flag of the last beat transferred, if there has been one. */
  function LastFlag(ins: seq<In>): Option<bool> {
    if ins == [] then None
    else if ins[|ins| - 1].beat.Some? then ins[|ins| - 1].beat
    else LastFlag(ins[..|ins| - 1])
  }

  /** The next beat is the first of a packet. */
  predicate BetweenPackets(ins: seq<In>) {
    LastFlag(ins) != Some(false)
  }

  /** The matcher waits for a last beat exactly while the beats seen end inside a packet. */
  lemma {:induction false} WaitsInsidePackets(n: nat, ins: seq<In>)
    requires n > 0
    ensures After(n, ins).waiting <==> !BetweenPackets(ins)
  {
    if ins != [] {
      WaitsInsidePackets(n, ins[..|ins| - 1]);
    }
  }

  /** What a first beat gets when the table misses its key. */
  function OnMiss(s: State, i: In): Option<(Key, nat)> {
    if s.fifo == [] || s.fifo[0].key != i.key then None
    else Some((i.key, if s.fifo[0].op == TABLE_OP_WRITE then s.fifo[0].addr else 0))
  }

  /** What a packet sees with its first beat. Without valid metadata it gets cleared metadata.
    * With a key the map holds, the map's start address; with another, the address of a write
    * at the head of the queue for the same key, and cleared metadata when there is none. The
    * sentinel is looked up among the free slots: a miss in a full ring, the address left in
    * the only free slot, zero when there are several. */
  lemma {:induction false} PacketLookup(n: nat, ins: seq<In>, i: In)
    requires n > 0 && i.beat.Some? && BetweenPackets(ins)
    ensures var s, a := After(n, ins), RefRun(n, AppliedIn(n, ins));
            var out := After(n, ins + [i]).out;
            && (!i.metaValid ==> out == None)
            && (i.metaValid && i.key in a.m ==> out == Some((i.key, a.m[i.key].0)))
            && (i.metaValid && i.key !in a.m && i.key != SENTINEL ==> out == OnMiss(s, i))
            && (i.metaValid && i.key == SENTINEL ==>
                  if Full(a, n) then out == OnMiss(s, i)
                  else
                    && out.Some? && out.value.0 == SENTINEL
                    && (forall j: nat :: Only(s.table.keys, SENTINEL, j) ==> out.value.1 == s.table.vals[j])
                    && ((forall j: nat :: !Only(s.table.keys, SENTINEL, j)) ==> out.value.1 == 0))
  {
    assert (ins + [i])[..|ins|] == ins;
    WaitsInsidePackets(n, ins);
    TableRefinesMap(n, ins);
    var s, a := After(n, ins), RefRun(n, AppliedIn(n, ins));
    assert After(n, ins + [i]).out == NextOut(s, i);
    hide After, AppliedIn, RefRun;
    FullAgrees(s.table, a);
    if i.key != SENTINEL {
      FindAgrees(s.table, a, i.key);
    } else {
      SentinelNotHeld(s.table, a);
    }
  }

  /** Later beats of a packet are not looked up: the metadata goes by with a zero address and
    * the table stays as it is. Without a beat the metadata register holds. */
  lemma {:induction false} OtherCycles(n: nat, ins: seq<In>, i: In)
    requires n > 0
    ensures i.beat.Some? && !BetweenPackets(ins) ==>
              After(n, ins + [i]).out == Some((i.key, 0)) && After(n, ins + [i]).table == After(n, ins).table
    ensures i.beat.None? ==> After(n, ins + [i]).out == After(n, ins).out
  {
    assert (ins + [i])[..|ins|] == ins;
    WaitsInsidePackets(n, ins);
  }

  // -------- which requests take effect --------

  /** A packet's first beat that misses takes the write waiting at the head of the queue for
    * its own key: the key is then in the table, with that address. */
  lemma {:induction false} PacketInserts(n: nat, ins: seq<In>, i: In)
    requires n > 0 && i.beat.Some? && BetweenPackets(ins) && i.metaValid && i.key != SENTINEL
    requires var s := After(n, ins);
             && i.key !in RefRun(n, AppliedIn(n, ins)).m
             && s.fifo != [] && s.fifo[0].key == i.key && s.fifo[0].op == TABLE_OP_WRITE
    ensures var a := RefRun(n, AppliedIn(n, ins + [i]));
            i.key in a.m && a.m[i.key].0 == After(n, ins).fifo[0].addr
  {
    assert (ins + [i])[..|ins|] == ins;
    WaitsInsidePackets(n, ins);
    TableRefinesMap(n, ins);
    FindAgrees(After(n, ins).table, RefRun(n, AppliedIn(n, ins)), i.key);
    var rs, r := AppliedIn(n, ins), After(n, ins).fifo[0];
    assert AppliedIn(n, ins + [i]) == rs + [r];
    assert (rs + [r])[..|rs|] == rs;
  }

  /** Any other request at the head of the queue in a cycle with a beat is lost: it leaves the
    * queue and neither table nor map changes. */
  lemma {:induction false} RequestLost(n: nat, ins: seq<In>, i: In)
    requires n > 0 && i.beat.Some? && After(n, ins).fifo != []
    requires var s := After(n, ins);
             !BetweenPackets(ins) || !i.metaValid || s.fifo[0].key != i.key || s.fifo[0].op != TABLE_OP_WRITE
             || (i.key != SENTINEL && i.key in RefRun(n, AppliedIn(n, ins)).m)
    ensures After(n, ins + [i]).table == After(n, ins).table
    ensures AppliedIn(n, ins + [i]) == AppliedIn(n, ins)
    ensures Popped(n, ins + [i]) == Popped(n, ins) + [After(n, ins).fifo[0]]
  {
    assert (ins + [i])[..|ins|] == ins;
    WaitsInsidePackets(n, ins);
    TableRefinesMap(n, ins);
    if i.key != SENTINEL {
      FindAgrees(After(n, ins).table, RefRun(n, AppliedIn(n, ins)), i.key);
    }
  }

  /** Between beats the request at the head of the queue always takes effect. */
  lemma {:induction false} RequestApplied(n: nat, ins: seq<In>, i: In)
    requires n > 0 && i.beat.None? && After(n, ins).fifo != []
    ensures AppliedIn(n, ins + [i]) == AppliedIn(n, ins) + [After(n, ins).fifo[0]]
  {
    assert (ins + [i])[..|ins|] == ins;
  }

  // -------- what an applied request does, on the table itself --------

  /** After an applied write the table holds the key exactly once, with the address written. */
  lemma {:induction false} WriteStores(t: Table, a: Ref, r: Request)
    requires Refines(t, a) && r.op == TABLE_OP_WRITE && r.key != SENTINEL
    ensures t.ptr < |t.keys| == |t.vals|
    ensures var t' := Configure(t, r);
            exists j: nat :: Only(t'.keys, r.key, j) && j < |t'.vals| && t'.vals[j] == r.addr
  {
    ConfigureRefines(t, a, r);
    var t', a' := Configure(t, r), RefApply(a, |t.keys|, r);
    FindAgrees(t', a', r.key);
    var j := a'.m[r.key].1 % |t'.keys|;
    assert Only(t'.keys, r.key, j);
  }

  /** After an applied delete the table does not hold the key; other operations change nothing. */
  lemma {:induction false} DeleteForgets(t: Table, a: Ref, r: Request)
    requires Refines(t, a) && r.key != SENTINEL && r.op != TABLE_OP_WRITE
    ensures t.ptr < |t.keys| == |t.vals|
    ensures r.op == TABLE_OP_DELETE ==> r.key !in Configure(t, r).keys
    ensures r.op != TABLE_OP_DELETE ==> Configure(t, r) == t
  {
    FindAgrees(t, a, r.key);
    ConfigureRefines(t, a, r);
    FindAgrees(Configure(t, r), RefApply(a, |t.keys|, r), r.key);
  }

  /** A write touches one slot: the key's own, or the one under the pointer, which then moves on
    * by one. A delete touches the key's own slot alone. */
  lemma {:induction false} OtherSlotsKept(t: Table, a: Ref, r: Request, j: nat)
    requires Refines(t, a) && r.key != SENTINEL && j < |t.keys| && t.keys[j] != r.key
    ensures t.ptr < |t.keys| == |t.vals|
    ensures var t' := Configure(t, r);
            && |t'.keys| == |t'.vals| == |t.keys|
            && (r.key in t.keys || r.op != TABLE_OP_WRITE || j != t.ptr ==>
                  t'.keys[j] == t.keys[j] && t'.vals[j] == t.vals[j])
            && t'.ptr == if r.key !in t.keys && r.op == TABLE_OP_WRITE then (t.ptr + 1) % |t.keys| else t.ptr
  {
    FindAgrees(t, a, r.key);
  }

  lemma {:induction false} SentinelNotHeld(t: Table, a: Ref)
    requires Refines(t, a)
    ensures SENTINEL !in a.m
  {
  }

  lemma {:induction false} NeverHoldsSentinel(n: nat, rs: seq<Request>)
    ensures SENTINEL !in RefRun(n, rs).m
  {
    if rs != [] {
      NeverHoldsSentinel(n, rs[..|rs| - 1]);
    }
  }

  /** What the map remembers: a key's address is that of its last applied write, with no
    * applied delete of the key after it. */
  lemma {:induction false} HoldsLastWrite(n: nat, rs: seq<Request>, k: Key) returns (w: nat)
    requires k in RefRun(n, rs).m
    ensures w < |rs| && rs[w].key == k && rs[w].op == TABLE_OP_WRITE && rs[w].addr == RefRun(n, rs).m[k].0
    ensures forall u :: w < u < |rs| && rs[u].key == k ==> rs[u].op != TABLE_OP_WRITE && rs[u].op != TABLE_OP_DELETE
  {
    hide Full, Kept;
    NeverHoldsSentinel(n, rs);
    var r := rs[|rs| - 1];
    if r.key == k && r.op == TABLE_OP_WRITE {
      w := |rs| - 1;
    } else {
      w := HoldsLastWrite(n, rs[..|rs| - 1], k);
    }
  }

  /** What the map forgets: a key that is not deleted stays until n further insertions. */
  lemma {:induction false} StaysForNInsertions(n: nat, rs: seq<Request>, more: seq<Request>, k: Key)
    requires k in RefRun(n, rs).m
    requires forall u :: 0 <= u < |more| && more[u].key == k ==> more[u].op != TABLE_OP_DELETE
    requires RefRun(n, rs + more).count <= RefRun(n, rs).m[k].1 + n
    ensures k in RefRun(n, rs + more).m && RefRun(n, rs + more).m[k].1 == RefRun(n, rs).m[k].1
  {
    if more == [] {
      assert rs + more == rs;
    } else {
      var front := more[..|more| - 1];
      assert (rs + more)[..|rs + more| - 1] == rs + front;
      StaysForNInsertions(n, rs, front, k);
    }
  }

  // -------- the request path --------

  /** The configuration requests at the rising edges of valid among the first n cycles. */
  function Edges(ins: seq<In>, n: int): seq<Request>
    requires n <= |ins|
    decreases n
  {
    if n <= 0 then []
    else Edges(ins, n - 1) + if ins[n - 1].vld && (n == 1 || !ins[n - 2].vld) then [ins[n - 1].req] else []
  }

  /** Every request that has left the FIFO, applied or not. */
  function Popped(n: nat, ins: seq<In>): seq<Request>
    requires n > 0
  {
    if ins == [] then []
    else
      var s := After(n, ins[..|ins| - 1]);
      Popped(n, ins[..|ins| - 1]) + (if s.fifo == [] then [] else [s.fifo[0]])
  }

  lemma {:induction false} EdgesOfPrefix(ins: seq<In>, i: In, n: int)
    requires n <= |ins|
    ensures Edges(ins + [i], n) == Edges(ins, n)
    decreases n
  {
    if n > 0 {
      EdgesOfPrefix(ins, i, n - 1);
    }
  }

  ghost predicate SyncTracks(s: Sync, ins: seq<In>) {
    var n := |ins|;
    && (s.v0 <==> n >= 1 && ins[n - 1].vld) && (n >= 1 ==> s.r0 == ins[n - 1].req)
    && (s.v1 <==> n >= 2 && ins[n - 2].vld) && (n >= 2 ==> s.r1 == ins[n - 2].req)
    && (s.single <==> !(n >= 3 && ins[n - 3].vld))
  }

  lemma {:induction false} SyncFollows(n: nat, ins: seq<In>)
    requires n > 0
    ensures SyncTracks(After(n, ins).sync, ins)
  {
    if ins != [] {
      SyncFollows(n, ins[..|ins| - 1]);
    }
  }

  /** The synchroniser pushes exactly the request whose rising edge was two cycles ago. */
  lemma {:induction false} PushesTheEdge(s: State, before: seq<In>, i: In)
    requires SyncTracks(s.sync, before)
    ensures Edges(before + [i], |before| - 1)
            == Edges(before, |before| - 2) + if Pushes(s) then [s.sync.r1] else []
  {
    EdgesOfPrefix(before, i, |before| - 1);
  }

  lemma {:induction false} NoEdges(n: nat)
    requires n > 0
    ensures After(n, []).fifo == Popped(n, []) == Edges([], -2) == []
  {
  }

  /** A FIFO of at most one request is emptied in every cycle, and refilled by the push. */
  lemma {:induction false} FifoTurnsOver(n: nat, before: seq<In>, i: In)
    requires n > 0 && |After(n, before).fifo| <= 1
    ensures var s := After(n, before);
            && After(n, before + [i]).fifo == (if Pushes(s) then [s.sync.r1] else [])
            && Popped(n, before + [i]) == Popped(n, before) + s.fifo
  {
    hide NextTable, NextOut, Edges;
    assert (before + [i])[..|before|] == before;
  }

  /** However long valid stays high, each rising edge yields one request; it is queued two
    * cycles later and popped the cycle after, so the FIFO never holds two and never drops. */
  lemma {:induction false} OneRequestPerEdge(n: nat, ins: seq<In>)
    requires n > 0
    ensures |After(n, ins).fifo| <= 1
    ensures Popped(n, ins) + After(n, ins).fifo == Edges(ins, |ins| - 2)
  {
    hide *;
    if ins == [] {
      NoEdges(n);
    } else {
      var before, i := ins[..|ins| - 1], ins[|ins| - 1];
      OneRequestPerEdge(n, before);
      SyncFollows(n, before);
      assert ins == before + [i];
      PushesTheEdge(After(n, before), before, i);
      FifoTurnsOver(n, before, i);
    }
  }
}

/** The matcher's registers, clocked in place. */
module MatcherRegisters {
  import opened Basics
  import opened MatchTable

  class Matcher {
    const keys: array<Key>
    const vals: array<nat>
    var ptr: nat
    var waiting: bool
    var out: Option<(Key, nat)>
    var fifo: seq<Request>
    var sync: Sync

    ghost function Snapshot(): State
      reads this, keys, vals
    {
      State(Table(keys[..], vals[..], ptr), waiting, out, fifo, sync)
    }

    ghost predicate Valid()
      reads this, keys, vals
    {
      Ok(Snapshot())
    }

    constructor (n: nat)
      requires n > 0
      ensures Valid() && Snapshot() == Reset(n) && fresh(keys) && fresh(vals)
    {
      keys := new Key[n](i => SENTINEL);
      vals := new nat[n](i => NO_VALUE);
      ptr, waiting, out, fifo := 0, false, None, [];
      sync := Sync(false, NO_REQUEST, false, NO_REQUEST, true);
      new;
      assert keys[..] == ResetTable(n).keys && vals[..] == ResetTable(n).vals;
    }

    /** Compare every entry with the key, as the generate loop does, and read the vector. */
    method Search(k: Key) returns (m: Match)
      ensures m == Find(keys[..], k)
    {
      var hits, at := 0, 0;
      for i := 0 to keys.Length
        invariant hits == 0 ==> forall j :: 0 <= j < i ==> keys[j] != k
        invariant hits == 1 ==> at < i && keys[at] == k && forall j :: 0 <= j < i && j != at ==> keys[j] != k
        invariant hits >= 2 ==> exists x, y :: 0 <= x < y < i && keys[x] == k && keys[y] == k
        invariant hits >= 0
      {
        if keys[i] == k {
          hits := hits + 1;
          if hits == 1 { at := i; }
        }
      }
      if hits == 0 {
        m := Miss;
      } else if hits == 1 {
        assert Only(keys[..], k, at);
        m := Hit(at);
      } else {
        var x, y :| 0 <= x < y < keys.Length && keys[x] == k && keys[y] == k;
        assert keys[..][x] == k && keys[..][y] == k;
        m := Many;
      }
    }

    method InsertAtPointer(k: Key, v: nat)
      requires Valid()
      modifies keys, vals, this`ptr
      ensures Table(keys[..], vals[..], ptr) == Insert(old(Table(keys[..], vals[..], ptr)), k, v)
    {
      keys[ptr], vals[ptr] := k, v;
      ptr := (ptr + 1) % keys.Length;
    }

    method Apply(r: Request)
      requires Valid()
      modifies keys, vals, this`ptr
      ensures Table(keys[..], vals[..], ptr) == Configure(old(Table(keys[..], vals[..], ptr)), r)
    {
      var m := Search(r.key);
      match m {
        case Miss => if r.op == TABLE_OP_WRITE { InsertAtPointer(r.key, r.addr); }
        case Hit(j) =>
          if r.op == TABLE_OP_WRITE {
            vals[j] := r.addr;
          } else if r.op == TABLE_OP_DELETE {
            keys[j], vals[j] := SENTINEL, NO_VALUE;
          }
        case Many =>
      }
    }

    method FirstBeat(i: In) returns (out': Option<(Key, nat)>)
      requires Valid() && i.beat.Some? && !waiting
      modifies keys, vals, this`ptr
      ensures Table(keys[..], vals[..], ptr) == NextTable(old(Snapshot()), i)
      ensures out' == NextOut(old(Snapshot()), i)
    {
      out' := Some((i.key, 0));
      var m := Miss;
      if i.metaValid { m := Search(i.key); }
      match m {
        case Miss =>
          if fifo == [] || !(i.metaValid && i.key == fifo[0].key) {
            out' := None;
          } else if fifo[0].op == TABLE_OP_WRITE {
            out' := Some((i.key, fifo[0].addr));
            InsertAtPointer(fifo[0].key, fifo[0].addr);
          }
        case Hit(j) => out' := Some((i.key, vals[j]));
        case Many =>
      }
    }

    method Clock(i: In)
      requires Valid()
      modifies this, keys, vals
      ensures Valid() && Snapshot() == Next(old(Snapshot()), i)
    {
      NextOk(Snapshot(), i);
      var out', waiting' := out, waiting;
      if i.beat.Some? {
        waiting' := !i.beat.value;
        if waiting {
          out' := Some((i.key, 0));
        } else {
          out' := FirstBeat(i);
        }
      } else if fifo != [] {
        Apply(fifo[0]);
      }
      var push := if sync.v1 && sync.single && |fifo| < REQUEST_DEPTH then [sync.r1] else [];
      fifo := (if fifo == [] then [] else fifo[1..]) + push;
      sync := Sync(i.vld, i.req, sync.v0, sync.r0, !sync.v1);
      out, waiting := out', waiting';
    }
  }
}
