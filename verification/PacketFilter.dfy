/** The packet filter: it steers each packet, beat by beat, into the FIFO of its class,
  * queues the metadata of RDMA packets beside them, and drains both FIFOs under
  * back-pressure. A FIFO drops what is written while it is full; its programmable-full
  * flag answers some cycles late and sets a sticky error bit. */
module PacketFilter {
  import opened Basics

  const FIFO_WRITE_DEPTH := 512
  const PROG_FULL_THRESH := FIFO_WRITE_DEPTH - 5

  datatype Config = Config(depth: nat, thresh: nat)

  const HARDWARE := Config(FIFO_WRITE_DEPTH, PROG_FULL_THRESH)

  datatype WriteState = FilterIdle | WriteRoce | WriteNonRoce

  /** One output port: its FIFO, whether the read machine is inside a packet, the last
    * programmable-full samples (newest first) and the error bit. */
  datatype Port = Port(fifo: seq<Beat>, inside: bool, late: seq<bool>, err: bool)

  datatype State = State(wr: WriteState, roce: Port, nonRoce: Port, meta: seq<Metadata>)

  /** The pins read in one cycle: a beat when valid, the metadata bus, the two readies; and
    * how many cycles old the full flag of each port is in this cycle. */
  datatype In = In(beat: Option<Beat>, meta: Metadata, roceReady: bool, nonRoceReady: bool,
                   roceLag: nat, nonRoceLag: nat)

  datatype Out = Out(roce: Option<Beat>, meta: Option<Metadata>, nonRoce: Option<Beat>)

  function ResetPort(latency: nat): Port {
    Port([], false, seq(latency, i => false), false)
  }

  function Reset(latency: nat): State {
    State(FilterIdle, ResetPort(latency), ResetPort(latency), [])
  }

  // -------- one clock cycle --------

  predicate WritesRoce(s: State, i: In) {
    i.beat.Some? && (s.wr == WriteRoce || (s.wr == FilterIdle && i.meta.isRdma))
  }

  predicate WritesNonRoce(s: State, i: In) {
    i.beat.Some? && (s.wr == WriteNonRoce || (s.wr == FilterIdle && !i.meta.isRdma))
  }

  predicate WritesMeta(s: State, i: In) {
    i.beat.Some? && s.wr == FilterIdle && i.meta.isRdma
  }

  function NextWrite(s: State, i: In): WriteState {
    if i.beat.None? then s.wr
    else if i.beat.value.last then FilterIdle
    else if s.wr != FilterIdle then s.wr
    else if i.meta.isRdma then WriteRoce else WriteNonRoce
  }

  predicate ReadsRoce(s: State, i: In) {
    i.roceReady && s.roce.fifo != [] && (s.roce.inside || s.meta != [])
  }

  predicate ReadsMeta(s: State, i: In) {
    ReadsRoce(s, i) && !s.roce.inside
  }

  predicate ReadsNonRoce(s: State, i: In) {
    i.nonRoceReady && s.nonRoce.fifo != []
  }

  function Queue<T>(q: seq<T>, depth: nat, pop: bool, push: Option<T>): seq<T>
    requires pop ==> q != []
  {
    (if pop then q[1..] else q) + (if push.Some? && |q| < depth then [push.value] else [])
  }

  /** The full flag this cycle is the sample of `lag` cycles ago, and never older than the
    * samples kept: their number is the bound on the lag. */
  function NextPort(c: Config, p: Port, pop: bool, push: Option<Beat>, lag: nat): Port
    requires pop ==> p.fifo != []
  {
    var line := [|p.fifo| >= c.thresh] + p.late;
    Port(Queue(p.fifo, c.depth, pop, push),
         if pop then !p.fifo[0].last else p.inside,
         line[..|p.late|],
         p.err || line[if lag < |p.late| then lag else |p.late|])
  }

  function Pushed(b: bool, i: In): Option<Beat> {
    if b then i.beat else None
  }

  function Next(c: Config, s: State, i: In): State {
    State(NextWrite(s, i),
          NextPort(c, s.roce, ReadsRoce(s, i), Pushed(WritesRoce(s, i), i), i.roceLag),
          NextPort(c, s.nonRoce, ReadsNonRoce(s, i), Pushed(WritesNonRoce(s, i), i), i.nonRoceLag),
          Queue(s.meta, c.depth, ReadsMeta(s, i), if WritesMeta(s, i) then Some(i.meta) else None))
  }

  function Outputs(s: State, i: In): Out {
    Out(if ReadsRoce(s, i) then Some(s.roce.fifo[0]) else None,
        if ReadsMeta(s, i) then Some(s.meta[0]) else None,
        if ReadsNonRoce(s, i) then Some(s.nonRoce.fifo[0]) else None)
  }

  // -------- whole runs --------

  /** The state after the cycles in ins. */
  function After(c: Config, latency: nat, ins: seq<In>): State {
    if ins == [] then Reset(latency)
    else Next(c, After(c, latency, ins[..|ins| - 1]), ins[|ins| - 1])
  }

  // A beat on the RDMA port with the metadata shown in the same cycle.
  type Tagged = (Beat, Option<Metadata>)

  function TaggedOut(s: State, i: In): seq<Tagged> {
    var o := Outputs(s, i);
    if o.roce.Some? then [(o.roce.value, o.meta)] else []
  }

  /** What the RDMA port has emitted, with the metadata strobed beside each beat. */
  function SentRoce(c: Config, latency: nat, ins: seq<In>): seq<Tagged> {
    if ins == [] then []
    else
      SentRoce(c, latency, ins[..|ins| - 1])
      + TaggedOut(After(c, latency, ins[..|ins| - 1]), ins[|ins| - 1])
  }

  function SentNonRoce(c: Config, latency: nat, ins: seq<In>): seq<Beat> {
    if ins == [] then []
    else
      var o := Outputs(After(c, latency, ins[..|ins| - 1]), ins[|ins| - 1]);
      SentNonRoce(c, latency, ins[..|ins| - 1]) + (if o.nonRoce.Some? then [o.nonRoce.value] else [])
  }

  // A beat offered at the input with the metadata bus of that cycle.
  type Offer = (Beat, Metadata)

  function OfferOf(i: In): seq<Offer> {
    if i.beat.Some? then [(i.beat.value, i.meta)] else []
  }

  function Offered(ins: seq<In>): seq<Offer> {
    if ins == [] then []
    else
      Offered(ins[..|ins| - 1]) + OfferOf(ins[|ins| - 1])
  }

  // -------- reference: classify by the first beat of each packet --------

  /** The index of the first beat of the packet that beat i belongs to. */
  function First(bs: seq<Offer>, i: nat): (f: nat)
    requires i < |bs|
    ensures f <= i
  {
    if i == 0 || bs[i - 1].0.last then i else First(bs, i - 1)
  }

  predicate IsRdma(bs: seq<Offer>, i: nat)
    requires i < |bs|
  {
    bs[First(bs, i)].1.isRdma
  }

  /** The RDMA beats among the first n offered, in order, each first beat of a packet
    * carrying its packet's metadata and every other beat none. */
  function RdmaBeats(bs: seq<Offer>, n: nat): seq<Tagged>
    requires n <= |bs|
  {
    if n == 0 then []
    else RdmaBeats(bs, n - 1) +
         if IsRdma(bs, n - 1) then
           [(bs[n - 1].0, if First(bs, n - 1) == n - 1 then Some(bs[n - 1].1) else None)]
         else []
  }

  function NonRdmaBeats(bs: seq<Offer>, n: nat): seq<Beat>
    requires n <= |bs|
  {
    if n == 0 then []
    else NonRdmaBeats(bs, n - 1) + if IsRdma(bs, n - 1) then [] else [bs[n - 1].0]
  }

  lemma {:induction false} FirstExtends(bs: seq<Offer>, x: Offer, i: nat)
    requires i < |bs|
    ensures First(bs + [x], i) == First(bs, i)
    ensures IsRdma(bs + [x], i) == IsRdma(bs, i)
  {
    if i > 0 && !bs[i - 1].0.last {
      FirstExtends(bs, x, i - 1);
    }
  }

  lemma {:induction false} BeatsExtend(bs: seq<Offer>, x: Offer, n: nat)
    requires n <= |bs|
    ensures RdmaBeats(bs + [x], n) == RdmaBeats(bs, n)
    ensures NonRdmaBeats(bs + [x], n) == NonRdmaBeats(bs, n)
  {
    hide First, IsRdma;
    if n > 0 {
      BeatsExtend(bs, x, n - 1);
      FirstExtends(bs, x, n - 1);
    }
  }

  // -------- the two queues of the RDMA port, read together --------

  /** What the RDMA port would emit from beats f and metadata m, starting either between
    * packets or inside one. */
  function Pair(f: seq<Beat>, m: seq<Metadata>, inside: bool): seq<Tagged> {
    if f == [] then []
    else if inside then [(f[0], None)] + Pair(f[1..], m, !f[0].last)
    else if m == [] then []
    else [(f[0], Some(m[0]))] + Pair(f[1..], m[1..], !f[0].last)
  }

  /** How many beats of f start a packet. */
  function Heads(f: seq<Beat>, inside: bool): (k: nat)
    ensures k <= |f|
  {
    if f == [] then 0 else (if inside then 0 else 1) + Heads(f[1..], !f[0].last)
  }

  /** Whether the next beat to enter behind f continues a packet. */
  function TailInside(f: seq<Beat>, inside: bool): bool {
    if f == [] then inside else !f[|f| - 1].last
  }

  lemma {:induction false} PushInside(f: seq<Beat>, m: seq<Metadata>, inside: bool, b: Beat)
    requires |m| == Heads(f, inside) && TailInside(f, inside)
    ensures Pair(f + [b], m, inside) == Pair(f, m, inside) + [(b, None)]
    ensures Heads(f + [b], inside) == |m|
  {
    if f != [] {
      assert (f + [b])[1..] == f[1..] + [b];
      PushInside(f[1..], if inside then m else m[1..], !f[0].last, b);
    } else {
      assert (f + [b])[1..] == [];
    }
  }

  lemma {:induction false} PushHead(f: seq<Beat>, m: seq<Metadata>, inside: bool, b: Beat, x: Metadata)
    requires |m| == Heads(f, inside) && !TailInside(f, inside)
    ensures Pair(f + [b], m + [x], inside) == Pair(f, m, inside) + [(b, Some(x))]
    ensures Heads(f + [b], inside) == |m| + 1
  {
    if f != [] {
      assert (f + [b])[1..] == f[1..] + [b];
      if inside {
        PushHead(f[1..], m, !f[0].last, b, x);
      } else {
        assert (m + [x])[1..] == m[1..] + [x];
        PushHead(f[1..], m[1..], !f[0].last, b, x);
      }
    } else {
      assert (f + [b])[1..] == [] && (m + [x])[0] == x;
    }
  }

  function Strip(ts: seq<Tagged>): seq<Beat> {
    seq(|ts|, i requires 0 <= i < |ts| => ts[i].0)
  }

  lemma {:induction false} PairKeepsBeats(f: seq<Beat>, m: seq<Metadata>, inside: bool)
    requires |m| == Heads(f, inside)
    ensures Strip(Pair(f, m, inside)) == f
  {
    if f != [] {
      PairKeepsBeats(f[1..], if inside then m else m[1..], !f[0].last);
      var p := Pair(f, m, inside);
      assert p == [p[0]] + Pair(f[1..], if inside then m else m[1..], !f[0].last);
    }
  }

  // -------- capacity: what a clear error bit proves --------

  /** How many of the newest samples are set in a row. */
  function Streak(late: seq<bool>): (k: nat)
    ensures k <= |late|
    ensures forall j :: 0 <= j < k ==> late[j]
  {
    if late == [] || !late[0] then 0 else 1 + Streak(late[1..])
  }

  /** Dropping the oldest sample shortens the streak only if every sample is set. */
  lemma {:induction false} StreakCut(late: seq<bool>)
    requires late != []
    ensures Streak(late[..|late| - 1]) == if Streak(late) == |late| then |late| - 1 else Streak(late)
  {
    if late[0] && |late| > 1 {
      assert late[..|late| - 1][1..] == late[1..][..|late[1..]| - 1];
      StreakCut(late[1..]);
    }
  }

  /** While the error bit is clear, the FIFO exceeds the threshold by no more than the
    * cycles it has spent there without a break. */
  ghost predicate Within(c: Config, latency: nat, p: Port) {
    |p.late| == latency && (!p.err ==> |p.fifo| <= c.thresh + Streak(p.late))
  }

  lemma {:induction false} PortStep(c: Config, latency: nat, p: Port, pop: bool, push: Option<Beat>, lag: nat)
    requires c.thresh + latency <= c.depth
    requires Within(c, latency, p) && (pop ==> p.fifo != [])
    ensures Within(c, latency, NextPort(c, p, pop, push, lag))
    ensures !NextPort(c, p, pop, push, lag).err ==> |p.fifo| < c.depth
  {
    var line := [|p.fifo| >= c.thresh] + p.late;
    assert line[1..] == p.late;
    StreakCut(line);
  }

  // -------- the run invariant --------

  ghost predicate WriteTracks(wr: WriteState, bs: seq<Offer>) {
    wr == if bs == [] || bs[|bs| - 1].0.last then FilterIdle
          else if IsRdma(bs, |bs| - 1) then WriteRoce else WriteNonRoce
  }

  ghost predicate RoceExact(s: State, sent: seq<Tagged>, bs: seq<Offer>) {
    && |s.meta| == Heads(s.roce.fifo, s.roce.inside)
    && TailInside(s.roce.fifo, s.roce.inside) == (s.wr == WriteRoce)
    && sent + Pair(s.roce.fifo, s.meta, s.roce.inside) == RdmaBeats(bs, |bs|)
  }

  ghost predicate NonRoceExact(s: State, sent: seq<Beat>, bs: seq<Offer>) {
    sent + s.nonRoce.fifo == NonRdmaBeats(bs, |bs|)
  }

  ghost predicate Inv(c: Config, latency: nat, ins: seq<In>) {
    var s := After(c, latency, ins);
    && WriteTracks(s.wr, Offered(ins))
    && Within(c, latency, s.roce) && Within(c, latency, s.nonRoce)
    && (!s.roce.err ==> RoceExact(s, SentRoce(c, latency, ins), Offered(ins)))
    && (!s.nonRoce.err ==> NonRoceExact(s, SentNonRoce(c, latency, ins), Offered(ins)))
  }

  /** Popping the RDMA port moves exactly one tagged beat from the queues to the output. */
  lemma {:induction false} PopRoce(s: State, i: In)
    requires |s.meta| == Heads(s.roce.fifo, s.roce.inside)
    ensures var pop := ReadsRoce(s, i);
            var f := if pop then s.roce.fifo[1..] else s.roce.fifo;
            var m := if ReadsMeta(s, i) then s.meta[1..] else s.meta;
            var inside := if pop then !s.roce.fifo[0].last else s.roce.inside;
            && TaggedOut(s, i) + Pair(f, m, inside)
               == Pair(s.roce.fifo, s.meta, s.roce.inside)
            && |m| == Heads(f, inside)
            && TailInside(f, inside) == TailInside(s.roce.fifo, s.roce.inside)
  {
  }

  /** What this cycle's write adds to the RDMA port, tagged. */
  function Added(s: State, i: In): seq<Tagged> {
    if WritesRoce(s, i) then [(i.beat.value, if s.wr == FilterIdle then Some(i.meta) else None)] else []
  }

  lemma {:induction false} PushRoce(c: Config, s: State, i: In, f: seq<Beat>, m: seq<Metadata>, inside: bool)
    requires |m| == Heads(f, inside) && TailInside(f, inside) == (s.wr == WriteRoce)
    ensures var f' := f + (if WritesRoce(s, i) then [i.beat.value] else []);
            var m' := m + (if WritesMeta(s, i) then [i.meta] else []);
            && Pair(f', m', inside) == Pair(f, m, inside) + Added(s, i)
            && |m'| == Heads(f', inside)
            && TailInside(f', inside) == (NextWrite(s, i) == WriteRoce)
  {
    if WritesMeta(s, i) {
      PushHead(f, m, inside, i.beat.value, i.meta);
    } else {
      assert m + [] == m;
      if WritesRoce(s, i) {
        PushInside(f, m, inside, i.beat.value);
      } else {
        assert f + [] == f;
      }
    }
  }

  lemma {:induction false} ReferenceStep(s: State, i: In, bs: seq<Offer>)
    requires WriteTracks(s.wr, bs)
    ensures WriteTracks(NextWrite(s, i), bs + OfferOf(i))
    ensures RdmaBeats(bs + OfferOf(i), |bs + OfferOf(i)|) == RdmaBeats(bs, |bs|) + Added(s, i)
    ensures NonRdmaBeats(bs + OfferOf(i), |bs + OfferOf(i)|)
            == NonRdmaBeats(bs, |bs|) + (if WritesNonRoce(s, i) then [i.beat.value] else [])
  {
    if i.beat.Some? {
      var x := (i.beat.value, i.meta);
      BeatsExtend(bs, x, |bs|);
      if |bs| > 0 { FirstExtends(bs, x, |bs| - 1); }
    } else {
      assert bs + [] == bs;
    }
  }

  /** One cycle of the RDMA FIFO and the metadata FIFO together: pop, then push. */
  lemma {:induction false} QueuesStep(c: Config, s: State, i: In)
    requires |s.meta| == Heads(s.roce.fifo, s.roce.inside) && |s.roce.fifo| < c.depth
    requires TailInside(s.roce.fifo, s.roce.inside) == (s.wr == WriteRoce)
    ensures var s' := Next(c, s, i);
            && TaggedOut(s, i) + Pair(s'.roce.fifo, s'.meta, s'.roce.inside)
               == Pair(s.roce.fifo, s.meta, s.roce.inside) + Added(s, i)
            && |s'.meta| == Heads(s'.roce.fifo, s'.roce.inside)
            && TailInside(s'.roce.fifo, s'.roce.inside) == (s'.wr == WriteRoce)
  {
    var s' := Next(c, s, i);
    var f := if ReadsRoce(s, i) then s.roce.fifo[1..] else s.roce.fifo;
    var m := if ReadsMeta(s, i) then s.meta[1..] else s.meta;
    var f' := f + (if WritesRoce(s, i) then [i.beat.value] else []);
    var m' := m + (if WritesMeta(s, i) then [i.meta] else []);
    assert s'.roce.fifo == f' && s'.meta == m';
    PopThenPush(c, s, i, f, m, s'.roce.inside, f', m');
  }

  lemma {:induction false} Regroup<T>(a: seq<T>, b: seq<T>, c: seq<T>)
    ensures a + (b + c) == a + b + c
  {
  }

  lemma {:induction false} PopThenPush(c: Config, s: State, i: In, f: seq<Beat>, m: seq<Metadata>, inside: bool,
                    f': seq<Beat>, m': seq<Metadata>)
    requires |s.meta| == Heads(s.roce.fifo, s.roce.inside)
    requires TailInside(s.roce.fifo, s.roce.inside) == (s.wr == WriteRoce)
    requires f == if ReadsRoce(s, i) then s.roce.fifo[1..] else s.roce.fifo
    requires m == if ReadsMeta(s, i) then s.meta[1..] else s.meta
    requires inside == if ReadsRoce(s, i) then !s.roce.fifo[0].last else s.roce.inside
    requires f' == f + (if WritesRoce(s, i) then [i.beat.value] else [])
    requires m' == m + (if WritesMeta(s, i) then [i.meta] else [])
    ensures TaggedOut(s, i) + Pair(f', m', inside) == Pair(s.roce.fifo, s.meta, s.roce.inside) + Added(s, i)
    ensures |m'| == Heads(f', inside)
    ensures TailInside(f', inside) == (NextWrite(s, i) == WriteRoce)
  {
    PopRoce(s, i);
    PushRoce(c, s, i, f, m, inside);
    Regroup(TaggedOut(s, i), Pair(f, m, inside), Added(s, i));
  }

  lemma {:induction false} RoceStep(c: Config, s: State, i: In, sent: seq<Tagged>, bs: seq<Offer>)
    requires WriteTracks(s.wr, bs) && RoceExact(s, sent, bs) && |s.roce.fifo| < c.depth
    ensures RoceExact(Next(c, s, i), sent + TaggedOut(s, i), bs + OfferOf(i))
  {
    QueuesStep(c, s, i);
    ReferenceStep(s, i, bs);
    var s' := Next(c, s, i);
    var now, then' := Pair(s.roce.fifo, s.meta, s.roce.inside), Pair(s'.roce.fifo, s'.meta, s'.roce.inside);
    Regroup(sent, TaggedOut(s, i), then');
    Regroup(sent, now, Added(s, i));
  }

  lemma {:induction false} NonRoceStep(c: Config, s: State, i: In, sent: seq<Beat>, bs: seq<Offer>)
    requires WriteTracks(s.wr, bs) && NonRoceExact(s, sent, bs) && |s.nonRoce.fifo| < c.depth
    ensures var o := Outputs(s, i);
            NonRoceExact(Next(c, s, i), sent + (if o.nonRoce.Some? then [o.nonRoce.value] else []),
                         bs + OfferOf(i))
  {
    ReferenceStep(s, i, bs);
  }

  lemma {:induction false} RunInv(c: Config, latency: nat, ins: seq<In>)
    requires c.thresh + latency <= c.depth
    ensures Inv(c, latency, ins)
  {
    if ins == [] {
      assert Streak(ResetPort(latency).late) >= 0;
    } else {
      var before, i := ins[..|ins| - 1], ins[|ins| - 1];
      RunInv(c, latency, before);
      var s := After(c, latency, before);
      ReferenceStep(s, i, Offered(before));
      assert Offered(ins) == Offered(before) + OfferOf(i);
      PortStep(c, latency, s.roce, ReadsRoce(s, i), Pushed(WritesRoce(s, i), i), i.roceLag);
      PortStep(c, latency, s.nonRoce, ReadsNonRoce(s, i), Pushed(WritesNonRoce(s, i), i), i.nonRoceLag);
      if !After(c, latency, ins).roce.err {
        RoceStep(c, s, i, SentRoce(c, latency, before), Offered(before));
      }
      if !After(c, latency, ins).nonRoce.err {
        NonRoceStep(c, s, i, SentNonRoce(c, latency, before), Offered(before));
      }
    }
  }

  // -------- main results --------

  /** Whatever arrives and whatever the readies do, a port whose error bit is clear has
    * lost, duplicated, reordered and misrouted nothing: what it emitted followed by what
    * it still queues is exactly the beats of its class, and every RDMA packet's metadata
    * is strobed beside that packet's first beat and nowhere else. */
  lemma {:induction false} PortsExact(c: Config, latency: nat, ins: seq<In>)
    requires c.thresh + latency <= c.depth
    ensures var s := After(c, latency, ins);
            var bs := Offered(ins);
            && (!s.roce.err ==>
                  && SentRoce(c, latency, ins) + Pair(s.roce.fifo, s.meta, s.roce.inside)
                     == RdmaBeats(bs, |bs|)
                  && Strip(Pair(s.roce.fifo, s.meta, s.roce.inside)) == s.roce.fifo)
            && (!s.nonRoce.err ==>
                  SentNonRoce(c, latency, ins) + s.nonRoce.fifo == NonRdmaBeats(bs, |bs|))
  {
    RunInv(c, latency, ins);
    var s := After(c, latency, ins);
    if !s.roce.err {
      PairKeepsBeats(s.roce.fifo, s.meta, s.roce.inside);
    }
  }

  /** The metadata FIFO holds one entry for each packet whose first beat is still queued:
    * it never blocks a non-empty RDMA FIFO and cannot fill before it. */
  lemma {:induction false} MetadataNeverBlocks(c: Config, latency: nat, ins: seq<In>, i: In)
    requires c.thresh + latency <= c.depth
    ensures var s := After(c, latency, ins);
            !s.roce.err ==>
              && |s.meta| == Heads(s.roce.fifo, s.roce.inside) <= |s.roce.fifo|
              && (ReadsRoce(s, i) <==> i.roceReady && s.roce.fifo != [])
  {
    RunInv(c, latency, ins);
  }

  /** While the error bit stays clear the FIFO always has room for the beat of this cycle. */
  lemma {:induction false} NoDropWhileClear(c: Config, latency: nat, ins: seq<In>, i: In)
    requires c.thresh + latency <= c.depth
    ensures !After(c, latency, ins + [i]).roce.err ==> |After(c, latency, ins).roce.fifo| < c.depth
    ensures !After(c, latency, ins + [i]).nonRoce.err ==> |After(c, latency, ins).nonRoce.fifo| < c.depth
  {
    RunInv(c, latency, ins);
    var s := After(c, latency, ins);
    assert (ins + [i])[..|ins|] == ins;
    PortStep(c, latency, s.roce, ReadsRoce(s, i), Pushed(WritesRoce(s, i), i), i.roceLag);
    PortStep(c, latency, s.nonRoce, ReadsNonRoce(s, i), Pushed(WritesNonRoce(s, i), i), i.nonRoceLag);
  }

  // -------- what the ports emit, and when --------

  /** A port emits the beat at the front of its FIFO in exactly the cycles in which it is ready
    * and has one; the RDMA port shows the front metadata with a packet's first beat. */
  lemma {:induction false} EmitsExactly(c: Config, latency: nat, ins: seq<In>, i: In)
    requires c.thresh + latency <= c.depth
    ensures var s := After(c, latency, ins);
            Outputs(s, i).nonRoce
              == (if i.nonRoceReady && s.nonRoce.fifo != [] then Some(s.nonRoce.fifo[0]) else None)
    ensures var s := After(c, latency, ins);
            !s.roce.err ==>
              Outputs(s, i).roce == (if i.roceReady && s.roce.fifo != [] then Some(s.roce.fifo[0]) else None)
  {
    RunInv(c, latency, ins);
  }

  /** No queue holds more than its depth. */
  lemma {:induction false} NeverOverfull(c: Config, latency: nat, ins: seq<In>)
    ensures var s := After(c, latency, ins); |s.roce.fifo| <= c.depth && |s.nonRoce.fifo| <= c.depth
  {
    if ins != [] {
      NeverOverfull(c, latency, ins[..|ins| - 1]);
    }
  }

  predicate NoOffers(ins: seq<In>) {
    forall j :: 0 <= j < |ins| ==> ins[j].beat.None?
  }

  predicate NonRoceReady(ins: seq<In>) {
    forall j :: 0 <= j < |ins| ==> ins[j].nonRoceReady
  }

  predicate RoceReady(ins: seq<In>) {
    forall j :: 0 <= j < |ins| ==> ins[j].roceReady
  }

  lemma {:induction false} NothingOffered(ins: seq<In>, quiet: seq<In>)
    requires NoOffers(quiet)
    ensures Offered(ins + quiet) == Offered(ins)
  {
    if quiet == [] {
      assert ins + quiet == ins;
    } else {
      var front, i := quiet[..|quiet| - 1], quiet[|quiet| - 1];
      assert (ins + quiet)[..|ins + quiet| - 1] == ins + front;
      NothingOffered(ins, front);
    }
  }

  /** What a cycle without an offer does to the FIFOs: each loses its front beat exactly if it
    * is read. */
  lemma {:induction false} QuietStep(c: Config, latency: nat, ins: seq<In>, i: In)
    requires i.beat.None?
    ensures var s, s' := After(c, latency, ins), After(c, latency, ins + [i]);
            && s'.nonRoce.fifo == (if ReadsNonRoce(s, i) then s.nonRoce.fifo[1..] else s.nonRoce.fifo)
            && s'.roce.fifo == (if ReadsRoce(s, i) then s.roce.fifo[1..] else s.roce.fifo)
            && (s.roce.err ==> s'.roce.err)
  {
    assert (ins + [i])[..|ins|] == ins;
  }

  /** A port held ready for as many cycles as it has beats queued, with nothing new offered,
    * has an empty queue. */
  lemma {:induction false} NonRoceEmpties(c: Config, latency: nat, ins: seq<In>, quiet: seq<In>)
    requires c.thresh + latency <= c.depth && NoOffers(quiet) && NonRoceReady(quiet)
    ensures var k, f := |quiet|, |After(c, latency, ins).nonRoce.fifo|;
            |After(c, latency, ins + quiet).nonRoce.fifo| == if k < f then f - k else 0
  {
    hide After, Outputs;
    if quiet == [] {
      assert ins + quiet == ins;
    } else {
      var front, i := quiet[..|quiet| - 1], quiet[|quiet| - 1];
      assert ins + quiet == (ins + front) + [i];
      NonRoceEmpties(c, latency, ins, front);
      QuietStep(c, latency, ins + front, i);
    }
  }

  lemma {:induction false} RoceEmpties(c: Config, latency: nat, ins: seq<In>, quiet: seq<In>)
    requires c.thresh + latency <= c.depth && NoOffers(quiet) && RoceReady(quiet)
    ensures var k, f := |quiet|, |After(c, latency, ins).roce.fifo|;
            !After(c, latency, ins + quiet).roce.err ==>
              |After(c, latency, ins + quiet).roce.fifo| == if k < f then f - k else 0
  {
    hide After, Outputs;
    if quiet == [] {
      assert ins + quiet == ins;
    } else {
      var front, i := quiet[..|quiet| - 1], quiet[|quiet| - 1];
      assert ins + quiet == (ins + front) + [i];
      RoceEmpties(c, latency, ins, front);
      QuietStep(c, latency, ins + front, i);
      MetadataNeverBlocks(c, latency, ins + front, i);
    }
  }

  /** Everything arrives: such a port has then emitted every beat of its class that was offered,
    * and nothing else. */
  lemma {:induction false} PortsDrain(c: Config, latency: nat, ins: seq<In>, quiet: seq<In>)
    requires c.thresh + latency <= c.depth && NoOffers(quiet)
    ensures var s, bs := After(c, latency, ins), Offered(ins);
            var s' := After(c, latency, ins + quiet);
            && (NonRoceReady(quiet) && |quiet| >= |s.nonRoce.fifo| && !s'.nonRoce.err ==>
                  SentNonRoce(c, latency, ins + quiet) == NonRdmaBeats(bs, |bs|))
            && (RoceReady(quiet) && |quiet| >= |s.roce.fifo| && !s'.roce.err ==>
                  SentRoce(c, latency, ins + quiet) == RdmaBeats(bs, |bs|))
  {
    hide After, SentNonRoce, SentRoce, NonRdmaBeats, RdmaBeats, NonRoceReady, RoceReady, Offered;
    NothingOffered(ins, quiet);
    PortsExact(c, latency, ins + quiet);
    var s' := After(c, latency, ins + quiet);
    if NonRoceReady(quiet) {
      NonRoceEmpties(c, latency, ins, quiet);
    }
    if RoceReady(quiet) {
      RoceEmpties(c, latency, ins, quiet);
    }
  }

  // -------- when the error bits rise --------

  /** The occupancy of a port in each cycle of a run, as the flag samples it. */
  predicate BelowThreshold(c: Config, latency: nat, ins: seq<In>, rdma: bool) {
    forall k :: 0 <= k < |ins| ==>
      |if rdma then After(c, latency, ins[..k]).roce.fifo else After(c, latency, ins[..k]).nonRoce.fifo| < c.thresh
  }

  /** A port that has never reached its threshold has a clear error bit and no set sample. */
  lemma {:induction false} ClearBelowThreshold(c: Config, latency: nat, ins: seq<In>, rdma: bool)
    requires BelowThreshold(c, latency, ins, rdma)
    ensures var s := After(c, latency, ins); ClearLine(latency, if rdma then s.roce else s.nonRoce)
  {
    hide ClearLine, NextPort;
    if ins == [] {
      ResetClear(latency);
    } else {
      var front, i := ins[..|ins| - 1], ins[|ins| - 1];
      forall k | 0 <= k < |front| ensures ins[..k] == front[..k] {
      }
      assert BelowThreshold(c, latency, front, rdma);
      ClearBelowThreshold(c, latency, front, rdma);
      hide BelowThreshold;
      var s := After(c, latency, front);
      if rdma {
        StaysClear(c, latency, s.roce, ReadsRoce(s, i), Pushed(WritesRoce(s, i), i), i.roceLag);
      } else {
        StaysClear(c, latency, s.nonRoce, ReadsNonRoce(s, i), Pushed(WritesNonRoce(s, i), i), i.nonRoceLag);
      }
    }
  }

  /** The error bit is clear and so is every sample still on its way. */
  predicate ClearLine(latency: nat, p: Port) {
    !p.err && |p.late| == latency && forall j :: 0 <= j < latency ==> !p.late[j]
  }

  lemma {:induction false} ResetClear(latency: nat)
    ensures ClearLine(latency, ResetPort(latency))
  {
  }

  lemma {:induction false} StaysClear(c: Config, latency: nat, p: Port, pop: bool, push: Option<Beat>, lag: nat)
    requires ClearLine(latency, p) && |p.fifo| < c.thresh && (pop ==> p.fifo != [])
    ensures ClearLine(latency, NextPort(c, p, pop, push, lag))
  {
    hide Queue;
  }

  /** An error bit once set stays set, and every one that is set has a cycle at the threshold
    * behind it. */
  lemma {:induction false} ErrorSticks(c: Config, latency: nat, ins: seq<In>, i: In)
    ensures After(c, latency, ins).roce.err ==> After(c, latency, ins + [i]).roce.err
    ensures After(c, latency, ins).nonRoce.err ==> After(c, latency, ins + [i]).nonRoce.err
    ensures After(c, latency, ins).roce.err ==> !BelowThreshold(c, latency, ins, true)
    ensures After(c, latency, ins).nonRoce.err ==> !BelowThreshold(c, latency, ins, false)
  {
    assert (ins + [i])[..|ins|] == ins;
    if BelowThreshold(c, latency, ins, true) { ClearBelowThreshold(c, latency, ins, true); }
    if BelowThreshold(c, latency, ins, false) { ClearBelowThreshold(c, latency, ins, false); }
  }

  // -------- how late the flag may be --------

  /** A clear error bit on a port certifies, in every run, that nothing was lost there. */
  ghost predicate ClearMeansExact(c: Config, latency: nat, rdma: bool) {
    forall ins: seq<In> ::
      var s := After(c, latency, ins);
      if rdma then !s.roce.err ==> RoceExact(s, SentRoce(c, latency, ins), Offered(ins))
      else !s.nonRoce.err ==> NonRoceExact(s, SentNonRoce(c, latency, ins), Offered(ins))
  }

  /** One-beat packets of one class, offered without pause to ports that are never ready, with
    * full flags as old as they may be. */
  function FloodBeat(rdma: bool, latency: nat): In {
    In(Some(Beat([], 0, true)), Metadata(0, 0, 0, 0, 0, 0, 0, 0, 0, 0, 0, 0, rdma), false, false, latency, latency)
  }

  function Flood(rdma: bool, latency: nat, n: nat): seq<In> {
    seq(n, i => FloodBeat(rdma, latency))
  }

  // A port that has taken n beats of a flood.
  ghost predicate Filling(c: Config, latency: nat, n: nat, p: Port) {
    && |p.late| == latency && !p.err && |p.fifo| == (if n <= c.depth then n else c.depth)
    && forall j :: 0 <= j < latency && p.late[j] ==> j < n - c.thresh
  }

  lemma {:induction false} FloodPort(c: Config, latency: nat, n: nat, p: Port)
    requires n <= c.depth < c.thresh + latency && Filling(c, latency, n, p)
    ensures Filling(c, latency, n + 1, NextPort(c, p, false, Some(Beat([], 0, true)), latency))
  {
    var line := [|p.fifo| >= c.thresh] + p.late;
    forall j | 0 <= j <= latency && line[j] ensures j < n + 1 - c.thresh {
      if j > 0 { assert line[j] == p.late[j - 1]; }
    }
  }

  lemma {:induction false} FloodOffers(rdma: bool, latency: nat, n: nat)
    ensures var bs := Offered(Flood(rdma, latency, n));
            && |bs| == n && (n > 0 ==> bs[n - 1].0.last)
            && (if rdma then |RdmaBeats(bs, n)| else |NonRdmaBeats(bs, n)|) == n
  {
    if n > 0 {
      FloodOffers(rdma, latency, n - 1);
      assert Flood(rdma, latency, n)[..n - 1] == Flood(rdma, latency, n - 1);
      var x, bs := FloodBeat(rdma, latency), Offered(Flood(rdma, latency, n - 1));
      assert Offered(Flood(rdma, latency, n)) == bs + [(x.beat.value, x.meta)];
      hide Offered, Flood;
      BeatsExtend(bs, (x.beat.value, x.meta), n - 1);
    }
  }

  /** A flooded port fills up and drops a beat before its error bit can rise. */
  lemma {:induction false} Flooded(c: Config, latency: nat, rdma: bool, n: nat)
    requires n <= c.depth + 1 && c.depth < c.thresh + latency
    ensures var ins := Flood(rdma, latency, n);
            var s := After(c, latency, ins);
            && s.wr == FilterIdle && Filling(c, latency, n, if rdma then s.roce else s.nonRoce)
            && SentRoce(c, latency, ins) == [] && SentNonRoce(c, latency, ins) == []
  {
    if n > 0 {
      hide Filling, NextPort;
      Flooded(c, latency, rdma, n - 1);
      assert Flood(rdma, latency, n)[..n - 1] == Flood(rdma, latency, n - 1);
      var s, x := After(c, latency, Flood(rdma, latency, n - 1)), FloodBeat(rdma, latency);
      FloodPort(c, latency, n - 1, if rdma then s.roce else s.nonRoce);
      assert !ReadsRoce(s, x) && !ReadsNonRoce(s, x);
      assert After(c, latency, Flood(rdma, latency, n)) == Next(c, s, x);
    } else {
      assert After(c, latency, []) == Reset(latency);
    }
  }

  lemma {:induction false} PairSize(f: seq<Beat>, m: seq<Metadata>, inside: bool)
    ensures |Pair(f, m, inside)| <= |f|
  {
    if f != [] {
      PairSize(f[1..], if inside || m == [] then m else m[1..], !f[0].last);
    }
  }

  /** The bound is exact, on either port: a clear error bit can be trusted in every run, however
    * the age of the full flag varies up to `latency` cycles, if and only if that is no more
    * than the room left above the threshold. */
  lemma {:induction false} ErrorBitTrustworthyExactly(c: Config, latency: nat, rdma: bool)
    ensures ClearMeansExact(c, latency, rdma) <==> c.thresh + latency <= c.depth
  {
    if c.thresh + latency <= c.depth {
      forall ins: seq<In>
        ensures var s := After(c, latency, ins);
                if rdma then !s.roce.err ==> RoceExact(s, SentRoce(c, latency, ins), Offered(ins))
                else !s.nonRoce.err ==> NonRoceExact(s, SentNonRoce(c, latency, ins), Offered(ins))
      {
        RunInv(c, latency, ins);
      }
    } else {
      var ins := Flood(rdma, latency, c.depth + 1);
      Flooded(c, latency, rdma, c.depth + 1);
      FloodOffers(rdma, latency, c.depth + 1);
      var s := After(c, latency, ins);
      PairSize(s.roce.fifo, s.meta, s.roce.inside);
      assert rdma ==> !RoceExact(s, SentRoce(c, latency, ins), Offered(ins));
      assert !rdma ==> !NonRoceExact(s, SentNonRoce(c, latency, ins), Offered(ins));
    }
  }

  /** With the depth and threshold of the hardware the flag may be up to five cycles late. */
  lemma {:induction false} HardwareMargin(latency: nat, rdma: bool)
    ensures HARDWARE == Config(512, 507)
    ensures ClearMeansExact(HARDWARE, latency, rdma) <==> latency <= 5
  {
    hide ClearMeansExact;
    ErrorBitTrustworthyExactly(HARDWARE, latency, rdma);
  }

  /** The registers and FIFOs of the filter, clocked in place. */
  class Filter {
    const c: Config
    ghost const latency: nat
    var wr: WriteState
    var roce: Port
    var nonRoce: Port
    var meta: seq<Metadata>
    ghost var ins: seq<In>

    ghost predicate Valid()
      reads this
    {
      Snapshot() == After(c, latency, ins)
    }

    constructor (c: Config, latency: nat)
      ensures Valid() && this.c == c && this.latency == latency && ins == []
    {
      this.c, this.latency := c, latency;
      wr, roce, nonRoce, meta := FilterIdle, ResetPort(latency), ResetPort(latency), [];
      ins := [];
    }

    ghost function Snapshot(): State
      reads this
    {
      State(wr, roce, nonRoce, meta)
    }

    /** The write machine: what is written this cycle, and its next state. */
    method WriteMachine(i: In) returns (roceWr: bool, nonRoceWr: bool, metaWr: bool, next: WriteState)
      ensures roceWr == WritesRoce(Snapshot(), i) && nonRoceWr == WritesNonRoce(Snapshot(), i)
      ensures metaWr == WritesMeta(Snapshot(), i) && next == NextWrite(Snapshot(), i)
    {
      roceWr, nonRoceWr, metaWr, next := false, false, false, wr;
      match wr {
        case FilterIdle =>
          if i.beat.Some? {
            if i.meta.isRdma {
              metaWr, roceWr := true, true;
              next := if i.beat.value.last then FilterIdle else WriteRoce;
            } else {
              nonRoceWr := true;
              next := if i.beat.value.last then FilterIdle else WriteNonRoce;
            }
          }
        case WriteRoce =>
          if i.beat.Some? {
            roceWr := true;
            next := if i.beat.value.last then FilterIdle else WriteRoce;
          }
        case WriteNonRoce =>
          if i.beat.Some? {
            nonRoceWr := true;
            next := if i.beat.value.last then FilterIdle else WriteNonRoce;
          }
      }
    }

    /** The two read machines: what is read this cycle. */
    method ReadMachines(i: In) returns (roceRd: bool, metaRd: bool, nonRoceRd: bool)
      ensures roceRd == ReadsRoce(Snapshot(), i) && metaRd == ReadsMeta(Snapshot(), i)
      ensures nonRoceRd == ReadsNonRoce(Snapshot(), i)
    {
      roceRd, metaRd := false, false;
      if roce.inside {
        roceRd := i.roceReady && roce.fifo != [];
      } else if i.roceReady && meta != [] && roce.fifo != [] {
        roceRd, metaRd := true, true;
      }
      nonRoceRd := i.nonRoceReady && nonRoce.fifo != [];
    }

    /** One rising edge: the write machine, both read machines, then the three FIFOs. */
    method Clock(i: In) returns (o: Out)
      requires Valid()
      modifies this
      ensures Valid() && ins == old(ins) + [i]
      ensures o == Outputs(After(c, latency, old(ins)), i)
    {
      hide WritesRoce, WritesNonRoce, WritesMeta, NextWrite, NextPort, Queue;
      assert (ins + [i])[..|ins|] == ins;
      var roceWr, nonRoceWr, metaWr, next := WriteMachine(i);
      var roceRd, metaRd, nonRoceRd := ReadMachines(i);
      o := Out(if roceRd then Some(roce.fifo[0]) else None,
               if metaRd then Some(meta[0]) else None,
               if nonRoceRd then Some(nonRoce.fifo[0]) else None);
      roce := NextPort(c, roce, roceRd, Pushed(roceWr, i), i.roceLag);
      nonRoce := NextPort(c, nonRoce, nonRoceRd, Pushed(nonRoceWr, i), i.nonRoceLag);
      meta := Queue(meta, c.depth, metaRd, if metaWr then Some(i.meta) else None);
      wr := next;
      ins := ins + [i];
    }
  }
}
