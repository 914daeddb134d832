/** The input buffer of the shell and the register that strobes the metadata, and the packets
  * the parser gathers from what they give it. */
module InputBuffer {
  import opened Basics

  // -------- input buffer and metadata strobe --------

  /** The input FIFO and the register that is high between packets; sent and accepted are
    * history: what went to the parser, with its strobe, and what the buffer took in. */
  datatype Buffer = Buffer(fifo: seq<Beat>, between: bool, sent: seq<(Beat, bool)>, accepted: seq<Beat>)

  datatype Pins = Pins(rx: Option<Beat>, parserReady: bool)

  const EMPTY := Buffer([], true, [], [])

  /** One cycle: the buffer takes a beat when it is not full and gives one when the parser
    * is ready; the metadata strobe is the register in a cycle that gives a beat. */
  function BufferStep(depth: nat, s: Buffer, i: Pins): Buffer {
    var wr := i.rx.Some? && |s.fifo| < depth;
    var rd := i.parserReady && s.fifo != [];
    Buffer((if rd then s.fifo[1..] else s.fifo) + (if wr then [i.rx.value] else []),
           if rd then s.fifo[0].last else s.between,
           s.sent + (if rd then [(s.fifo[0], s.between)] else []),
           s.accepted + (if wr then [i.rx.value] else []))
  }

  function BufferRun(depth: nat, ins: seq<Pins>): Buffer {
    if ins == [] then EMPTY else BufferStep(depth, BufferRun(depth, ins[..|ins| - 1]), ins[|ins| - 1])
  }

  predicate StartsPacket(bs: seq<Beat>, i: nat)
    requires i < |bs|
  {
    i == 0 || bs[i - 1].last
  }

  ghost predicate BufferExact(s: Buffer) {
    && |s.sent| <= |s.accepted|
    && (forall k :: 0 <= k < |s.sent| ==> s.sent[k] == (s.accepted[k], StartsPacket(s.accepted, k)))
    && s.fifo == s.accepted[|s.sent|..]
    && s.between == (s.sent == [] || s.accepted[|s.sent| - 1].last)
  }

  lemma {:induction false} BufferStepExact(depth: nat, s: Buffer, i: Pins)
    requires BufferExact(s)
    ensures BufferExact(BufferStep(depth, s, i))
  {
    hide BufferExact, BufferTake, BufferGive;
    BufferStepIs(depth, s, i);
    var more := if i.rx.Some? && |s.fifo| < depth then [i.rx.value] else [];
    BufferTakes(s, more);
    if i.parserReady && s.fifo != [] {
      BufferGives(BufferTake(s, more));
    }
  }

  /** A cycle takes in first and gives out then; the two do not disturb each other. */
  lemma {:induction false} BufferStepIs(depth: nat, s: Buffer, i: Pins)
    ensures var s1 := BufferTake(s, if i.rx.Some? && |s.fifo| < depth then [i.rx.value] else []);
            if i.parserReady && s.fifo != [] then s1.fifo != [] && BufferStep(depth, s, i) == BufferGive(s1)
            else BufferStep(depth, s, i) == s1
  {
    var more := if i.rx.Some? && |s.fifo| < depth then [i.rx.value] else [];
    if s.fifo != [] {
      assert (s.fifo + more)[0] == s.fifo[0] && (s.fifo + more)[1..] == s.fifo[1..] + more;
    }
    assert s.sent + [] == s.sent;
  }

  function BufferGive(s: Buffer): Buffer
    requires s.fifo != []
  {
    Buffer(s.fifo[1..], s.fifo[0].last, s.sent + [(s.fifo[0], s.between)], s.accepted)
  }

  function BufferTake(s: Buffer, more: seq<Beat>): Buffer {
    s.(fifo := s.fifo + more, accepted := s.accepted + more)
  }

  lemma {:induction false} BufferTakes(s: Buffer, more: seq<Beat>)
    requires BufferExact(s)
    ensures BufferExact(BufferTake(s, more))
  {
    var a := s.accepted + more;
    assert a[|s.sent|..] == s.accepted[|s.sent|..] + more;
    forall k | 0 <= k < |s.sent| ensures s.sent[k] == (a[k], StartsPacket(a, k)) {
      assert a[k] == s.accepted[k] && (k > 0 ==> a[k - 1] == s.accepted[k - 1]);
    }
  }

  lemma {:induction false} BufferGives(s: Buffer)
    requires BufferExact(s) && s.fifo != []
    ensures BufferExact(BufferGive(s))
  {
    var n := |s.sent|;
    assert s.fifo[0] == s.accepted[n] && s.fifo[1..] == s.accepted[n + 1..];
    var sent := s.sent + [(s.fifo[0], s.between)];
    forall k | 0 <= k < |sent| ensures sent[k] == (s.accepted[k], StartsPacket(s.accepted, k)) {
      if k < n {
        assert sent[k] == s.sent[k];
      }
    }
  }

  /** The buffer loses and reorders nothing it accepted, and strobes the metadata with
    * exactly the first beat of each packet: one strobe per packet. */
  lemma {:induction false} StrobeOncePerPacket(depth: nat, ins: seq<Pins>)
    ensures BufferExact(BufferRun(depth, ins))
  {
    if ins != [] {
      StrobeOncePerPacket(depth, ins[..|ins| - 1]);
      BufferStepExact(depth, BufferRun(depth, ins[..|ins| - 1]), ins[|ins| - 1]);
    }
  }

  /** In every cycle of every run: a beat shown is taken in exactly if fewer than `depth` beats
    * are inside, and the next one leaves exactly if the parser is ready and one is inside. */
  lemma {:induction false} BufferMoves(depth: nat, ins: seq<Pins>, i: Pins)
    ensures var s, s' := BufferRun(depth, ins), BufferRun(depth, ins + [i]);
            && |s.sent| <= |s.accepted|
            && s'.accepted == (if i.rx.Some? && |s.accepted| - |s.sent| < depth then s.accepted + [i.rx.value]
                               else s.accepted)
            && |s'.sent| == |s.sent| + (if i.parserReady && |s.sent| < |s.accepted| then 1 else 0)
            && s.sent <= s'.sent
  {
    StrobeOncePerPacket(depth, ins);
    assert (ins + [i])[..|ins|] == ins;
    assert BufferRun(depth, ins).accepted + [] == BufferRun(depth, ins).accepted;
  }

  predicate Reading(ins: seq<Pins>) {
    forall k :: 0 <= k < |ins| ==> ins[k].rx.None? && ins[k].parserReady
  }

  /** With the parser ready and nothing arriving, one beat leaves each cycle until all have. */
  lemma {:induction false} BufferDrains(depth: nat, ins: seq<Pins>, quiet: seq<Pins>)
    requires Reading(quiet)
    ensures var s, s' := BufferRun(depth, ins), BufferRun(depth, ins + quiet);
            && |s.sent| <= |s.accepted| && s'.accepted == s.accepted
            && |s'.sent| == (if |s.sent| + |quiet| < |s.accepted| then |s.sent| + |quiet| else |s.accepted|)
            && s.sent <= s'.sent
  {
    hide BufferRun;
    if quiet == [] {
      assert ins + quiet == ins;
      BufferMoves(depth, ins, Pins(None, false));
    } else {
      var front, i := quiet[..|quiet| - 1], quiet[|quiet| - 1];
      assert ins + quiet == (ins + front) + [i];
      BufferDrains(depth, ins, front);
      BufferMoves(depth, ins + front, i);
    }
  }

  // -------- from beats to packets --------

  /** A packet on its way to the parser: its bits and the length strobed with it. */
  datatype Packet = Packet(bits: seq<bool>, len: nat)

  /** The whole packets in a stream of beats: bits up to each last flag, the length taken
    * from the first beat. `first` is the length of a packet already begun. */
  function Packets(bs: seq<Beat>, partial: seq<bool>, first: Option<nat>): seq<Packet> {
    if bs == [] then []
    else
      var len := if first.Some? then first.value else bs[0].size;
      if bs[0].last then [Packet(partial + bs[0].data, len)] + Packets(bs[1..], [], None)
      else Packets(bs[1..], partial + bs[0].data, Some(len))
  }

  function Data(bs: seq<Beat>): seq<bool> {
    if bs == [] then [] else bs[0].data + Data(bs[1..])
  }

  /** A packet ends with the first beat that carries a last flag: its bits are those of the
    * beats so far, its length the size shown with the first of them. */
  lemma {:induction false} FirstPacket(bs: seq<Beat>, n: nat)
    requires n < |bs| && bs[n].last && forall k :: 0 <= k < n ==> !bs[k].last
    ensures Packets(bs, [], None) == [Packet(Data(bs[..n + 1]), bs[0].size)] + Packets(bs[n + 1..], [], None)
  {
    PacketEnds(bs, n, [], None);
    assert [] + Data(bs[..n + 1]) == Data(bs[..n + 1]);
  }

  lemma {:induction false} PacketEnds(bs: seq<Beat>, n: nat, partial: seq<bool>, first: Option<nat>)
    requires n < |bs| && bs[n].last && forall k :: 0 <= k < n ==> !bs[k].last
    ensures Packets(bs, partial, first)
            == [Packet(partial + Data(bs[..n + 1]), if first.Some? then first.value else bs[0].size)]
               + Packets(bs[n + 1..], [], None)
    decreases n
  {
    assert bs[..n + 1][1..] == bs[1..][..n];
    if n == 0 {
      assert bs[..1][1..] == [] && bs[..1][0] == bs[0];
      assert Data(bs[..1]) == bs[0].data + [] == bs[0].data;
    } else {
      var len := if first.Some? then first.value else bs[0].size;
      PacketEnds(bs[1..], n - 1, partial + bs[0].data, Some(len));
      assert bs[1..][n..] == bs[n + 1..];
      assert partial + bs[0].data + Data(bs[1..][..n]) == partial + (bs[0].data + Data(bs[1..][..n]));
    }
  }

  /** Beats without a last flag are no packet yet. */
  lemma {:induction false} NoPacket(bs: seq<Beat>, partial: seq<bool>, first: Option<nat>)
    requires forall k :: 0 <= k < |bs| ==> !bs[k].last
    ensures Packets(bs, partial, first) == []
    decreases |bs|
  {
    if bs != [] {
      NoPacket(bs[1..], partial + bs[0].data, Some(if first.Some? then first.value else bs[0].size));
    }
  }

  /** What the parser stage gathers from the beats it takes: bits up to each last flag, the
    * length from whichever beat the metadata was strobed with. */
  function Gather(sent: seq<(Beat, bool)>, partial: seq<bool>, len: nat): seq<Packet> {
    if sent == [] then []
    else
      var (b, strobe) := sent[0];
      var len' := if strobe then b.size else len;
      if b.last then [Packet(partial + b.data, len')] + Gather(sent[1..], [], len')
      else Gather(sent[1..], partial + b.data, len')
  }

  function Strobes(sent: seq<(Beat, bool)>): nat {
    if sent == [] then 0 else (if sent[0].1 then 1 else 0) + Strobes(sent[1..])
  }

  /** The beats bs went out, each strobed when a packet boundary is before it. */
  ghost predicate StrobedAtStarts(sent: seq<(Beat, bool)>, bs: seq<Beat>, between: bool) {
    && |sent| == |bs|
    && (forall k :: 0 <= k < |sent| ==> sent[k].0 == bs[k])
    && (sent != [] ==> sent[0].1 == between)
    && (forall k :: 0 < k < |sent| ==> sent[k].1 == bs[k - 1].last)
  }

  lemma {:induction false} StartsTail(sent: seq<(Beat, bool)>, bs: seq<Beat>, between: bool)
    requires StrobedAtStarts(sent, bs, between) && bs != []
    ensures sent[0] == (bs[0], between) && StrobedAtStarts(sent[1..], bs[1..], bs[0].last)
  {
    assert |sent| > 1 ==> sent[1].1 == bs[0].last;
    forall k | 0 < k < |sent[1..]|
      ensures sent[1..][k].1 == bs[1..][k - 1].last
    {
      assert sent[1..][k] == sent[k + 1];
    }
  }

  /** Strobes at packet starts give every packet its own length, and one strobe each. */
  lemma {:induction false} GatherIsPackets(sent: seq<(Beat, bool)>, bs: seq<Beat>, between: bool, partial: seq<bool>,
                                           len: nat)
    requires StrobedAtStarts(sent, bs, between)
    ensures Gather(sent, partial, len) == Packets(bs, partial, if between then None else Some(len))
    ensures Strobes(sent) + (if between then 0 else 1)
            == |Gather(sent, partial, len)| + (if (if bs == [] then between else bs[|bs| - 1].last) then 0 else 1)
    decreases |bs|
  {
    if bs != [] {
      hide StrobedAtStarts;
      StartsTail(sent, bs, between);
      assert |bs| > 1 ==> bs[1..][|bs[1..]| - 1] == bs[|bs| - 1];
      var len' := if between then bs[0].size else len;
      assert |sent| == |bs| by { StartsLength(sent, bs, between); }
      GatherIsPackets(sent[1..], bs[1..], bs[0].last, if bs[0].last then [] else partial + bs[0].data, len');
    } else {
      StartsLength(sent, bs, between);
    }
  }

  lemma {:induction false} StartsLength(sent: seq<(Beat, bool)>, bs: seq<Beat>, between: bool)
    requires StrobedAtStarts(sent, bs, between)
    ensures |sent| == |bs|
  {
  }

  lemma {:induction false} GatherExtends(a: seq<(Beat, bool)>, b: seq<(Beat, bool)>, partial: seq<bool>, len: nat)
    ensures Gather(a, partial, len) <= Gather(a + b, partial, len)
    decreases |a|
  {
    if a != [] {
      assert (a + b)[0] == a[0] && (a + b)[1..] == a[1..] + b;
      var (beat, strobe) := a[0];
      GatherExtends(a[1..], b, if beat.last then [] else partial + beat.data, if strobe then beat.size else len);
    }
  }

  lemma {:induction false} SentAtStarts(s: Buffer)
    requires BufferExact(s)
    ensures |s.sent| <= |s.accepted| && StrobedAtStarts(s.sent, s.accepted[..|s.sent|], true)
    ensures s.between == (s.sent == [] || s.accepted[..|s.sent|][|s.sent| - 1].last)
  {
  }

  /** What has left the buffer, as packets: exactly the whole packets among the beats it took
    * in, each with its own length, and exactly one strobe for each packet begun. */
  lemma {:induction false} OneStrobePerPacket(depth: nat, pins: seq<Pins>)
    ensures var s := BufferRun(depth, pins);
            && |s.sent| <= |s.accepted|
            && Gather(s.sent, [], 0) == Packets(s.accepted[..|s.sent|], [], None)
            && Strobes(s.sent) == |Gather(s.sent, [], 0)| + (if s.between then 0 else 1)
  {
    hide BufferRun, Gather, Packets, Strobes, StrobedAtStarts, BufferExact;
    StrobeOncePerPacket(depth, pins);
    var s := BufferRun(depth, pins);
    SentAtStarts(s);
    GatherIsPackets(s.sent, s.accepted[..|s.sent|], true, [], 0);
  }

  /** The input stage of the shell, clocked in place. */
  class InputStage {
    const depth: nat
    var fifo: seq<Beat>
    var between: bool
    ghost var sent: seq<(Beat, bool)>
    ghost var accepted: seq<Beat>

    ghost function Snapshot(): Buffer
      reads this
    {
      Buffer(fifo, between, sent, accepted)
    }

    constructor (depth: nat)
      ensures Snapshot() == EMPTY && this.depth == depth
    {
      this.depth := depth;
      fifo, between, sent, accepted := [], true, [], [];
    }

    method Clock(i: Pins) returns (toParser: Option<Beat>, strobe: bool)
      modifies this
      ensures Snapshot() == BufferStep(depth, old(Snapshot()), i)
      ensures toParser.Some? <==> i.parserReady && old(fifo) != []
      ensures toParser.Some? ==> sent == old(sent) + [(toParser.value, strobe)]
      ensures strobe ==> toParser.Some?
    {
      ghost var s := Snapshot();
      var wr := i.rx.Some? && |fifo| < depth;
      var rd := i.parserReady && fifo != [];
      toParser := if rd then Some(fifo[0]) else None;
      strobe := rd && between;
      if rd {
        sent := sent + [(fifo[0], between)];
        between := fifo[0].last;
        fifo := fifo[1..];
      }
      if wr {
        fifo := fifo + [i.rx.value];
        accepted := accepted + [i.rx.value];
      }
      assert Snapshot() == BufferStep(depth, s, i);
    }
  }
}
