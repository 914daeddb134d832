/** The receive path of the shell end to end: input buffer and metadata strobe, then parser
  * and deparser packet by packet, then the filter and its two ports. */
module ReceivePath {
  import opened Basics
  import opened InputBuffer
  import PacketParser
  import opened PacketFilter
  import opened WireAcceptance

  // -------- from packets to beats --------

  const BEAT_BITS := 512

  /** The beats of a packet leaving the parser stage. The size sideband is the length on the
    * metadata bus in the same cycle and is left at zero here. */
  function Cut(bits: seq<bool>): (bs: seq<Beat>)
    ensures |bs| > 0 && bs[|bs| - 1].last
    ensures forall k :: 0 <= k < |bs| - 1 ==> !bs[k].last
    decreases |bits|
  {
    if |bits| <= BEAT_BITS then [Beat(bits, 0, true)]
    else [Beat(bits[..BEAT_BITS], 0, false)] + Cut(bits[BEAT_BITS..])
  }

  /** Put packets back together: bits gathered up to each last flag. */
  function Reassemble(bs: seq<Beat>, partial: seq<bool>): seq<seq<bool>> {
    if bs == [] then []
    else if bs[0].last then [partial + bs[0].data] + Reassemble(bs[1..], [])
    else Reassemble(bs[1..], partial + bs[0].data)
  }

  lemma {:induction false} ReassembleCut(bits: seq<bool>, partial: seq<bool>, more: seq<Beat>)
    ensures Reassemble(Cut(bits) + more, partial) == [partial + bits] + Reassemble(more, [])
    decreases |bits|
  {
    var bs := Cut(bits) + more;
    if |bits| <= BEAT_BITS {
      assert bs[1..] == more;
    } else {
      assert bs[1..] == Cut(bits[BEAT_BITS..]) + more;
      ReassembleCut(bits[BEAT_BITS..], partial + bits[..BEAT_BITS], more);
      assert partial + bits[..BEAT_BITS] + bits[BEAT_BITS..] == partial + bits;
    }
  }

  lemma {:induction false} ReassembleAppend(a: seq<Beat>, b: seq<Beat>, partial: seq<bool>)
    requires a != [] && a[|a| - 1].last
    ensures Reassemble(a + b, partial) == Reassemble(a, partial) + Reassemble(b, [])
  {
    assert (a + b)[1..] == a[1..] + b;
    if |a| == 1 {
      assert a[1..] + b == b;
    } else {
      ReassembleAppend(a[1..], b, if a[0].last then [] else partial + a[0].data);
    }
  }

  /** Beats without a last flag complete no packet. */
  lemma {:induction false} ReassembleOpen(bs: seq<Beat>, partial: seq<bool>)
    requires forall k :: 0 <= k < |bs| ==> !bs[k].last
    ensures Reassemble(bs, partial) == []
  {
    if bs != [] {
      ReassembleOpen(bs[1..], partial + bs[0].data);
    }
  }

  lemma {:induction false} OneMoreCut(a: seq<Beat>, bits: seq<bool>)
    requires a == [] || a[|a| - 1].last
    ensures (a + Cut(bits))[|a + Cut(bits)| - 1].last
    ensures Reassemble(a + Cut(bits), []) == Reassemble(a, []) + [bits]
  {
    hide Cut;
    var cut := Cut(bits);
    ReassembleCut(bits, [], []);
    assert cut + [] == cut && [] + bits == bits;
    if a == [] {
      assert a + cut == cut;
    } else {
      ReassembleAppend(a, cut, []);
    }
  }

  lemma {:induction false} OpenCut(a: seq<Beat>, open: seq<Beat>)
    requires a == [] || a[|a| - 1].last
    requires forall k :: 0 <= k < |open| ==> !open[k].last
    ensures Reassemble(a + open, []) == Reassemble(a, [])
  {
    ReassembleOpen(open, []);
    if a == [] {
      assert a + open == open;
    } else {
      ReassembleAppend(a, open, []);
    }
  }

  function Bare(bs: seq<Beat>): (s: seq<Beat>)
    ensures |s| == |bs|
  {
    seq(|bs|, i requires 0 <= i < |bs| => Beat(bs[i].data, 0, bs[i].last))
  }

  lemma {:induction false} ReassembleBare(bs: seq<Beat>, partial: seq<bool>)
    ensures Reassemble(Bare(bs), partial) == Reassemble(bs, partial)
  {
    if bs != [] {
      assert Bare(bs)[1..] == Bare(bs[1..]);
      ReassembleBare(bs[1..], if bs[0].last then [] else partial + bs[0].data);
    }
  }

  // -------- the parser stage, packet by packet --------

  predicate Accepted(p: Packet) {
    PacketParser.Parse(p.bits).Accepted?
  }

  /** The metadata the parser stage hands to the filter with packet p. */
  function MetaOf(p: Packet): Metadata
    requires Accepted(p)
  {
    PacketParser.ClassifiesExactly(p.bits, InputMeta(p));
    PacketParser.Forward(PacketParser.Parse(p.bits).hdr, InputMeta(p))
  }

  // Only the length is driven at the input.
  function InputMeta(p: Packet): Metadata {
    Metadata(0, 0, 0, 0, 0, 0, p.len, 0, 0, 0, 0, 0, false)
  }

  /** UDP over IP whose base transport header asks for a reliable connection. */
  predicate RoceClass(p: Packet)
    requires Accepted(p)
  {
    var h := PacketParser.Parse(p.bits).hdr;
    h.udp.Some? && h.bth.Some? && h.bth.value.connType == 0
  }

  /** The parser stage takes a packet, and marks it with its length and with what its bits
    * call for, as the bits alone say. */
  lemma {:induction false} MetaOfPacket(p: Packet)
    ensures Accepted(p) <==> WireError(p.bits).None?
    ensures Accepted(p) ==>
              && MetaOf(p).pktlen == p.len && MetaOf(p).index == 0
              && MetaOf(p) == WireMeta(p.bits, p.len)
              && (MetaOf(p).isRdma <==> RoceClass(p)) && (RoceClass(p) <==> RdmaOnWire(p.bits))
  {
    hide PacketParser.Parse, PacketParser.Forward, WireError, WireMeta, RdmaOnWire;
    ErrorFromWire(p.bits);
    if Accepted(p) {
      PacketParser.ClassifiesExactly(p.bits, InputMeta(p));
      AllMetadataFromWire(p.bits, InputMeta(p));
      RdmaInMeta(p.bits, p.len);
    }
  }

  /** What leaves the parser stage for packet p: its deparsed headers and its payload. */
  function Emitted(p: Packet): seq<bool>
    requires Accepted(p)
  {
    var r := PacketParser.Parse(p.bits);
    PacketParser.Deparse(r.hdr) + r.rest
  }

  lemma {:induction false} EmittedIntact(p: Packet)
    requires Accepted(p)
    ensures Emitted(p) == p.bits
  {
    hide PacketParser.Parse, PacketParser.Deparse, PacketParser.WellFormed;
    PacketParser.ParseSound(p.bits);
  }

  // The packets the parser accepts.
  ghost predicate AllAccepted(ps: seq<Packet>) {
    forall p :: p in ps ==> Accepted(p)
  }

  function Kept(ps: seq<Packet>): (r: seq<Packet>)
    ensures AllAccepted(r)
  {
    if ps == [] then []
    else
      var p := ps[|ps| - 1];
      Kept(ps[..|ps| - 1]) + (if Accepted(p) then [p] else [])
  }

  lemma {:induction false} KeptExtends(a: seq<Packet>, b: seq<Packet>)
    requires a <= b
    ensures Kept(a) <= Kept(b)
    decreases |b|
  {
    hide Accepted;
    if |a| < |b| {
      assert a <= b[..|b| - 1];
      KeptExtends(a, b[..|b| - 1]);
    } else {
      assert a == b;
    }
  }

  lemma {:induction false} KeptAll(ps: seq<Packet>)
    requires AllAccepted(ps)
    ensures Kept(ps) == ps
  {
    hide Accepted;
    if ps != [] {
      var front, p := ps[..|ps| - 1], ps[|ps| - 1];
      assert ps == front + [p];
      KeptAll(front);
    }
  }

  /** The beats of one packet, the first one carrying its metadata. */
  function TagCut(cut: seq<Beat>, m: Metadata, n: nat): (t: seq<Tagged>)
    requires n <= |cut|
    ensures |t| == n
  {
    if n == 0 then [] else TagCut(cut, m, n - 1) + [(cut[n - 1], if n == 1 then Some(m) else None)]
  }

  lemma {:induction false} TagCutStep(cut: seq<Beat>, m: Metadata, n: nat)
    requires 0 < n <= |cut|
    ensures TagCut(cut, m, n) == TagCut(cut, m, n - 1) + [(cut[n - 1], if n == 1 then Some(m) else None)]
  {
  }

  lemma {:induction false} TagCutAt(cut: seq<Beat>, m: Metadata, n: nat, j: nat)
    requires j < n <= |cut|
    ensures TagCut(cut, m, n)[j] == (cut[j], if j == 0 then Some(m) else None)
  {
    if j < n - 1 {
      TagCutAt(cut, m, n - 1, j);
    }
  }

  function CutOf(p: Packet): (bs: seq<Beat>)
    requires Accepted(p)
    ensures |bs| > 0 && bs[|bs| - 1].last
    ensures forall k :: 0 <= k < |bs| - 1 ==> !bs[k].last
  {
    Cut(Emitted(p))
  }

  /** Everything the parser stage offers for the packets ps, in order. */
  function StreamOf(ps: seq<Packet>): seq<Tagged>
    requires AllAccepted(ps)
  {
    if ps == [] then []
    else
      var p := ps[|ps| - 1];
      StreamOf(ps[..|ps| - 1]) + TagCut(CutOf(p), MetaOf(p), |CutOf(p)|)
  }

  lemma {:induction false} StreamExtends(a: seq<Packet>, b: seq<Packet>)
    requires AllAccepted(b) && a <= b
    ensures AllAccepted(a) && StreamOf(a) <= StreamOf(b)
    decreases |b|
  {
    hide Accepted, CutOf, MetaOf, TagCut;
    if |a| < |b| {
      assert a <= b[..|b| - 1];
      StreamExtends(a, b[..|b| - 1]);
    } else {
      assert a == b;
    }
  }

  /** The beats offered so far are the first beats of the stream for ps, however far the last
    * packet has got; first beats come beside their packet's metadata, and on other beats the
    * metadata bus may hold anything. */
  ghost predicate Carries(bs: seq<Offer>, ps: seq<Packet>)
    requires AllAccepted(ps)
  {
    Follows(bs, StreamOf(ps))
  }

  ghost predicate Follows(bs: seq<Offer>, stream: seq<Tagged>) {
    && |bs| <= |stream|
    && forall j :: 0 <= j < |bs| ==>
         && bs[j].0.data == stream[j].0.data && bs[j].0.last == stream[j].0.last
         && (stream[j].1.Some? ==> bs[j].1 == stream[j].1.value)
  }

  /** How many packets are wholly among the first n beats of the stream. */
  function Whole(ps: seq<Packet>, n: nat): (k: nat)
    requires AllAccepted(ps)
    ensures k <= |ps|
  {
    if n >= |StreamOf(ps)| then |ps| else Whole(ps[..|ps| - 1], n)
  }

  /** How many packets have their first beat among the first n. */
  function Started(ps: seq<Packet>, n: nat): (k: nat)
    requires AllAccepted(ps)
    ensures k <= |ps|
  {
    if ps == [] then 0
    else if n <= |StreamOf(ps[..|ps| - 1])| then Started(ps[..|ps| - 1], n)
    else |ps|
  }

  function CutAll(ps: seq<Packet>, rdma: bool): seq<Beat>
    requires AllAccepted(ps)
  {
    if ps == [] then []
    else
      var p := ps[|ps| - 1];
      CutAll(ps[..|ps| - 1], rdma) + (if MetaOf(p).isRdma == rdma then CutOf(p) else [])
  }

  /** The beats of one class among the first n of the stream. */
  function Upto(ps: seq<Packet>, n: nat, rdma: bool): seq<Beat>
    requires AllAccepted(ps) && n <= |StreamOf(ps)|
  {
    if ps == [] then []
    else
      var p, front := ps[|ps| - 1], ps[..|ps| - 1];
      var before := |StreamOf(front)|;
      if n <= before then Upto(front, n, rdma)
      else Upto(front, before, rdma) + (if MetaOf(p).isRdma == rdma then CutOf(p)[..n - before] else [])
  }

  /** The packets of one class, bit for bit as they arrived. */
  function Selected(ps: seq<Packet>, rdma: bool): seq<seq<bool>>
    requires AllAccepted(ps)
  {
    if ps == [] then []
    else
      var p := ps[|ps| - 1];
      Selected(ps[..|ps| - 1], rdma) + (if MetaOf(p).isRdma == rdma then [p.bits] else [])
  }

  /** The packets of one class, which their own bits tell. */
  function OfClass(ps: seq<Packet>, rdma: bool): seq<Packet> {
    if ps == [] then []
    else
      var p := ps[|ps| - 1];
      OfClass(ps[..|ps| - 1], rdma) + (if RdmaOnWire(p.bits) == rdma then [p] else [])
  }

  /** Bit for bit the packets ps. */
  ghost predicate SameBits(rs: seq<seq<bool>>, ps: seq<Packet>) {
    |rs| == |ps| && forall k :: 0 <= k < |rs| ==> rs[k] == ps[k].bits
  }

  /** One metadata record for each of the packets ps: its length, index 0, the rest from its bits. */
  ghost predicate Describes(ms: seq<Metadata>, ps: seq<Packet>) {
    && |ms| == |ps|
    && forall k :: 0 <= k < |ms| ==>
         ms[k].pktlen == ps[k].len && ms[k].index == 0 && ms[k] == WireMeta(ps[k].bits, ps[k].len)
  }

  lemma {:induction false} SelectedAre(ps: seq<Packet>, rdma: bool)
    requires AllAccepted(ps)
    ensures SameBits(Selected(ps, rdma), OfClass(ps, rdma))
  {
    hide Accepted, MetaOf, RdmaOnWire, WireError, WireMeta, RoceClass;
    if ps != [] {
      SelectedAre(ps[..|ps| - 1], rdma);
      MetaOfPacket(ps[|ps| - 1]);
    }
  }

  lemma {:induction false} MetasDescribe(ps: seq<Packet>)
    requires AllAccepted(ps)
    ensures Describes(RdmaMetas(ps), OfClass(ps, true))
  {
    hide Accepted, MetaOf, RdmaOnWire, WireError, WireMeta, RoceClass;
    if ps != [] {
      MetasDescribe(ps[..|ps| - 1]);
      MetaOfPacket(ps[|ps| - 1]);
    }
  }

  /** The metadata of the RDMA packets, in order. */
  function RdmaMetas(ps: seq<Packet>): seq<Metadata>
    requires AllAccepted(ps)
  {
    if ps == [] then []
    else
      var p := ps[|ps| - 1];
      RdmaMetas(ps[..|ps| - 1]) + (if MetaOf(p).isRdma then [MetaOf(p)] else [])
  }

  function Strobed(ts: seq<Tagged>): seq<Metadata> {
    if ts == [] then []
    else
      var t := ts[|ts| - 1];
      Strobed(ts[..|ts| - 1]) + (if t.1.Some? then [t.1.value] else [])
  }

  // -------- what the filter makes of the beats of a packet --------

  lemma {:induction false} FirstBounded(bs: seq<Offer>, i: nat, k: nat)
    requires k <= i < |bs| && (k == 0 || bs[k - 1].0.last)
    requires forall j :: k <= j < i ==> !bs[j].0.last
    ensures First(bs, i) == k
  {
    if k < i {
      FirstBounded(bs, i - 1, k);
    }
  }

  /** The offers from k on are the beats of one packet, behind a packet boundary. */
  ghost predicate PacketAt(bs: seq<Offer>, k: nat, cut: seq<Beat>) {
    && cut != [] && k + |cut| == |bs| && (k == 0 || bs[k - 1].0.last)
    && (forall j :: k <= j < |bs| ==> bs[j].0 == cut[j - k])
    && (forall j :: 0 <= j < |cut| - 1 ==> !cut[j].last)
  }

  lemma {:induction false} NextBeat(bs: seq<Offer>, k: nat, cut: seq<Beat>, i: nat)
    requires PacketAt(bs, k, cut) && k <= i < |bs|
    ensures RdmaBeats(bs, i + 1) == RdmaBeats(bs, i) +
              (if bs[k].1.isRdma then [(cut[i - k], if i == k then Some(bs[k].1) else None)] else [])
    ensures NonRdmaBeats(bs, i + 1) == NonRdmaBeats(bs, i) + (if bs[k].1.isRdma then [] else [cut[i - k]])
  {
    FirstBounded(bs, i, k);
  }

  lemma {:induction false} PacketAtSize(bs: seq<Offer>, k: nat, cut: seq<Beat>)
    requires PacketAt(bs, k, cut)
    ensures k + |cut| == |bs| && |cut| > 0
  {
  }

  lemma {:induction false} NoTags(cut: seq<Beat>, m: Metadata)
    ensures TagCut(cut, m, 0) == []
  {
  }

  lemma {:induction false} RdmaPacket(bs: seq<Offer>, k: nat, cut: seq<Beat>, n: nat)
    requires PacketAt(bs, k, cut) && n <= |cut| && bs[k].1.isRdma
    ensures RdmaBeats(bs, k + n) == RdmaBeats(bs, k) + TagCut(cut, bs[k].1, n)
    ensures NonRdmaBeats(bs, k + n) == NonRdmaBeats(bs, k)
  {
    hide *;
    PacketAtSize(bs, k, cut);
    if n == 0 {
      NoTags(cut, bs[k].1);
    } else {
      RdmaPacket(bs, k, cut, n - 1);
      NextBeat(bs, k, cut, k + n - 1);
      TagCutStep(cut, bs[k].1, n);
      Regroup(RdmaBeats(bs, k), TagCut(cut, bs[k].1, n - 1),
            [(cut[n - 1], if n == 1 then Some(bs[k].1) else None)]);
    }
  }

  lemma {:induction false} NonRdmaPacket(bs: seq<Offer>, k: nat, cut: seq<Beat>, n: nat)
    requires PacketAt(bs, k, cut) && n <= |cut| && !bs[k].1.isRdma
    ensures NonRdmaBeats(bs, k + n) == NonRdmaBeats(bs, k) + cut[..n]
    ensures RdmaBeats(bs, k + n) == RdmaBeats(bs, k)
  {
    hide *;
    PacketAtSize(bs, k, cut);
    if n > 0 {
      NonRdmaPacket(bs, k, cut, n - 1);
      NextBeat(bs, k, cut, k + n - 1);
      Regroup(NonRdmaBeats(bs, k), cut[..n - 1], [cut[n - 1]]);
      assert cut[..n - 1] + [cut[n - 1]] == cut[..n];
    }
  }

  lemma {:induction false} PrefixBeats(bs: seq<Offer>, k: nat, n: nat)
    requires n <= k <= |bs|
    ensures RdmaBeats(bs[..k], n) == RdmaBeats(bs, n) && NonRdmaBeats(bs[..k], n) == NonRdmaBeats(bs, n)
  {
    if n > 0 {
      PrefixBeats(bs, k, n - 1);
      PrefixFirst(bs, k, n - 1);
    }
  }

  lemma {:induction false} PrefixFirst(bs: seq<Offer>, k: nat, i: nat)
    requires i < k <= |bs|
    ensures First(bs[..k], i) == First(bs, i)
  {
    if i > 0 && !bs[i - 1].0.last {
      PrefixFirst(bs, k, i - 1);
    }
  }

  lemma {:induction false} TagCutFacts(cut: seq<Beat>, m: Metadata, n: nat)
    requires n <= |cut|
    ensures Strip(TagCut(cut, m, n)) == cut[..n]
    ensures Strobed(TagCut(cut, m, n)) == if n == 0 then [] else [m]
  {
    if n > 0 {
      TagCutFacts(cut, m, n - 1);
      var front, t := TagCut(cut, m, n - 1), (cut[n - 1], if n == 1 then Some(m) else None);
      TagCutStep(cut, m, n);
      hide TagCut;
      StripAppend(front, [t]);
      assert cut[..n] == cut[..n - 1] + [cut[n - 1]];
      assert (front + [t])[..|front|] == front;
    }
  }

  lemma {:induction false} StrobedAppend(a: seq<Tagged>, b: seq<Tagged>)
    ensures Strobed(a + b) == Strobed(a) + Strobed(b)
  {
    if b == [] {
      assert a + b == a;
    } else {
      assert (a + b)[..|a + b| - 1] == a + b[..|b| - 1];
      StrobedAppend(a, b[..|b| - 1]);
    }
  }

  lemma {:induction false} StripAppend(a: seq<Tagged>, b: seq<Tagged>)
    ensures Strip(a + b) == Strip(a) + Strip(b)
  {
  }

  /** An RDMA packet's beats go whole to the RDMA port, strobed once with its metadata. */
  lemma {:induction false} RdmaPacketAdds(bs: seq<Offer>, k: nat, cut: seq<Beat>)
    requires PacketAt(bs, k, cut) && bs[k].1.isRdma
    ensures Strip(RdmaBeats(bs, |bs|)) == Strip(RdmaBeats(bs[..k], k)) + cut
    ensures NonRdmaBeats(bs, |bs|) == NonRdmaBeats(bs[..k], k)
    ensures Strobed(RdmaBeats(bs, |bs|)) == Strobed(RdmaBeats(bs[..k], k)) + [bs[k].1]
  {
    assert k + |cut| == |bs| && |cut| > 0 && cut[..|cut|] == cut;
    hide *;
    PrefixBeats(bs, k, k);
    var tag := TagCut(cut, bs[k].1, |cut|);
    RdmaPacket(bs, k, cut, |cut|);
    TagCutFacts(cut, bs[k].1, |cut|);
    StrobedAppend(RdmaBeats(bs, k), tag);
    StripAppend(RdmaBeats(bs, k), tag);
  }

  /** Any other packet's beats go whole to the other port, with no strobe. */
  lemma {:induction false} NonRdmaPacketAdds(bs: seq<Offer>, k: nat, cut: seq<Beat>)
    requires PacketAt(bs, k, cut) && !bs[k].1.isRdma
    ensures RdmaBeats(bs, |bs|) == RdmaBeats(bs[..k], k)
    ensures NonRdmaBeats(bs, |bs|) == NonRdmaBeats(bs[..k], k) + cut
  {
    assert k + |cut| == |bs| && |cut| > 0 && cut[..|cut|] == cut;
    hide *;
    PrefixBeats(bs, k, k);
    NonRdmaPacket(bs, k, cut, |cut|);
  }

  // -------- the stream as the ports must carry it --------

  lemma {:induction false} LastOf(ps: seq<Packet>)
    requires AllAccepted(ps) && ps != []
    ensures AllAccepted(ps[..|ps| - 1]) && Accepted(ps[|ps| - 1])
    ensures |StreamOf(ps)| == |StreamOf(ps[..|ps| - 1])| + |CutOf(ps[|ps| - 1])|
  {
    hide Accepted, MetaOf, CutOf, TagCut;
  }

  /** Beats that stay inside the packets before the last follow the shorter stream. */
  lemma {:induction false} FollowsFront(bs: seq<Offer>, ps: seq<Packet>)
    requires AllAccepted(ps) && ps != [] && Exactly(bs, StreamOf(ps))
    ensures AllAccepted(ps[..|ps| - 1])
    ensures var n := |StreamOf(ps[..|ps| - 1])|;
            if |bs| <= n then Exactly(bs, StreamOf(ps[..|ps| - 1])) else Exactly(bs[..n], StreamOf(ps[..|ps| - 1]))
  {
    hide Accepted, MetaOf, CutOf, TagCut;
    LastOf(ps);
    assert StreamOf(ps[..|ps| - 1]) <= StreamOf(ps);
  }

  // Follows, with the beats themselves equal.
  ghost predicate Exactly(bs: seq<Offer>, stream: seq<Tagged>) {
    && |bs| <= |stream|
    && forall j :: 0 <= j < |bs| ==> bs[j].0 == stream[j].0 && (stream[j].1.Some? ==> bs[j].1 == stream[j].1.value)
  }

  /** The last packet's beats so far, behind a boundary. */
  lemma {:induction false} LastPacketAt(bs: seq<Offer>, ps: seq<Packet>, k: nat)
    requires AllAccepted(ps) && ps != [] && Exactly(bs, StreamOf(ps))
    requires AllAccepted(ps[..|ps| - 1]) && k == |StreamOf(ps[..|ps| - 1])| < |bs|
    requires k == 0 || bs[k - 1].0.last
    ensures Accepted(ps[|ps| - 1]) && |bs| - k <= |CutOf(ps[|ps| - 1])|
    ensures PacketAt(bs, k, CutOf(ps[|ps| - 1])[..|bs| - k]) && bs[k].1 == MetaOf(ps[|ps| - 1])
  {
    hide Accepted, MetaOf, CutOf, TagCut;
    LastOf(ps);
    var p := ps[|ps| - 1];
    var cut := CutOf(p);
    var tags := TagCut(cut, MetaOf(p), |cut|);
    forall j | k <= j < |bs| ensures bs[j].0 == cut[..|bs| - k][j - k] {
      assert StreamOf(ps)[j] == tags[j - k];
      TagCutAt(cut, MetaOf(p), |cut|, j - k);
    }
    assert StreamOf(ps)[k] == tags[0];
    TagCutAt(cut, MetaOf(p), |cut|, 0);
  }

  lemma {:induction false} StartedAll(ps: seq<Packet>)
    requires AllAccepted(ps)
    ensures Started(ps, |StreamOf(ps)|) == |ps|
  {
    hide Accepted, CutOf, StreamOf;
    if ps != [] {
      LastOf(ps);
    }
  }

  /** The filter's reference sequences for any stretch of the stream, ending where it may:
    * the beats of each class, and one strobe for each RDMA packet begun. */
  lemma {:induction false} CarriedBeats(bs: seq<Offer>, ps: seq<Packet>)
    requires AllAccepted(ps) && Exactly(bs, StreamOf(ps))
    ensures |bs| == |StreamOf(ps)| ==> bs == [] || bs[|bs| - 1].0.last
    ensures Strip(RdmaBeats(bs, |bs|)) == Upto(ps, |bs|, true)
    ensures NonRdmaBeats(bs, |bs|) == Upto(ps, |bs|, false)
    ensures Strobed(RdmaBeats(bs, |bs|)) == RdmaMetas(ps[..Started(ps, |bs|)])
    decreases |ps|
  {
    hide Accepted, MetaOf, CutOf, RdmaBeats, NonRdmaBeats, Strip, Strobed, Exactly, PacketAt;
    ExactlyBound(bs, StreamOf(ps));
    if ps == [] {
      NothingCarried(bs);
    } else {
      var p, front := ps[|ps| - 1], ps[..|ps| - 1];
      FollowsFront(bs, ps);
      LastOf(ps);
      var k := |StreamOf(front)|;
      hide StreamOf;
      if |bs| <= k {
        CarriedBeats(bs, front);
        assert ps[..Started(front, |bs|)] == front[..Started(front, |bs|)];
      } else {
        CarriedBeats(bs[..k], front);
        StartedAll(front);
        assert front[..|front|] == front && ps[..|ps|] == ps;
        LastPacketAt(bs, ps, k);
        CarriedLast(bs, ps, k);
      }
    }
  }

  lemma {:induction false} ExactlyBound(bs: seq<Offer>, stream: seq<Tagged>)
    requires Exactly(bs, stream)
    ensures |bs| <= |stream|
  {
  }

  lemma {:induction false} NothingCarried(bs: seq<Offer>)
    requires bs == []
    ensures Strip(RdmaBeats(bs, 0)) == [] && NonRdmaBeats(bs, 0) == [] && Strobed(RdmaBeats(bs, 0)) == []
  {
  }

  /** The step of the induction: a packet that has begun behind whole ones. */
  lemma {:induction false} CarriedLast(bs: seq<Offer>, ps: seq<Packet>, k: nat)
    requires AllAccepted(ps) && ps != [] && AllAccepted(ps[..|ps| - 1]) && Accepted(ps[|ps| - 1])
    requires k == |StreamOf(ps[..|ps| - 1])| < |bs| <= |StreamOf(ps)| && |bs| - k <= |CutOf(ps[|ps| - 1])|
    requires PacketAt(bs, k, CutOf(ps[|ps| - 1])[..|bs| - k]) && bs[k].1 == MetaOf(ps[|ps| - 1])
    requires Strip(RdmaBeats(bs[..k], k)) == Upto(ps[..|ps| - 1], k, true)
    requires NonRdmaBeats(bs[..k], k) == Upto(ps[..|ps| - 1], k, false)
    requires Strobed(RdmaBeats(bs[..k], k)) == RdmaMetas(ps[..|ps| - 1])
    ensures |bs| == |StreamOf(ps)| ==> bs[|bs| - 1].0.last
    ensures Strip(RdmaBeats(bs, |bs|)) == Upto(ps, |bs|, true)
    ensures NonRdmaBeats(bs, |bs|) == Upto(ps, |bs|, false)
    ensures Strobed(RdmaBeats(bs, |bs|)) == RdmaMetas(ps)
  {
    hide Accepted, MetaOf, CutOf, RdmaBeats, NonRdmaBeats, Strip, Strobed, PacketAt, StreamOf;
    var p := ps[|ps| - 1];
    var cut := CutOf(p)[..|bs| - k];
    LastOf(ps);
    LastBeat(bs, k, cut);
    if MetaOf(p).isRdma {
      RdmaPacketAdds(bs, k, cut);
    } else {
      NonRdmaPacketAdds(bs, k, cut);
    }
  }

  lemma {:induction false} LastBeat(bs: seq<Offer>, k: nat, cut: seq<Beat>)
    requires PacketAt(bs, k, cut)
    ensures |bs| > 0 && |cut| > 0 && bs[|bs| - 1].0 == cut[|cut| - 1]
  {
  }

  /** The beats of one class, put together, are its whole packets, bit for bit; they are a
    * prefix of all the beats of the class. */
  lemma {:induction false} ReassembleAll(ps: seq<Packet>, n: nat, rdma: bool)
    requires AllAccepted(ps) && n <= |StreamOf(ps)|
    ensures n == |StreamOf(ps)| ==>
              var bs := Upto(ps, n, rdma); bs == CutAll(ps, rdma) && (bs == [] || bs[|bs| - 1].last)
    ensures Upto(ps, n, rdma) <= CutAll(ps, rdma)
    ensures Reassemble(Upto(ps, n, rdma), []) == Selected(ps[..Whole(ps, n)], rdma)
    decreases |ps|
  {
    hide Accepted, MetaOf, CutOf, StreamOf, Upto, CutAll, Selected, Whole, Reassemble;
    if ps == [] {
      NothingSelected(ps, n, rdma);
    } else {
      var front := ps[..|ps| - 1];
      LastOf(ps);
      var before := |StreamOf(front)|;
      if n <= before {
        ReassembleAll(front, n, rdma);
        FrontOnly(ps, n, rdma);
      } else {
        ReassembleAll(front, before, rdma);
        WholeAll(front);
        assert front[..|front|] == front;
        ReassembleLast(ps, n, rdma);
      }
    }
  }

  lemma {:induction false} NothingSelected(ps: seq<Packet>, n: nat, rdma: bool)
    requires AllAccepted(ps) && ps == [] && n <= |StreamOf(ps)|
    ensures n == 0 && Upto(ps, n, rdma) == CutAll(ps, rdma) == [] && ps[..Whole(ps, n)] == []
    ensures Reassemble([], []) == Selected([], rdma)
  {
  }

  lemma {:induction false} WholeAll(ps: seq<Packet>)
    requires AllAccepted(ps)
    ensures Whole(ps, |StreamOf(ps)|) == |ps|
  {
    hide StreamOf, Accepted;
  }

  /** Inside the packets before the last, the last one does not matter. */
  lemma {:induction false} FrontOnly(ps: seq<Packet>, n: nat, rdma: bool)
    requires AllAccepted(ps) && ps != [] && AllAccepted(ps[..|ps| - 1])
    requires n <= |StreamOf(ps[..|ps| - 1])| < |StreamOf(ps)|
    ensures Upto(ps, n, rdma) == Upto(ps[..|ps| - 1], n, rdma) && CutAll(ps[..|ps| - 1], rdma) <= CutAll(ps, rdma)
    ensures Whole(ps, n) == Whole(ps[..|ps| - 1], n)
    ensures ps[..Whole(ps, n)] == ps[..|ps| - 1][..Whole(ps[..|ps| - 1], n)]
  {
    hide StreamOf, Accepted, MetaOf, CutOf;
  }

  /** What the last packet adds once it has begun: nothing to the other class, its bits when
    * it is whole, no packet before that. */
  lemma {:induction false} LastAdds(bs: seq<Beat>, p: Packet, got: nat)
    requires Accepted(p) && 0 < got <= |CutOf(p)| && (bs == [] || bs[|bs| - 1].last)
    ensures bs + CutOf(p)[..got] <= bs + CutOf(p)
    ensures got == |CutOf(p)| ==> bs + CutOf(p)[..got] == bs + CutOf(p) && (bs + CutOf(p))[|bs + CutOf(p)| - 1].last
    ensures Reassemble(bs + CutOf(p)[..got], []) == Reassemble(bs, []) + (if got == |CutOf(p)| then [p.bits] else [])
  {
    hide Accepted, CutOf, Reassemble;
    var cut := CutOf(p);
    if got == |cut| {
      assert cut[..got] == cut;
      CutIsEmitted(p);
      OneMoreCut(bs, p.bits);
    } else {
      OpenCut(bs, cut[..got]);
      NoPackets(Reassemble(bs, []));
    }
  }

  lemma {:induction false} NoPackets(a: seq<seq<bool>>)
    ensures a + [] == a
  {
  }

  lemma {:induction false} ReassembleLast(ps: seq<Packet>, n: nat, rdma: bool)
    requires AllAccepted(ps) && ps != [] && AllAccepted(ps[..|ps| - 1]) && Accepted(ps[|ps| - 1])
    requires |StreamOf(ps[..|ps| - 1])| < n <= |StreamOf(ps)|
    requires |StreamOf(ps)| == |StreamOf(ps[..|ps| - 1])| + |CutOf(ps[|ps| - 1])|
    requires var bs := CutAll(ps[..|ps| - 1], rdma);
             && Upto(ps[..|ps| - 1], |StreamOf(ps[..|ps| - 1])|, rdma) == bs && (bs == [] || bs[|bs| - 1].last)
             && Reassemble(bs, []) == Selected(ps[..|ps| - 1], rdma)
    ensures n == |StreamOf(ps)| ==>
              var bs := Upto(ps, n, rdma); bs == CutAll(ps, rdma) && (bs == [] || bs[|bs| - 1].last)
    ensures Upto(ps, n, rdma) <= CutAll(ps, rdma)
    ensures Reassemble(Upto(ps, n, rdma), []) == Selected(ps[..Whole(ps, n)], rdma)
  {
    hide Accepted, MetaOf, CutOf, StreamOf, Reassemble, Selected, CutAll, Upto;
    var p, front := ps[|ps| - 1], ps[..|ps| - 1];
    var got := n - |StreamOf(front)|;
    WholeLast(ps, n);
    UptoLast(ps, n, rdma);
    if MetaOf(p).isRdma == rdma {
      LastAdds(CutAll(front, rdma), p, got);
    }
  }

  lemma {:induction false} WholeLast(ps: seq<Packet>, n: nat)
    requires AllAccepted(ps) && ps != [] && AllAccepted(ps[..|ps| - 1])
    requires |StreamOf(ps[..|ps| - 1])| < n <= |StreamOf(ps)|
    ensures ps[..Whole(ps, n)] == if n == |StreamOf(ps)| then ps else ps[..|ps| - 1]
  {
    hide StreamOf, Accepted;
  }

  lemma {:induction false} UptoLast(ps: seq<Packet>, n: nat, rdma: bool)
    requires AllAccepted(ps) && ps != [] && AllAccepted(ps[..|ps| - 1]) && Accepted(ps[|ps| - 1])
    requires |StreamOf(ps[..|ps| - 1])| < n <= |StreamOf(ps)|
    requires |StreamOf(ps)| == |StreamOf(ps[..|ps| - 1])| + |CutOf(ps[|ps| - 1])|
    ensures var p, front := ps[|ps| - 1], ps[..|ps| - 1];
            var all, upto, k := CutAll(front, rdma), Upto(front, |StreamOf(front)|, rdma), n - |StreamOf(front)|;
            && (MetaOf(p).isRdma == rdma ==>
                  && Upto(ps, n, rdma) == upto + CutOf(p)[..k] && CutAll(ps, rdma) == all + CutOf(p)
                  && Selected(ps, rdma) == Selected(front, rdma) + [p.bits])
            && (MetaOf(p).isRdma != rdma ==>
                  && Upto(ps, n, rdma) == upto && CutAll(ps, rdma) == all
                  && Selected(ps, rdma) == Selected(front, rdma))
  {
    hide StreamOf, Accepted, MetaOf, CutOf;
  }

  lemma {:induction false} CutIsEmitted(p: Packet)
    requires Accepted(p)
    ensures CutOf(p) == Cut(p.bits)
  {
    EmittedIntact(p);
  }

  // -------- beats with their size sideband --------

  function BareOffers(bs: seq<Offer>): (s: seq<Offer>)
    ensures |s| == |bs|
  {
    seq(|bs|, i requires 0 <= i < |bs| => (Beat(bs[i].0.data, 0, bs[i].0.last), bs[i].1))
  }

  lemma {:induction false} BareFirst(bs: seq<Offer>, i: nat)
    requires i < |bs|
    ensures First(BareOffers(bs), i) == First(bs, i)
  {
    if i > 0 && !bs[i - 1].0.last {
      BareFirst(bs, i - 1);
    }
  }

  lemma {:induction false} BareAppend(a: seq<Beat>, b: seq<Beat>)
    ensures Bare(a + b) == Bare(a) + Bare(b)
  {
  }

  lemma {:induction false} BareBeats(bs: seq<Offer>, n: nat)
    requires n <= |bs|
    ensures Strip(RdmaBeats(BareOffers(bs), n)) == Bare(Strip(RdmaBeats(bs, n)))
    ensures Strobed(RdmaBeats(BareOffers(bs), n)) == Strobed(RdmaBeats(bs, n))
    ensures NonRdmaBeats(BareOffers(bs), n) == Bare(NonRdmaBeats(bs, n))
  {
    hide *;
    if n == 0 {
      BareNone(bs);
    } else {
      BareBeats(bs, n - 1);
      BareNext(bs, n - 1);
      BeatsNext(bs, n - 1);
      BeatsNext(BareOffers(bs), n - 1);
      var b := bs[n - 1].0;
      if IsRdma(bs, n - 1) {
        var tag := if First(bs, n - 1) == n - 1 then Some(bs[n - 1].1) else None;
        BareRdma(RdmaBeats(bs, n - 1), RdmaBeats(BareOffers(bs), n - 1), b, tag);
      } else {
        BareAppend(NonRdmaBeats(bs, n - 1), [b]);
        OneTagged(b, None);
      }
    }
  }

  lemma {:induction false} BareNone(bs: seq<Offer>)
    ensures Strip(RdmaBeats(BareOffers(bs), 0)) == Bare(Strip(RdmaBeats(bs, 0)))
    ensures RdmaBeats(BareOffers(bs), 0) == RdmaBeats(bs, 0)
    ensures NonRdmaBeats(BareOffers(bs), 0) == Bare(NonRdmaBeats(bs, 0))
  {
  }

  lemma {:induction false} BareNext(bs: seq<Offer>, i: nat)
    requires i < |bs|
    ensures First(BareOffers(bs), i) == First(bs, i) && IsRdma(BareOffers(bs), i) == IsRdma(bs, i)
    ensures BareOffers(bs)[i] == (Beat(bs[i].0.data, 0, bs[i].0.last), bs[i].1)
  {
    BareFirst(bs, i);
  }

  lemma {:induction false} BeatsNext(bs: seq<Offer>, i: nat)
    requires i < |bs|
    ensures var tag := if First(bs, i) == i then Some(bs[i].1) else None;
            && RdmaBeats(bs, i + 1) == (if IsRdma(bs, i) then RdmaBeats(bs, i) + [(bs[i].0, tag)] else RdmaBeats(bs, i))
            && NonRdmaBeats(bs, i + 1)
               == if IsRdma(bs, i) then NonRdmaBeats(bs, i) else NonRdmaBeats(bs, i) + [bs[i].0]
  {
  }

  lemma {:induction false} BareRdma(a: seq<Tagged>, a': seq<Tagged>, b: Beat, tag: Option<Metadata>)
    requires Strip(a') == Bare(Strip(a)) && Strobed(a') == Strobed(a)
    ensures Strip(a' + [(Beat(b.data, 0, b.last), tag)]) == Bare(Strip(a + [(b, tag)]))
    ensures Strobed(a' + [(Beat(b.data, 0, b.last), tag)]) == Strobed(a + [(b, tag)])
  {
    hide Strip, Strobed, Bare;
    var b' := Beat(b.data, 0, b.last);
    StripAppend(a, [(b, tag)]);
    StripAppend(a', [(b', tag)]);
    OneTagged(b, tag);
    OneTagged(b', tag);
    BareAppend(Strip(a), [b]);
    StrobedAppend(a, [(b, tag)]);
    StrobedAppend(a', [(b', tag)]);
  }

  lemma {:induction false} OneTagged(b: Beat, tag: Option<Metadata>)
    ensures Strip([(b, tag)]) == [b] && Bare([b]) == [Beat(b.data, 0, b.last)]
    ensures Strobed([(b, tag)]) == if tag.Some? then [tag.value] else []
  {
    assert [(b, tag)][..0] == [];
  }

  /** The size shown with a first beat is the length in the metadata beside it. */
  lemma {:induction false} SizesMatch(bs: seq<Offer>, n: nat)
    requires n <= |bs| && forall j :: 0 <= j < |bs| ==> bs[j].0.size == bs[j].1.pktlen
    ensures forall t :: t in RdmaBeats(bs, n) && t.1.Some? ==> t.0.size == t.1.value.pktlen
  {
    if n > 0 {
      SizesMatch(bs, n - 1);
    }
  }

  // -------- the parser stage and the filter --------

  /** Behind the parser stage: whatever stretch of the stream for ps has been offered, a port
    * whose error bit is clear carries exactly its class's part of it. */
  lemma {:induction false} StageExact(c: Config, latency: nat, ins: seq<In>, ps: seq<Packet>)
    requires c.thresh + latency <= c.depth && AllAccepted(ps) && Carries(Offered(ins), ps)
    ensures var s, n := After(c, latency, ins), |Offered(ins)|;
            var out := SentRoce(c, latency, ins) + Pair(s.roce.fifo, s.meta, s.roce.inside);
            && n <= |StreamOf(ps)|
            && (!s.roce.err ==>
                  && out == RdmaBeats(Offered(ins), n)
                  && Bare(Strip(out)) <= CutAll(ps, true)
                  && Reassemble(Strip(out), []) == Selected(ps[..Whole(ps, n)], true)
                  && Strobed(out) == RdmaMetas(ps[..Started(ps, n)]))
    ensures var s, n := After(c, latency, ins), |Offered(ins)|;
            var out := SentNonRoce(c, latency, ins) + s.nonRoce.fifo;
            && n <= |StreamOf(ps)|
            && (!s.nonRoce.err ==>
                  && Bare(out) <= CutAll(ps, false)
                  && Reassemble(out, []) == Selected(ps[..Whole(ps, n)], false))
  {
    var bs := Offered(ins);
    assert Exactly(BareOffers(bs), StreamOf(ps)) by { StreamIsBare(ps); }
    hide *;
    PortsAgree(c, latency, ins);
    ExactlyBound(BareOffers(bs), StreamOf(ps));
    CarriedBeats(BareOffers(bs), ps);
    BareBeats(bs, |bs|);
    ReassembleAll(ps, |bs|, true);
    ReassembleAll(ps, |bs|, false);
    ReassembleBare(Strip(RdmaBeats(bs, |bs|)), []);
    ReassembleBare(NonRdmaBeats(bs, |bs|), []);
  }

  /** PortsExact, port by port. */
  lemma {:induction false} PortsAgree(c: Config, latency: nat, ins: seq<In>)
    requires c.thresh + latency <= c.depth
    ensures var s, bs := After(c, latency, ins), Offered(ins);
            && (!s.roce.err ==>
                  SentRoce(c, latency, ins) + Pair(s.roce.fifo, s.meta, s.roce.inside) == RdmaBeats(bs, |bs|))
            && (!s.nonRoce.err ==> SentNonRoce(c, latency, ins) + s.nonRoce.fifo == NonRdmaBeats(bs, |bs|))
  {
    hide After, Offered, RdmaBeats, NonRdmaBeats, SentRoce, SentNonRoce, Pair;
    PortsExact(c, latency, ins);
  }

  lemma {:induction false} CutIsBare(bits: seq<bool>)
    ensures forall k :: 0 <= k < |Cut(bits)| ==> Cut(bits)[k].size == 0
    decreases |bits|
  {
    if |bits| > BEAT_BITS {
      CutIsBare(bits[BEAT_BITS..]);
    }
  }

  lemma {:induction false} TagCutIsBare(cut: seq<Beat>, m: Metadata, n: nat)
    requires n <= |cut| && forall k :: 0 <= k < |cut| ==> cut[k].size == 0
    ensures forall k :: 0 <= k < n ==> TagCut(cut, m, n)[k].0.size == 0
  {
    if n > 0 {
      TagCutIsBare(cut, m, n - 1);
    }
  }

  lemma {:induction false} StreamIsBare(ps: seq<Packet>)
    requires AllAccepted(ps)
    ensures forall j :: 0 <= j < |StreamOf(ps)| ==> StreamOf(ps)[j].0.size == 0
  {
    hide Accepted, MetaOf, Emitted, Cut, TagCut;
    if ps != [] {
      var p := ps[|ps| - 1];
      StreamIsBare(ps[..|ps| - 1]);
      CutIsBare(Emitted(p));
      TagCutIsBare(CutOf(p), MetaOf(p), |CutOf(p)|);
    }
  }

  // -------- from the input pins to both ports --------

  /** The pins and free choices of one cycle: a beat from the MAC, whether the parser takes
    * one and whether it gives one, what the metadata bus shows when the parser does not
    * drive it, the two output readies, and the age of each full flag. */
  datatype Cycle = Cycle(rx: Option<Beat>, parserReady: bool, give: bool, bus: Metadata, roceReady: bool,
                         nonRoceReady: bool, roceLag: nat, nonRoceLag: nat)

  function PinsOf(cs: seq<Cycle>): (r: seq<Pins>)
    ensures |r| == |cs|
  {
    seq(|cs|, i requires 0 <= i < |cs| => Pins(cs[i].rx, cs[i].parserReady))
  }

  /** The packets the parser has taken in whole and accepted. */
  function Taken(depth: nat, cs: seq<Cycle>): (r: seq<Packet>)
    ensures AllAccepted(r)
  {
    Kept(Gather(BufferRun(depth, PinsOf(cs)).sent, [], 0))
  }

  /** The next beat of the stream, beside its metadata if it is a first beat; the size
    * sideband is cut from the metadata bus. */
  function Given(stream: seq<Tagged>, done: nat, x: Cycle): In {
    if x.give && done < |stream| then
      var meta := if stream[done].1.Some? then stream[done].1.value else x.bus;
      In(Some(Beat(stream[done].0.data, meta.pktlen, stream[done].0.last)), meta,
         x.roceReady, x.nonRoceReady, x.roceLag, x.nonRoceLag)
    else In(None, x.bus, x.roceReady, x.nonRoceReady, x.roceLag, x.nonRoceLag)
  }

  /** What the filter sees over a run of the whole path. */
  function FilterIns(depth: nat, cs: seq<Cycle>): seq<In> {
    if cs == [] then []
    else
      var before := FilterIns(depth, cs[..|cs| - 1]);
      before + [Given(StreamOf(Taken(depth, cs[..|cs| - 1])), |Offered(before)|, cs[|cs| - 1])]
  }

  lemma {:induction false} TakenExtends(depth: nat, cs: seq<Cycle>)
    requires cs != []
    ensures Taken(depth, cs[..|cs| - 1]) <= Taken(depth, cs)
  {
    hide Accepted, Gather, Kept;
    var pins := PinsOf(cs);
    assert pins[..|pins| - 1] == PinsOf(cs[..|cs| - 1]);
    var s := BufferRun(depth, PinsOf(cs[..|cs| - 1]));
    var more := if cs[|cs| - 1].parserReady && s.fifo != [] then [(s.fifo[0], s.between)] else [];
    assert BufferRun(depth, pins).sent == s.sent + more;
    GatherExtends(s.sent, more, [], 0);
    KeptExtends(Gather(s.sent, [], 0), Gather(s.sent + more, [], 0));
  }

  lemma {:induction false} GivenFollows(bs: seq<Offer>, stream: seq<Tagged>, longer: seq<Tagged>, x: Cycle)
    requires Follows(bs, stream) && stream <= longer
    ensures Follows(bs + OfferOf(Given(stream, |bs|, x)), longer)
  {
  }

  /** In every run the beats offered to the filter are the stream of the packets taken in. */
  lemma {:induction false} RunCarries(depth: nat, cs: seq<Cycle>)
    ensures Carries(Offered(FilterIns(depth, cs)), Taken(depth, cs))
    ensures forall j :: 0 <= j < |Offered(FilterIns(depth, cs))| ==>
              Offered(FilterIns(depth, cs))[j].0.size == Offered(FilterIns(depth, cs))[j].1.pktlen
  {
    hide StreamOf, Taken, Follows;
    if cs == [] {
      assert Follows([], StreamOf(Taken(depth, cs))) by { FollowsNothing(StreamOf(Taken(depth, cs))); }
    } else {
      var front, x := cs[..|cs| - 1], cs[|cs| - 1];
      RunCarries(depth, front);
      TakenExtends(depth, cs);
      StreamExtends(Taken(depth, front), Taken(depth, cs));
      var ins, ins' := FilterIns(depth, front), FilterIns(depth, cs);
      assert ins'[..|ins'| - 1] == ins;
      GivenFollows(Offered(ins), StreamOf(Taken(depth, front)), StreamOf(Taken(depth, cs)), x);
    }
  }

  lemma {:induction false} FollowsNothing(stream: seq<Tagged>)
    ensures Follows([], stream)
  {
  }

  /** End to end, for every run of buffer, strobe register, parser stage and filter, whatever
    * arrives, however the stages are paced and wherever the run ends. The packets taken in
    * are the whole packets among the beats the buffer gave out, in order, those the parser
    * rejects left out, with one metadata strobe for each packet begun. A port whose error
    * bit is clear carries, in order and bit for bit, exactly the packets of its class; the
    * RDMA port strobes the metadata of each RDMA packet once, with its first beat, and its
    * class is UDP with connection type 0. */
  lemma {:induction false} ReceivePathExact(depth: nat, c: Config, latency: nat, cs: seq<Cycle>)
    requires c.thresh + latency <= c.depth
    ensures var buf := BufferRun(depth, PinsOf(cs));
            && |buf.sent| <= |buf.accepted|
            && var arrived := Packets(buf.accepted[..|buf.sent|], [], None);
            && Taken(depth, cs) == Kept(arrived)
            && Strobes(buf.sent) == |arrived| + (if buf.between then 0 else 1)
    ensures forall p :: p in Taken(depth, cs) ==>
              && Accepted(p) && MetaOf(p).pktlen == p.len && MetaOf(p).index == 0
              && MetaOf(p) == WireMeta(p.bits, p.len)
              && (MetaOf(p).isRdma <==> RoceClass(p)) && (RoceClass(p) <==> RdmaOnWire(p.bits))
    ensures var ps, ins := Taken(depth, cs), FilterIns(depth, cs);
            var s, n := After(c, latency, ins), |Offered(ins)|;
            var out := SentRoce(c, latency, ins) + Pair(s.roce.fifo, s.meta, s.roce.inside);
            && n <= |StreamOf(ps)|
            && (!s.roce.err ==>
                  && Bare(Strip(out)) <= CutAll(ps, true)
                  && Reassemble(Strip(out), []) == Selected(ps[..Whole(ps, n)], true)
                  && Strobed(out) == RdmaMetas(ps[..Started(ps, n)])
                  && SameBits(Reassemble(Strip(out), []), OfClass(ps[..Whole(ps, n)], true))
                  && Describes(Strobed(out), OfClass(ps[..Started(ps, n)], true))
                  && forall t :: t in out && t.1.Some? ==> t.0.size == t.1.value.pktlen)
    ensures var ps, ins := Taken(depth, cs), FilterIns(depth, cs);
            var s, n := After(c, latency, ins), |Offered(ins)|;
            var out := SentNonRoce(c, latency, ins) + s.nonRoce.fifo;
            && n <= |StreamOf(ps)|
            && (!s.nonRoce.err ==>
                  && Bare(out) <= CutAll(ps, false)
                  && Reassemble(out, []) == Selected(ps[..Whole(ps, n)], false)
                  && SameBits(Reassemble(out, []), OfClass(ps[..Whole(ps, n)], false)))
  {
    TakenArrived(depth, cs);
    var ps, n := Taken(depth, cs), |Offered(FilterIns(depth, cs))|;
    PrefixAccepted(ps, Whole(ps, n));
    PrefixAccepted(ps, Started(ps, n));
    hide *;
    SelectedAre(ps[..Whole(ps, n)], true);
    SelectedAre(ps[..Whole(ps, n)], false);
    MetasDescribe(ps[..Started(ps, n)]);
    RunCarries(depth, cs);
    StageExact(c, latency, FilterIns(depth, cs), Taken(depth, cs));
    SizesMatch(Offered(FilterIns(depth, cs)), |Offered(FilterIns(depth, cs))|);
    forall p | p in Taken(depth, cs)
      ensures && Accepted(p) && MetaOf(p).pktlen == p.len && MetaOf(p).index == 0
              && MetaOf(p) == WireMeta(p.bits, p.len)
              && (MetaOf(p).isRdma <==> RoceClass(p)) && (RoceClass(p) <==> RdmaOnWire(p.bits))
    {
      TakenAccepted(depth, cs, p);
      MetaOfPacket(p);
    }
  }

  lemma {:induction false} PrefixAccepted(ps: seq<Packet>, k: nat)
    requires AllAccepted(ps) && k <= |ps|
    ensures AllAccepted(ps[..k])
  {
    hide Accepted;
  }

  lemma {:induction false} TakenArrived(depth: nat, cs: seq<Cycle>)
    ensures var buf := BufferRun(depth, PinsOf(cs));
            && |buf.sent| <= |buf.accepted|
            && var arrived := Packets(buf.accepted[..|buf.sent|], [], None);
            && Taken(depth, cs) == Kept(arrived)
            && Strobes(buf.sent) == |arrived| + (if buf.between then 0 else 1)
  {
    hide BufferRun, Packets, Gather, Kept, Strobes;
    OneStrobePerPacket(depth, PinsOf(cs));
  }

  lemma {:induction false} TakenAccepted(depth: nat, cs: seq<Cycle>, p: Packet)
    requires p in Taken(depth, cs)
    ensures Accepted(p)
  {
    hide Taken, Accepted;
    assert AllAccepted(Taken(depth, cs));
  }

  /** Once the whole stream has been offered, every packet taken in is at its port or in that
    * port's queue. */
  lemma {:induction false} AllOfferedAllWhole(ps: seq<Packet>)
    requires AllAccepted(ps)
    ensures Whole(ps, |StreamOf(ps)|) == Started(ps, |StreamOf(ps)|) == |ps|
  {
    StartedAll(ps);
  }

  // -------- nothing is held back --------

  /** Nothing arrives and every stage is ready. */
  predicate Quiet(q: seq<Cycle>) {
    forall k :: 0 <= k < |q| ==>
      q[k].rx.None? && q[k].parserReady && q[k].give && q[k].roceReady && q[k].nonRoceReady
  }

  /** All the buffer took in has left it. */
  ghost predicate Emptied(depth: nat, cs: seq<Cycle>) {
    |BufferRun(depth, PinsOf(cs)).sent| >= |BufferRun(depth, PinsOf(cs)).accepted|
  }

  lemma {:induction false} BufferQuiet(depth: nat, cs: seq<Cycle>, q: seq<Cycle>)
    requires Quiet(q)
    ensures var s, s' := BufferRun(depth, PinsOf(cs)), BufferRun(depth, PinsOf(cs + q));
            && s'.accepted == s.accepted && s.sent <= s'.sent && |s'.sent| <= |s'.accepted|
            && (|s.sent| + |q| >= |s.accepted| ==> |s'.sent| == |s.accepted|)
  {
    hide BufferRun;
    assert PinsOf(cs + q) == PinsOf(cs) + PinsOf(q);
    BufferDrains(depth, PinsOf(cs), PinsOf(q));
  }

  lemma {:induction false} EmptiedStays(depth: nat, cs: seq<Cycle>, q: seq<Cycle>)
    requires Quiet(q) && Emptied(depth, cs)
    ensures Emptied(depth, cs + q) && Taken(depth, cs + q) == Taken(depth, cs)
  {
    hide BufferRun, PinsOf, Gather, Kept, Quiet;
    BufferQuiet(depth, cs, q);
    var s, s' := BufferRun(depth, PinsOf(cs)), BufferRun(depth, PinsOf(cs + q));
    assert s'.sent == s.sent;
  }

  /** A cycle offers the next beat of the stream exactly if the parser stage gives and one is
    * left. */
  lemma {:induction false} OffersNext(depth: nat, cs: seq<Cycle>, x: Cycle)
    ensures var n := |Offered(FilterIns(depth, cs))|;
            |Offered(FilterIns(depth, cs + [x]))|
            == n + (if x.give && n < |StreamOf(Taken(depth, cs))| then 1 else 0)
    ensures FilterIns(depth, cs + [x])
            == FilterIns(depth, cs) + [Given(StreamOf(Taken(depth, cs)), |Offered(FilterIns(depth, cs))|, x)]
  {
    hide Taken, StreamOf;
    assert (cs + [x])[..|cs|] == cs;
    var before := FilterIns(depth, cs);
    var g := Given(StreamOf(Taken(depth, cs)), |Offered(before)|, x);
    assert (before + [g])[..|before|] == before;
    assert Offered(before + [g]) == Offered(before) + OfferOf(g);
  }

  lemma {:induction false} OffersAll(depth: nat, cs: seq<Cycle>, q: seq<Cycle>)
    requires Quiet(q) && Emptied(depth, cs)
    ensures var n, all := |Offered(FilterIns(depth, cs))|, |StreamOf(Taken(depth, cs))|;
            n <= all && |Offered(FilterIns(depth, cs + q))| == if n + |q| < all then n + |q| else all
  {
    hide Taken, StreamOf, Emptied, FilterIns, Offered;
    if q == [] {
      assert cs + q == cs;
      OfferedBound(depth, cs);
    } else {
      var front, x := q[..|q| - 1], q[|q| - 1];
      assert cs + q == (cs + front) + [x];
      OffersAll(depth, cs, front);
      EmptiedStays(depth, cs, front);
      OffersNext(depth, cs + front, x);
    }
  }

  lemma {:induction false} OfferedBound(depth: nat, cs: seq<Cycle>)
    ensures |Offered(FilterIns(depth, cs))| <= |StreamOf(Taken(depth, cs))|
  {
    hide Taken, StreamOf, FilterIns, Offered;
    RunCarries(depth, cs);
  }

  /** With the whole stream offered, the filter sees no more beats, and both ports are ready. */
  lemma {:induction false} TailIsQuiet(depth: nat, cs: seq<Cycle>, q: seq<Cycle>) returns (tail: seq<In>)
    requires Quiet(q) && Emptied(depth, cs)
    requires |Offered(FilterIns(depth, cs))| >= |StreamOf(Taken(depth, cs))|
    ensures FilterIns(depth, cs + q) == FilterIns(depth, cs) + tail && |tail| == |q|
    ensures NoOffers(tail) && RoceReady(tail) && NonRoceReady(tail)
  {
    hide Taken, StreamOf, Emptied, FilterIns, Offered;
    if q == [] {
      assert cs + q == cs;
      assert FilterIns(depth, cs) + [] == FilterIns(depth, cs);
      tail := [];
    } else {
      var front, x := q[..|q| - 1], q[|q| - 1];
      assert cs + q == (cs + front) + [x];
      var before := TailIsQuiet(depth, cs, front);
      EmptiedStays(depth, cs, front);
      OffersAll(depth, cs, front);
      OffersNext(depth, cs + front, x);
      tail := before + [Given(StreamOf(Taken(depth, cs)), |StreamOf(Taken(depth, cs))|, x)];
    }
  }

  /** Everything accepted goes out: after any run, once nothing arrives and every stage stays
    * ready for long enough, both ports have emitted exactly the packets of their class among
    * all whole packets the buffer took in, wherever an error bit is still clear. */
  lemma {:induction false} EverythingArrives(depth: nat, c: Config, latency: nat, cs: seq<Cycle>, q: seq<Cycle>)
    requires c.thresh + latency <= c.depth && Quiet(q)
    requires var buf := BufferRun(depth, PinsOf(cs));
             |q| >= |buf.accepted| + |StreamOf(Kept(Packets(buf.accepted, [], None)))| + c.depth
    ensures var ins := FilterIns(depth, cs + q);
            var s, all := After(c, latency, ins), Kept(Packets(BufferRun(depth, PinsOf(cs)).accepted, [], None));
            && (!s.roce.err ==>
                  && SameBits(Reassemble(Strip(SentRoce(c, latency, ins)), []), OfClass(all, true))
                  && Describes(Strobed(SentRoce(c, latency, ins)), OfClass(all, true)))
            && (!s.nonRoce.err ==> SameBits(Reassemble(SentNonRoce(c, latency, ins), []), OfClass(all, false)))
  {
    hide *;
    Drained(depth, c, latency, cs, q);
    ReceivePathExact(depth, c, latency, cs + q);
    var all := Kept(Packets(BufferRun(depth, PinsOf(cs)).accepted, [], None));
    AllOfferedAllWhole(all);
    assert all[..|all|] == all;
  }

  /** Buffer, parser stage and ports run empty one after the other. */
  lemma {:induction false} Drained(depth: nat, c: Config, latency: nat, cs: seq<Cycle>, q: seq<Cycle>)
    requires c.thresh + latency <= c.depth && Quiet(q)
    requires var buf := BufferRun(depth, PinsOf(cs));
             |q| >= |buf.accepted| + |StreamOf(Kept(Packets(buf.accepted, [], None)))| + c.depth
    ensures var ins, all := FilterIns(depth, cs + q), Kept(Packets(BufferRun(depth, PinsOf(cs)).accepted, [], None));
            var s := After(c, latency, ins);
            && Taken(depth, cs + q) == all && |Offered(ins)| == |StreamOf(all)|
            && SentNonRoce(c, latency, ins) + s.nonRoce.fifo == SentNonRoce(c, latency, ins)
            && (!s.roce.err ==>
                  SentRoce(c, latency, ins) + Pair(s.roce.fifo, s.meta, s.roce.inside) == SentRoce(c, latency, ins))
  {
    hide *;
    var buf := BufferRun(depth, PinsOf(cs));
    var k, n := |buf.accepted|, |StreamOf(Kept(Packets(buf.accepted, [], None)))|;
    var q1, q2, q3 := q[..k], q[k..k + n], q[k + n..];
    assert cs + q == cs + q1 + q2 + q3;
    QuietParts(q, k, n);
    BufferEmptied(depth, cs, q1);
    EmptiedStays(depth, cs + q1, q2);
    OffersAll(depth, cs + q1, q2);
    EmptiedStays(depth, cs + q1 + q2, q3);
    OffersAll(depth, cs + q1 + q2, q3);
    PortsEmptied(depth, c, latency, cs + q1 + q2, q3);
  }

  lemma {:induction false} QuietParts(q: seq<Cycle>, k: nat, n: nat)
    requires Quiet(q) && k + n <= |q|
    ensures Quiet(q[..k]) && Quiet(q[k..k + n]) && Quiet(q[k + n..])
  {
  }

  lemma {:induction false} BufferEmptied(depth: nat, cs: seq<Cycle>, q: seq<Cycle>)
    requires Quiet(q) && |q| >= |BufferRun(depth, PinsOf(cs)).accepted|
    ensures Emptied(depth, cs + q)
    ensures Taken(depth, cs + q) == Kept(Packets(BufferRun(depth, PinsOf(cs)).accepted, [], None))
  {
    hide BufferRun, PinsOf, Packets, Kept, Quiet, Taken;
    BufferQuiet(depth, cs, q);
    TakenArrived(depth, cs + q);
    var s := BufferRun(depth, PinsOf(cs + q));
    assert s.accepted[..|s.sent|] == s.accepted;
  }

  lemma {:induction false} PortsEmptied(depth: nat, c: Config, latency: nat, cs: seq<Cycle>, q: seq<Cycle>)
    requires c.thresh + latency <= c.depth && Quiet(q) && Emptied(depth, cs) && |q| >= c.depth
    requires |Offered(FilterIns(depth, cs))| >= |StreamOf(Taken(depth, cs))|
    ensures var ins := FilterIns(depth, cs + q);
            var s := After(c, latency, ins);
            && s.nonRoce.fifo == []
            && SentNonRoce(c, latency, ins) + s.nonRoce.fifo == SentNonRoce(c, latency, ins)
            && (!s.roce.err ==>
                  SentRoce(c, latency, ins) + Pair(s.roce.fifo, s.meta, s.roce.inside) == SentRoce(c, latency, ins))
  {
    hide Quiet, Emptied, After, FilterIns, Offered, StreamOf, Taken, SentRoce, SentNonRoce;
    var ins := FilterIns(depth, cs);
    var tail := TailIsQuiet(depth, cs, q);
    NeverOverfull(c, latency, ins);
    NonRoceEmpties(c, latency, ins, tail);
    RoceEmpties(c, latency, ins, tail);
    assert SentNonRoce(c, latency, ins + tail) + [] == SentNonRoce(c, latency, ins + tail);
    assert SentRoce(c, latency, ins + tail) + [] == SentRoce(c, latency, ins + tail);
  }
}
