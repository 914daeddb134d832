/** Where each metadata field sits in the packet: the layouts of the headers pinned to bit
  * positions, so that the class and the metadata are read off the wire. */
module WireFormat {
  import opened Basics
  import opened BitCodec
  import opened PacketParser
  import PacketPipeline

  /** The w bits at position `at`, as a number; zero past the end. */
  function Field(b: seq<bool>, at: nat, w: nat): nat {
    if at + w <= |b| then Val(b[at..at + w]) else 0
  }

  /** The position of field i in a header. */
  function Offset(l: Layout, i: nat): nat
    requires i <= |l|
  {
    if i == 0 then 0 else l[0] + Offset(l[1..], i - 1)
  }

  lemma {:induction false} FieldOfPack(l: Layout, f: seq<nat>, i: nat)
    requires Fits(l, f) && i < |l| == |f|
    ensures Offset(l, i) + l[i] <= |Pack(l, f)| && Field(Pack(l, f), Offset(l, i), l[i]) == f[i]
  {
    hide Bits, Val;
    var first, rest := Bits(f[0], l[0]), Pack(l[1..], f[1..]);
    assert Pack(l, f) == first + rest;
    if i == 0 {
      ValBits(f[0], l[0]);
      assert (first + rest)[0..l[0]] == first;
    } else {
      FieldOfPack(l[1..], f[1..], i - 1);
      hide Field, Pack, Fits;
      FieldBehind(first, rest, [], Offset(l[1..], i - 1), l[i]);
      assert first + rest + [] == first + rest;
    }
  }

  lemma {:induction false} FieldBehind(pre: seq<bool>, x: seq<bool>, post: seq<bool>, at: nat, w: nat)
    requires at + w <= |x|
    ensures Field(pre + x + post, |pre| + at, w) == Field(x, at, w)
  {
    assert (pre + x + post)[|pre| + at..|pre| + at + w] == x[at..at + w];
  }

  /** The bits x are fields f in layout l. */
  ghost predicate Is(l: Layout, f: seq<nat>, x: seq<bool>) {
    Fits(l, f) && x == Pack(l, f)
  }

  lemma {:induction false} IsLength(l: Layout, f: seq<nat>, x: seq<bool>)
    requires Is(l, f, x)
    ensures |l| == |f| && |x| == Width(l)
  {
  }

  /** Field i of a header that starts at position |pre| of the packet. */
  lemma {:induction false} FieldAt(b: seq<bool>, pre: seq<bool>, l: Layout, f: seq<nat>, x: seq<bool>,
                                   post: seq<bool>, i: nat)
    requires Is(l, f, x) && i < |l| == |f| && b == pre + x + post
    ensures Field(b, |pre| + Offset(l, i), l[i]) == f[i]
  {
    hide Pack, Fits, Field;
    FieldOfPack(l, f, i);
    FieldBehind(pre, x, post, Offset(l, i), l[i]);
  }

  // -------- positions of the headers --------

  function NetworkAt(h: Headers): nat {
    112 + 32 * |h.vlan|
  }

  function TransportAt(h: Headers): nat {
    NetworkAt(h) + if h.ipv6.Some? then 320 else 160 + if h.ipv4Opt.Some? then |h.ipv4Opt.value| else 0
  }

  lemma {:induction false} TagWidths()
    ensures Width(ETH_LAYOUT) == 112 && Width(VLAN_LAYOUT) == 32
  {
  }

  lemma {:induction false} Ipv4Width()
    ensures Width(IPV4_LAYOUT) == 160
  {
    assert Width([8, 8, 16, 32, 32]) == 96;
    assert IPV4_LAYOUT == [4, 4, 6, 2, 16, 16, 3, 13] + [8, 8, 16, 32, 32];
    WidthAppend([4, 4, 6, 2, 16, 16, 3, 13], [8, 8, 16, 32, 32]);
  }

  lemma {:induction false} WidthAppend(a: Layout, b: Layout)
    ensures Width(a + b) == Width(a) + Width(b)
  {
    if a == [] {
      assert a + b == b;
    } else {
      assert (a + b)[1..] == a[1..] + b;
      WidthAppend(a[1..], b);
    }
  }

  lemma {:induction false} Ipv6Width()
    ensures Width(IPV6_LAYOUT) == 320
  {
  }

  lemma {:induction false} UdpWidth()
    ensures Width(UDP_LAYOUT) == 64
  {
  }

  lemma {:induction false} WidthFirst(w: nat, l: Layout)
    ensures Width([w] + l) == w + Width(l)
  {
    assert ([w] + l)[1..] == l;
  }

  lemma {:induction false} BthWidth()
    ensures Width(BTH_LAYOUT) == 96
  {
    var low, high: Layout := [8, 24, 1, 7, 24], [3, 5, 1, 1, 2, 4, 16];
    assert Width(low) == 64 by { FiveWidths(8, 24, 1, 7, 24); }
    assert Width(high) == 32 by { SevenWidths(3, 5, 1, 1, 2, 4, 16); }
    hide Width;
    assert BTH_LAYOUT == high + low;
    WidthAppend(high, low);
  }

  lemma {:induction false} FiveWidths(a: nat, b: nat, c: nat, d: nat, e: nat)
    ensures Width([a, b, c, d, e]) == a + b + c + d + e
  {
    hide Width;
    WidthNone();
    WidthFirst(e, []);
    WidthFirst(d, [e]);
    WidthFirst(c, [d, e]);
    WidthFirst(b, [c, d, e]);
    WidthFirst(a, [b, c, d, e]);
    assert [e] + [] == [e] && [d] + [e] == [d, e] && [c] + [d, e] == [c, d, e];
    assert [b] + [c, d, e] == [b, c, d, e] && [a] + [b, c, d, e] == [a, b, c, d, e];
  }

  lemma {:induction false} SevenWidths(a: nat, b: nat, c: nat, d: nat, e: nat, f: nat, g: nat)
    ensures Width([a, b, c, d, e, f, g]) == a + b + c + d + e + f + g
  {
    hide Width;
    FiveWidths(c, d, e, f, g);
    WidthFirst(b, [c, d, e, f, g]);
    WidthFirst(a, [b, c, d, e, f, g]);
    assert [b] + [c, d, e, f, g] == [b, c, d, e, f, g] && [a] + [b, c, d, e, f, g] == [a, b, c, d, e, f, g];
  }

  lemma {:induction false} WidthNone()
    ensures Width([]) == 0
  {
  }

  lemma {:induction false} EthOffsets()
    ensures Offset(ETH_LAYOUT, 2) == 96 && Offset(VLAN_LAYOUT, 3) == 16
  {
  }

  lemma {:induction false} Ipv4Offsets()
    ensures Offset(IPV4_LAYOUT, 1) == 4 && Offset(IPV4_LAYOUT, 9) == 72
    ensures Offset(IPV4_LAYOUT, 11) == 96 && Offset(IPV4_LAYOUT, 12) == 128
  {
  }

  lemma {:induction false} Ipv6Offsets()
    ensures Offset(IPV6_LAYOUT, 4) == 48
  {
  }

  lemma {:induction false} UdpOffsets()
    ensures Offset(UDP_LAYOUT, 0) == 0 && Offset(UDP_LAYOUT, 1) == 16
  {
  }

  lemma {:induction false} BthOffsets()
    ensures Offset(BTH_LAYOUT, 0) == 0 && Offset(BTH_LAYOUT, 1) == 3 && Offset(BTH_LAYOUT, 2) == 8
  {
  }

  lemma {:induction false} PsnOffset()
    ensures Offset(BTH_LAYOUT, 11) == 72
  {
  }

  lemma {:induction false} TransportOffsets()
    ensures Offset(IPV6_LAYOUT, 4) == 48 && Offset(UDP_LAYOUT, 0) == 0 && Offset(UDP_LAYOUT, 1) == 16
    ensures Offset(BTH_LAYOUT, 0) == 0 && Offset(BTH_LAYOUT, 1) == 3 && Offset(BTH_LAYOUT, 2) == 8
    ensures Offset(BTH_LAYOUT, 11) == 72
  {
    hide Offset;
    Ipv6Offsets();
    UdpOffsets();
    BthOffsets();
    PsnOffset();
  }

  lemma {:induction false} ExtensionOffsets()
    ensures Offset(RETH_LAYOUT, 2) == 64 && Offset(RETH_LAYOUT, 3) == 96
    ensures Offset(AETH_LAYOUT, 1) == 8 && Offset(IETH_LAYOUT, 0) == 0
  {
  }

  // -------- each header at its position --------

  lemma {:induction false} TagBitsLength(tags: seq<Vlan>)
    ensures |TagBits(tags)| == 32 * |tags|
    decreases |tags|
  {
    TagWidths();
    if tags != [] {
      TagBitsLength(tags[1..]);
    }
  }

  lemma {:induction false} Slot(pre: seq<bool>, x: seq<bool>, post: seq<bool>, rest: seq<bool>)
    ensures pre + ((x + post) + rest) == pre + x + (post + rest)
  {
  }

  /** Everything in front of the network header. */
  function LinkBits(h: Headers): (s: seq<bool>)
    requires WellFormed(h)
    ensures |s| == NetworkAt(h)
  {
    TagWidths();
    TagBitsLength(h.vlan);
    PutEth(h.eth.value) + TagBits(h.vlan)
  }

  lemma {:induction false} NetworkStart(h: Headers, rest: seq<bool>)
    requires WellFormed(h)
    ensures Deparse(h) + rest == LinkBits(h) + (NetworkBits(h) + rest)
  {
    hide Pack, NetworkBits, NetworkShape;
  }

  lemma {:induction false} UntaggedTypeAt(eth: Eth, net: seq<bool>)
    requires EthFits(eth)
    ensures Field(PutEth(eth) + net, 96, 16) == eth.typ
  {
    hide Pack, Fits, Field, Offset;
    EthOffsets();
    assert [] + PutEth(eth) + net == PutEth(eth) + net;
    FieldAt(PutEth(eth) + net, [], ETH_LAYOUT, EthFields(eth), PutEth(eth), net, 2);
  }

  lemma {:induction false} TaggedTypeAt(eth: Eth, front: seq<Vlan>, last: Vlan, net: seq<bool>)
    requires VlanFits(last)
    ensures Field(PutEth(eth) + TagBits(front + [last]) + net, 112 + 32 * |front| + 16, 16) == last.tpid
  {
    hide Pack, Fits, Field, Offset, TagBits, Width;
    EthOffsets();
    TagWidths();
    TagBitsLength(front);
    PacketPipeline.TagBitsAppend(front, last);
    var pre := PutEth(eth) + TagBits(front);
    assert PutEth(eth) + (TagBits(front) + PutVlan(last)) == pre + PutVlan(last);
    FieldAt(pre + PutVlan(last) + net, pre, VLAN_LAYOUT, VlanFields(last), PutVlan(last), net, 3);
  }

  lemma {:induction false} FinalTypeAt(h: Headers, rest: seq<bool>)
    requires WellFormed(h)
    ensures Field(Deparse(h) + rest, NetworkAt(h) - 16, 16) == FinalType(h.eth.value.typ, h.vlan)
  {
    hide Field, PutEth, NetworkShape, NetworkBits, Deparse;
    var net := NetworkBits(h) + rest;
    NetworkStart(h, rest);
    if h.vlan == [] {
      UntaggedTypeAt(h.eth.value, net);
      assert LinkBits(h) == PutEth(h.eth.value);
    } else {
      var front, last := h.vlan[..|h.vlan| - 1], h.vlan[|h.vlan| - 1];
      assert h.vlan == front + [last];
      LastTagFits(h.eth.value.typ, h.vlan);
      TaggedTypeAt(h.eth.value, front, last, net);
    }
  }

  lemma {:induction false} LastTagFits(t: nat, tags: seq<Vlan>)
    requires TagShape(t, tags) && tags != []
    ensures VlanFits(tags[|tags| - 1])
    decreases |tags|
  {
    if |tags| > 1 {
      LastTagFits(tags[0].tpid, tags[1..]);
    }
  }

  /** A network header starts right behind the link headers. */
  lemma {:induction false} NetworkHeaderAt(h: Headers, rest: seq<bool>, l: Layout, f: seq<nat>, x: seq<bool>,
                                           post: seq<bool>, i: nat)
    requires WellFormed(h) && Is(l, f, x) && i < |l| == |f| && NetworkBits(h) == x + post
    ensures Field(Deparse(h) + rest, NetworkAt(h) + Offset(l, i), l[i]) == f[i]
  {
    hide *;
    NetworkStart(h, rest);
    Slot(LinkBits(h), x, post, rest);
    FieldAt(Deparse(h) + rest, LinkBits(h), l, f, x, post + rest, i);
  }

  function BehindIpv4(h: Headers): seq<bool> {
    (if h.ipv4Opt.Some? then h.ipv4Opt.value else []) +
    ((if h.ipv6.Some? then PutIpv6(h.ipv6.value) else []) + TransportBits(h))
  }

  lemma {:induction false} NetworkFits(h: Headers)
    requires WellFormed(h)
    ensures h.ipv4.Some? ==> Ipv4Fits(h.ipv4.value)
    ensures h.ipv6.Some? ==> Ipv6Fits(h.ipv6.value) && h.ipv4.None? && h.ipv4Opt.None?
  {
    hide Ipv4Fits, Ipv6Fits, EthFits, TransportShape, TagShape;
  }

  lemma {:induction false} NetworkParts(h: Headers)
    requires WellFormed(h)
    ensures h.ipv4.Some? ==>
              && Is(IPV4_LAYOUT, Ipv4Fields(h.ipv4.value), PutIpv4(h.ipv4.value))
              && NetworkBits(h) == PutIpv4(h.ipv4.value) + BehindIpv4(h)
    ensures h.ipv6.Some? ==>
              && Is(IPV6_LAYOUT, Ipv6Fields(h.ipv6.value), PutIpv6(h.ipv6.value))
              && NetworkBits(h) == PutIpv6(h.ipv6.value) + TransportBits(h)
  {
    hide Pack, Fits, WellFormed, TransportBits, Ipv4Fields, Ipv6Fields;
    NetworkFits(h);
    if h.ipv6.Some? {
      assert [] + ([] + (PutIpv6(h.ipv6.value) + TransportBits(h))) == PutIpv6(h.ipv6.value) + TransportBits(h);
    }
  }

  lemma {:induction false} Ipv4At(h: Headers, rest: seq<bool>, i: nat)
    requires WellFormed(h) && h.ipv4.Some? && i < |IPV4_LAYOUT|
    ensures Field(Deparse(h) + rest, NetworkAt(h) + Offset(IPV4_LAYOUT, i), IPV4_LAYOUT[i])
            == Ipv4Fields(h.ipv4.value)[i]
  {
    hide *;
    NetworkParts(h);
    IsLength(IPV4_LAYOUT, Ipv4Fields(h.ipv4.value), PutIpv4(h.ipv4.value));
    NetworkHeaderAt(h, rest, IPV4_LAYOUT, Ipv4Fields(h.ipv4.value), PutIpv4(h.ipv4.value), BehindIpv4(h), i);
  }

  lemma {:induction false} Ipv6At(h: Headers, rest: seq<bool>, i: nat)
    requires WellFormed(h) && h.ipv6.Some? && i < |IPV6_LAYOUT|
    ensures Field(Deparse(h) + rest, NetworkAt(h) + Offset(IPV6_LAYOUT, i), IPV6_LAYOUT[i])
            == Ipv6Fields(h.ipv6.value)[i]
  {
    hide *;
    NetworkParts(h);
    IsLength(IPV6_LAYOUT, Ipv6Fields(h.ipv6.value), PutIpv6(h.ipv6.value));
    NetworkHeaderAt(h, rest, IPV6_LAYOUT, Ipv6Fields(h.ipv6.value), PutIpv6(h.ipv6.value), TransportBits(h), i);
  }

  /** The network headers alone. */
  function NetworkOnly(h: Headers): seq<bool>
    requires WellFormed(h) && h.udp.Some?
  {
    (if h.ipv4.Some? then PutIpv4(h.ipv4.value) else [])
    + ((if h.ipv4Opt.Some? then h.ipv4Opt.value else [])
       + (if h.ipv6.Some? then PutIpv6(h.ipv6.value) else []))
  }

  lemma {:induction false} NetworkOnlySize(h: Headers)
    requires WellFormed(h) && h.udp.Some?
    ensures NetworkAt(h) + |NetworkOnly(h)| == TransportAt(h)
  {
    hide Ipv4Fits, Ipv6Fits, Ipv4Fields, Ipv6Fields, EthFits, TagShape, ExtensionShape, Pack, Width;
    UdpShape(h);
    NetworkFits(h);
    NetworkBitsSize(h);
  }

  lemma {:induction false} NetworkBitsSize(h: Headers)
    ensures h.ipv4.Some? ==> |PutIpv4(h.ipv4.value)| == 160
    ensures h.ipv6.Some? ==> |PutIpv6(h.ipv6.value)| == 320
  {
    hide Pack, Width, Ipv4Fields, Ipv6Fields;
    Ipv4Width();
    Ipv6Width();
  }

  /** Everything in front of the UDP header. */
  function UpToTransport(h: Headers): (s: seq<bool>)
    requires WellFormed(h) && h.udp.Some?
    ensures |s| == TransportAt(h)
  {
    NetworkOnlySize(h);
    LinkBits(h) + NetworkOnly(h)
  }

  lemma {:induction false} Four(a: seq<bool>, b: seq<bool>, c: seq<bool>, d: seq<bool>)
    ensures a + (b + (c + d)) == (a + (b + c)) + d
  {
  }

  lemma {:induction false} NetworkThenTransport(h: Headers)
    requires WellFormed(h) && h.udp.Some?
    ensures NetworkBits(h) == NetworkOnly(h) + TransportBits(h)
  {
    hide Pack, TransportBits, WellFormed;
    Four(if h.ipv4.Some? then PutIpv4(h.ipv4.value) else [], if h.ipv4Opt.Some? then h.ipv4Opt.value else [],
         if h.ipv6.Some? then PutIpv6(h.ipv6.value) else [], TransportBits(h));
  }

  lemma {:induction false} TransportStart(h: Headers, rest: seq<bool>)
    requires WellFormed(h) && h.udp.Some?
    ensures Deparse(h) + rest == UpToTransport(h) + (TransportBits(h) + rest)
  {
    hide Deparse, NetworkBits, TransportBits, WellFormed, LinkBits, NetworkOnly;
    NetworkStart(h, rest);
    NetworkThenTransport(h);
    Slot(LinkBits(h), NetworkOnly(h), TransportBits(h), rest);
  }

  /** A header inside the transport part, behind the bits mid. */
  lemma {:induction false} TransportHeaderAt(h: Headers, rest: seq<bool>, mid: seq<bool>, l: Layout, f: seq<nat>,
                                             x: seq<bool>, post: seq<bool>, i: nat)
    requires WellFormed(h) && h.udp.Some? && Is(l, f, x) && i < |l| == |f|
    requires TransportBits(h) == mid + (x + post)
    ensures Field(Deparse(h) + rest, TransportAt(h) + |mid| + Offset(l, i), l[i]) == f[i]
  {
    hide *;
    TransportStart(h, rest);
    Slot(UpToTransport(h), mid, x + post, rest);
    Slot(UpToTransport(h) + mid, x, post, rest);
    FieldAt(Deparse(h) + rest, UpToTransport(h) + mid, l, f, x, post + rest, i);
  }

  /** With UDP there is a base header, and both fit their layouts. */
  lemma {:induction false} TransportParts(h: Headers)
    requires WellFormed(h) && h.udp.Some?
    ensures h.bth.Some? && ExtensionShape(h, h.bth.value.op)
    ensures Is(UDP_LAYOUT, UdpFields(h.udp.value), PutUdp(h.udp.value))
    ensures Is(BTH_LAYOUT, BthFields(h.bth.value), PutBth(h.bth.value))
    ensures TransportBits(h) == PutUdp(h.udp.value) + (PutBth(h.bth.value) + ExtensionBits(h))
    ensures |PutUdp(h.udp.value)| == 64 && |PutBth(h.bth.value)| == 96
  {
    hide Pack, Fits, ExtensionShape, ExtensionBits, TagShape, EthFits, Width;
    UdpWidth();
    BthWidth();
  }

  lemma {:induction false} UdpAt(h: Headers, rest: seq<bool>, i: nat)
    requires WellFormed(h) && h.udp.Some? && i < |UDP_LAYOUT|
    ensures Field(Deparse(h) + rest, TransportAt(h) + Offset(UDP_LAYOUT, i), UDP_LAYOUT[i]) == UdpFields(h.udp.value)[i]
  {
    hide *;
    TransportParts(h);
    IsLength(UDP_LAYOUT, UdpFields(h.udp.value), PutUdp(h.udp.value));
    var post := PutBth(h.bth.value) + ExtensionBits(h);
    assert [] + (PutUdp(h.udp.value) + post) == TransportBits(h);
    TransportHeaderAt(h, rest, [], UDP_LAYOUT, UdpFields(h.udp.value), PutUdp(h.udp.value), post, i);
  }

  lemma {:induction false} BthAt(h: Headers, rest: seq<bool>, i: nat)
    requires WellFormed(h) && h.udp.Some? && i < |BTH_LAYOUT|
    ensures h.bth.Some?
    ensures Field(Deparse(h) + rest, TransportAt(h) + 64 + Offset(BTH_LAYOUT, i), BTH_LAYOUT[i])
            == BthFields(h.bth.value)[i]
  {
    hide *;
    TransportParts(h);
    IsLength(BTH_LAYOUT, BthFields(h.bth.value), PutBth(h.bth.value));
    TransportHeaderAt(h, rest, PutUdp(h.udp.value), BTH_LAYOUT, BthFields(h.bth.value), PutBth(h.bth.value),
                      ExtensionBits(h), i);
  }

  /** The extension header of an operation starts right behind the base transport header. */
  lemma {:induction false} ExtensionAt(h: Headers, rest: seq<bool>, l: Layout, f: seq<nat>, x: seq<bool>,
                                       post: seq<bool>,
                                       i: nat)
    requires WellFormed(h) && h.udp.Some? && Is(l, f, x) && i < |l| == |f| && ExtensionBits(h) == x + post
    ensures Field(Deparse(h) + rest, TransportAt(h) + 160 + Offset(l, i), l[i]) == f[i]
  {
    hide *;
    TransportParts(h);
    var mid := PutUdp(h.udp.value) + PutBth(h.bth.value);
    assert PutUdp(h.udp.value) + (PutBth(h.bth.value) + ExtensionBits(h)) == mid + ExtensionBits(h);
    TransportHeaderAt(h, rest, mid, l, f, x, post, i);
  }

  // -------- the metadata, read off the wire --------

  /** How many 802.1Q tags the bits announce. */
  function TagsOnWire(b: seq<bool>): nat {
    if Field(b, 96, 16) != ETH_VLAN then 0 else if Field(b, 128, 16) != ETH_VLAN then 1 else 2
  }

  function NetworkOnWire(b: seq<bool>): (n: nat)
    ensures n >= 112
  {
    112 + 32 * TagsOnWire(b)
  }

  /** Behind the network header: 40 bytes for IPv6, the header length nibble in words for IPv4. */
  function TransportOnWire(b: seq<bool>): nat {
    var n := NetworkOnWire(b);
    n + if Field(b, n - 16, 16) == ETH_IPV6 then 320 else 32 * Field(b, n + 4, 4)
  }

  /** UDP in the protocol byte of whichever network header the last ethertype announces. */
  predicate IsUdpOnWire(b: seq<bool>) {
    var n := NetworkOnWire(b);
    || (Field(b, n - 16, 16) == ETH_IPV4 && Field(b, n + 72, 8) == IPPROTO_UDP)
    || (Field(b, n - 16, 16) == ETH_IPV6 && Field(b, n + 48, 8) == IPPROTO_UDP)
  }

  lemma {:induction false} EthTypeAt(h: Headers, rest: seq<bool>)
    requires WellFormed(h)
    ensures Field(Deparse(h) + rest, 96, 16) == h.eth.value.typ
  {
    hide Field, PutEth, NetworkShape, NetworkBits, TagBits;
    UntaggedTypeAt(h.eth.value, TagBits(h.vlan) + NetworkBits(h) + rest);
    assert PutEth(h.eth.value) + (TagBits(h.vlan) + NetworkBits(h) + rest) == Deparse(h) + rest;
  }

  lemma {:induction false} FirstTagTypeAt(h: Headers, rest: seq<bool>)
    requires WellFormed(h) && |h.vlan| == 2
    ensures Field(Deparse(h) + rest, 128, 16) == h.vlan[0].tpid
  {
    hide Field, PutEth, PutVlan, NetworkShape, NetworkBits;
    var v, more := h.vlan[0], TagBits(h.vlan[1..]);
    TaggedTypeAt(h.eth.value, [], v, more + (NetworkBits(h) + rest));
    assert [] + [v] == [v] && [v][1..] == [];
    assert TagBits([v]) == PutVlan(v) + [];
    NestedBits(PutEth(h.eth.value), PutVlan(v), more, NetworkBits(h), rest);
  }

  lemma {:induction false} NestedBits(a: seq<bool>, b: seq<bool>, c: seq<bool>, d: seq<bool>, e: seq<bool>)
    ensures a + (b + c + d) + e == a + (b + []) + (c + (d + e))
  {
  }

  lemma {:induction false} TagsAreOnWire(h: Headers, rest: seq<bool>)
    requires WellFormed(h)
    ensures NetworkOnWire(Deparse(h) + rest) == NetworkAt(h)
  {
    hide Field, Deparse, NetworkShape, EthFits, VlanFits;
    EthTypeAt(h, rest);
    FinalTypeAt(h, rest);
    if |h.vlan| == 2 {
      FirstTagTypeAt(h, rest);
      assert TagShape(h.vlan[0].tpid, h.vlan[1..]) && |h.vlan[1..]| == 1;
    } else if |h.vlan| == 1 {
      assert TagShape(h.vlan[0].tpid, h.vlan[1..]) && |h.vlan[1..]| == 0;
    }
  }

  /** The positions of network and transport headers are functions of the bits alone. */
  lemma {:induction false} PositionsOnWire(h: Headers, rest: seq<bool>)
    requires WellFormed(h)
    ensures NetworkOnWire(Deparse(h) + rest) == NetworkAt(h)
    ensures h.udp.Some? ==> TransportOnWire(Deparse(h) + rest) == TransportAt(h)
    ensures h.udp.Some? <==> IsUdpOnWire(Deparse(h) + rest)
  {
    hide Field, Deparse, Offset, WellFormed, FinalType, NetworkOnWire;
    TagsAreOnWire(h, rest);
    FinalTypeAt(h, rest);
    UdpShape(h);
    UdpOnWire(h, rest);
    Ipv4Offsets();
    if h.ipv4.Some? {
      Ipv4At(h, rest, 1);
      OptionLength(h);
    }
  }

  lemma {:induction false} OptionLength(h: Headers)
    requires WellFormed(h) && h.ipv4.Some?
    ensures h.ipv6.None?
    ensures 160 + (if h.ipv4Opt.Some? then |h.ipv4Opt.value| else 0) == 32 * h.ipv4.value.ihl
  {
    hide Ipv4Fits, Ipv6Fits, EthFits, TransportShape, TagShape;
  }

  /** Which network header there is, and what makes the transport UDP. */
  lemma {:induction false} UdpShape(h: Headers)
    requires WellFormed(h)
    ensures var t := FinalType(h.eth.value.typ, h.vlan);
            && (t == ETH_IPV4 <==> h.ipv4.Some?) && (t == ETH_IPV6 <==> h.ipv6.Some?)
            && (h.udp.Some? <==> || (h.ipv4.Some? && h.ipv4.value.proto == IPPROTO_UDP)
                                 || (h.ipv6.Some? && h.ipv6.value.protocol == IPPROTO_UDP))
  {
    hide Fits, ExtensionShape, TagShape, EthFits;
  }

  lemma {:induction false} UdpOnWire(h: Headers, rest: seq<bool>)
    requires WellFormed(h)
    ensures h.udp.Some? <==> IsUdpOnWire(Deparse(h) + rest)
  {
    hide Field, Deparse, Offset, WellFormed, FinalType, NetworkOnWire;
    TagsAreOnWire(h, rest);
    UdpShape(h);
    Ipv4Offsets();
    TransportOffsets();
    FinalTypeAt(h, rest);
    if h.ipv4.Some? { Ipv4At(h, rest, 9); }
    if h.ipv6.Some? { Ipv6At(h, rest, 4); }
  }

  /** An accepted packet is of the RDMA class exactly when its bits say UDP and connection
    * type 0, at the positions the standards give. */
  lemma {:induction false} ClassFromWire(b: seq<bool>, m: Metadata)
    requires Parse(b).Accepted?
    ensures var h := Parse(b).hdr;
            && (h.udp.Some? && h.ipv6.None? ==> h.ipv4.Some?)
            && (Forward(h, m).isRdma <==> IsUdpOnWire(b) && Field(b, TransportOnWire(b) + 64, 3) == 0)
  {
    hide Parse, Field, Deparse, Offset, WellFormed, IsUdpOnWire, Forward, TransportOnWire, TransportAt;
    var Accepted(h, rest) := Parse(b);
    ParseSound(b);
    ClassifiesExactly(b, m);
    PositionsOnWire(h, rest);
    TransportOffsets();
    if h.udp.Some? {
      BthAt(h, rest, 0);
    }
  }

  /** Ports and base header fields of the metadata are the packet's own bits; so are the
    * addresses with IPv4, and with IPv6 they are the constant the code puts there. */
  lemma {:induction false} MetadataFromWire(b: seq<bool>, m: Metadata)
    requires Parse(b).Accepted? && IsUdpOnWire(b)
    ensures var h := Parse(b).hdr;
            && (h.udp.Some? && h.ipv6.None? ==> h.ipv4.Some?)
            && var o, n, t := Forward(h, m), NetworkOnWire(b), TransportOnWire(b);
            && (Field(b, n - 16, 16) == ETH_IPV4 ==>
                  o.ipSrc == Field(b, n + 96, 32) && o.ipDst == Field(b, n + 128, 32))
            && (Field(b, n - 16, 16) == ETH_IPV6 ==> o.ipSrc == 6 && o.ipDst == 6)
            && o.udpSport == Field(b, t, 16) && o.udpDport == Field(b, t + 16, 16)
            && o.opcode == Field(b, t + 67, 5) && o.se == Field(b, t + 72, 1) && o.psn == Field(b, t + 136, 24)
  {
    hide Parse, Field, Deparse, Offset, WellFormed, NetworkOnWire, TransportOnWire, IsUdpOnWire, NetworkAt, TransportAt;
    hide FinalType;
    ParseSound(b);
    var Accepted(h, rest) := Parse(b);
    ClassifiesExactly(b, m);
    PositionsOnWire(h, rest);
    FinalTypeAt(h, rest);
    UdpShape(h);
    Ipv4Offsets();
    TransportOffsets();
    if h.ipv4.Some? {
      Ipv4At(h, rest, 11);
      Ipv4At(h, rest, 12);
    }
    UdpAt(h, rest, 0);
    UdpAt(h, rest, 1);
    BthAt(h, rest, 1);
    BthAt(h, rest, 2);
    BthAt(h, rest, 11);
  }

  /** Without UDP nothing but index and length is set. */
  lemma {:induction false} NoMetadataWithoutUdp(b: seq<bool>, m: Metadata)
    requires Parse(b).Accepted? && !IsUdpOnWire(b)
    ensures var h := Parse(b).hdr;
            && (h.udp.Some? && h.ipv6.None? ==> h.ipv4.Some?)
            && Forward(h, m) == Metadata(m.index, 0, 0, 0, 0, 0, m.pktlen, 0, 0, 0, 0, 0, false)
  {
    hide Parse, Field, Deparse, WellFormed, IsUdpOnWire, NetworkOnWire, TransportOnWire;
    ParseSound(b);
    var Accepted(h, rest) := Parse(b);
    ClassifiesExactly(b, m);
    PositionsOnWire(h, rest);
  }

  /** The first extension header of an operation, and what follows it. */
  lemma {:induction false} ExtensionParts(h: Headers)
    requires h.bth.Some? && ExtensionShape(h, h.bth.value.op)
    ensures h.reth.Some? ==>
              && Is(RETH_LAYOUT, RethFields(h.reth.value), PutReth(h.reth.value))
              && ExtensionBits(h) == PutReth(h.reth.value) + BehindReth(h)
    ensures h.aeth.Some? ==>
              && Is(AETH_LAYOUT, AethFields(h.aeth.value), PutAeth(h.aeth.value))
              && ExtensionBits(h) == PutAeth(h.aeth.value) + []
    ensures h.ieth.Some? ==>
              && Is(IETH_LAYOUT, IethFields(h.ieth.value), PutIeth(h.ieth.value))
              && ExtensionBits(h) == PutIeth(h.ieth.value) + []
  {
    hide Pack, Fits;
  }

  function BehindReth(h: Headers): seq<bool> {
    if h.immdt.Some? then PutImmDt(h.immdt.value) else []
  }

  lemma {:induction false} RethAt(h: Headers, rest: seq<bool>, i: nat)
    requires WellFormed(h) && h.udp.Some? && h.reth.Some? && i < |RETH_LAYOUT|
    ensures Field(Deparse(h) + rest, TransportAt(h) + 160 + Offset(RETH_LAYOUT, i), RETH_LAYOUT[i])
            == RethFields(h.reth.value)[i]
  {
    hide *;
    TransportParts(h);
    ExtensionParts(h);
    IsLength(RETH_LAYOUT, RethFields(h.reth.value), PutReth(h.reth.value));
    ExtensionAt(h, rest, RETH_LAYOUT, RethFields(h.reth.value), PutReth(h.reth.value), BehindReth(h), i);
  }

  lemma {:induction false} AethAt(h: Headers, rest: seq<bool>, i: nat)
    requires WellFormed(h) && h.udp.Some? && h.aeth.Some? && i < |AETH_LAYOUT|
    ensures Field(Deparse(h) + rest, TransportAt(h) + 160 + Offset(AETH_LAYOUT, i), AETH_LAYOUT[i])
            == AethFields(h.aeth.value)[i]
  {
    hide *;
    TransportParts(h);
    ExtensionParts(h);
    IsLength(AETH_LAYOUT, AethFields(h.aeth.value), PutAeth(h.aeth.value));
    ExtensionAt(h, rest, AETH_LAYOUT, AethFields(h.aeth.value), PutAeth(h.aeth.value), [], i);
  }

  lemma {:induction false} IethAt(h: Headers, rest: seq<bool>, i: nat)
    requires WellFormed(h) && h.udp.Some? && h.ieth.Some? && i < |IETH_LAYOUT|
    ensures Field(Deparse(h) + rest, TransportAt(h) + 160 + Offset(IETH_LAYOUT, i), IETH_LAYOUT[i])
            == IethFields(h.ieth.value)[i]
  {
    hide *;
    TransportParts(h);
    ExtensionParts(h);
    IsLength(IETH_LAYOUT, IethFields(h.ieth.value), PutIeth(h.ieth.value));
    ExtensionAt(h, rest, IETH_LAYOUT, IethFields(h.ieth.value), PutIeth(h.ieth.value), [], i);
  }

  lemma {:induction false} ExtensionFields(h: Headers, rest: seq<bool>)
    requires WellFormed(h) && h.udp.Some?
    ensures var b, t := Deparse(h) + rest, TransportAt(h);
            && (h.reth.Some? ==>
                  && h.reth.value.rKey == Field(b, t + 224, 32)
                  && h.reth.value.dmaLength == Field(b, t + 256, 32))
            && (h.aeth.Some? ==> h.aeth.value.msn == Field(b, t + 168, 24))
            && (h.ieth.Some? ==> h.ieth.value.rKey == Field(b, t + 160, 32))
  {
    hide Field, Deparse, Offset, WellFormed, TransportAt;
    ExtensionOffsets();
    if h.reth.Some? {
      RethAt(h, rest, 2);
      RethAt(h, rest, 3);
    }
    if h.aeth.Some? { AethAt(h, rest, 1); }
    if h.ieth.Some? { IethAt(h, rest, 0); }
  }

  lemma {:induction false} OperationAt(h: Headers, rest: seq<bool>)
    requires WellFormed(h) && h.udp.Some?
    ensures h.bth.Some? && Field(Deparse(h) + rest, TransportAt(h) + 67, 5) == h.bth.value.op
  {
    hide Field, Deparse, Offset, WellFormed, TransportAt;
    TransportOffsets();
    BthAt(h, rest, 1);
  }

  lemma {:induction false} ForwardByOperation(h: Headers, m: Metadata)
    requires h.udp.Some? && (h.ipv6.None? ==> h.ipv4.Some?) && h.bth.Some? && ExtensionShape(h, h.bth.value.op)
    ensures var o, op := Forward(h, m), h.bth.value.op;
            && (op in RETH_OPS ==> h.reth.Some? && o.rKey == h.reth.value.rKey && o.dmaLength == h.reth.value.dmaLength)
            && (op in IETH_OPS ==> h.ieth.Some? && o.rKey == h.ieth.value.rKey)
            && (op in AETH_OPS ==> h.aeth.Some? && o.msn == h.aeth.value.msn)
            && (op !in RETH_OPS ==> o.dmaLength == 0 && (op !in IETH_OPS ==> o.rKey == 0))
            && (op !in AETH_OPS ==> o.msn == 0)
  {
    hide RethFits, AethFits, IethFits, ImmDtFits;
  }

  /** Key, length and message number come from the extension header the opcode announces, and
    * are zero without one. */
  lemma {:induction false} ExtensionFromWire(b: seq<bool>, m: Metadata)
    requires Parse(b).Accepted? && IsUdpOnWire(b)
    ensures var h := Parse(b).hdr;
            && (h.udp.Some? && h.ipv6.None? ==> h.ipv4.Some?)
            && var o, t := Forward(h, m), TransportOnWire(b);
               var op := Field(b, t + 67, 5);
            && o.rKey == (if op in RETH_OPS then Field(b, t + 224, 32)
                          else if op in IETH_OPS then Field(b, t + 160, 32) else 0)
            && o.dmaLength == (if op in RETH_OPS then Field(b, t + 256, 32) else 0)
            && o.msn == (if op in AETH_OPS then Field(b, t + 168, 24) else 0)
  {
    hide *;
    ParseSound(b);
    ClassifiesExactly(b, m);
    var h, rest := Parse(b).hdr, Parse(b).rest;
    PositionsOnWire(h, rest);
    TransportParts(h);
    ForwardByOperation(h, m);
    OperationAt(h, rest);
    ExtensionFields(h, rest);
  }
}
