/** The packet parser, the metadata it fills in and the deparser. Each parser state is a
  * function of the headers extracted so far and the bits left. */
module PacketParser {
  import opened Basics
  import opened BitCodec

  const ETH_VLAN := 0x8100
  const ETH_IPV4 := 0x0800
  const ETH_IPV6 := 0x86DD
  const IPPROTO_UDP := 0x11

  // Operations that carry each extended transport header.
  const WRITE_ONLY_IMM := 0x0b
  const RETH_OPS := {0x06, 0x0a, WRITE_ONLY_IMM, 0x0c}
  const AETH_OPS := {0x0d, 0x0f, 0x10, 0x11}
  const IETH_OPS := {0x16, 0x17}
  const IMMDT_OPS := {0x03, 0x05, 0x09}

  datatype Eth = Eth(dst: nat, src: nat, typ: nat)
  datatype Vlan = Vlan(pcp: nat, cfi: nat, vid: nat, tpid: nat)
  datatype Ipv4 = Ipv4(version: nat, ihl: nat, dscp: nat, ecn: nat, len: nat, id: nat, flags: nat,
                       frag: nat, ttl: nat, proto: nat, chksum: nat, src: nat, dst: nat)
  datatype Ipv6 = Ipv6(version: nat, priority: nat, flowLabel: nat, length: nat, protocol: nat,
                       hopLimit: nat, src: nat, dst: nat)
  datatype Udp = Udp(sport: nat, dport: nat, len: nat, chksum: nat)
  datatype Bth = Bth(connType: nat, op: nat, se: nat, migReq: nat, padding: nat, tver: nat, pKey: nat,
                     resv1: nat, destQp: nat, ackReq: nat, resv2: nat, psn: nat)
  datatype Reth = Reth(virHighAddr: nat, virLowAddr: nat, rKey: nat, dmaLength: nat)
  datatype Aeth = Aeth(syndrome: nat, msn: nat)
  datatype ImmDt = ImmDt(immData: nat)
  datatype Ieth = Ieth(rKey: nat)

  const ETH_LAYOUT: Layout := [48, 48, 16]
  const VLAN_LAYOUT: Layout := [3, 1, 12, 16]
  const IPV4_LAYOUT: Layout := [4, 4, 6, 2, 16, 16, 3, 13, 8, 8, 16, 32, 32]
  const IPV6_LAYOUT: Layout := [4, 8, 20, 16, 8, 8, 128, 128]
  const UDP_LAYOUT: Layout := [16, 16, 16, 16]
  const BTH_LAYOUT: Layout := [3, 5, 1, 1, 2, 4, 16, 8, 24, 1, 7, 24]
  const RETH_LAYOUT: Layout := [32, 32, 32, 32]
  const AETH_LAYOUT: Layout := [8, 24]
  const IMMDT_LAYOUT: Layout := [32]
  const IETH_LAYOUT: Layout := [32]

  function EthFields(h: Eth): seq<nat> { [h.dst, h.src, h.typ] }
  function VlanFields(h: Vlan): seq<nat> { [h.pcp, h.cfi, h.vid, h.tpid] }
  function Ipv4Fields(h: Ipv4): seq<nat> {
    [h.version, h.ihl, h.dscp, h.ecn, h.len, h.id, h.flags, h.frag, h.ttl, h.proto, h.chksum, h.src, h.dst]
  }
  function Ipv6Fields(h: Ipv6): seq<nat> {
    [h.version, h.priority, h.flowLabel, h.length, h.protocol, h.hopLimit, h.src, h.dst]
  }
  function UdpFields(h: Udp): seq<nat> { [h.sport, h.dport, h.len, h.chksum] }
  function BthFields(h: Bth): seq<nat> {
    [h.connType, h.op, h.se, h.migReq, h.padding, h.tver, h.pKey, h.resv1, h.destQp, h.ackReq, h.resv2, h.psn]
  }
  function RethFields(h: Reth): seq<nat> { [h.virHighAddr, h.virLowAddr, h.rKey, h.dmaLength] }
  function AethFields(h: Aeth): seq<nat> { [h.syndrome, h.msn] }
  function ImmDtFields(h: ImmDt): seq<nat> { [h.immData] }
  function IethFields(h: Ieth): seq<nat> { [h.rKey] }

  /** The headers of interest; an absent header is not valid. */
  datatype Headers = Headers(
    eth: Option<Eth>, vlan: seq<Vlan>, ipv4: Option<Ipv4>, ipv4Opt: Option<seq<bool>>, ipv6: Option<Ipv6>,
    udp: Option<Udp>, bth: Option<Bth>, reth: Option<Reth>, aeth: Option<Aeth>, immdt: Option<ImmDt>,
    ieth: Option<Ieth>)

  const NOTHING := Headers(None, [], None, None, None, None, None, None, None, None, None)

  datatype Error = PacketTooShort | StackOutOfBounds | HeaderTooShort | InvalidIpPacket
  datatype Outcome = Accepted(hdr: Headers, rest: seq<bool>) | Rejected(error: Error)

  // -------- extraction, header by header --------

  function EthOf(f: seq<nat>): Eth requires |f| == 3 { Eth(f[0], f[1], f[2]) }
  function VlanOf(f: seq<nat>): Vlan requires |f| == 4 { Vlan(f[0], f[1], f[2], f[3]) }
  function Ipv4Of(f: seq<nat>): Ipv4
    requires |f| == 13
  {
    Ipv4(f[0], f[1], f[2], f[3], f[4], f[5], f[6], f[7], f[8], f[9], f[10], f[11], f[12])
  }
  function Ipv6Of(f: seq<nat>): Ipv6 requires |f| == 8 { Ipv6(f[0], f[1], f[2], f[3], f[4], f[5], f[6], f[7]) }
  function UdpOf(f: seq<nat>): Udp requires |f| == 4 { Udp(f[0], f[1], f[2], f[3]) }
  function BthOf(f: seq<nat>): Bth
    requires |f| == 12
  {
    Bth(f[0], f[1], f[2], f[3], f[4], f[5], f[6], f[7], f[8], f[9], f[10], f[11])
  }
  function RethOf(f: seq<nat>): Reth requires |f| == 4 { Reth(f[0], f[1], f[2], f[3]) }
  function AethOf(f: seq<nat>): Aeth requires |f| == 2 { Aeth(f[0], f[1]) }
  function ImmDtOf(f: seq<nat>): ImmDt requires |f| == 1 { ImmDt(f[0]) }
  function IethOf(f: seq<nat>): Ieth requires |f| == 1 { Ieth(f[0]) }

  function GetEth(b: seq<bool>): Option<(Eth, seq<bool>)> {
    match Extract(ETH_LAYOUT, b)
    case None => None
    case Some((f, r)) => Some((EthOf(f), r))
  }
  function GetVlan(b: seq<bool>): Option<(Vlan, seq<bool>)> {
    match Extract(VLAN_LAYOUT, b)
    case None => None
    case Some((f, r)) => Some((VlanOf(f), r))
  }
  function GetIpv4(b: seq<bool>): Option<(Ipv4, seq<bool>)> {
    match Extract(IPV4_LAYOUT, b)
    case None => None
    case Some((f, r)) => Some((Ipv4Of(f), r))
  }
  function GetIpv6(b: seq<bool>): Option<(Ipv6, seq<bool>)> {
    match Extract(IPV6_LAYOUT, b)
    case None => None
    case Some((f, r)) => Some((Ipv6Of(f), r))
  }
  function GetUdp(b: seq<bool>): Option<(Udp, seq<bool>)> {
    match Extract(UDP_LAYOUT, b)
    case None => None
    case Some((f, r)) => Some((UdpOf(f), r))
  }
  function GetBth(b: seq<bool>): Option<(Bth, seq<bool>)> {
    match Extract(BTH_LAYOUT, b)
    case None => None
    case Some((f, r)) => Some((BthOf(f), r))
  }
  function GetReth(b: seq<bool>): Option<(Reth, seq<bool>)> {
    match Extract(RETH_LAYOUT, b)
    case None => None
    case Some((f, r)) => Some((RethOf(f), r))
  }
  function GetAeth(b: seq<bool>): Option<(Aeth, seq<bool>)> {
    match Extract(AETH_LAYOUT, b)
    case None => None
    case Some((f, r)) => Some((AethOf(f), r))
  }
  function GetImmDt(b: seq<bool>): Option<(ImmDt, seq<bool>)> {
    match Extract(IMMDT_LAYOUT, b)
    case None => None
    case Some((f, r)) => Some((ImmDtOf(f), r))
  }
  function GetIeth(b: seq<bool>): Option<(Ieth, seq<bool>)> {
    match Extract(IETH_LAYOUT, b)
    case None => None
    case Some((f, r)) => Some((IethOf(f), r))
  }

  // -------- emission and exactness of extraction, header by header --------

  function PutEth(h: Eth): seq<bool> { Pack(ETH_LAYOUT, EthFields(h)) }
  predicate EthFits(h: Eth) { Fits(ETH_LAYOUT, EthFields(h)) }
  function PutVlan(h: Vlan): seq<bool> { Pack(VLAN_LAYOUT, VlanFields(h)) }
  predicate VlanFits(h: Vlan) { Fits(VLAN_LAYOUT, VlanFields(h)) }
  function PutIpv4(h: Ipv4): seq<bool> { Pack(IPV4_LAYOUT, Ipv4Fields(h)) }
  predicate Ipv4Fits(h: Ipv4) { Fits(IPV4_LAYOUT, Ipv4Fields(h)) }
  function PutIpv6(h: Ipv6): seq<bool> { Pack(IPV6_LAYOUT, Ipv6Fields(h)) }
  predicate Ipv6Fits(h: Ipv6) { Fits(IPV6_LAYOUT, Ipv6Fields(h)) }
  function PutUdp(h: Udp): seq<bool> { Pack(UDP_LAYOUT, UdpFields(h)) }
  predicate UdpFits(h: Udp) { Fits(UDP_LAYOUT, UdpFields(h)) }
  function PutBth(h: Bth): seq<bool> { Pack(BTH_LAYOUT, BthFields(h)) }
  predicate BthFits(h: Bth) { Fits(BTH_LAYOUT, BthFields(h)) }
  function PutReth(h: Reth): seq<bool> { Pack(RETH_LAYOUT, RethFields(h)) }
  predicate RethFits(h: Reth) { Fits(RETH_LAYOUT, RethFields(h)) }
  function PutAeth(h: Aeth): seq<bool> { Pack(AETH_LAYOUT, AethFields(h)) }
  predicate AethFits(h: Aeth) { Fits(AETH_LAYOUT, AethFields(h)) }
  function PutImmDt(h: ImmDt): seq<bool> { Pack(IMMDT_LAYOUT, ImmDtFields(h)) }
  predicate ImmDtFits(h: ImmDt) { Fits(IMMDT_LAYOUT, ImmDtFields(h)) }
  function PutIeth(h: Ieth): seq<bool> { Pack(IETH_LAYOUT, IethFields(h)) }
  predicate IethFits(h: Ieth) { Fits(IETH_LAYOUT, IethFields(h)) }

  lemma {:induction false} EthIff(b: seq<bool>, h: Eth, r: seq<bool>)
    ensures GetEth(b) == Some((h, r)) <==> EthFits(h) && b == PutEth(h) + r
  {
    ExtractIff(ETH_LAYOUT, b, EthFields(h), r);
    match Extract(ETH_LAYOUT, b)
    case None =>
    case Some((f, q)) => assert EthFields(EthOf(f)) == f;
  }

  lemma {:induction false} VlanIff(b: seq<bool>, h: Vlan, r: seq<bool>)
    ensures GetVlan(b) == Some((h, r)) <==> VlanFits(h) && b == PutVlan(h) + r
  {
    ExtractIff(VLAN_LAYOUT, b, VlanFields(h), r);
    match Extract(VLAN_LAYOUT, b)
    case None =>
    case Some((f, q)) => assert VlanFields(VlanOf(f)) == f;
  }

  lemma {:induction false} Ipv4Repack(f: seq<nat>)
    requires |f| == 13
    ensures Ipv4Fields(Ipv4Of(f)) == f
  {
  }

  lemma {:induction false} Ipv4Iff(b: seq<bool>, h: Ipv4, r: seq<bool>)
    ensures GetIpv4(b) == Some((h, r)) <==> Ipv4Fits(h) && b == PutIpv4(h) + r
  {
    ExtractIff(IPV4_LAYOUT, b, Ipv4Fields(h), r);
    match Extract(IPV4_LAYOUT, b)
    case None =>
    case Some((f, q)) => Ipv4Repack(f);
  }

  lemma {:induction false} Ipv6Repack(f: seq<nat>)
    requires |f| == 8
    ensures Ipv6Fields(Ipv6Of(f)) == f
  {
  }

  lemma {:induction false} Ipv6Iff(b: seq<bool>, h: Ipv6, r: seq<bool>)
    ensures GetIpv6(b) == Some((h, r)) <==> Ipv6Fits(h) && b == PutIpv6(h) + r
  {
    ExtractIff(IPV6_LAYOUT, b, Ipv6Fields(h), r);
    match Extract(IPV6_LAYOUT, b)
    case None =>
    case Some((f, q)) => Ipv6Repack(f);
  }

  lemma {:induction false} UdpIff(b: seq<bool>, h: Udp, r: seq<bool>)
    ensures GetUdp(b) == Some((h, r)) <==> UdpFits(h) && b == PutUdp(h) + r
  {
    ExtractIff(UDP_LAYOUT, b, UdpFields(h), r);
    match Extract(UDP_LAYOUT, b)
    case None =>
    case Some((f, q)) => assert UdpFields(UdpOf(f)) == f;
  }

  lemma {:induction false} BthRepack(f: seq<nat>)
    requires |f| == 12
    ensures BthFields(BthOf(f)) == f
  {
  }

  lemma {:induction false} BthIff(b: seq<bool>, h: Bth, r: seq<bool>)
    ensures GetBth(b) == Some((h, r)) <==> BthFits(h) && b == PutBth(h) + r
  {
    ExtractIff(BTH_LAYOUT, b, BthFields(h), r);
    match Extract(BTH_LAYOUT, b)
    case None =>
    case Some((f, q)) => BthRepack(f);
  }

  lemma {:induction false} RethIff(b: seq<bool>, h: Reth, r: seq<bool>)
    ensures GetReth(b) == Some((h, r)) <==> RethFits(h) && b == PutReth(h) + r
  {
    ExtractIff(RETH_LAYOUT, b, RethFields(h), r);
    match Extract(RETH_LAYOUT, b)
    case None =>
    case Some((f, q)) => assert RethFields(RethOf(f)) == f;
  }

  lemma {:induction false} AethIff(b: seq<bool>, h: Aeth, r: seq<bool>)
    ensures GetAeth(b) == Some((h, r)) <==> AethFits(h) && b == PutAeth(h) + r
  {
    ExtractIff(AETH_LAYOUT, b, AethFields(h), r);
    match Extract(AETH_LAYOUT, b)
    case None =>
    case Some((f, q)) => assert AethFields(AethOf(f)) == f;
  }

  lemma {:induction false} ImmDtIff(b: seq<bool>, h: ImmDt, r: seq<bool>)
    ensures GetImmDt(b) == Some((h, r)) <==> ImmDtFits(h) && b == PutImmDt(h) + r
  {
    ExtractIff(IMMDT_LAYOUT, b, ImmDtFields(h), r);
    match Extract(IMMDT_LAYOUT, b)
    case None =>
    case Some((f, q)) => assert ImmDtFields(ImmDtOf(f)) == f;
  }

  lemma {:induction false} IethIff(b: seq<bool>, h: Ieth, r: seq<bool>)
    ensures GetIeth(b) == Some((h, r)) <==> IethFits(h) && b == PutIeth(h) + r
  {
    ExtractIff(IETH_LAYOUT, b, IethFields(h), r);
    match Extract(IETH_LAYOUT, b)
    case None =>
    case Some((f, q)) => assert IethFields(IethOf(f)) == f;
  }

  // -------- the parser states --------

  function ParseImmDt(h: Headers, b: seq<bool>): Outcome {
    match GetImmDt(b)
    case None => Rejected(PacketTooShort)
    case Some((x, r)) => Accepted(h.(immdt := Some(x)), r)
  }

  function ParseIeth(h: Headers, b: seq<bool>): Outcome {
    match GetIeth(b)
    case None => Rejected(PacketTooShort)
    case Some((x, r)) => Accepted(h.(ieth := Some(x)), r)
  }

  function ParseAeth(h: Headers, b: seq<bool>): Outcome {
    match GetAeth(b)
    case None => Rejected(PacketTooShort)
    case Some((x, r)) => Accepted(h.(aeth := Some(x)), r)
  }

  function ParseReth(h: Headers, b: seq<bool>, op: nat): Outcome {
    match GetReth(b)
    case None => Rejected(PacketTooShort)
    case Some((x, r)) =>
      if op == WRITE_ONLY_IMM then ParseImmDt(h.(reth := Some(x)), r)
      else Accepted(h.(reth := Some(x)), r)
  }

  function SelectOp(h: Headers, b: seq<bool>, op: nat): Outcome {
    if op in RETH_OPS then ParseReth(h, b, op)
    else if op in AETH_OPS then ParseAeth(h, b)
    else if op in IETH_OPS then ParseIeth(h, b)
    else if op in IMMDT_OPS then ParseImmDt(h, b)
    else Accepted(h, b)
  }

  function ParseUdp(h: Headers, b: seq<bool>): Outcome {
    match GetUdp(b)
    case None => Rejected(PacketTooShort)
    case Some((u, r)) =>
      match GetBth(r)
      case None => Rejected(PacketTooShort)
      case Some((t, q)) => SelectOp(h.(udp := Some(u), bth := Some(t)), q, t.op)
  }

  function Dispatch(h: Headers, b: seq<bool>, proto: nat): Outcome {
    if proto == IPPROTO_UDP then ParseUdp(h, b) else Accepted(h, b)
  }

  /** The length of the options as the parser computes it, in 32-bit arithmetic: a header
    * length below five wraps to an impossible size. */
  function OptionBits(ihl: nat): nat {
    ((ihl + 0x1_0000_0000 - 5) % 0x1_0000_0000) * 32 % 0x1_0000_0000
  }

  function ParseIpv4Options(h: Headers, b: seq<bool>, ip: Ipv4): Outcome
    requires ip.ihl < 16
  {
    var n := OptionBits(ip.ihl);
    if n > 320 then Rejected(HeaderTooShort)
    else if |b| < n then Rejected(PacketTooShort)
    else Dispatch(h.(ipv4Opt := Some(b[..n])), b[n..], ip.proto)
  }

  function ParseIpv4(h: Headers, b: seq<bool>): Outcome {
    match GetIpv4(b)
    case None => Rejected(PacketTooShort)
    case Some((ip, r)) =>
      Ipv4Iff(b, ip, r);
      assert ip.ihl < 16 by { assert Ipv4Fields(ip)[1] < Arith.Pow2(IPV4_LAYOUT[1]); }
      if !(ip.version == 4 && ip.len >= 5) then Rejected(InvalidIpPacket)
      else if ip.ihl == 5 then Dispatch(h.(ipv4 := Some(ip)), r, ip.proto)
      else ParseIpv4Options(h.(ipv4 := Some(ip)), r, ip)
  }

  function ParseIpv6(h: Headers, b: seq<bool>): Outcome {
    match GetIpv6(b)
    case None => Rejected(PacketTooShort)
    case Some((ip, r)) =>
      if ip.version != 6 then Rejected(InvalidIpPacket)
      else Dispatch(h.(ipv6 := Some(ip)), r, ip.protocol)
  }

  /** The choice on an ethertype, made after the Ethernet header and after each tag. */
  function SelectType(h: Headers, b: seq<bool>, t: nat): Outcome
    decreases |b|, 1
  {
    if t == ETH_VLAN then ParseVlan(h, b)
    else if t == ETH_IPV4 then ParseIpv4(h, b)
    else if t == ETH_IPV6 then ParseIpv6(h, b)
    else Accepted(h, b)
  }

  function ParseVlan(h: Headers, b: seq<bool>): Outcome
    decreases |b|, 0
  {
    if |h.vlan| >= 2 then Rejected(StackOutOfBounds)
    else
      match GetVlan(b)
      case None => Rejected(PacketTooShort)
      case Some((v, r)) => SelectType(h.(vlan := h.vlan + [v]), r, v.tpid)
  }

  /** The start state. */
  function Parse(b: seq<bool>): Outcome {
    match GetEth(b)
    case None => Rejected(PacketTooShort)
    case Some((e, r)) => SelectType(NOTHING.(eth := Some(e)), r, e.typ)
  }

  // -------- the deparser --------

  function ExtensionBits(h: Headers): seq<bool> {
    (if h.reth.Some? then PutReth(h.reth.value) else []) +
    ((if h.aeth.Some? then PutAeth(h.aeth.value) else []) +
     ((if h.immdt.Some? then PutImmDt(h.immdt.value) else []) +
      (if h.ieth.Some? then PutIeth(h.ieth.value) else [])))
  }

  function TransportBits(h: Headers): seq<bool> {
    (if h.udp.Some? then PutUdp(h.udp.value) else []) +
    ((if h.bth.Some? then PutBth(h.bth.value) else []) + ExtensionBits(h))
  }

  function NetworkBits(h: Headers): seq<bool> {
    (if h.ipv4.Some? then PutIpv4(h.ipv4.value) else []) +
    ((if h.ipv4Opt.Some? then h.ipv4Opt.value else []) +
     ((if h.ipv6.Some? then PutIpv6(h.ipv6.value) else []) + TransportBits(h)))
  }

  function TagBits(tags: seq<Vlan>): seq<bool>
    decreases |tags|
  {
    if tags == [] then [] else PutVlan(tags[0]) + TagBits(tags[1..])
  }

  /** The headers of a packet, emitted in the deparser's order. */
  function Deparse(h: Headers): seq<bool> {
    (if h.eth.Some? then PutEth(h.eth.value) else []) + (TagBits(h.vlan) + NetworkBits(h))
  }

  // -------- well-formed header sets, stated without the parser --------

  predicate ExtensionShape(h: Headers, op: nat) {
    && (h.reth.Some? <==> op in RETH_OPS) && (h.reth.Some? ==> RethFits(h.reth.value))
    && (h.aeth.Some? <==> op in AETH_OPS) && (h.aeth.Some? ==> AethFits(h.aeth.value))
    && (h.ieth.Some? <==> op in IETH_OPS) && (h.ieth.Some? ==> IethFits(h.ieth.value))
    && (h.immdt.Some? <==> op in IMMDT_OPS || op == WRITE_ONLY_IMM)
    && (h.immdt.Some? ==> ImmDtFits(h.immdt.value))
  }

  predicate NoTransport(h: Headers) {
    h.udp.None? && h.bth.None? && h.reth.None? && h.aeth.None? && h.immdt.None? && h.ieth.None?
  }

  /** UDP always brings a base transport header with it, whatever the ports say. */
  predicate TransportShape(h: Headers, proto: nat) {
    if proto == IPPROTO_UDP then
      && h.udp.Some? && UdpFits(h.udp.value)
      && h.bth.Some? && BthFits(h.bth.value) && ExtensionShape(h, h.bth.value.op)
    else NoTransport(h)
  }

  predicate Ipv4Shape(h: Headers) {
    && h.ipv6.None? && h.ipv4.Some? && Ipv4Fits(h.ipv4.value)
    && var ip := h.ipv4.value;
    && ip.version == 4 && ip.len >= 5 && 5 <= ip.ihl <= 15
    && (h.ipv4Opt.Some? <==> ip.ihl != 5)
    && (h.ipv4Opt.Some? ==> |h.ipv4Opt.value| == (ip.ihl - 5) * 32)
    && TransportShape(h, ip.proto)
  }

  predicate Ipv6Shape(h: Headers) {
    && h.ipv4.None? && h.ipv4Opt.None?
    && h.ipv6.Some? && Ipv6Fits(h.ipv6.value) && h.ipv6.value.version == 6
    && TransportShape(h, h.ipv6.value.protocol)
  }

  predicate NetworkShape(h: Headers, t: nat) {
    if t == ETH_IPV4 then Ipv4Shape(h)
    else if t == ETH_IPV6 then Ipv6Shape(h)
    else h.ipv4.None? && h.ipv4Opt.None? && h.ipv6.None? && NoTransport(h)
  }

  /** Following ethertype t come exactly the given tags, chained by their type fields. */
  predicate TagShape(t: nat, tags: seq<Vlan>)
    decreases |tags|
  {
    if tags == [] then t != ETH_VLAN
    else t == ETH_VLAN && VlanFits(tags[0]) && TagShape(tags[0].tpid, tags[1..])
  }

  /** The ethertype that announces the network header. */
  function FinalType(t: nat, tags: seq<Vlan>): nat {
    if tags == [] then t else tags[|tags| - 1].tpid
  }

  predicate WellFormed(h: Headers) {
    && h.eth.Some? && EthFits(h.eth.value)
    && |h.vlan| <= 2 && TagShape(h.eth.value.typ, h.vlan)
    && NetworkShape(h, FinalType(h.eth.value.typ, h.vlan))
  }

  // -------- each state inverts the deparser, exactly --------

  /** Only the transport headers may differ. */
  predicate SameNetwork(a: Headers, b: Headers) {
    a.eth == b.eth && a.vlan == b.vlan && a.ipv4 == b.ipv4 && a.ipv4Opt == b.ipv4Opt && a.ipv6 == b.ipv6
  }

  lemma {:induction false} ParseImmDtIff(h0: Headers, b: seq<bool>, h: Headers, rest: seq<bool>)
    ensures ParseImmDt(h0, b) == Accepted(h, rest) <==>
            h.immdt.Some? && h == h0.(immdt := h.immdt) && ImmDtFits(h.immdt.value) &&
            b == PutImmDt(h.immdt.value) + rest
  {
    hide Pack, Fits, Extract, Width;
    match GetImmDt(b) {
      case None =>
      case Some((x, r)) => ImmDtIff(b, x, r);
    }
    if h.immdt.Some? { ImmDtIff(b, h.immdt.value, rest); }
  }

  lemma {:induction false} SelectOpSound(h0: Headers, b: seq<bool>, op: nat)
    requires h0.reth.None? && h0.aeth.None? && h0.immdt.None? && h0.ieth.None?
    ensures match SelectOp(h0, b, op)
            case Rejected(_) => true
            case Accepted(h, rest) =>
              && SameNetwork(h, h0) && h.udp == h0.udp && h.bth == h0.bth
              && ExtensionShape(h, op) && b == ExtensionBits(h) + rest
  {
    hide Pack, Fits, Extract, Width;
    match SelectOp(h0, b, op)
    case Rejected(_) =>
    case Accepted(h, rest) =>
      if op in RETH_OPS {
        var (x, r) := GetReth(b).value;
        RethIff(b, x, r);
        if op == WRITE_ONLY_IMM {
          ParseImmDtIff(h0.(reth := Some(x)), r, h, rest);
          assert ExtensionBits(h) == PutReth(x) + PutImmDt(h.immdt.value);
        } else {
          assert ExtensionBits(h) == PutReth(x);
        }
      } else if op in AETH_OPS {
        AethIff(b, h.aeth.value, rest);
        assert ExtensionBits(h) == PutAeth(h.aeth.value);
      } else if op in IETH_OPS {
        IethIff(b, h.ieth.value, rest);
        assert ExtensionBits(h) == PutIeth(h.ieth.value);
      } else if op in IMMDT_OPS {
        ParseImmDtIff(h0, b, h, rest);
        assert ExtensionBits(h) == PutImmDt(h.immdt.value);
      } else {
        assert ExtensionBits(h) == [];
      }
  }

  lemma {:induction false} SelectOpComplete(h0: Headers, op: nat, h: Headers, rest: seq<bool>)
    requires h0 == h.(reth := None, aeth := None, immdt := None, ieth := None) && ExtensionShape(h, op)
    ensures SelectOp(h0, ExtensionBits(h) + rest, op) == Accepted(h, rest)
  {
    hide Pack, Fits, Extract, Width;
    var b := ExtensionBits(h) + rest;
    if op in RETH_OPS {
      var r := (if op == WRITE_ONLY_IMM then PutImmDt(h.immdt.value) else []) + rest;
      assert b == PutReth(h.reth.value) + r;
      RethIff(b, h.reth.value, r);
      if op == WRITE_ONLY_IMM {
        ParseImmDtIff(h0.(reth := h.reth), r, h, rest);
      }
    } else if op in AETH_OPS {
      assert b == PutAeth(h.aeth.value) + rest;
      AethIff(b, h.aeth.value, rest);
    } else if op in IETH_OPS {
      assert b == PutIeth(h.ieth.value) + rest;
      IethIff(b, h.ieth.value, rest);
    } else if op in IMMDT_OPS {
      assert b == PutImmDt(h.immdt.value) + rest;
      ParseImmDtIff(h0, b, h, rest);
    }
  }

  function DropTransport(h: Headers): Headers {
    h.(udp := None, bth := None, reth := None, aeth := None, immdt := None, ieth := None)
  }

  lemma {:induction false} DispatchSound(h0: Headers, b: seq<bool>, proto: nat)
    requires NoTransport(h0)
    ensures match Dispatch(h0, b, proto)
            case Rejected(_) => true
            case Accepted(h, rest) =>
              h0 == DropTransport(h) && TransportShape(h, proto) && b == TransportBits(h) + rest
  {
    hide Pack, Fits, Extract, Width;
    match Dispatch(h0, b, proto)
    case Rejected(_) =>
    case Accepted(h, rest) =>
      if proto == IPPROTO_UDP {
        var (u, r) := GetUdp(b).value;
        var (t, q) := GetBth(r).value;
        UdpIff(b, u, r);
        BthIff(r, t, q);
        SelectOpSound(h0.(udp := Some(u), bth := Some(t)), q, t.op);
        assert TransportBits(h) + rest == PutUdp(u) + (PutBth(t) + (ExtensionBits(h) + rest));
      } else {
        assert TransportBits(h) == [];
      }
  }

  lemma {:induction false} DispatchComplete(h: Headers, proto: nat, rest: seq<bool>)
    requires TransportShape(h, proto)
    ensures Dispatch(DropTransport(h), TransportBits(h) + rest, proto) == Accepted(h, rest)
  {
    hide Pack, Fits, Extract, Width;
    var b := TransportBits(h) + rest;
    if proto == IPPROTO_UDP {
      var q := ExtensionBits(h) + rest;
      var r := PutBth(h.bth.value) + q;
      assert b == PutUdp(h.udp.value) + r;
      UdpIff(b, h.udp.value, r);
      BthIff(r, h.bth.value, q);
      SelectOpComplete(DropTransport(h).(udp := h.udp, bth := h.bth), h.bth.value.op, h, rest);
    } else {
      assert TransportBits(h) == [];
      assert b == rest;
    }
  }

  function DropNetwork(h: Headers): Headers {
    DropTransport(h).(ipv4 := None, ipv4Opt := None, ipv6 := None)
  }

  /** The 32-bit expression is the number of option bits exactly when the header length is
    * at least five, and is refused otherwise. */
  lemma {:induction false} OptionBitsExact(ihl: nat)
    requires ihl < 16
    ensures OptionBits(ihl) <= 320 <==> ihl >= 5
    ensures ihl >= 5 ==> OptionBits(ihl) == (ihl - 5) * 32
  {
  }

  lemma {:induction false} IhlInRange(ip: Ipv4)
    requires Ipv4Fits(ip)
    ensures ip.ihl < 16
  {
    assert Ipv4Fields(ip)[1] < Arith.Pow2(IPV4_LAYOUT[1]);
  }

  lemma {:induction false} Ipv4OptionsSound(h0: Headers, b: seq<bool>, ip: Ipv4)
    requires NoTransport(h0) && h0.ipv4Opt.None? && ip.ihl < 16
    ensures match ParseIpv4Options(h0, b, ip)
            case Rejected(_) => true
            case Accepted(h, rest) =>
              && h0 == DropTransport(h).(ipv4Opt := None) && TransportShape(h, ip.proto)
              && ip.ihl >= 5 && h.ipv4Opt.Some? && |h.ipv4Opt.value| == (ip.ihl - 5) * 32
              && b == h.ipv4Opt.value + (TransportBits(h) + rest)
  {
    hide Pack, Fits, Extract, Width, OptionBits, TransportShape, TransportBits, Dispatch;
    OptionBitsExact(ip.ihl);
    var n := OptionBits(ip.ihl);
    if n <= 320 && n <= |b| {
      DispatchSound(h0.(ipv4Opt := Some(b[..n])), b[n..], ip.proto);
      assert b == b[..n] + b[n..];
    }
  }

  lemma {:induction false} Ipv4Sound(h0: Headers, b: seq<bool>)
    requires NoTransport(h0) && h0.ipv4.None? && h0.ipv4Opt.None? && h0.ipv6.None?
    ensures match ParseIpv4(h0, b)
            case Rejected(_) => true
            case Accepted(h, rest) =>
              h0 == DropNetwork(h) && Ipv4Shape(h) && b == NetworkBits(h) + rest
  {
    hide Pack, Fits, Extract, Width, ParseIpv4Options, TransportShape, TransportBits, Dispatch;
    match ParseIpv4(h0, b)
    case Rejected(_) =>
    case Accepted(h, rest) =>
      var (ip, r) := GetIpv4(b).value;
      Ipv4Iff(b, ip, r);
      IhlInRange(ip);
      var h1 := h0.(ipv4 := Some(ip));
      if ip.ihl == 5 {
        DispatchSound(h1, r, ip.proto);
        assert NetworkBits(h) + rest == PutIpv4(ip) + (TransportBits(h) + rest);
      } else {
        Ipv4OptionsSound(h1, r, ip);
        assert NetworkBits(h) + rest == PutIpv4(ip) + (h.ipv4Opt.value + (TransportBits(h) + rest));
      }
  }

  lemma {:induction false} Ipv4Complete(h: Headers, rest: seq<bool>)
    requires Ipv4Shape(h)
    ensures ParseIpv4(DropNetwork(h), NetworkBits(h) + rest) == Accepted(h, rest)
  {
    hide Pack, Fits, Extract, Width;
    var ip := h.ipv4.value;
    OptionBitsExact(ip.ihl);
    var q := TransportBits(h) + rest;
    var options := if h.ipv4Opt.Some? then h.ipv4Opt.value else [];
    assert NetworkBits(h) + rest == PutIpv4(ip) + (options + q);
    Ipv4Iff(NetworkBits(h) + rest, ip, options + q);
    assert (options + q)[..|options|] == options && (options + q)[|options|..] == q;
    DispatchComplete(h, ip.proto, rest);
    assert DropTransport(h) == DropNetwork(h).(ipv4 := h.ipv4, ipv4Opt := h.ipv4Opt);
  }

  lemma {:induction false} Ipv6Sound(h0: Headers, b: seq<bool>)
    requires NoTransport(h0) && h0.ipv4.None? && h0.ipv4Opt.None? && h0.ipv6.None?
    ensures match ParseIpv6(h0, b)
            case Rejected(_) => true
            case Accepted(h, rest) =>
              h0 == DropNetwork(h) && Ipv6Shape(h) && b == NetworkBits(h) + rest
  {
    hide Pack, Fits, Extract, Width;
    match ParseIpv6(h0, b)
    case Rejected(_) =>
    case Accepted(h, rest) =>
      var (ip, r) := GetIpv6(b).value;
      Ipv6Iff(b, ip, r);
      DispatchSound(h0.(ipv6 := Some(ip)), r, ip.protocol);
      assert NetworkBits(h) + rest == PutIpv6(ip) + (TransportBits(h) + rest);
  }

  lemma {:induction false} Ipv6Complete(h: Headers, rest: seq<bool>)
    requires Ipv6Shape(h)
    ensures ParseIpv6(DropNetwork(h), NetworkBits(h) + rest) == Accepted(h, rest)
  {
    hide Pack, Fits, Extract, Width;
    var ip := h.ipv6.value;
    var q := TransportBits(h) + rest;
    assert NetworkBits(h) + rest == PutIpv6(ip) + q;
    Ipv6Iff(NetworkBits(h) + rest, ip, q);
    DispatchComplete(h, ip.protocol, rest);
    assert DropTransport(h) == DropNetwork(h).(ipv6 := h.ipv6);
  }

  lemma {:induction false} TagTakesBits(b: seq<bool>)
    ensures GetVlan(b).Some? ==> |GetVlan(b).value.1| < |b|
  {
  }

  /** The headers and payload account for the bits read from a state about to select on
    * ethertype t, with some tags behind it. */
  ghost predicate TypeSound(h0: Headers, b: seq<bool>, t: nat, h: Headers, rest: seq<bool>) {
    && h0.vlan <= h.vlan && |h.vlan| <= 2
    && h0 == DropNetwork(h).(vlan := h0.vlan)
    && TagShape(t, h.vlan[|h0.vlan|..])
    && NetworkShape(h, FinalType(t, h.vlan[|h0.vlan|..]))
    && b == TagBits(h.vlan[|h0.vlan|..]) + (NetworkBits(h) + rest)
  }

  /** One more tag in front. */
  lemma {:induction false} TagSound(h0: Headers, v: Vlan, r: seq<bool>, h: Headers, rest: seq<bool>)
    requires VlanFits(v) && TypeSound(h0.(vlan := h0.vlan + [v]), r, v.tpid, h, rest)
    ensures TypeSound(h0, PutVlan(v) + r, ETH_VLAN, h, rest)
  {
    hide Pack, Fits, Width, PutVlan, NetworkShape, NetworkBits;
    var tags := h.vlan[|h0.vlan|..];
    assert tags == [v] + h.vlan[|h0.vlan| + 1..];
    assert tags[1..] == h.vlan[|h0.vlan| + 1..];
    var net := NetworkBits(h) + rest;
    assert PutVlan(v) + (TagBits(tags[1..]) + net) == PutVlan(v) + TagBits(tags[1..]) + net;
  }

  lemma {:induction false} NetworkSound(h0: Headers, b: seq<bool>, t: nat)
    requires h0 == DropNetwork(h0) && |h0.vlan| <= 2 && t != ETH_VLAN
    ensures var o := SelectType(h0, b, t); o.Accepted? ==> TypeSound(h0, b, t, o.hdr, o.rest)
  {
    hide Pack, Fits, Extract, Width;
    if t == ETH_IPV4 {
      Ipv4Sound(h0, b);
    } else if t == ETH_IPV6 {
      Ipv6Sound(h0, b);
    }
  }

  lemma {:induction false} SelectTypeSound(h0: Headers, b: seq<bool>, t: nat)
    requires h0 == DropNetwork(h0) && |h0.vlan| <= 2
    ensures var o := SelectType(h0, b, t); o.Accepted? ==> TypeSound(h0, b, t, o.hdr, o.rest)
    decreases |b|
  {
    hide Pack, Fits, Extract, Width, TypeSound, ParseIpv4, ParseIpv6;
    if t != ETH_VLAN {
      NetworkSound(h0, b, t);
    } else {
      match ParseVlan(h0, b)
      case Rejected(_) =>
      case Accepted(h, rest) =>
        var (v, r) := GetVlan(b).value;
        VlanIff(b, v, r);
        TagTakesBits(b);
        SelectTypeSound(h0.(vlan := h0.vlan + [v]), r, v.tpid);
        TagSound(h0, v, r, h, rest);
    }
  }

  lemma {:induction false} SelectTypeComplete(h: Headers, k: nat, t: nat, rest: seq<bool>)
    requires k <= |h.vlan| <= 2 && TagShape(t, h.vlan[k..]) && NetworkShape(h, FinalType(t, h.vlan[k..]))
    ensures SelectType(DropNetwork(h).(vlan := h.vlan[..k]), TagBits(h.vlan[k..]) + (NetworkBits(h) + rest), t)
            == Accepted(h, rest)
    decreases |h.vlan| - k
  {
    hide Pack, Fits, Extract, Width;
    var tags := h.vlan[k..];
    if k < |h.vlan| {
      var v := h.vlan[k];
      assert tags[1..] == h.vlan[k + 1..];
      var r := TagBits(h.vlan[k + 1..]) + (NetworkBits(h) + rest);
      assert TagBits(tags) + (NetworkBits(h) + rest) == PutVlan(v) + r;
      VlanIff(PutVlan(v) + r, v, r);
      assert h.vlan[..k] + [v] == h.vlan[..k + 1];
      SelectTypeComplete(h, k + 1, v.tpid, rest);
    } else {
      assert h.vlan[..k] == h.vlan && TagBits(tags) + (NetworkBits(h) + rest) == NetworkBits(h) + rest;
      if t == ETH_IPV4 { Ipv4Complete(h, rest); }
      else if t == ETH_IPV6 { Ipv6Complete(h, rest); }
      else { assert NetworkBits(h) + rest == rest; }
    }
  }

  // -------- main results --------

  /** Any packet the parser accepts is the deparse of its headers followed by the payload,
    * bit for bit, and its headers are well formed. */
  lemma {:induction false} ParseSound(b: seq<bool>)
    ensures match Parse(b)
            case Rejected(_) => true
            case Accepted(h, rest) => WellFormed(h) && Deparse(h) + rest == b
  {
    hide Pack, Fits, Extract, Width;
    match Parse(b)
    case Rejected(_) =>
    case Accepted(h, rest) =>
      var (e, r) := GetEth(b).value;
      EthIff(b, e, r);
      SelectTypeSound(NOTHING.(eth := Some(e)), r, e.typ);
      assert h.vlan[0..] == h.vlan;
      assert Deparse(h) + rest == PutEth(e) + (TagBits(h.vlan) + (NetworkBits(h) + rest));
  }

  /** Parsing what the deparser emits for well-formed headers gives back those headers and
    * the payload. */
  lemma {:induction false} ParseComplete(h: Headers, payload: seq<bool>)
    requires WellFormed(h)
    ensures Parse(Deparse(h) + payload) == Accepted(h, payload)
  {
    hide Pack, Fits, Extract, Width;
    var e := h.eth.value;
    var r := TagBits(h.vlan) + (NetworkBits(h) + payload);
    assert Deparse(h) + payload == PutEth(e) + r;
    EthIff(Deparse(h) + payload, e, r);
    assert h.vlan[0..] == h.vlan && h.vlan[..0] == [];
    SelectTypeComplete(h, 0, e.typ, payload);
  }

  /** The accepted packets, exactly. */
  lemma {:induction false} AcceptsExactly(b: seq<bool>)
    ensures Parse(b).Accepted? <==>
            exists h: Headers, payload: seq<bool> :: WellFormed(h) && b == Deparse(h) + payload
  {
    hide Pack, Fits, Extract, Width;
    ParseSound(b);
    if Parse(b).Rejected? {
      forall h: Headers, payload: seq<bool> | WellFormed(h) ensures b != Deparse(h) + payload {
        ParseComplete(h, payload);
      }
    }
  }

  /** A packet determines its headers: no two well-formed header sets share an encoding. */
  lemma {:induction false} HeadersUnambiguous(h: Headers, p: seq<bool>, h': Headers, p': seq<bool>)
    requires WellFormed(h) && WellFormed(h') && Deparse(h) + p == Deparse(h') + p'
    ensures h == h' && p == p'
  {
    hide Pack, Fits, Extract, Width;
    ParseComplete(h, p);
    ParseComplete(h', p');
  }

  /** What acceptance bounds: at most two tags, and an IPv4 header length of 5 to 15 with
    * exactly the option bits it announces. */
  lemma {:induction false} AcceptedBounds(b: seq<bool>)
    requires Parse(b).Accepted?
    ensures var h := Parse(b).hdr;
            && |h.vlan| <= 2
            && (h.ipv4.Some? ==>
                  && 5 <= h.ipv4.value.ihl <= 15
                  && |if h.ipv4Opt.Some? then h.ipv4Opt.value else []| == (h.ipv4.value.ihl - 5) * 32)
  {
    hide Pack, Fits, Extract, Width;
    ParseSound(b);
  }

  // -------- the metadata --------

  /** The metadata the pipeline attaches to an accepted packet. */
  function Forward(h: Headers, m: Metadata): Metadata
    requires h.udp.Some? && h.ipv6.None? ==> h.ipv4.Some?
  {
    if h.udp.None? then
      m.(ipSrc := 0, ipDst := 0, udpSport := 0, udpDport := 0, opcode := 0, dmaLength := 0, rKey := 0,
         se := 0, psn := 0, msn := 0, isRdma := false)
    else
      m.(ipSrc := if h.ipv6.Some? then 6 else h.ipv4.value.src,
         ipDst := if h.ipv6.Some? then 6 else h.ipv4.value.dst,
         udpSport := h.udp.value.sport,
         udpDport := h.udp.value.dport,
         opcode := if h.bth.Some? then h.bth.value.op else 0,
         dmaLength := if h.reth.Some? then h.reth.value.dmaLength else 0,
         rKey := if h.ieth.Some? then h.ieth.value.rKey else if h.reth.Some? then h.reth.value.rKey else 0,
         se := if h.bth.Some? then h.bth.value.se else 0,
         psn := if h.bth.Some? then h.bth.value.psn else 0,
         msn := if h.aeth.Some? then h.aeth.value.msn else 0,
         isRdma := if h.bth.Some? then h.bth.value.connType == 0
                   else h.reth.Some? || h.aeth.Some? || h.ieth.Some?)
  }

  /** An accepted packet is marked RDMA if and only if it has a UDP header and its base
    * transport header asks for connection type 0; the index and length pass through. */
  lemma {:induction false} ClassifiesExactly(b: seq<bool>, m: Metadata)
    requires Parse(b).Accepted?
    ensures var h := Parse(b).hdr;
            && (h.udp.Some? && h.ipv6.None? ==> h.ipv4.Some?)
            && (h.udp.Some? <==> h.bth.Some?)
            && (Forward(h, m).isRdma <==> h.udp.Some? && h.bth.value.connType == 0)
            && Forward(h, m).index == m.index && Forward(h, m).pktlen == m.pktlen
  {
    hide Pack, Fits, Extract, Width;
    ParseSound(b);
  }

  /** The class does not depend on the UDP ports: rewriting the destination port of an
    * accepted packet leaves it accepted and in the same class. */
  lemma {:induction false} PortsDoNotClassify(h: Headers, payload: seq<bool>, port: nat, m: Metadata)
    requires WellFormed(h) && h.udp.Some? && port < 0x10000
    ensures var h' := h.(udp := Some(h.udp.value.(dport := port)));
            && WellFormed(h') && Parse(Deparse(h') + payload) == Accepted(h', payload)
            && Forward(h', m).isRdma == Forward(h, m).isRdma
  {
    hide Pack, Fits, Extract, Width;
    var h' := h.(udp := Some(h.udp.value.(dport := port)));
    UdpPortFits(h.udp.value, port);
    ParseComplete(h', payload);
  }

  lemma {:induction false} UdpPortFits(u: Udp, port: nat)
    requires UdpFits(u) && port < 0x10000
    ensures UdpFits(u.(dport := port))
  {
    SixteenBits(port);
    var f := UdpFields(u);
    assert f[0] < Arith.Pow2(UDP_LAYOUT[0]) && f[2] < Arith.Pow2(UDP_LAYOUT[2]) && f[3] < Arith.Pow2(UDP_LAYOUT[3]);
  }

  lemma {:induction false} SixteenBits(v: nat)
    ensures v < Arith.Pow2(16) <==> v < 0x10000
  {
    assert Arith.Pow2(8) == 0x100;
    Arith.Pow2Add(8, 8);
  }
}
