/** The parser, forwarding and deparser blocks as the pipeline runs them: extraction
  * advances the packet and fills the headers in place, state by state. */
module PacketPipeline {
  import opened Basics
  import opened PacketParser

  class Parser {
    var pkt: seq<bool>
    var hdr: Headers

    constructor (packet: seq<bool>)
      ensures pkt == packet && hdr == NOTHING
    {
      pkt, hdr := packet, NOTHING;
    }

    function Outcome(e: Option<Error>): Outcome
      reads this
    {
      if e.None? then Accepted(hdr, pkt) else Rejected(e.value)
    }

    method Start() returns (e: Option<Error>)
      requires hdr == NOTHING
      modifies this
      ensures Outcome(e) == Parse(old(pkt))
      decreases |pkt|, 3
    {
      var x := GetEth(pkt);
      if x.None? { return Some(PacketTooShort); }
      hdr, pkt := hdr.(eth := Some(x.value.0)), x.value.1;
      assert |pkt| < |old(pkt)| by { EthIff(old(pkt), x.value.0, pkt); }
      e := ByType(hdr.eth.value.typ);
    }

    method ByType(t: nat) returns (e: Option<Error>)
      modifies this
      ensures Outcome(e) == SelectType(old(hdr), old(pkt), t)
      decreases |pkt|, 2
    {
      match t {
        case 0x8100 => e := VlanState();
        case 0x0800 => e := Ipv4State();
        case 0x86DD => e := Ipv6State();
        case _ => e := None;
      }
    }

    method VlanState() returns (e: Option<Error>)
      modifies this
      ensures Outcome(e) == ParseVlan(old(hdr), old(pkt))
      decreases |pkt|, 1
    {
      if |hdr.vlan| >= 2 { return Some(StackOutOfBounds); }
      var x := GetVlan(pkt);
      if x.None? { return Some(PacketTooShort); }
      TagTakesBits(pkt);
      hdr, pkt := hdr.(vlan := hdr.vlan + [x.value.0]), x.value.1;
      e := ByType(hdr.vlan[|hdr.vlan| - 1].tpid);
    }

    method Ipv4State() returns (e: Option<Error>)
      modifies this
      ensures Outcome(e) == ParseIpv4(old(hdr), old(pkt))
      decreases |pkt|, 1
    {
      var x := GetIpv4(pkt);
      if x.None? { return Some(PacketTooShort); }
      var ip := x.value.0;
      Ipv4Iff(pkt, ip, x.value.1);
      IhlInRange(ip);
      hdr, pkt := hdr.(ipv4 := Some(ip)), x.value.1;
      if !(ip.version == 4 && ip.len >= 5) { return Some(InvalidIpPacket); }
      if ip.ihl == 5 {
        e := ByProtocol(ip.proto);
      } else {
        e := Ipv4OptionsState(ip);
      }
    }

    method Ipv4OptionsState(ip: Ipv4) returns (e: Option<Error>)
      requires ip.ihl < 16
      modifies this
      ensures Outcome(e) == ParseIpv4Options(old(hdr), old(pkt), ip)
      decreases 1
    {
      var n := OptionBits(ip.ihl);
      if n > 320 { return Some(HeaderTooShort); }
      if |pkt| < n { return Some(PacketTooShort); }
      hdr, pkt := hdr.(ipv4Opt := Some(pkt[..n])), pkt[n..];
      e := ByProtocol(ip.proto);
    }

    method Ipv6State() returns (e: Option<Error>)
      modifies this
      ensures Outcome(e) == ParseIpv6(old(hdr), old(pkt))
    {
      var x := GetIpv6(pkt);
      if x.None? { return Some(PacketTooShort); }
      hdr, pkt := hdr.(ipv6 := Some(x.value.0)), x.value.1;
      if hdr.ipv6.value.version != 6 { return Some(InvalidIpPacket); }
      e := ByProtocol(hdr.ipv6.value.protocol);
    }

    method ByProtocol(proto: nat) returns (e: Option<Error>)
      modifies this
      ensures Outcome(e) == Dispatch(old(hdr), old(pkt), proto)
    {
      if proto == IPPROTO_UDP {
        e := UdpState();
      } else {
        e := None;
      }
    }

    method UdpState() returns (e: Option<Error>)
      modifies this
      ensures Outcome(e) == ParseUdp(old(hdr), old(pkt))
    {
      var x := GetUdp(pkt);
      if x.None? { return Some(PacketTooShort); }
      hdr, pkt := hdr.(udp := Some(x.value.0)), x.value.1;
      var y := GetBth(pkt);
      if y.None? { return Some(PacketTooShort); }
      hdr, pkt := hdr.(bth := Some(y.value.0)), y.value.1;
      var op := hdr.bth.value.op;
      if op in RETH_OPS { e := RethState(op); }
      else if op in AETH_OPS { e := AethState(); }
      else if op in IETH_OPS { e := IethState(); }
      else if op in IMMDT_OPS { e := ImmDtState(); }
      else { e := None; }
    }

    method RethState(op: nat) returns (e: Option<Error>)
      modifies this
      ensures Outcome(e) == ParseReth(old(hdr), old(pkt), op)
    {
      var x := GetReth(pkt);
      if x.None? { return Some(PacketTooShort); }
      hdr, pkt := hdr.(reth := Some(x.value.0)), x.value.1;
      if op == WRITE_ONLY_IMM { e := ImmDtState(); } else { e := None; }
    }

    method AethState() returns (e: Option<Error>)
      modifies this
      ensures Outcome(e) == ParseAeth(old(hdr), old(pkt))
    {
      var x := GetAeth(pkt);
      if x.None? { return Some(PacketTooShort); }
      hdr, pkt, e := hdr.(aeth := Some(x.value.0)), x.value.1, None;
    }

    method IethState() returns (e: Option<Error>)
      modifies this
      ensures Outcome(e) == ParseIeth(old(hdr), old(pkt))
    {
      var x := GetIeth(pkt);
      if x.None? { return Some(PacketTooShort); }
      hdr, pkt, e := hdr.(ieth := Some(x.value.0)), x.value.1, None;
    }

    method ImmDtState() returns (e: Option<Error>)
      modifies this
      ensures Outcome(e) == ParseImmDt(old(hdr), old(pkt))
    {
      var x := GetImmDt(pkt);
      if x.None? { return Some(PacketTooShort); }
      hdr, pkt, e := hdr.(immdt := Some(x.value.0)), x.value.1, None;
    }
  }

  /** The forwarding block: it clears its locals, overwrites them header by header and
    * copies them out. The last assignment to is_rdma wins. */
  method ForwardBlock(hdr: Headers, meta: Metadata) returns (m: Metadata)
    requires hdr.udp.Some? && hdr.ipv6.None? ==> hdr.ipv4.Some?
    ensures m == Forward(hdr, meta)
  {
    var ipSrc, ipDst, udpSport, udpDport, opcode := 0, 0, 0, 0, 0;
    var dmaLength, rKey, se, psn, msn, isRdma := 0, 0, 0, 0, 0, false;
    if hdr.udp.Some? {
      if hdr.ipv6.Some? {
        ipSrc, ipDst := 6, 6;
      } else {
        ipSrc, ipDst := hdr.ipv4.value.src, hdr.ipv4.value.dst;
      }
      udpSport, udpDport := hdr.udp.value.sport, hdr.udp.value.dport;
      if hdr.reth.Some? {
        rKey, dmaLength, isRdma := hdr.reth.value.rKey, hdr.reth.value.dmaLength, true;
      }
      if hdr.aeth.Some? {
        msn, isRdma := hdr.aeth.value.msn, true;
      }
      if hdr.ieth.Some? {
        rKey, isRdma := hdr.ieth.value.rKey, true;
      }
      if hdr.bth.Some? {
        opcode, se, psn := hdr.bth.value.op, hdr.bth.value.se, hdr.bth.value.psn;
        isRdma := hdr.bth.value.connType == 0;
      }
    }
    m := Metadata(meta.index, ipSrc, ipDst, udpSport, udpDport, opcode, meta.pktlen, dmaLength, rKey,
                  se, psn, msn, isRdma);
  }

  lemma {:induction false} TagBitsAppend(tags: seq<Vlan>, v: Vlan)
    ensures TagBits(tags + [v]) == TagBits(tags) + PutVlan(v)
  {
    hide PutVlan;
    if tags != [] {
      assert (tags + [v])[1..] == tags[1..] + [v];
      TagBitsAppend(tags[1..], v);
    } else {
      assert (tags + [v])[1..] == [];
    }
  }

  lemma {:induction false} Regroup(p: seq<bool>, a: seq<bool>, b: seq<bool>, c: seq<bool>, d: seq<bool>)
    ensures p + a + b + c + d == p + (a + (b + (c + d)))
  {
  }

  method EmitExtensions(p: seq<bool>, hdr: Headers) returns (pkt: seq<bool>)
    ensures pkt == p + ExtensionBits(hdr)
  {
    hide PutReth, PutAeth, PutImmDt, PutIeth;
    var a := if hdr.reth.Some? then PutReth(hdr.reth.value) else [];
    var b := if hdr.aeth.Some? then PutAeth(hdr.aeth.value) else [];
    var c := if hdr.immdt.Some? then PutImmDt(hdr.immdt.value) else [];
    var d := if hdr.ieth.Some? then PutIeth(hdr.ieth.value) else [];
    pkt := p + a;
    pkt := pkt + b;
    pkt := pkt + c;
    pkt := pkt + d;
    Regroup(p, a, b, c, d);
  }

  method EmitTransport(p: seq<bool>, hdr: Headers) returns (pkt: seq<bool>)
    ensures pkt == p + TransportBits(hdr)
  {
    hide PutUdp, PutBth, ExtensionBits;
    var u := if hdr.udp.Some? then PutUdp(hdr.udp.value) else [];
    var t := if hdr.bth.Some? then PutBth(hdr.bth.value) else [];
    pkt := p + u;
    pkt := pkt + t;
    pkt := EmitExtensions(pkt, hdr);
    assert p + u + t + ExtensionBits(hdr) == p + (u + (t + ExtensionBits(hdr)));
  }

  method EmitNetwork(p: seq<bool>, hdr: Headers) returns (pkt: seq<bool>)
    ensures pkt == p + NetworkBits(hdr)
  {
    hide PutIpv4, PutIpv6, TransportBits;
    var a := if hdr.ipv4.Some? then PutIpv4(hdr.ipv4.value) else [];
    var b := if hdr.ipv4Opt.Some? then hdr.ipv4Opt.value else [];
    var c := if hdr.ipv6.Some? then PutIpv6(hdr.ipv6.value) else [];
    pkt := p + a;
    pkt := pkt + b;
    pkt := pkt + c;
    pkt := EmitTransport(pkt, hdr);
    Regroup(p, a, b, c, TransportBits(hdr));
  }

  method EmitTags(p: seq<bool>, tags: seq<Vlan>) returns (pkt: seq<bool>)
    ensures pkt == p + TagBits(tags)
  {
    hide PutVlan;
    pkt := p;
    for i := 0 to |tags|
      invariant pkt == p + TagBits(tags[..i])
    {
      TagBitsAppend(tags[..i], tags[i]);
      assert tags[..i + 1] == tags[..i] + [tags[i]];
      pkt := pkt + PutVlan(tags[i]);
    }
    assert tags[..|tags|] == tags;
  }

  /** The deparser block: each header in turn, emitting nothing when it is not valid, and
    * then the payload. */
  method DeparserBlock(hdr: Headers, payload: seq<bool>) returns (pkt: seq<bool>)
    ensures pkt == Deparse(hdr) + payload
  {
    hide PutEth, TagBits, NetworkBits;
    pkt := if hdr.eth.Some? then PutEth(hdr.eth.value) else [];
    ghost var e := pkt;
    pkt := EmitTags(pkt, hdr.vlan);
    pkt := EmitNetwork(pkt, hdr);
    assert e + TagBits(hdr.vlan) + NetworkBits(hdr) == e + (TagBits(hdr.vlan) + NetworkBits(hdr));
    pkt := pkt + payload;
  }
}
