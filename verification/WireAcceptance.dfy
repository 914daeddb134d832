/** What the parser accepts, and the error it ends in otherwise, read off the wire: positions,
  * lengths and values of the standards, with no parser state and no header record. */
module WireAcceptance {
  import opened Basics
  import opened BitCodec
  import opened PacketParser
  import opened WireFormat

  // -------- the reference --------

  /** The bits of the extension headers an operation brings. */
  function ExtensionLength(op: nat): nat {
    if op == 0x0b then 160
    else if op in {0x06, 0x0a, 0x0c} then 128
    else if op in {0x0d, 0x0f, 0x10, 0x11, 0x16, 0x17, 0x03, 0x05, 0x09} then 32
    else 0
  }

  /** UDP and base transport header at position t, then what the operation brings. */
  function TransportError(b: seq<bool>, t: nat): Option<Error> {
    if |b| < t + 160 || |b| < t + 160 + ExtensionLength(Field(b, t + 67, 5)) then Some(PacketTooShort) else None
  }

  function Ipv4Error(b: seq<bool>, n: nat): Option<Error> {
    if |b| < n + 160 then Some(PacketTooShort)
    else if Field(b, n, 4) != 4 || Field(b, n + 16, 16) < 5 then Some(InvalidIpPacket)
    else if Field(b, n + 4, 4) < 5 then Some(HeaderTooShort)
    else if |b| < n + 32 * Field(b, n + 4, 4) then Some(PacketTooShort)
    else if Field(b, n + 72, 8) == 17 then TransportError(b, n + 32 * Field(b, n + 4, 4))
    else None
  }

  function Ipv6Error(b: seq<bool>, n: nat): Option<Error> {
    if |b| < n + 320 then Some(PacketTooShort)
    else if Field(b, n, 4) != 6 then Some(InvalidIpPacket)
    else if Field(b, n + 48, 8) == 17 then TransportError(b, n + 320)
    else None
  }

  /** A network header at position n, behind ethertype t. */
  function NetworkError(b: seq<bool>, n: nat, t: nat): Option<Error> {
    if t == 0x0800 then Ipv4Error(b, n) else if t == 0x86DD then Ipv6Error(b, n) else None
  }

  /** The error a packet ends in, if any: at most two 802.1Q tags, then the network header. */
  function WireError(b: seq<bool>): Option<Error> {
    var n := NetworkOnWire(b);
    if |b| < n then Some(PacketTooShort)
    else if Field(b, n - 16, 16) == 0x8100 then Some(StackOutOfBounds)
    else NetworkError(b, n, Field(b, n - 16, 16))
  }

  function ErrorOf(o: Outcome): Option<Error> {
    if o.Rejected? then Some(o.error) else None
  }

  // -------- fields of an extracted header, where it starts --------

  lemma {:induction false} UnpackAt(l: Layout, b: seq<bool>, i: nat)
    requires |b| == Width(l) && i < |l|
    ensures Offset(l, i) + l[i] <= |b| && Unpack(l, b)[i] == Val(b[Offset(l, i)..Offset(l, i) + l[i]])
  {
    hide Val;
    if i > 0 {
      UnpackAt(l[1..], b[l[0]..], i - 1);
      var at := Offset(l[1..], i - 1);
      Inside(b, l[0], at, l[i]);
    }
  }

  lemma {:induction false} Inside(b: seq<bool>, at: nat, o: nat, k: nat)
    requires at + o + k <= |b|
    ensures b[at..][o..o + k] == b[at + o..at + o + k]
  {
  }

  lemma {:induction false} Slice(b: seq<bool>, at: nat, w: nat, o: nat, k: nat)
    requires at + w <= |b| && o + k <= w
    ensures b[at..][..w][o..o + k] == b[at + o..at + o + k]
  {
  }

  lemma {:induction false} ExtractAt(l: Layout, b: seq<bool>, at: nat)
    requires at <= |b|
    ensures Extract(l, b[at..]).Some? <==> at + Width(l) <= |b|
    ensures at + Width(l) <= |b| ==>
              var (f, r) := Extract(l, b[at..]).value;
              && r == b[at + Width(l)..] && |f| == |l|
              && forall i :: 0 <= i < |l| ==> f[i] == Field(b, at + Offset(l, i), l[i])
  {
    hide Val, Unpack, Offset, Width;
    if at + Width(l) <= |b| {
      var x := b[at..][..Width(l)];
      assert b[at..][Width(l)..] == b[at + Width(l)..];
      forall i | 0 <= i < |l| ensures Unpack(l, x)[i] == Field(b, at + Offset(l, i), l[i]) {
        UnpackAt(l, x, i);
        Slice(b, at, Width(l), Offset(l, i), l[i]);
      }
    }
  }

  lemma {:induction false} Tail(b: seq<bool>, at: nat, w: nat)
    requires at + w <= |b|
    ensures b[at..][..w] == b[at..at + w] && b[at..][w..] == b[at + w..]
  {
  }

  // -------- every field of every header, where the standards put it --------

  function EthRead(b: seq<bool>, n: nat): Eth {
    Eth(Field(b, n, 48), Field(b, n + 48, 48), Field(b, n + 96, 16))
  }

  function VlanRead(b: seq<bool>, n: nat): Vlan {
    Vlan(Field(b, n, 3), Field(b, n + 3, 1), Field(b, n + 4, 12), Field(b, n + 16, 16))
  }

  function Ipv4Read(b: seq<bool>, n: nat): Ipv4 {
    Ipv4(Field(b, n, 4), Field(b, n + 4, 4), Field(b, n + 8, 6), Field(b, n + 14, 2), Field(b, n + 16, 16),
         Field(b, n + 32, 16), Field(b, n + 48, 3), Field(b, n + 51, 13), Field(b, n + 64, 8),
         Field(b, n + 72, 8), Field(b, n + 80, 16), Field(b, n + 96, 32), Field(b, n + 128, 32))
  }

  function Ipv6Read(b: seq<bool>, n: nat): Ipv6 {
    Ipv6(Field(b, n, 4), Field(b, n + 4, 8), Field(b, n + 12, 20), Field(b, n + 32, 16), Field(b, n + 48, 8),
         Field(b, n + 56, 8), Field(b, n + 64, 128), Field(b, n + 192, 128))
  }

  function UdpRead(b: seq<bool>, n: nat): Udp {
    Udp(Field(b, n, 16), Field(b, n + 16, 16), Field(b, n + 32, 16), Field(b, n + 48, 16))
  }

  function BthRead(b: seq<bool>, n: nat): Bth {
    Bth(Field(b, n, 3), Field(b, n + 3, 5), Field(b, n + 8, 1), Field(b, n + 9, 1), Field(b, n + 10, 2),
        Field(b, n + 12, 4), Field(b, n + 16, 16), Field(b, n + 32, 8), Field(b, n + 40, 24),
        Field(b, n + 64, 1), Field(b, n + 65, 7), Field(b, n + 72, 24))
  }

  function RethRead(b: seq<bool>, n: nat): Reth {
    Reth(Field(b, n, 32), Field(b, n + 32, 32), Field(b, n + 64, 32), Field(b, n + 96, 32))
  }

  function AethRead(b: seq<bool>, n: nat): Aeth {
    Aeth(Field(b, n, 8), Field(b, n + 8, 24))
  }

  function ImmDtRead(b: seq<bool>, n: nat): ImmDt {
    ImmDt(Field(b, n, 32))
  }

  function IethRead(b: seq<bool>, n: nat): Ieth {
    Ieth(Field(b, n, 32))
  }

  lemma {:induction false} EthOnWire(b: seq<bool>, n: nat)
    requires n <= |b|
    ensures GetEth(b[n..]) == if n + 112 <= |b| then Some((EthRead(b, n), b[n + 112..])) else None
  {
    hide Unpack, Field, Extract, Width, Offset;
    TagWidths();
    EthOffsetsAll();
    ExtractAt(ETH_LAYOUT, b, n);
  }

  lemma {:induction false} VlanOnWire(b: seq<bool>, n: nat)
    requires n <= |b|
    ensures GetVlan(b[n..]) == if n + 32 <= |b| then Some((VlanRead(b, n), b[n + 32..])) else None
  {
    hide Unpack, Field, Extract;
    TagWidths();
    ExtractAt(VLAN_LAYOUT, b, n);
  }

  lemma {:induction false} Ipv4OffsetsFrom0()
    ensures Offset(IPV4_LAYOUT, 0) == 0 && IPV4_LAYOUT[0] == 4
    ensures Offset(IPV4_LAYOUT, 1) == 4 && IPV4_LAYOUT[1] == 4
    ensures Offset(IPV4_LAYOUT, 2) == 8 && IPV4_LAYOUT[2] == 6
    ensures Offset(IPV4_LAYOUT, 3) == 14 && IPV4_LAYOUT[3] == 2
  {
  }

  lemma {:induction false} Ipv4OffsetsFrom4()
    ensures Offset(IPV4_LAYOUT, 4) == 16 && IPV4_LAYOUT[4] == 16
    ensures Offset(IPV4_LAYOUT, 5) == 32 && IPV4_LAYOUT[5] == 16
    ensures Offset(IPV4_LAYOUT, 6) == 48 && IPV4_LAYOUT[6] == 3
    ensures Offset(IPV4_LAYOUT, 7) == 51 && IPV4_LAYOUT[7] == 13
  {
  }

  lemma {:induction false} Ipv4OffsetsFrom8()
    ensures Offset(IPV4_LAYOUT, 8) == 64 && IPV4_LAYOUT[8] == 8
    ensures Offset(IPV4_LAYOUT, 9) == 72 && IPV4_LAYOUT[9] == 8
  {
  }

  lemma {:induction false} Ipv4OffsetsFrom10()
    ensures Offset(IPV4_LAYOUT, 10) == 80 && IPV4_LAYOUT[10] == 16
  {
  }

  lemma {:induction false} Ipv4OffsetsFrom11()
    ensures Offset(IPV4_LAYOUT, 11) == 96 && IPV4_LAYOUT[11] == 32
  {
  }

  lemma {:induction false} Ipv4OffsetsFrom12()
    ensures Offset(IPV4_LAYOUT, 12) == 128 && IPV4_LAYOUT[12] == 32
  {
  }

  lemma {:induction false} Ipv4OnWire(b: seq<bool>, n: nat)
    requires n <= |b|
    ensures GetIpv4(b[n..]) == if n + 160 <= |b| then Some((Ipv4Read(b, n), b[n + 160..])) else None
  {
    hide Unpack, Field, Extract, Width, Offset;
    Ipv4Width();
    Ipv4OffsetsFrom0();
    Ipv4OffsetsFrom4();
    Ipv4OffsetsFrom8();
    Ipv4OffsetsFrom10();
    Ipv4OffsetsFrom11();
    Ipv4OffsetsFrom12();
    ExtractAt(IPV4_LAYOUT, b, n);
  }

  lemma {:induction false} Ipv6OffsetsFrom0()
    ensures Offset(IPV6_LAYOUT, 0) == 0 && IPV6_LAYOUT[0] == 4
    ensures Offset(IPV6_LAYOUT, 1) == 4 && IPV6_LAYOUT[1] == 8
    ensures Offset(IPV6_LAYOUT, 2) == 12 && IPV6_LAYOUT[2] == 20
    ensures Offset(IPV6_LAYOUT, 3) == 32 && IPV6_LAYOUT[3] == 16
  {
  }

  lemma {:induction false} Ipv6OffsetsFrom4()
    ensures Offset(IPV6_LAYOUT, 4) == 48 && IPV6_LAYOUT[4] == 8
    ensures Offset(IPV6_LAYOUT, 5) == 56 && IPV6_LAYOUT[5] == 8
    ensures Offset(IPV6_LAYOUT, 6) == 64 && IPV6_LAYOUT[6] == 128
    ensures Offset(IPV6_LAYOUT, 7) == 192 && IPV6_LAYOUT[7] == 128
  {
  }

  lemma {:induction false} Ipv6OnWire(b: seq<bool>, n: nat)
    requires n <= |b|
    ensures GetIpv6(b[n..]) == if n + 320 <= |b| then Some((Ipv6Read(b, n), b[n + 320..])) else None
  {
    hide Unpack, Field, Extract, Width, Offset;
    Ipv6Width();
    Ipv6OffsetsFrom0();
    Ipv6OffsetsFrom4();
    ExtractAt(IPV6_LAYOUT, b, n);
  }

  lemma {:induction false} UdpOnWire(b: seq<bool>, n: nat)
    requires n <= |b|
    ensures GetUdp(b[n..]) == if n + 64 <= |b| then Some((UdpRead(b, n), b[n + 64..])) else None
  {
    hide Unpack, Field, Extract, Width, Offset;
    UdpWidth();
    UdpOffsetsAll();
    ExtractAt(UDP_LAYOUT, b, n);
  }

  lemma {:induction false} BthOffsetsFrom0()
    ensures Offset(BTH_LAYOUT, 0) == 0 && BTH_LAYOUT[0] == 3
    ensures Offset(BTH_LAYOUT, 1) == 3 && BTH_LAYOUT[1] == 5
    ensures Offset(BTH_LAYOUT, 2) == 8 && BTH_LAYOUT[2] == 1
    ensures Offset(BTH_LAYOUT, 3) == 9 && BTH_LAYOUT[3] == 1
  {
  }

  lemma {:induction false} BthOffsetsFrom4()
    ensures Offset(BTH_LAYOUT, 4) == 10 && BTH_LAYOUT[4] == 2
    ensures Offset(BTH_LAYOUT, 5) == 12 && BTH_LAYOUT[5] == 4
    ensures Offset(BTH_LAYOUT, 6) == 16 && BTH_LAYOUT[6] == 16
    ensures Offset(BTH_LAYOUT, 7) == 32 && BTH_LAYOUT[7] == 8
  {
  }

  lemma {:induction false} BthOffsetsFrom8()
    ensures Offset(BTH_LAYOUT, 8) == 40 && BTH_LAYOUT[8] == 24
    ensures Offset(BTH_LAYOUT, 9) == 64 && BTH_LAYOUT[9] == 1
  {
  }

  lemma {:induction false} BthOffsetsFrom10()
    ensures Offset(BTH_LAYOUT, 10) == 65 && BTH_LAYOUT[10] == 7
    ensures Offset(BTH_LAYOUT, 11) == 72 && BTH_LAYOUT[11] == 24
  {
  }

  lemma {:induction false} BthOnWire(b: seq<bool>, n: nat)
    requires n <= |b|
    ensures GetBth(b[n..]) == if n + 96 <= |b| then Some((BthRead(b, n), b[n + 96..])) else None
  {
    hide Unpack, Field, Extract, Width, Offset;
    BthWidth();
    BthOffsetsFrom0();
    BthOffsetsFrom4();
    BthOffsetsFrom8();
    BthOffsetsFrom10();
    ExtractAt(BTH_LAYOUT, b, n);
  }

  lemma {:induction false} RethOnWire(b: seq<bool>, n: nat)
    requires n <= |b|
    ensures GetReth(b[n..]) == if n + 128 <= |b| then Some((RethRead(b, n), b[n + 128..])) else None
  {
    hide Unpack, Field, Extract;
    ExtractAt(RETH_LAYOUT, b, n);
  }

  lemma {:induction false} AethOnWire(b: seq<bool>, n: nat)
    requires n <= |b|
    ensures GetAeth(b[n..]) == if n + 32 <= |b| then Some((AethRead(b, n), b[n + 32..])) else None
  {
    hide Unpack, Field, Extract;
    ExtractAt(AETH_LAYOUT, b, n);
  }

  lemma {:induction false} ImmDtOnWire(b: seq<bool>, n: nat)
    requires n <= |b|
    ensures GetImmDt(b[n..]) == if n + 32 <= |b| then Some((ImmDtRead(b, n), b[n + 32..])) else None
  {
    hide Unpack, Field, Extract;
    ExtractAt(IMMDT_LAYOUT, b, n);
  }

  lemma {:induction false} IethOnWire(b: seq<bool>, n: nat)
    requires n <= |b|
    ensures GetIeth(b[n..]) == if n + 32 <= |b| then Some((IethRead(b, n), b[n + 32..])) else None
  {
    hide Unpack, Field, Extract;
    ExtractAt(IETH_LAYOUT, b, n);
  }

  lemma {:induction false} EthOffsetsAll()
    ensures Offset(ETH_LAYOUT, 0) == 0 && Offset(ETH_LAYOUT, 1) == 48 && Offset(ETH_LAYOUT, 2) == 96
  {
  }

  lemma {:induction false} UdpOffsetsAll()
    ensures Offset(UDP_LAYOUT, 0) == 0 && Offset(UDP_LAYOUT, 1) == 16
    ensures Offset(UDP_LAYOUT, 2) == 32 && Offset(UDP_LAYOUT, 3) == 48
  {
  }

  // -------- state by state --------

  lemma {:induction false} SelectOpError(h: Headers, b: seq<bool>, t: nat, op: nat)
    requires t <= |b|
    ensures ErrorOf(SelectOp(h, b[t..], op)) == if |b| < t + ExtensionLength(op) then Some(PacketTooShort) else None
  {
    hide GetReth, GetAeth, GetIeth, GetImmDt;
    RethOnWire(b, t);
    AethOnWire(b, t);
    IethOnWire(b, t);
    ImmDtOnWire(b, t);
    if t + 128 <= |b| {
      ImmDtOnWire(b, t + 128);
    }
  }

  lemma {:induction false} DispatchError(h: Headers, b: seq<bool>, t: nat, proto: nat)
    requires t <= |b|
    ensures ErrorOf(Dispatch(h, b[t..], proto)) == if proto == 17 then TransportError(b, t) else None
  {
    hide GetUdp, GetBth, Field, SelectOp, ExtensionLength;
    if proto == 17 {
      UdpOnWire(b, t);
      if t + 64 <= |b| {
        BthOnWire(b, t + 64);
        if t + 160 <= |b| {
          var (u, r) := GetUdp(b[t..]).value;
          var (x, q) := GetBth(b[t + 64..]).value;
          SelectOpError(h.(udp := Some(u), bth := Some(x)), b, t + 160, x.op);
        }
      }
    }
  }

  lemma {:induction false} OptionsError(h: Headers, b: seq<bool>, n: nat, ip: Ipv4)
    requires n + 160 <= |b| && ip.ihl < 16 && ip.ihl != 5
    ensures ErrorOf(ParseIpv4Options(h, b[n + 160..], ip))
            == if ip.ihl < 5 then Some(HeaderTooShort)
               else if |b| < n + 32 * ip.ihl then Some(PacketTooShort)
               else if ip.proto == 17 then TransportError(b, n + 32 * ip.ihl) else None
  {
    hide Field, Dispatch, TransportError, OptionBits;
    OptionBitsExact(ip.ihl);
    var w := (ip.ihl - 5) * 32;
    if ip.ihl >= 5 && n + 160 + w <= |b| {
      Tail(b, n + 160, w);
      DispatchError(h.(ipv4Opt := Some(b[n + 160..][..w])), b, n + 160 + w, ip.proto);
    }
  }

  lemma {:induction false} ParseIpv4Error(h: Headers, b: seq<bool>, n: nat)
    requires n <= |b|
    ensures ErrorOf(ParseIpv4(h, b[n..])) == Ipv4Error(b, n)
  {
    hide GetIpv4, Field, Dispatch, TransportError, ErrorOf, ParseIpv4Options, Ipv4Fits, PutIpv4;
    ErrorOfIs();
    Ipv4OnWire(b, n);
    if n + 160 <= |b| {
      var (ip, r) := GetIpv4(b[n..]).value;
      Ipv4Iff(b[n..], ip, r);
      IhlInRange(ip);
      var h1 := h.(ipv4 := Some(ip));
      if ip.ihl == 5 {
        DispatchError(h1, b, n + 160, ip.proto);
      } else {
        OptionsError(h1, b, n, ip);
      }
    }
  }

  lemma {:induction false} ErrorOfIs()
    ensures forall e: Error :: ErrorOf(Rejected(e)) == Some(e)
  {
  }

  lemma {:induction false} ParseIpv6Error(h: Headers, b: seq<bool>, n: nat)
    requires n <= |b|
    ensures ErrorOf(ParseIpv6(h, b[n..])) == Ipv6Error(b, n)
  {
    hide GetIpv6, Field, Dispatch, TransportError, ErrorOf;
    ErrorOfIs();
    Ipv6OnWire(b, n);
    if n + 320 <= |b| {
      var (ip, r) := GetIpv6(b[n..]).value;
      DispatchError(h.(ipv6 := Some(ip)), b, n + 320, ip.protocol);
    }
  }

  /** Behind an ethertype that announces no tag. */
  lemma {:induction false} UntaggedError(h: Headers, b: seq<bool>, n: nat, t: nat)
    requires n <= |b| && t != ETH_VLAN
    ensures ErrorOf(SelectType(h, b[n..], t)) == NetworkError(b, n, t)
  {
    hide ParseIpv4, ParseIpv6, Ipv4Error, Ipv6Error;
    ParseIpv4Error(h, b, n);
    ParseIpv6Error(h, b, n);
  }

  /** Behind a tag ethertype with the stack full or the tag cut short. */
  lemma {:induction false} NoTagError(h: Headers, b: seq<bool>, n: nat)
    requires n <= |b|
    ensures |h.vlan| >= 2 ==> ErrorOf(SelectType(h, b[n..], ETH_VLAN)) == Some(StackOutOfBounds)
    ensures |h.vlan| < 2 && n + 32 > |b| ==> ErrorOf(SelectType(h, b[n..], ETH_VLAN)) == Some(PacketTooShort)
  {
    hide GetVlan;
    VlanOnWire(b, n);
  }

  /** Behind a tag ethertype with a whole tag to take. */
  lemma {:induction false} TagTaken(h: Headers, b: seq<bool>, n: nat) returns (v: Vlan)
    requires n + 32 <= |b| && |h.vlan| < 2
    ensures SelectType(h, b[n..], ETH_VLAN)
            == SelectType(h.(vlan := h.vlan + [v]), b[n + 32..], Field(b, n + 16, 16))
  {
    hide GetVlan, Field, ParseIpv4, ParseIpv6;
    VlanOnWire(b, n);
    v := GetVlan(b[n..]).value.0;
    assert SelectType(h, b[n..], ETH_VLAN) == ParseVlan(h, b[n..]);
  }

  /** The parser accepts a packet, or ends in one of its errors, exactly as the bits say. */
  lemma {:induction false} ErrorFromWire(b: seq<bool>)
    ensures ErrorOf(Parse(b)) == WireError(b)
  {
    hide GetEth, Field, SelectType, NetworkError;
    assert b[0..] == b;
    EthOnWire(b, 0);
    if 112 <= |b| {
      var h := NOTHING.(eth := Some(GetEth(b).value.0));
      var t := Field(b, 96, 16);
      if t != ETH_VLAN {
        UntaggedError(h, b, 112, t);
      } else {
        OneTagError(h, b);
      }
    }
  }

  lemma {:induction false} OneTagError(h: Headers, b: seq<bool>)
    requires |b| >= 112 && h.vlan == [] && Field(b, 96, 16) == ETH_VLAN
    ensures ErrorOf(SelectType(h, b[112..], ETH_VLAN)) == WireError(b)
  {
    ShortField(b, 128, 16);
    ShortField(b, 160, 16);
    hide Field, SelectType, NetworkError;
    NoTagError(h, b, 112);
    if 144 <= |b| {
      var v := TagTaken(h, b, 112);
      var h1 := h.(vlan := h.vlan + [v]);
      var t := Field(b, 128, 16);
      if t != ETH_VLAN {
        UntaggedError(h1, b, 144, t);
      } else {
        TwoTagError(h1, b);
      }
    }
  }

  lemma {:induction false} TwoTagError(h: Headers, b: seq<bool>)
    requires |b| >= 144 && |h.vlan| == 1 && Field(b, 96, 16) == ETH_VLAN && Field(b, 128, 16) == ETH_VLAN
    ensures ErrorOf(SelectType(h, b[144..], ETH_VLAN)) == WireError(b)
  {
    hide Field, SelectType, NetworkError;
    NoTagError(h, b, 144);
    if 176 <= |b| {
      var v := TagTaken(h, b, 144);
      var h2 := h.(vlan := h.vlan + [v]);
      var t := Field(b, 160, 16);
      if t == ETH_VLAN {
        NoTagError(h2, b, 176);
      } else {
        UntaggedError(h2, b, 176, t);
      }
    }
  }

  lemma {:induction false} ShortField(b: seq<bool>, at: nat, w: nat)
    ensures |b| < at + w ==> Field(b, at, w) == 0
  {
  }

  // -------- the metadata --------

  /** Connection type 0 in the base transport header of a UDP packet. */
  predicate RdmaOnWire(b: seq<bool>) {
    IsUdpOnWire(b) && Field(b, TransportOnWire(b) + 64, 3) == 0
  }

  /** The metadata of a packet that carries no debug index, read off its bits; the length is
    * that on the size sideband. */
  function WireMeta(b: seq<bool>, len: nat): Metadata {
    var n, t := NetworkOnWire(b), TransportOnWire(b);
    var op := Field(b, t + 67, 5);
    if !IsUdpOnWire(b) then Metadata(0, 0, 0, 0, 0, 0, len, 0, 0, 0, 0, 0, false)
    else
      Metadata(
        index := 0,
        ipSrc := if Field(b, n - 16, 16) == 0x86DD then 6 else Field(b, n + 96, 32),
        ipDst := if Field(b, n - 16, 16) == 0x86DD then 6 else Field(b, n + 128, 32),
        udpSport := Field(b, t, 16),
        udpDport := Field(b, t + 16, 16),
        opcode := op,
        pktlen := len,
        dmaLength := if op in {0x06, 0x0a, 0x0b, 0x0c} then Field(b, t + 256, 32) else 0,
        rKey := if op in {0x06, 0x0a, 0x0b, 0x0c} then Field(b, t + 224, 32)
                else if op in {0x16, 0x17} then Field(b, t + 160, 32) else 0,
        se := Field(b, t + 72, 1),
        psn := Field(b, t + 136, 24),
        msn := if op in {0x0d, 0x0f, 0x10, 0x11} then Field(b, t + 168, 24) else 0,
        isRdma := Field(b, t + 64, 3) == 0)
  }

  /** Whatever else was on the metadata bus, an accepted packet with index and length there
    * leaves with the metadata its bits call for. */
  lemma {:induction false} AllMetadataFromWire(b: seq<bool>, m: Metadata)
    requires Parse(b).Accepted? && m.index == 0
    ensures var h := Parse(b).hdr;
            (h.udp.Some? && h.ipv6.None? ==> h.ipv4.Some?) && Forward(h, m) == WireMeta(b, m.pktlen)
  {
    hide Parse, Field, IsUdpOnWire, NetworkOnWire, TransportOnWire, Forward;
    ClassifiesExactly(b, m);
    ClassFromWire(b, m);
    if IsUdpOnWire(b) {
      MetadataFromWire(b, m);
      ExtensionFromWire(b, m);
      AnnouncedIp(b);
    } else {
      NoMetadataWithoutUdp(b, m);
    }
  }

  lemma {:induction false} AnnouncedIp(b: seq<bool>)
    requires IsUdpOnWire(b)
    ensures var t := Field(b, NetworkOnWire(b) - 16, 16); t == 0x0800 || t == 0x86DD
  {
    hide Field, NetworkOnWire;
  }

  lemma {:induction false} RdmaInMeta(b: seq<bool>, len: nat)
    ensures WireMeta(b, len).isRdma <==> RdmaOnWire(b)
  {
    hide Field, IsUdpOnWire, NetworkOnWire, TransportOnWire;
  }

  // -------- the headers of an accepted packet --------

  lemma {:induction false} Behind(pre: seq<bool>, x: seq<bool>)
    ensures (pre + x)[|pre|..] == x
  {
  }

  lemma {:induction false} EthHeader(h: Headers, rest: seq<bool>)
    requires WellFormed(h)
    ensures h.eth == Some(EthRead(Deparse(h) + rest, 0))
  {
    hide GetEth, PutEth, EthFits, TagBits, NetworkBits, NetworkShape, EthRead;
    var b, r := Deparse(h) + rest, TagBits(h.vlan) + NetworkBits(h) + rest;
    assert b == PutEth(h.eth.value) + r && b[0..] == b;
    EthIff(b, h.eth.value, r);
    EthOnWire(b, 0);
  }

  lemma {:induction false} NetworkHeader(h: Headers, rest: seq<bool>)
    requires WellFormed(h)
    ensures h.ipv4.Some? ==> h.ipv4.value == Ipv4Read(Deparse(h) + rest, NetworkAt(h))
    ensures h.ipv6.Some? ==> h.ipv6.value == Ipv6Read(Deparse(h) + rest, NetworkAt(h))
  {
    hide *;
    NetworkStart(h, rest);
    NetworkParts(h);
    NetworkFits(h);
    var b, x := Deparse(h) + rest, NetworkBits(h) + rest;
    Behind(LinkBits(h), x);
    if h.ipv4.Some? {
      var ip := h.ipv4.value;
      assert PutIpv4(ip) + BehindIpv4(h) + rest == PutIpv4(ip) + (BehindIpv4(h) + rest);
      Ipv4Iff(x, ip, BehindIpv4(h) + rest);
      Ipv4OnWire(b, NetworkAt(h));
    }
    if h.ipv6.Some? {
      var ip := h.ipv6.value;
      assert PutIpv6(ip) + TransportBits(h) + rest == PutIpv6(ip) + (TransportBits(h) + rest);
      Ipv6Iff(x, ip, TransportBits(h) + rest);
      Ipv6OnWire(b, NetworkAt(h));
    }
  }

  lemma {:induction false} TransportHeader(h: Headers, rest: seq<bool>)
    requires WellFormed(h) && h.udp.Some?
    ensures h.udp.value == UdpRead(Deparse(h) + rest, TransportAt(h))
    ensures h.bth.Some? && h.bth.value == BthRead(Deparse(h) + rest, TransportAt(h) + 64)
  {
    hide *;
    TransportFits(h);
    TransportStart(h, rest);
    TransportParts(h);
    var b, udp, bth := Deparse(h) + rest, PutUdp(h.udp.value), PutBth(h.bth.value);
    var more := ExtensionBits(h) + rest;
    BehindTwo(UpToTransport(h), udp, bth, ExtensionBits(h), rest);
    UdpIff(udp + (bth + more), h.udp.value, bth + more);
    UdpOnWire(b, TransportAt(h));
    BthIff(bth + more, h.bth.value, more);
    BthOnWire(b, TransportAt(h) + 64);
  }

  lemma {:induction false} BehindTwo(pre: seq<bool>, x: seq<bool>, y: seq<bool>, z: seq<bool>, rest: seq<bool>)
    ensures (pre + ((x + (y + z)) + rest))[|pre|..] == x + (y + (z + rest))
    ensures (pre + ((x + (y + z)) + rest))[|pre| + |x|..] == y + (z + rest)
  {
  }

  lemma {:induction false} TransportFits(h: Headers)
    requires WellFormed(h) && h.udp.Some?
    ensures UdpFits(h.udp.value) && h.bth.Some? && BthFits(h.bth.value)
  {
    hide UdpFits, BthFits, EthFits, TagShape, Ipv4Fits, Ipv6Fits, ExtensionShape;
  }

  /** Every field of the Ethernet, network, UDP and base transport headers of an accepted
    * packet is the bits of the packet at the field's own place. */
  lemma {:induction false} HeadersFromWire(b: seq<bool>)
    requires Parse(b).Accepted?
    ensures var h, n, t := Parse(b).hdr, NetworkOnWire(b), TransportOnWire(b);
            && h.eth == Some(EthRead(b, 0))
            && (h.ipv4.Some? ==> h.ipv4.value == Ipv4Read(b, n))
            && (h.ipv6.Some? ==> h.ipv6.value == Ipv6Read(b, n))
            && (h.udp.Some? <==> IsUdpOnWire(b))
            && (h.udp.Some? ==>
                  h.udp.value == UdpRead(b, t) && h.bth.Some? && h.bth.value == BthRead(b, t + 64))
  {
    hide *;
    ParseSound(b);
    var h, rest := Parse(b).hdr, Parse(b).rest;
    PositionsOnWire(h, rest);
    EthHeader(h, rest);
    NetworkHeader(h, rest);
    if h.udp.Some? {
      TransportHeader(h, rest);
    }
  }
}
