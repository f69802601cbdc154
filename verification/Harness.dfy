/**
 The packet builders of the BPF test harness. They are the printing side of the parser,
 and building a frame with another TOS is the simple form of what `mark_dscp` does in place.
 */
module Harness {
  import opened Bytes
  import opened Wrappers
  import opened Checksum
  import opened TsCommon
  import opened Rule
  import opened Classifier

  const DST_MAC: seq<byte> := [0xAA, 0xBB, 0xCC, 0xDD, 0xEE, 0xFF]
  const SRC_MAC: seq<byte> := [0x11, 0x22, 0x33, 0x44, 0x55, 0x66]

  /** struct.pack("!H", w) */
  function Pack16(w: u16): seq<byte> { [Hi(w), Lo(w)] }

  function Eth(etherType: u16, payload: seq<byte>): seq<byte> {
    DST_MAC + SRC_MAC + Pack16(etherType) + payload
  }

  datatype Tag = Tag(tpid: u16, pcp: nat, vid: int) {
    /** A PCP above 7 does not fit the packed 16 bits. */
    predicate Valid() { IsTpid(tpid) && pcp < 8 }

    function Tci(): u16
      requires Valid()
    {
      pcp * 0x2000 + vid % 0x1000
    }
  }

  function Vlan(tag: Tag, innerEtherType: u16, payload: seq<byte>): seq<byte>
    requires tag.Valid()
  {
    Pack16(tag.Tci()) + Pack16(innerEtherType) + payload
  }

  predicate ValidTags(tags: seq<Tag>) {
    |tags| <= 2 && forall t | t in tags :: t.Valid()
  }

  /** A payload behind 0 to 2 tags, outermost tag first. */
  function TaggedFrame(tags: seq<Tag>, etherType: u16, payload: seq<byte>): seq<byte>
    requires ValidTags(tags)
  {
    if |tags| == 0 then Eth(etherType, payload)
    else if |tags| == 1 then Eth(tags[0].tpid, Vlan(tags[0], etherType, payload))
    else Eth(tags[0].tpid, Vlan(tags[0], tags[1].tpid, Vlan(tags[1], etherType, payload)))
  }

  /** An IPv4 packet behind 0 to 2 tags. */
  function Frame(tags: seq<Tag>, ip: seq<byte>): seq<byte>
    requires ValidTags(tags)
  {
    TaggedFrame(tags, ETH_P_IP, ip)
  }

  function Udp(dport: u16, payload: seq<byte>, sport: u16): seq<byte>
    requires UDP_HLEN + |payload| < 0x1_0000
  {
    Pack16(sport) + Pack16(dport) + Pack16(UDP_HLEN + |payload|) + [0, 0] + payload
  }

  datatype Ip = Ip(proto: byte, tos: byte, options: seq<byte>, src: seq<byte>, dst: seq<byte>, ttl: byte, fragOff: u16) {
    function Ihl(): nat { 5 + |options| / 4 }

    /** `(4 << 4) | ihl`, with more options than an IHL can count spilling into the version. */
    function VersionIhl(): nat {
      if Ihl() / 0x40 % 2 == 1 then Ihl() else Ihl() + 0x40
    }

    predicate Fragment() { FragmentBits(Hi(fragOff), Lo(fragOff)) }

    /** What `ipv4` and `struct.pack` demand of their arguments. */
    predicate Packable(payload: seq<byte>) {
      && |options| % 4 == 0 && |src| == |dst| == 4
      && VersionIhl() < 0x100 && Ihl() * 4 + |payload| < 0x1_0000
    }
  }

  /** The header before its checksum is filled in. */
  function BlankHeader(ip: Ip, payload: seq<byte>): (h: seq<byte>)
    requires ip.Packable(payload)
    ensures |h| == IP_HLEN + |ip.options|
  {
    [ip.VersionIhl(), ip.tos] + Pack16(ip.Ihl() * 4 + |payload|) + [0x12, 0x34] + Pack16(ip.fragOff)
    + [ip.ttl, ip.proto] + [0, 0] + ip.src + ip.dst + ip.options
  }

  /** A blank header with its checksum computed and put in place. */
  function Filled(blank: seq<byte>): (h: seq<byte>)
    requires |blank| >= 12
    ensures |h| == |blank|
  {
    blank[..CHECK] + Pack16(IpChecksum(blank)) + blank[CHECK + 2..]
  }

  function BuiltHeader(ip: Ip, payload: seq<byte>): (h: seq<byte>)
    requires ip.Packable(payload)
    ensures |h| == IP_HLEN + |ip.options|
  {
    Filled(BlankHeader(ip, payload))
  }

  function Ipv4(ip: Ip, payload: seq<byte>): seq<byte>
    requires ip.Packable(payload)
  {
    BuiltHeader(ip, payload) + payload
  }

  /** `parse_ipv4_tos_and_csum_ok`: the TOS byte, and whether the header verifies. */
  function TosAndCheck(f: seq<byte>, off: nat): (byte, bool)
    requires off + 2 <= |f| && HeaderLength(f, off) >= 2
  {
    (Header(f, off)[1], IpChecksum(Header(f, off)) == 0)
  }

  // ----- What the builders print, byte by byte -----

  const MACS: seq<byte> := [0xAA, 0xBB, 0xCC, 0xDD, 0xEE, 0xFF, 0x11, 0x22, 0x33, 0x44, 0x55, 0x66]

  lemma UntaggedFrameBytes(etherType: u16, payload: seq<byte>)
    ensures TaggedFrame([], etherType, payload) == MACS + [etherType / 0x100, etherType % 0x100] + payload
  {
  }

  lemma TaggedFrameBytes(t: Tag, etherType: u16, payload: seq<byte>)
    requires t.Valid()
    ensures TaggedFrame([t], etherType, payload) ==
            MACS + [t.tpid / 0x100, t.tpid % 0x100]
            + [0x20 * t.pcp + t.vid % 0x1000 / 0x100, t.vid % 0x1000 % 0x100]
            + [etherType / 0x100, etherType % 0x100] + payload
  {
    TciBytes(t);
  }

  lemma DoubleTaggedFrameBytes(t: Tag, u: Tag, etherType: u16, payload: seq<byte>)
    requires t.Valid() && u.Valid()
    ensures TaggedFrame([t, u], etherType, payload) ==
            MACS + [t.tpid / 0x100, t.tpid % 0x100]
            + [0x20 * t.pcp + t.vid % 0x1000 / 0x100, t.vid % 0x1000 % 0x100]
            + [u.tpid / 0x100, u.tpid % 0x100]
            + [0x20 * u.pcp + u.vid % 0x1000 / 0x100, u.vid % 0x1000 % 0x100]
            + [etherType / 0x100, etherType % 0x100] + payload
  {
    TciBytes(t);
    TciBytes(u);
  }

  lemma TciBytes(t: Tag)
    requires t.Valid()
    ensures Hi(t.Tci()) == 0x20 * t.pcp + t.vid % 0x1000 / 0x100 && Lo(t.Tci()) == t.vid % 0x1000 % 0x100
  {
    var v := t.vid % 0x1000;
    assert t.Tci() == 0x100 * (0x20 * t.pcp + v / 0x100) + v % 0x100;
  }

  /** The fields of a built IPv4 packet; `FilledVerifies` says what its checksum is. */
  lemma BuiltBytes(ip: Ip, payload: seq<byte>)
    requires ip.Packable(payload)
    ensures var p := Ipv4(ip, payload);
      && |p| == 20 + |ip.options| + |payload|
      && (var ihl := 5 + |ip.options| / 4; p[0] == if ihl < 0x40 || 0x80 <= ihl < 0xC0 then 0x40 + ihl else ihl)
      && p[1] == ip.tos
      && p[2] == |p| / 0x100 && p[3] == |p| % 0x100
      && p[4..6] == [0x12, 0x34]
      && p[6] == ip.fragOff / 0x100 && p[7] == ip.fragOff % 0x100
      && p[8] == ip.ttl && p[9] == ip.proto
      && p[12..16] == ip.src && p[16..20] == ip.dst
      && p[20..20 + |ip.options|] == ip.options && p[20 + |ip.options|..] == payload
  {
    var blank := BlankHeader(ip, payload);
    assert ip.Ihl() * 4 == 20 + |ip.options|;
    BlankBytesAre(ip, payload, blank);
    var p := Ipv4(ip, payload);
    assert forall i | 0 <= i < |blank| && i != 10 && i != 11 :: p[i] == blank[i];
  }

  lemma BlankBytesAre(ip: Ip, payload: seq<byte>, h: seq<byte>)
    requires ip.Packable(payload) && h == BlankHeader(ip, payload)
    ensures h[0] == ip.VersionIhl() && h[1] == ip.tos
    ensures h[2] == Hi(ip.Ihl() * 4 + |payload|) && h[3] == Lo(ip.Ihl() * 4 + |payload|)
    ensures h[4] == 0x12 && h[5] == 0x34 && h[6] == Hi(ip.fragOff) && h[7] == Lo(ip.fragOff)
    ensures h[8] == ip.ttl && h[9] == ip.proto
    ensures h[12..16] == ip.src && h[16..20] == ip.dst && h[20..] == ip.options
  {
  }

  lemma UdpBytes(dport: u16, data: seq<byte>, sport: u16)
    requires 8 + |data| < 0x1_0000
    ensures Udp(dport, data, sport) ==
            [sport / 0x100, sport % 0x100, dport / 0x100, dport % 0x100]
            + [(8 + |data|) / 0x100, (8 + |data|) % 0x100, 0, 0] + data
  {
  }

  /** The harness reads the second header byte, and notices any one changed byte in a header that verified. */
  lemma CorruptionDetected(f: seq<byte>, off: nat, i: nat, b: byte)
    requires off < |f| && off < i < off + HeaderLength(f, off) <= |f| && HeaderLength(f, off) >= 2
    requires TosAndCheck(f, off).1 && b != f[i]
    ensures TosAndCheck(f, off).0 == f[off + 1]
    ensures TosAndCheck(f[i := b], off) == (if i == off + 1 then b else f[off + 1], false)
  {
    var g := f[i := b];
    assert Header(g, off) == Header(f, off)[i - off := b];
    OneByteDetected(Header(f, off), i - off, b);
  }

  // ----- What the parser makes of a built frame -----

  /** Where the pieces of a built frame lie. */
  predicate Layout(f: seq<byte>, tags: seq<Tag>, ip: seq<byte>)
    requires ValidTags(tags)
  {
    var l3 := ETH_HLEN + VLAN_HLEN * |tags|;
    && |f| == l3 + |ip| && f[l3..] == ip
    && (forall i | 0 <= i < |tags| :: U16At(f, 12 + VLAN_HLEN * i) == tags[i].tpid)
    && U16At(f, l3 - 2) == ETH_P_IP
    && (|tags| > 0 ==> f[ETH_HLEN] == Hi(tags[0].Tci()))
  }

  /** The bytes of the L2 header. */
  lemma {:induction false} UntaggedBytes()
    ensures var f := Eth(ETH_P_IP, []);
            |f| == 14 && f[12] == Hi(ETH_P_IP) && f[13] == Lo(ETH_P_IP)
  {
  }

  lemma {:induction false} TaggedBytes(t: Tag)
    requires t.Valid()
    ensures var f := Eth(t.tpid, Vlan(t, ETH_P_IP, []));
      && |f| == 18 && f[12] == Hi(t.tpid) && f[13] == Lo(t.tpid)
      && f[14] == Hi(t.Tci()) && f[15] == Lo(t.Tci())
      && f[16] == Hi(ETH_P_IP) && f[17] == Lo(ETH_P_IP)
  {
  }

  lemma {:induction false} DoubleTaggedBytes(t: Tag, u: Tag)
    requires t.Valid() && u.Valid()
    ensures var f := Eth(t.tpid, Vlan(t, u.tpid, Vlan(u, ETH_P_IP, [])));
      && |f| == 22 && f[12] == Hi(t.tpid) && f[13] == Lo(t.tpid)
      && f[14] == Hi(t.Tci()) && f[15] == Lo(t.Tci())
      && f[16] == Hi(u.tpid) && f[17] == Lo(u.tpid)
      && f[20] == Hi(ETH_P_IP) && f[21] == Lo(ETH_P_IP)
  {
  }

  /** The L2 header alone is laid out as the tags say. */
  lemma {:induction false} HeaderLayout(tags: seq<Tag>)
    requires ValidTags(tags)
    ensures Layout(Frame(tags, []), tags, [])
  {
    SplitWord(ETH_P_IP);
    if |tags| == 0 {
      UntaggedBytes();
    } else if |tags| == 1 {
      TaggedBytes(tags[0]);
      SplitWord(tags[0].tpid);
      SplitWord(tags[0].Tci());
    } else {
      DoubleTaggedBytes(tags[0], tags[1]);
      SplitWord(tags[0].tpid);
      SplitWord(tags[0].Tci());
      SplitWord(tags[1].tpid);
    }
  }

  /** Appending a payload leaves the header where it is. */
  lemma {:induction false} LayoutAppend(h: seq<byte>, tags: seq<Tag>, ip: seq<byte>)
    requires ValidTags(tags) && Layout(h, tags, [])
    ensures Layout(h + ip, tags, ip)
  {
    var f := h + ip;
    assert f[|h|..] == ip;
    assert forall k: nat | k + 2 <= |h| :: U16At(f, k) == U16At(h, k);
  }

  lemma {:induction false} FrameLayout(tags: seq<Tag>, ip: seq<byte>)
    requires ValidTags(tags)
    ensures Layout(Frame(tags, ip), tags, ip)
  {
    FrameSplit(tags, ip);
    HeaderLayout(tags);
    LayoutAppend(Frame(tags, []), tags, ip);
  }

  lemma TciPcp(tag: Tag)
    requires tag.Valid()
    ensures Hi(tag.Tci()) / 0x20 == tag.pcp
  {
  }

  lemma LayoutRecovered(f: seq<byte>, tags: seq<Tag>, ip: seq<byte>, meta: Meta)
    requires ValidTags(tags) && Layout(f, tags, ip)
    ensures IsIp(f) && Tags(f) == |tags| && L3(f) == ETH_HLEN + VLAN_HLEN * |tags|
    ensures f[L3(f)..] == ip
    ensures !meta.vlanPresent ==> OuterPcp(f, meta) == if |tags| == 0 then None else Some(tags[0].pcp)
  {
    forall i | 0 <= i < |tags| ensures IsTpid(U16At(f, 12 + VLAN_HLEN * i)) {
      assert tags[i] in tags;
    }
    assert StopsAfter(f, |tags|);
    TagCountUnique(f, |tags|);
    if |tags| > 0 {
      TciPcp(tags[0]);
    }
  }

  /** The parser finds the tags the builder put there, and takes the PCP from the outermost. */
  lemma TagsRecovered(tags: seq<Tag>, ip: seq<byte>, meta: Meta)
    requires ValidTags(tags)
    ensures var f := Frame(tags, ip);
      && IsIp(f) && Tags(f) == |tags| && L3(f) == ETH_HLEN + VLAN_HLEN * |tags|
      && f[L3(f)..] == ip
      && (!meta.vlanPresent ==> OuterPcp(f, meta) == if |tags| == 0 then None else Some(tags[0].pcp))
  {
    FrameLayout(tags, ip);
    LayoutRecovered(Frame(tags, ip), tags, ip, meta);
  }

  lemma BuiltFields(ip: Ip, payload: seq<byte>)
    requires ip.Packable(payload)
    ensures var p := Ipv4(ip, payload);
      && |p| == IP_HLEN + |ip.options| + |payload|
      && p[0] == ip.VersionIhl() && p[1] == ip.tos && p[9] == ip.proto
      && p[6] == Hi(ip.fragOff) && p[7] == Lo(ip.fragOff)
      && p[IP_HLEN + |ip.options|..] == payload
      && p[..IP_HLEN + |ip.options|] == BuiltHeader(ip, payload)
  {
  }

  /**
   The parser recognises the built header, with its true length, iff the packet is not a fragment and
   the options fit an IHL. The builder itself accepts longer options and then overwrites the version.
   */
  lemma HeaderRecovered(tags: seq<Tag>, ip: Ip, payload: seq<byte>)
    requires ValidTags(tags) && ip.Packable(payload)
    ensures var f := Frame(tags, Ipv4(ip, payload));
      && HasIpHeader(f)
      && (IsFragment(f) <==> ip.Fragment())
      && (WholeIpv4(f) && HeaderLength(f, L3(f)) == IP_HLEN + |ip.options| <==>
            |ip.options| <= 40 && !ip.Fragment())
  {
    var f := Frame(tags, Ipv4(ip, payload));
    TagsRecovered(tags, Ipv4(ip, payload), Meta(false, 0));
    DatagramRecovered(f, L3(f), ip, payload);
  }

  lemma DatagramRecovered(f: seq<byte>, off: nat, ip: Ip, payload: seq<byte>)
    requires ip.Packable(payload) && off <= |f| && f[off..] == Ipv4(ip, payload)
    ensures off + IP_HLEN <= |f|
    ensures FragmentAt(f, off) <==> ip.Fragment()
    ensures WholeDatagramAt(f, off) && HeaderLength(f, off) == IP_HLEN + |ip.options| <==>
            |ip.options| <= 40 && !ip.Fragment()
    ensures |ip.options| <= 40 ==> HeaderLength(f, off) == IP_HLEN + |ip.options|
  {
    BuiltFields(ip, payload);
    var p := Ipv4(ip, payload);
    assert f[off] == p[0] && f[off + 6] == p[6] && f[off + 7] == p[7];
    VersionNibble(ip);
  }

  /** A built header verifies wherever it is put. */
  lemma BuiltVerifiesAt(f: seq<byte>, off: nat, ip: Ip, payload: seq<byte>)
    requires ip.Packable(payload) && off <= |f| && f[off..] == Ipv4(ip, payload) && |ip.options| <= 40
    ensures off + IP_HLEN <= |f| && HeaderLength(f, off) == IP_HLEN + |ip.options|
    ensures TosAndCheck(f, off) == (ip.tos, true)
  {
    var p, hlen := Ipv4(ip, payload), IP_HLEN + |ip.options|;
    BuiltFields(ip, payload);
    DatagramRecovered(f, off, ip, payload);
    BuiltHeaderVerifies(ip, payload);
    HeaderAt(f, off, p);
    assert p[..hlen][1] == p[1];
  }

  lemma HeaderAt(f: seq<byte>, off: nat, p: seq<byte>)
    requires off < |f| && f[off..] == p && HeaderLength(f, off) <= |p|
    ensures Header(f, off) == p[..HeaderLength(f, off)]
  {
  }

  lemma VersionNibble(ip: Ip)
    requires |ip.options| % 4 == 0 && ip.VersionIhl() < 0x100
    ensures |ip.options| <= 40 ==> ip.VersionIhl() / 16 == 4 && ip.VersionIhl() % 16 * 4 == IP_HLEN + |ip.options|
    ensures ip.VersionIhl() % 16 * 4 == IP_HLEN + |ip.options| ==> |ip.options| <= 40
  {
  }

  /** A payload that starts with a whole UDP header for a time-sensitive port. */
  predicate TsPayload(payload: seq<byte>, cfg: Config, ports: PortMap) {
    |payload| >= UDP_HLEN && TsPort(cfg, ports, U16At(payload, 2))
  }

  /** Every built datagram is judged by its outer PCP, its protocol and the port in its payload, and by nothing else. */
  lemma PayloadRecovered(tags: seq<Tag>, ip: Ip, payload: seq<byte>, meta: Meta, cfg: Config, ports: PortMap)
    requires ValidTags(tags) && ip.Packable(payload) && |ip.options| <= 40
    ensures var f := Frame(tags, Ipv4(ip, payload));
      && !TruncatedL2(f)
      && IpOffset(f) == (if !ip.Fragment() then ETH_HLEN + VLAN_HLEN * |tags| else 0)
      && Reason(f, meta, cfg, ports) ==
         if HighPcp(f, meta) then TsPcp
         else if ip.proto == IPPROTO_UDP && !ip.Fragment() && TsPayload(payload, cfg, ports) then TsUdp
         else Normal
  {
    var p := Ipv4(ip, payload);
    var f := Frame(tags, p);
    TagsRecovered(tags, p, meta);
    HeaderRecovered(tags, ip, payload);
    UdpRecovered(f, L3(f), ip, payload, cfg, ports);
  }

  lemma UdpRecovered(f: seq<byte>, off: nat, ip: Ip, payload: seq<byte>, cfg: Config, ports: PortMap)
    requires ip.Packable(payload) && |ip.options| <= 40
    requires off <= |f| && f[off..] == Ipv4(ip, payload)
    ensures off + IP_HLEN <= |f|
    ensures TsPortAt(f, off, cfg, ports) <==> ip.proto == IPPROTO_UDP && TsPayload(payload, cfg, ports)
  {
    var p, hlen := Ipv4(ip, payload), IP_HLEN + |ip.options|;
    BuiltFields(ip, payload);
    DatagramRecovered(f, off, ip, payload);
    assert f[off + 9] == p[9];
    if |payload| >= UDP_HLEN {
      assert f[off + hlen + 2] == p[hlen + 2] == p[hlen..][2];
      assert f[off + hlen + 3] == p[hlen + 3] == p[hlen..][3];
    }
  }

  /** Every built UDP datagram is judged by its outer PCP and its destination port, and by nothing else. */
  lemma PortRecovered(tags: seq<Tag>, ip: Ip, dport: u16, data: seq<byte>, sport: u16,
                      meta: Meta, cfg: Config, ports: PortMap)
    requires ValidTags(tags) && UDP_HLEN + |data| < 0x1_0000 && ip.Packable(Udp(dport, data, sport))
    requires |ip.options| <= 40
    ensures var f := Frame(tags, Ipv4(ip, Udp(dport, data, sport)));
      && !TruncatedL2(f)
      && IpOffset(f) == (if !ip.Fragment() then ETH_HLEN + VLAN_HLEN * |tags| else 0)
      && Reason(f, meta, cfg, ports) ==
         if HighPcp(f, meta) then TsPcp
         else if ip.proto == IPPROTO_UDP && !ip.Fragment() && TsPort(cfg, ports, dport) then TsUdp
         else Normal
  {
    UdpPort(dport, data, sport);
    PayloadRecovered(tags, ip, Udp(dport, data, sport), meta, cfg, ports);
  }

  lemma UdpPort(dport: u16, data: seq<byte>, sport: u16)
    requires UDP_HLEN + |data| < 0x1_0000
    ensures |Udp(dport, data, sport)| == UDP_HLEN + |data| && U16At(Udp(dport, data, sport), 2) == dport
  {
    SplitWord(dport);
  }

  // ----- What counts as time-sensitive, over built frames of any kind -----

  lemma TpidParts(t: u16)
    ensures IsTpid(t) <==> (t / 0x100 == 0x81 && t % 0x100 == 0) || (t / 0x100 == 0x88 && t % 0x100 == 0xA8)
  {
  }

  /** The parser stops behind the built tags, unless what follows looks like one more. */
  lemma BuiltTags(tags: seq<Tag>, etherType: u16, payload: seq<byte>)
    requires ValidTags(tags) && (|tags| == 2 || !IsTpid(etherType))
    ensures var f, n := TaggedFrame(tags, etherType, payload), |tags|;
      && BehindTags(f, n) && f[12 + 4 * n] == etherType / 0x100 && f[13 + 4 * n] == etherType % 0x100
      && (n > 0 ==> f[14] / 0x20 == tags[0].pcp)
  {
    TpidParts(etherType);
    if |tags| == 0 {
      UntaggedFrameBytes(etherType, payload);
      assert tags == [];
    } else if |tags| == 1 {
      assert tags == [tags[0]] && tags[0] in tags;
      TpidParts(tags[0].tpid);
      TaggedFrameBytes(tags[0], etherType, payload);
    } else {
      assert tags == [tags[0], tags[1]] && tags[0] in tags && tags[1] in tags;
      TpidParts(tags[0].tpid);
      TpidParts(tags[1].tpid);
      DoubleTaggedFrameBytes(tags[0], tags[1], etherType, payload);
    }
  }

  /** AVTP is always time-sensitive. */
  lemma AvtpIsTs(tags: seq<Tag>, payload: seq<byte>, meta: Meta, cfg: Config, ports: PortMap)
    requires ValidTags(tags)
    ensures Reason(TaggedFrame(tags, 0x22F0, payload), meta, cfg, ports) == TsAvtp
  {
    BuiltTags(tags, 0x22F0, payload);
    AvtpTable(TaggedFrame(tags, 0x22F0, payload), |tags|, meta, cfg, ports);
  }

  /** Whatever else is built is time-sensitive by its PCP iff that of the metadata, or without it that of the outermost
      tag, is at least 5. */
  lemma PcpIsTs(tags: seq<Tag>, etherType: u16, payload: seq<byte>, meta: Meta, cfg: Config, ports: PortMap)
    requires ValidTags(tags) && etherType != 0x22F0 && (|tags| == 2 || etherType !in {0x8100, 0x88A8})
    ensures Reason(TaggedFrame(tags, etherType, payload), meta, cfg, ports) == TsPcp <==>
            if meta.vlanPresent then meta.vlanTci / 0x2000 % 8 >= 5 else tags != [] && tags[0].pcp >= 5
    ensures etherType != 0x0800 ==> Reason(TaggedFrame(tags, etherType, payload), meta, cfg, ports) in {TsPcp, Normal}
  {
    BuiltTags(tags, etherType, payload);
    PcpTable(TaggedFrame(tags, etherType, payload), |tags|, meta, cfg, ports);
  }

  /**
   The ports, for a whole UDP datagram without a high outer PCP: one in the map is time-sensitive whatever the flags
   say; 6000 is unless flag 2 is set; any other is not.
   */
  lemma PortsAreTs(tags: seq<Tag>, ip: Ip, dport: u16, data: seq<byte>, sport: u16, meta: Meta, cfg: Config,
                   ports: PortMap)
    requires ValidTags(tags) && UDP_HLEN + |data| < 0x1_0000 && ip.Packable(Udp(dport, data, sport))
    requires |ip.options| <= 40 && !ip.Fragment() && ip.proto == 17
    requires if meta.vlanPresent then meta.vlanTci / 0x2000 % 8 < 5 else tags == [] || tags[0].pcp < 5
    ensures var reason := Reason(Frame(tags, Ipv4(ip, Udp(dport, data, sport))), meta, cfg, ports);
      && (dport in ports ==> reason == TsUdp)
      && (dport !in ports && dport == 6000 ==> reason == if cfg.flags / 2 % 2 == 1 then Normal else TsUdp)
      && (dport !in ports && dport != 6000 ==> reason == Normal)
  {
    PcpIsTs(tags, 0x0800, Ipv4(ip, Udp(dport, data, sport)), meta, cfg, ports);
    PortRecovered(tags, ip, dport, data, sport, meta, cfg, ports);
  }

  // ----- Checksums of built headers -----

  /** Filling in the checksum makes a header verify, and is all it does. */
  lemma FilledVerifies(blank: seq<byte>)
    requires |blank| >= 12 && blank[0] > 0 && blank[CHECK] == blank[CHECK + 1] == 0
    ensures IpChecksum(Filled(blank)) == 0
    ensures ZeroCheck(Filled(blank)) == blank && U16At(Filled(blank), CHECK) == IpChecksum(blank)
    ensures Filled(blank)[0] > 0
  {
    var c := IpChecksum(blank);
    var h := Filled(blank);
    assert h == blank[CHECK := Hi(c)][CHECK + 1 := Lo(c)];
    WordSumUpdate(blank, 5, Hi(c), Lo(c));
    PositiveSum(blank);
    FromScratchIffVerifies(WordSum(blank), c);
  }

  /** Retagging a filled header is filling the header with the new TOS. */
  lemma RetaggedFilled(blank: seq<byte>, tos: byte)
    requires |blank| >= 12 && blank[0] > 0 && blank[CHECK] == blank[CHECK + 1] == 0
    ensures Retagged(Filled(blank), tos) == Filled(blank[1 := tos])
  {
    var h, h' := Filled(blank), Filled(blank[1 := tos]);
    var r := Retagged(h, tos);
    FilledVerifies(blank);
    FilledVerifies(blank[1 := tos]);
    RetaggedIsFromScratch(h, tos);
    ZeroCheckRetagged(h, tos);
    assert ZeroCheck(r) == ZeroCheck(h');
    SameButCheck(r, h');
  }

  lemma ZeroCheckRetagged(h: seq<byte>, tos: byte)
    requires |h| >= 12
    ensures ZeroCheck(Retagged(h, tos)) == ZeroCheck(h)[1 := tos]
  {
    var c := NewCheck(h[0], h[1], h[CHECK], h[CHECK + 1], tos);
    StoredZeroCheck(h, tos, Hi(c), Lo(c));
  }

  /** Two headers with the same checksum and the same other bytes are the same. */
  lemma SameButCheck(f: seq<byte>, g: seq<byte>)
    requires |f| == |g| >= 12 && ZeroCheck(f) == ZeroCheck(g) && U16At(f, CHECK) == U16At(g, CHECK)
    ensures f == g
  {
    SameBytes(f, g);
    assert f == ZeroCheck(f)[CHECK := f[CHECK]][CHECK + 1 := f[CHECK + 1]];
    assert g == ZeroCheck(g)[CHECK := g[CHECK]][CHECK + 1 := g[CHECK + 1]];
  }

  lemma BlankBytes(ip: Ip, payload: seq<byte>, tos: byte)
    requires ip.Packable(payload)
    ensures var h := BlankHeader(ip, payload);
      && h[0] > 0 && h[CHECK] == h[CHECK + 1] == 0
      && BlankHeader(ip.(tos := tos), payload) == h[1 := tos]
  {
  }

  /** A built header verifies. */
  lemma BuiltHeaderVerifies(ip: Ip, payload: seq<byte>)
    requires ip.Packable(payload)
    ensures IpChecksum(BuiltHeader(ip, payload)) == 0
  {
    BlankBytes(ip, payload, ip.tos);
    FilledVerifies(BlankHeader(ip, payload));
  }

  /** Retagging a built header gives the header that would have been built with the new TOS. */
  lemma RetaggedIsRebuilt(ip: Ip, payload: seq<byte>, tos: byte)
    requires ip.Packable(payload)
    ensures Retagged(BuiltHeader(ip, payload), tos) == BuiltHeader(ip.(tos := tos), payload)
  {
    BlankBytes(ip, payload, tos);
    RetaggedFilled(BlankHeader(ip, payload), tos);
  }

  lemma SameBytes(f: seq<byte>, g: seq<byte>)
    requires |f| == |g| >= 12 && U16At(f, CHECK) == U16At(g, CHECK)
    ensures f[CHECK] == g[CHECK] && f[CHECK + 1] == g[CHECK + 1]
  {
  }

  lemma FrameSplit(tags: seq<Tag>, ip: seq<byte>)
    requires ValidTags(tags)
    ensures |Frame(tags, [])| == ETH_HLEN + VLAN_HLEN * |tags|
    ensures Frame(tags, ip) == Frame(tags, []) + ip
  {
    assert [] + ip == ip;
    if |tags| == 0 {
      EthSplit(ETH_P_IP, [], ip);
    } else if |tags| == 1 {
      VlanSplit(tags[0], ETH_P_IP, [], ip);
      EthSplit(tags[0].tpid, Vlan(tags[0], ETH_P_IP, []), ip);
    } else {
      var inner := Vlan(tags[1], ETH_P_IP, []);
      VlanSplit(tags[1], ETH_P_IP, [], ip);
      VlanSplit(tags[0], tags[1].tpid, inner, ip);
      EthSplit(tags[0].tpid, Vlan(tags[0], tags[1].tpid, inner), ip);
    }
  }

  lemma EthSplit(etherType: u16, a: seq<byte>, b: seq<byte>)
    ensures Eth(etherType, a + b) == Eth(etherType, a) + b
  {
  }

  lemma VlanSplit(tag: Tag, etherType: u16, a: seq<byte>, b: seq<byte>)
    requires tag.Valid()
    ensures Vlan(tag, etherType, a + b) == Vlan(tag, etherType, a) + b
  {
  }

  /**
   The program and the builders commute: rewriting a built frame in place, once or more often, gives, byte for byte,
   the frame built with the configured DSCP in the first place, and that frame's header verifies.
   */
  lemma {:induction false} MarkingIsRebuilding(tags: seq<Tag>, ip: Ip, payload: seq<byte>, priority: u32, meta: Meta,
                            cfg: Config, ports: PortMap, n: nat)
    requires ValidTags(tags) && ip.Packable(payload)
    requires |ip.options| <= 40 && !ip.Fragment() && cfg.MarkDscp()
    requires IsTs(Reason(Frame(tags, Ipv4(ip, payload)), meta, cfg, ports))
    ensures var p := Packet(Frame(tags, Ipv4(ip, payload)), priority, meta);
      var tos := NewTos(cfg.Dscp(), ip.tos);
      var g := Rerun(Process(p, cfg, ports), cfg, ports, n).packet.frame;
      && g == Frame(tags, Ipv4(ip.(tos := tos), payload))
      && L3(p.frame) + IP_HLEN <= |g|
      && HeaderLength(g, L3(p.frame)) >= IP_HLEN
      && TosAndCheck(g, L3(p.frame)) == (tos, true)
  {
    var pkt := Ipv4(ip, payload);
    var f := Frame(tags, pkt);
    var tos := NewTos(cfg.Dscp(), ip.tos);
    var ip' := ip.(tos := tos);
    var off := ETH_HLEN + VLAN_HLEN * |tags|;
    RunsAlike(Packet(f, priority, meta), cfg, ports, n);
    TagsRecovered(tags, pkt, meta);
    HeaderRecovered(tags, ip, payload);
    BuiltFields(ip, payload);
    assert f[off + 1] == f[off..][1] == ip.tos;
    if tos == ip.tos {
      assert ip' == ip;
    } else {
      RetaggedIsRebuilt(ip, payload, tos);
      RetaggedPrefix(BuiltHeader(ip, payload), payload, tos);
      FrameSplit(tags, pkt);
      FrameSplit(tags, Ipv4(ip', payload));
      assert f[..off] == Frame(tags, []);
    }
    BuiltFrameVerifies(tags, ip', payload);
  }

  /** The header of every built frame verifies where the harness looks for it. */
  lemma BuiltFrameVerifies(tags: seq<Tag>, ip: Ip, payload: seq<byte>)
    requires ValidTags(tags) && ip.Packable(payload) && |ip.options| <= 40
    ensures var f, off := Frame(tags, Ipv4(ip, payload)), ETH_HLEN + VLAN_HLEN * |tags|;
      && off + IP_HLEN <= |f| && HeaderLength(f, off) == IP_HLEN + |ip.options|
      && TosAndCheck(f, off) == (ip.tos, true)
  {
    FrameLayout(tags, Ipv4(ip, payload));
    BuiltVerifiesAt(Frame(tags, Ipv4(ip, payload)), ETH_HLEN + VLAN_HLEN * |tags|, ip, payload);
  }

  /** With nothing configured but marking, every whole datagram to UDP port 6000 leaves at priority 6 and as the
      frame built with DSCP EF. */
  lemma {:induction false} DefaultsMarkEf(tags: seq<Tag>, ip: Ip, data: seq<byte>, sport: u16, priority: u32,
                                          meta: Meta, ports: PortMap, n: nat)
    requires ValidTags(tags) && UDP_HLEN + |data| < 0x1_0000 && ip.Packable(Udp(6000, data, sport))
    requires |ip.options| <= 40 && !ip.Fragment() && ip.proto == 17
    ensures var f, cfg := Frame(tags, Ipv4(ip, Udp(6000, data, sport))), Config(0, 0, 1);
      var g := Rerun(Process(Packet(f, priority, meta), cfg, ports), cfg, ports, n).packet;
      && g.priority == 6
      && g.frame == Frame(tags, Ipv4(ip.(tos := 0xB8 + ip.tos % 4), Udp(6000, data, sport)))
  {
    var cfg := Config(0, 0, 1);
    DefaultValues(ip.tos);
    UdpPort(6000, data, sport);
    UdpRebuilt(tags, ip, Udp(6000, data, sport), priority, meta, cfg, ports, n);
  }

  /** With a priority, a DSCP and marking configured, every whole datagram to a UDP port in the map leaves at that
      priority and as the frame built with the low six bits of that DSCP. */
  lemma {:induction false} ConfiguredMark(tags: seq<Tag>, ip: Ip, dport: u16, data: seq<byte>, sport: u16, p: Packet,
                                          level: u32, dscp: u32, ports: PortMap, n: nat)
    requires ValidTags(tags) && UDP_HLEN + |data| < 0x1_0000 && ip.Packable(Udp(dport, data, sport))
    requires |ip.options| <= 40 && !ip.Fragment() && ip.proto == 17 && dport in ports && level != 0 && dscp != 0
    requires p.frame == Frame(tags, Ipv4(ip, Udp(dport, data, sport)))
    ensures var cfg := Config(level, dscp, 1);
            Rerun(Process(p, cfg, ports), cfg, ports, n).packet ==
            Packet(Frame(tags, Ipv4(ip.(tos := dscp % 0x40 * 4 + ip.tos % 4), Udp(dport, data, sport))), level, p.meta)
  {
    ConfiguredValues(level, dscp, ip.tos);
    UdpPort(dport, data, sport);
    UdpRebuilt(tags, ip, Udp(dport, data, sport), p.priority, p.meta, Config(level, dscp, 1), ports, n);
  }

  lemma ConfiguredValues(level: u32, dscp: u32, tos: byte)
    requires level != 0 && dscp != 0
    ensures Config(level, dscp, 1).MarkDscp() && Config(level, dscp, 1).Priority() == level
    ensures NewTos(Config(level, dscp, 1).Dscp(), tos) == dscp % 0x40 * 4 + tos % 4
  {
  }

  lemma DefaultValues(tos: byte)
    ensures Config(0, 0, 1).MarkDscp() && Config(0, 0, 1).Priority() == 6
    ensures NewTos(Config(0, 0, 1).Dscp(), tos) == 0xB8 + tos % 4
  {
  }

  /** With marking on, every whole datagram to a listed UDP port leaves as the frame built with the configured DSCP,
      however often the program runs. */
  lemma {:induction false} UdpRebuilt(tags: seq<Tag>, ip: Ip, udp: seq<byte>, priority: u32, meta: Meta,
                                      cfg: Config, ports: PortMap, n: nat)
    requires ValidTags(tags) && ip.Packable(udp) && |ip.options| <= 40
    requires ip.proto == IPPROTO_UDP && !ip.Fragment() && TsPayload(udp, cfg, ports) && cfg.MarkDscp()
    ensures var o := Process(Packet(Frame(tags, Ipv4(ip, udp)), priority, meta), cfg, ports);
            Rerun(o, cfg, ports, n).packet ==
            Packet(Frame(tags, Ipv4(ip.(tos := NewTos(cfg.Dscp(), ip.tos)), udp)), cfg.Priority(), meta)
  {
    var p := Packet(Frame(tags, Ipv4(ip, udp)), priority, meta);
    PayloadRecovered(tags, ip, udp, meta, cfg, ports);
    MarkingIsRebuilding(tags, ip, udp, priority, meta, cfg, ports, n);
    RunsAlike(p, cfg, ports, n);
    PriorityIsSet(p, cfg, ports);
  }

  lemma PriorityIsSet(p: Packet, cfg: Config, ports: PortMap)
    requires IsTs(Reason(p.frame, p.meta, cfg, ports))
    ensures Process(p, cfg, ports).packet.priority == cfg.Priority() && Process(p, cfg, ports).packet.meta == p.meta
  {
  }

  /** With nothing configured, a UDP packet to another port and without a high outer PCP is left alone and counted as
      normal. */
  lemma DefaultsIgnoreOthers(tags: seq<Tag>, ip: Ip, dport: u16, data: seq<byte>, sport: u16, priority: u32)
    requires ValidTags(tags) && UDP_HLEN + |data| < 0x1_0000 && ip.Packable(Udp(dport, data, sport))
    requires |ip.options| <= 40 && dport != 6000 && (|tags| > 0 ==> tags[0].pcp < 5)
    ensures var p := Packet(Frame(tags, Ipv4(ip, Udp(dport, data, sport))), priority, Meta(false, 0));
            Process(p, Config(0, 0, 1), map[]) == Outcome(p, Normal, false)
  {
    TagsRecovered(tags, Ipv4(ip, Udp(dport, data, sport)), Meta(false, 0));
    PortRecovered(tags, ip, dport, data, sport, Meta(false, 0), Config(0, 0, 1), map[]);
  }
}
