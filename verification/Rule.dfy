/**
 What counts as time-sensitive, stated as a rule about the frame rather than as a parse:
 which tags are there, which headers are complete, and which test decides first.
 */
module Rule {
  import opened Bytes
  import opened Wrappers
  import opened TsCommon

  predicate IsTpid(t: u16) { t == ETH_P_8021Q || t == ETH_P_8021AD }

  /** The Ethernet header and its first `n` VLAN tags are complete. */
  predicate Tagged(f: seq<byte>, n: nat) {
    && ETH_HLEN + VLAN_HLEN * n <= |f|
    && forall i | 0 <= i < n :: IsTpid(U16At(f, 12 + VLAN_HLEN * i))
  }

  /** Exactly `n` tags are skipped: no tag follows, or the limit of two is reached. */
  predicate StopsAfter(f: seq<byte>, n: nat) {
    n <= 2 && Tagged(f, n) && (n == 2 || !IsTpid(U16At(f, 12 + VLAN_HLEN * n)))
  }

  predicate TruncatedL2(f: seq<byte>) {
    forall n | 0 <= n <= 2 :: !StopsAfter(f, n)
  }

  /** The number of tags skipped; by `TagCountUnique` the only one there is. */
  function Tags(f: seq<byte>): (n: nat)
    requires !TruncatedL2(f)
    ensures StopsAfter(f, n)
  {
    if StopsAfter(f, 0) then 0 else if StopsAfter(f, 1) then 1 else 2
  }

  lemma TagCountUnique(f: seq<byte>, n: nat)
    requires StopsAfter(f, n)
    ensures !TruncatedL2(f) && Tags(f) == n
  {
  }

  /** The offset behind the Ethernet header and the skipped tags. */
  function L3(f: seq<byte>): nat
    requires !TruncatedL2(f)
  {
    ETH_HLEN + VLAN_HLEN * Tags(f)
  }

  function EtherType(f: seq<byte>): u16
    requires !TruncatedL2(f)
  {
    U16At(f, L3(f) - 2)
  }

  /** The priority is the top three bits of the TCI, that is of its first byte. */
  lemma PcpBits(hi: byte, lo: byte)
    ensures Word(hi, lo) / 0x2000 % 8 == hi / 0x20
  {
  }

  /** A tag in the metadata is outside any tag in the frame, and the first tag in the frame outside the second. */
  function OuterPcp(f: seq<byte>, meta: Meta): Option<nat>
    requires !TruncatedL2(f)
  {
    if meta.vlanPresent then Some(meta.vlanTci / 0x2000 % 8)
    else if Tags(f) > 0 then Some(f[ETH_HLEN] / 0x20)
    else None
  }

  predicate HighPcp(f: seq<byte>, meta: Meta)
    requires !TruncatedL2(f)
  {
    OuterPcp(f, meta).Some? && OuterPcp(f, meta).value >= VLAN_PCP_MIN
  }

  predicate IsIp(f: seq<byte>) {
    !TruncatedL2(f) && EtherType(f) == ETH_P_IP
  }

  /** The fixed part of the IPv4 header is in the frame. */
  predicate HasIpHeader(f: seq<byte>) {
    IsIp(f) && L3(f) + IP_HLEN <= |f|
  }

  predicate IsFragment(f: seq<byte>)
    requires HasIpHeader(f)
  {
    FragmentAt(f, L3(f))
  }

  /** `frag_off & htons(TS_IP_MF | TS_IP_OFFSET)` on the two bytes of the field: all of its bits but the top two. */
  predicate FragmentBits(hi: byte, lo: byte) { hi % 0x40 != 0 || lo != 0 }

  predicate FragmentAt(f: seq<byte>, off: nat)
    requires off + IP_HLEN <= |f|
  {
    FragmentBits(f[off + 6], f[off + 7])
  }

  function HeaderLength(f: seq<byte>, off: nat): nat
    requires off < |f|
  {
    f[off] % 16 * 4
  }

  predicate WholeDatagramAt(f: seq<byte>, off: nat) {
    && off + IP_HLEN <= |f|
    && f[off] / 16 == 4
    && HeaderLength(f, off) >= IP_HLEN
    && !FragmentAt(f, off)
  }

  /** A whole IPv4 datagram with a well-formed fixed header: the only packets whose DSCP may be rewritten. */
  predicate WholeIpv4(f: seq<byte>) {
    IsIp(f) && WholeDatagramAt(f, L3(f))
  }

  predicate TsPort(cfg: Config, ports: PortMap, port: u16) {
    (port == DEFAULT_UDP_PORT && !cfg.DisableUdpDefault()) || port in ports
  }

  predicate TsPortAt(f: seq<byte>, off: nat, cfg: Config, ports: PortMap)
    requires off + IP_HLEN <= |f|
  {
    && f[off + 9] == IPPROTO_UDP
    && var udp := off + HeaderLength(f, off);
       udp + UDP_HLEN <= |f| && TsPort(cfg, ports, U16At(f, udp + 2))
  }

  predicate UdpMatch(f: seq<byte>, cfg: Config, ports: PortMap) {
    WholeIpv4(f) && TsPortAt(f, L3(f), cfg, ports)
  }

  /** The first test that applies decides. */
  function Reason(f: seq<byte>, meta: Meta, cfg: Config, ports: PortMap): Counter {
    if TruncatedL2(f) then ParseShort
    else if EtherType(f) == AVTP_ETHERTYPE then TsAvtp
    else if HighPcp(f, meta) then TsPcp
    else if IsIp(f) && !HasIpHeader(f) then ParseShort
    else if UdpMatch(f, cfg, ports) then TsUdp
    else Normal
  }

  predicate IsTs(r: Counter) { r in {TsAvtp, TsPcp, TsUdp} }

  /** 0 unless the packet is a whole IPv4 datagram. */
  function IpOffset(f: seq<byte>): nat {
    if WholeIpv4(f) then L3(f) else 0
  }

  /**
   All 20 bytes of a reported IPv4 header are in the frame, at one of three offsets.
   Hence no bounds failure is possible when it is rewritten.
   */
  lemma IpOffsetInFrame(f: seq<byte>)
    ensures IpOffset(f) in {0, 14, 18, 22}
    ensures IpOffset(f) != 0 <==> WholeIpv4(f)
    ensures IpOffset(f) != 0 ==> IpOffset(f) + IP_HLEN <= |f| && f[IpOffset(f)] > 0
  {
  }

  /** Only the outermost tag decides the PCP: the inner tag's TCI bits are irrelevant to the verdict. */
  lemma InnerTagNeverDecides(f: seq<byte>, meta: Meta, cfg: Config, ports: PortMap, hi: byte, lo: byte)
    requires |f| >= 22 && IsTpid(U16At(f, 12)) && IsTpid(U16At(f, 16))
    ensures Reason(f[18 := hi][19 := lo], meta, cfg, ports) == Reason(f, meta, cfg, ports)
  {
    var g := f[18 := hi][19 := lo];
    assert StopsAfter(f, 2) && StopsAfter(g, 2);
    TagCountUnique(f, 2);
    TagCountUnique(g, 2);
    if HasIpHeader(f) {
      SameDatagram(f, g, 22);
      if WholeIpv4(f) {
        SamePort(f, g, 22, cfg, ports);
      }
    }
  }

  // ----- The rule, byte by byte -----

  /** A VLAN tag's protocol identifier at offset `i`: 0x8100 or 0x88A8. */
  predicate TpidBytes(f: seq<byte>, i: nat)
    requires i + 2 <= |f|
  {
    (f[i] == 0x81 && f[i + 1] == 0) || (f[i] == 0x88 && f[i + 1] == 0xA8)
  }

  /** The frame holds an Ethernet header and `n` tags, with no tag behind them unless there are two already. */
  predicate BehindTags(f: seq<byte>, n: nat) {
    && n <= 2 && |f| >= 14 + 4 * n
    && (n >= 1 ==> TpidBytes(f, 12)) && (n >= 2 ==> TpidBytes(f, 16))
    && (n < 2 ==> !TpidBytes(f, 12 + 4 * n))
  }

  lemma StopsBehindTags(f: seq<byte>, n: nat)
    ensures BehindTags(f, n) <==> StopsAfter(f, n)
  {
    if n <= 2 && |f| >= 14 + 4 * n {
      TpidIsBytes(f, 12 + 4 * n);
      if n >= 1 {
        TpidIsBytes(f, 12);
      }
      if n == 2 {
        TpidIsBytes(f, 16);
        assert Tagged(f, 2) <==> TpidBytes(f, 12) && TpidBytes(f, 16) by {
          if Tagged(f, 2) {
            assert IsTpid(U16At(f, 12 + VLAN_HLEN * 0)) && IsTpid(U16At(f, 12 + VLAN_HLEN * 1));
          }
        }
      } else if n == 1 {
        assert Tagged(f, 1) <==> TpidBytes(f, 12) by {
          if Tagged(f, 1) {
            assert IsTpid(U16At(f, 12 + VLAN_HLEN * 0));
          }
        }
      }
    }
  }

  lemma TpidIsBytes(f: seq<byte>, i: nat)
    requires i + 2 <= |f|
    ensures IsTpid(U16At(f, i)) <==> TpidBytes(f, i)
  {
  }

  /** Without a whole L2 header the packet is short: no Ethernet header, or a tag that is cut off. */
  lemma ShortWithoutL2(f: seq<byte>, meta: Meta, cfg: Config, ports: PortMap)
    ensures TruncatedL2(f) <==> !BehindTags(f, 0) && !BehindTags(f, 1) && !BehindTags(f, 2)
    ensures TruncatedL2(f) <==>
            |f| < 14 || (|f| < 18 && TpidBytes(f, 12)) || (|f| < 22 && TpidBytes(f, 12) && TpidBytes(f, 16))
    ensures TruncatedL2(f) ==> Reason(f, meta, cfg, ports) == ParseShort
  {
    StopsBehindTags(f, 0);
    StopsBehindTags(f, 1);
    StopsBehindTags(f, 2);
  }

  /** The outer PCP is that of the metadata, or else that of the first tag; 5, 6 and 7 are high. */
  lemma HighPcpTable(f: seq<byte>, n: nat, meta: Meta)
    requires BehindTags(f, n)
    ensures !TruncatedL2(f) && L3(f) == 14 + 4 * n && EtherType(f) == Word(f[12 + 4 * n], f[13 + 4 * n])
    ensures HighPcp(f, meta) <==>
            if meta.vlanPresent then meta.vlanTci / 0x2000 % 8 >= 5 else n > 0 && f[14] / 0x20 >= 5
  {
    StopsBehindTags(f, n);
    TagCountUnique(f, n);
  }

  /** A port is time-sensitive if it is in the map, or 6000 unless flag 2 turns that default off. */
  lemma TsPortTable(cfg: Config, ports: PortMap, port: u16)
    ensures TsPort(cfg, ports, port) <==> port in ports || (port == 6000 && cfg.flags / 2 % 2 == 0)
  {
  }

  /** AVTP is time-sensitive behind up to two tags, whatever the tags and the metadata say. */
  lemma AvtpTable(f: seq<byte>, n: nat, meta: Meta, cfg: Config, ports: PortMap)
    requires BehindTags(f, n) && f[12 + 4 * n] == 0x22 && f[13 + 4 * n] == 0xF0
    ensures Reason(f, meta, cfg, ports) == TsAvtp
  {
    HighPcpTable(f, n, meta);
  }

  /** Any other frame with a high outer PCP is time-sensitive, and so is nothing else that is not IPv4. */
  lemma PcpTable(f: seq<byte>, n: nat, meta: Meta, cfg: Config, ports: PortMap)
    requires BehindTags(f, n) && !(f[12 + 4 * n] == 0x22 && f[13 + 4 * n] == 0xF0)
    ensures Reason(f, meta, cfg, ports) == TsPcp <==>
            if meta.vlanPresent then meta.vlanTci / 0x2000 % 8 >= 5 else n > 0 && f[14] / 0x20 >= 5
    ensures !(f[12 + 4 * n] == 8 && f[13 + 4 * n] == 0) ==> Reason(f, meta, cfg, ports) in {TsPcp, Normal}
  {
    HighPcpTable(f, n, meta);
  }

  /**
   An IPv4 frame without a high outer PCP: short without 20 bytes of header, time-sensitive iff it is a whole UDP
   datagram with a whole UDP header for a time-sensitive port behind its options, and normal otherwise.
   */
  lemma Ipv4Table(f: seq<byte>, n: nat, meta: Meta, cfg: Config, ports: PortMap)
    requires BehindTags(f, n) && f[12 + 4 * n] == 8 && f[13 + 4 * n] == 0
    requires if meta.vlanPresent then meta.vlanTci / 0x2000 % 8 < 5 else n == 0 || f[14] / 0x20 < 5
    ensures var l3 := 14 + 4 * n;
      if |f| < l3 + 20 then Reason(f, meta, cfg, ports) == ParseShort
      else
        var udp := l3 + f[l3] % 16 * 4;
        Reason(f, meta, cfg, ports) ==
        if f[l3] / 16 == 4 && f[l3] % 16 >= 5                   // version 4, at least five words of header
           && f[l3 + 6] % 0x40 == 0 && f[l3 + 7] == 0           // not a fragment
           && f[l3 + 9] == 17 && |f| >= udp + 8                 // a UDP header
           && (var port := 0x100 * f[udp + 2] as int + f[udp + 3] as int;
               port in ports || (port == 6000 && cfg.flags / 2 % 2 == 0))
        then TsUdp else Normal
  {
    HighPcpTable(f, n, meta);
  }

  /** Two frames with the same addresses, tags and EtherType. */
  predicate SameL2(f: seq<byte>, g: seq<byte>) {
    TruncatedL2(f) == TruncatedL2(g) && (!TruncatedL2(f) ==> L3(f) == L3(g) && f[..L3(f)] == g[..L3(g)])
  }

  /**
   Two fragments with the same L2 header get the same verdict whatever else they hold, under any two
   configurations and port maps: the pieces of one datagram never part ways.
   */
  lemma FragmentsAgree(f: seq<byte>, g: seq<byte>, meta: Meta, cfg: Config, cfg': Config, ports: PortMap, ports': PortMap)
    requires HasIpHeader(f) && HasIpHeader(g) && SameL2(f, g)
    requires IsFragment(f) && IsFragment(g)
    ensures Reason(f, meta, cfg, ports) == Reason(g, meta, cfg', ports')
    ensures Reason(f, meta, cfg, ports) in {TsPcp, Normal}
    ensures IpOffset(f) == IpOffset(g) == 0
  {
    assert EtherType(f) == U16At(f[..L3(f)], L3(f) - 2);
    assert Tags(f) > 0 ==> f[ETH_HLEN] == f[..L3(f)][ETH_HLEN];
    assert Tags(g) > 0 ==> g[ETH_HLEN] == g[..L3(g)][ETH_HLEN];
  }

  /** `f` and `g` agree except, possibly, in the TOS and checksum bytes of an IPv4 header behind the tags. */
  predicate SameButMark(f: seq<byte>, g: seq<byte>) {
    && |f| == |g|
    && forall i | 0 <= i < |f| :: f[i] == g[i] || (HasIpHeader(f) && i - L3(f) in {1, 10, 11})
  }

  /** The parser reads neither the TOS nor the checksum, even through IP options. */
  lemma MarkIsInvisible(f: seq<byte>, g: seq<byte>, meta: Meta, cfg: Config, ports: PortMap)
    requires SameButMark(f, g)
    ensures Reason(f, meta, cfg, ports) == Reason(g, meta, cfg, ports)
    ensures IpOffset(f) == IpOffset(g)
    ensures TruncatedL2(f) == TruncatedL2(g)
    ensures !TruncatedL2(f) ==> L3(f) == L3(g) && EtherType(f) == EtherType(g)
    ensures WholeIpv4(f) == WholeIpv4(g)
  {
    SameL2Fields(f, g, meta);
    if HasIpHeader(f) {
      SameDatagram(f, g, L3(f));
      if WholeIpv4(f) {
        SamePort(f, g, L3(f), cfg, ports);
      }
    }
  }

  /** `f` and `g` agree from `off` on, except in the TOS and checksum bytes of a header there. */
  predicate SameButMarkAt(f: seq<byte>, g: seq<byte>, off: nat) {
    && |f| == |g|
    && forall i | off <= i < |f| && i != off + 1 && i != off + 10 && i != off + 11 :: f[i] == g[i]
  }

  /** At a given offset the parser reads neither the TOS nor the checksum. */
  lemma SameDatagram(f: seq<byte>, g: seq<byte>, off: nat)
    requires SameButMarkAt(f, g, off) && off + IP_HLEN <= |f|
    ensures FragmentAt(f, off) == FragmentAt(g, off)
    ensures WholeDatagramAt(f, off) == WholeDatagramAt(g, off)
  {
    assert f[off] == g[off] && f[off + 6] == g[off + 6] && f[off + 7] == g[off + 7];
  }

  /** Behind the options the port is found in the same place. */
  lemma SamePort(f: seq<byte>, g: seq<byte>, off: nat, cfg: Config, ports: PortMap)
    requires SameButMarkAt(f, g, off) && off + IP_HLEN <= |f| && HeaderLength(f, off) >= IP_HLEN
    ensures TsPortAt(f, off, cfg, ports) == TsPortAt(g, off, cfg, ports)
  {
    assert f[off] == g[off] && f[off + 9] == g[off + 9];
    var udp := off + HeaderLength(f, off);
    if udp + UDP_HLEN <= |f| {
      assert f[udp + 2] == g[udp + 2] && f[udp + 3] == g[udp + 3];
    }
  }

  lemma SameL2Fields(f: seq<byte>, g: seq<byte>, meta: Meta)
    requires SameButMark(f, g)
    ensures TruncatedL2(f) == TruncatedL2(g)
    ensures !TruncatedL2(f) ==>
              L3(f) == L3(g) && EtherType(f) == EtherType(g) && HighPcp(f, meta) == HighPcp(g, meta)
  {
    SameTags(f, g);
    if !TruncatedL2(f) {
      var l3 := L3(f);
      assert forall i | 0 <= i < l3 :: f[..l3][i] == f[i] && g[..l3][i] == g[i];
    }
  }

  lemma SameTags(f: seq<byte>, g: seq<byte>)
    requires SameButMark(f, g)
    ensures TruncatedL2(f) == TruncatedL2(g)
    ensures !TruncatedL2(f) ==> L3(f) == L3(g) && f[..L3(f)] == g[..L3(g)]
  {
    if TruncatedL2(f) {
      assert f == g;
    } else {
      assert forall i | 0 <= i < L3(f) :: f[i] == g[i];
      assert StopsAfter(g, Tags(f));
      TagCountUnique(g, Tags(f));
    }
  }
}
