/** The BPF program `ts_classifier`: parse, set the priority, count, and rewrite the DSCP in place. */
module Classifier {
  import opened Bytes
  import opened Wrappers
  import opened Checksum
  import opened Interleaving
  import opened TsCommon
  import opened Rule

  // ----- Specification -----

  /** The TOS byte with its DSCP replaced and its two ECN bits kept. */
  function NewTos(dscp: byte, tos: byte): byte { dscp * 4 % 0x100 + tos % 4 }

  datatype MarkResult = MarkResult(rc: int, frame: seq<byte>)

  /** `mark_dscp` on any offset: 1 when rewritten, 0 when the DSCP was already there, -1 and no change when a byte
      is missing. */
  function Marked(f: seq<byte>, off: nat, dscp: byte): (r: MarkResult)
    ensures |r.frame| == |f|
    ensures off <= |f| ==> r.frame[..off] == f[..off]
    ensures SameButMarkAt(f, r.frame, off)
    ensures r.rc == 1 <==> r.frame != f
    ensures off + IP_HLEN <= |f| ==> r.rc in {0, 1} && r.frame[off + 1] == NewTos(dscp, f[off + 1])
  {
    if off + 2 > |f| then MarkResult(-1, f)
    else if NewTos(dscp, f[off + 1]) == f[off + 1] then MarkResult(0, f)
    else if off + CHECK + 2 > |f| then MarkResult(-1, f)
    else MarkResult(1, f[..off] + Retagged(f[off..], NewTos(dscp, f[off + 1])))
  }

  datatype Outcome = Outcome(packet: Packet, reason: Counter, marked: bool)

  /** Everything one run of the program does to a packet and its counters. */
  function Process(p: Packet, cfg: Config, ports: PortMap): Outcome {
    var reason := Reason(p.frame, p.meta, cfg, ports);
    if !IsTs(reason) then Outcome(p, reason, false)
    else
      var m := if cfg.MarkDscp() && WholeIpv4(p.frame)
               then Marked(p.frame, L3(p.frame), cfg.Dscp()) else MarkResult(0, p.frame);
      Outcome(Packet(m.frame, cfg.Priority(), p.meta), reason, m.rc > 0)
  }

  /** An index past the map's end is not found, and nothing is counted. */
  function Bump(slots: seq<u64>, c: Counter): (r: seq<u64>)
    ensures |r| == |slots|
  {
    if c.Index() < |slots| then slots[c.Index() := Increment(slots[c.Index()])] else slots
  }

  /** The counters after a packet with this outcome. */
  function Counted(slots: seq<u64>, o: Outcome): seq<u64> {
    if o.marked then Bump(Bump(slots, o.reason), DscpMarked) else Bump(slots, o.reason)
  }

  // ----- The program -----

  datatype ByteOrder = Little | Big

  /** `memcpy` of two bytes into a 16-bit variable. */
  function HostWord(host: ByteOrder, b0: byte, b1: byte): u16 {
    match host
    case Little => Word(b1, b0)
    case Big => Word(b0, b1)
  }

  /** The first half of `classify`: the Ethernet header and up to two tags. */
  method SkipTags(skb: Skb) returns (ok: bool, off: nat, proto: u16, highPcp: bool)
    ensures ok <==> !TruncatedL2(skb.data[..])
    ensures ok ==> off == L3(skb.data[..]) && proto == EtherType(skb.data[..])
    ensures ok ==> highPcp == HighPcp(skb.data[..], skb.meta)
  {
    ghost var f := skb.data[..];
    var len := skb.data.Length;
    off := ETH_HLEN;
    if off > len {
      return false, 0, 0, false;
    }
    proto := Word(skb.data[12], skb.data[13]);
    var pcp: nat, hasPcp := 0, false;
    if skb.meta.vlanPresent {
      pcp, hasPcp := skb.meta.vlanTci / 0x2000 % 8, true;
    }
    var i := 0;
    while i < 2
      invariant 0 <= i <= 2 && off == ETH_HLEN + VLAN_HLEN * i && Tagged(f, i)
      invariant proto == U16At(f, off - 2)
      invariant hasPcp == (skb.meta.vlanPresent || i > 0)
      invariant skb.meta.vlanPresent ==> pcp == skb.meta.vlanTci / 0x2000 % 8
      invariant !skb.meta.vlanPresent && i > 0 ==> pcp == f[ETH_HLEN] / 0x20
    {
      if proto != ETH_P_8021Q && proto != ETH_P_8021AD {
        break;
      }
      if off + VLAN_HLEN > len {
        return false, 0, 0, false;
      }
      if !hasPcp {
        PcpBits(skb.data[off], skb.data[off + 1]);
        pcp, hasPcp := Word(skb.data[off], skb.data[off + 1]) / 0x2000 % 8, true;
      }
      proto := Word(skb.data[off + 2], skb.data[off + 3]);
      off := off + VLAN_HLEN;
      i := i + 1;
    }
    TagCountUnique(f, i);
    ok, highPcp := true, hasPcp && pcp >= VLAN_PCP_MIN;
  }

  /** The second half of `classify`, for IPv4; leaving the block `done` early is the source's `goto done`. */
  method ClassifyIp(skb: Skb, off: nat, highPcp: bool, cfg: Config, ports: PortMap)
    returns (ts: bool, reason: Counter, ipOff: nat)
    ensures ipOff == if WholeDatagramAt(skb.data[..], off) then off else 0
    ensures ts <==> IsTs(reason)
    ensures reason ==
      if highPcp then TsPcp
      else if off + IP_HLEN > skb.data.Length then ParseShort
      else if WholeDatagramAt(skb.data[..], off) && TsPortAt(skb.data[..], off, cfg, ports) then TsUdp
      else Normal
  {
    ghost var f := skb.data[..];
    var len := skb.data.Length;
    reason, ipOff := if highPcp then TsPcp else Normal, 0;
    label done: {
      if off + IP_HLEN > len {
        if reason != TsPcp {
          reason := ParseShort;
        }
        return reason == TsPcp, reason, ipOff;
      }
      if skb.data[off] / 16 != 4 {
        break done;
      }
      var ihl := skb.data[off] % 16 * 4;
      if ihl < IP_HLEN {
        break done;
      }
      assert ihl == HeaderLength(f, off);
      if FragmentBits(skb.data[off + 6], skb.data[off + 7]) {
        assert FragmentAt(f, off);
        break done;
      }
      ipOff := off;
      assert WholeDatagramAt(f, off);
      if skb.data[off + 9] == IPPROTO_UDP {
        var udp := off + ihl;
        if udp + UDP_HLEN > len {
          break done;
        }
        var dport := Word(skb.data[udp + 2], skb.data[udp + 3]);
        assert f[udp + 2] == skb.data[udp + 2] && f[udp + 3] == skb.data[udp + 3];
        assert U16At(f, off + HeaderLength(f, off) + 2) == dport;
        if !cfg.DisableUdpDefault() && dport == DEFAULT_UDP_PORT {
          if reason != TsPcp {
            reason := TsUdp;
          }
          return true, reason, ipOff;
        }
        if dport in ports {
          if reason != TsPcp {
            reason := TsUdp;
          }
          return true, reason, ipOff;
        }
      }
    }
    if reason == TsPcp {
      return true, reason, ipOff;
    }
    reason := Normal;
    ts := false;
  }

  /** `classify`: the branching parser decides exactly as the rule does. */
  method Classify(skb: Skb, cfg: Config, ports: PortMap) returns (ts: bool, reason: Counter, ipOff: nat)
    ensures reason == Reason(skb.data[..], skb.meta, cfg, ports)
    ensures ts <==> IsTs(reason)
    ensures ipOff == IpOffset(skb.data[..])
  {
    var ok, off, proto, highPcp := SkipTags(skb);
    if !ok {
      return false, ParseShort, 0;
    }
    if proto == AVTP_ETHERTYPE {
      return true, TsAvtp, 0;
    }
    if proto == ETH_P_IP {
      ts, reason, ipOff := ClassifyIp(skb, off, highPcp, cfg, ports);
    } else if highPcp {
      return true, TsPcp, 0;
    } else {
      return false, Normal, 0;
    }
  }

  /** `bpf_skb_load_bytes` of two bytes. */
  method LoadTwo(skb: Skb, off: nat) returns (rc: int, b0: byte, b1: byte)
    ensures rc == if off + 2 <= skb.data.Length then 0 else -1
    ensures rc == 0 ==> b0 == skb.data[off] && b1 == skb.data[off + 1]
  {
    if off + 2 > skb.data.Length {
      return -1, 0, 0;
    }
    return 0, skb.data[off], skb.data[off + 1];
  }

  /** `bpf_l3_csum_replace` of a 16-bit field: every word is taken in host order. */
  method L3CsumReplace(skb: Skb, host: ByteOrder, off: nat, from: u16, to: u16) returns (rc: int)
    modifies skb.data
    ensures rc == if off + 2 <= skb.data.Length then 0 else -1
    ensures rc < 0 ==> skb.data[..] == old(skb.data[..])
    ensures rc == 0 ==>
      var c := CsumReplace(HostWord(host, old(skb.data[off]), old(skb.data[off + 1])), from, to);
      skb.data[..] == old(skb.data[..])[off := HostByte(host, c, 0)][off + 1 := HostByte(host, c, 1)]
  {
    if off + 2 > skb.data.Length {
      return -1;
    }
    var c := CsumReplace(HostWord(host, skb.data[off], skb.data[off + 1]), from, to);
    skb.data[off], skb.data[off + 1] := HostByte(host, c, 0), HostByte(host, c, 1);
    return 0;
  }

  function HostByte(host: ByteOrder, w: u16, i: nat): byte {
    if (i == 0) == host.Big? then Hi(w) else Lo(w)
  }

  /** Updating the checksum in host order writes the bytes that updating it in network order would. */
  lemma HostOrderUpdate(host: ByteOrder, c0: byte, c1: byte, f0: byte, f1: byte, t0: byte, t1: byte)
    ensures var h := CsumReplace(HostWord(host, c0, c1), HostWord(host, f0, f1), HostWord(host, t0, t1));
            var n := CsumReplace(Word(c0, c1), Word(f0, f1), Word(t0, t1));
            HostByte(host, h, 0) == Hi(n) && HostByte(host, h, 1) == Lo(n)
  {
    var h := CsumReplace(HostWord(host, c0, c1), HostWord(host, f0, f1), HostWord(host, t0, t1));
    var n := CsumReplace(Word(c0, c1), Word(f0, f1), Word(t0, t1));
    if host.Little? {
      CsumReplaceByteOrder(c0, c1, f0, f1, t0, t1);
      SwappedBytes(n, h);
    }
  }

  /** `mark_dscp`. The checksum goes first, and the TOS store behind it cannot fail any more. */
  method MarkDscp(skb: Skb, host: ByteOrder, ipOff: nat, dscp: byte) returns (rc: int)
    modifies skb.data
    ensures MarkResult(rc, skb.data[..]) == Marked(old(skb.data[..]), ipOff, dscp)
  {
    var loaded, b0, oldTos := LoadTwo(skb, ipOff);
    if loaded < 0 {
      return -1;
    }
    var newTos := NewTos(dscp, oldTos);
    if newTos == oldTos {
      return 0;
    }
    var oldW := HostWord(host, b0, oldTos);
    var newW := HostWord(host, b0, newTos);
    ghost var f := skb.data[..];
    var replaced := L3CsumReplace(skb, host, ipOff + CHECK, oldW, newW);
    if replaced < 0 {
      return -1;
    }
    HostOrderUpdate(host, f[ipOff + CHECK], f[ipOff + CHECK + 1], b0, oldTos, b0, newTos);
    skb.data[ipOff + 1] := newTos;
    RetaggedInPlace(f, ipOff, newTos, skb.data[..]);
    return 1;
  }

  lemma RetaggedInPlace(f: seq<byte>, off: nat, tos: byte, g: seq<byte>)
    requires off + CHECK + 2 <= |f|
    requires var c := NewCheck(f[off], f[off + 1], f[off + CHECK], f[off + CHECK + 1], tos);
             g == f[off + CHECK := Hi(c)][off + CHECK + 1 := Lo(c)][off + 1 := tos]
    ensures g == f[..off] + Retagged(f[off..], tos)
  {
    var c := NewCheck(f[off], f[off + 1], f[off + CHECK], f[off + CHECK + 1], tos);
    StoredInPlace(f, off, tos, Hi(c), Lo(c));
  }

  lemma StoredInPlace(f: seq<byte>, off: nat, tos: byte, hi: byte, lo: byte)
    requires off + CHECK + 2 <= |f|
    ensures f[off + CHECK := hi][off + CHECK + 1 := lo][off + 1 := tos] == f[..off] + Stored(f[off..], tos, hi, lo)
  {
  }

  /** The maps of one CPU's view of the program. */
  class Program {
    var config: Option<Config>     // ts_config[0]
    var ports: PortMap             // ts_udp_ports
    const counters: array<u64>     // this CPU's ts_counters
    const host: ByteOrder

    constructor (config: Option<Config>, ports: PortMap, host: ByteOrder)
      ensures this.config == config && this.ports == ports && this.host == host
      ensures fresh(counters) && counters[..] == seq(CNT_MAX, i => 0)
    {
      this.config, this.ports, this.host := config, ports, host;
      counters := new u64[CNT_MAX](i => 0);
    }

    function Cfg(): Config
      reads this
    {
      if config.Some? then config.value else ZERO_CONFIG
    }

    method Count(c: Counter)
      modifies counters
      ensures counters[..] == Bump(old(counters[..]), c)
    {
      var idx := c.Index();
      if idx < counters.Length {
        counters[idx] := Increment(counters[idx]);
      }
    }

    /** `ts_classifier`: the verdict is always "next program", and the packet and the counters are as specified. */
    method Run(skb: Skb) returns (verdict: Verdict)
      requires skb.data as object != counters
      modifies skb`priority, skb.data, counters
      ensures verdict == Unspec
      ensures var cfg := if config.Some? then config.value else Config(0, 0, 0);
        && skb.Value() == Process(old(skb.Value()), cfg, ports).packet
        && counters[..] == Counted(old(counters[..]), Process(old(skb.Value()), cfg, ports))
    {
      var cfg := Cfg();
      ghost var before := skb.Value();
      var ts, reason, ipOff := Classify(skb, cfg, ports);
      if !ts {
        Count(reason);
        return Unspec;
      }
      skb.priority := cfg.Priority();
      Count(reason);
      if cfg.MarkDscp() && ipOff != 0 {
        var rc := MarkDscp(skb, host, ipOff, cfg.Dscp());
        if rc > 0 {
          Count(DscpMarked);
        }
      }
      return Unspec;
    }
  }

  // ----- Properties -----

  /** A TOS byte: six bits of DSCP and two of ECN. */
  function Tos(dscp: nat, ecn: nat): byte
    requires dscp < 0x40 && ecn < 4
  {
    4 * dscp + ecn
  }

  /** `tos'` is `tos` with its DSCP replaced by `dscp`. */
  ghost predicate Remarked(tos: byte, tos': byte, dscp: nat) {
    exists d: nat, ecn: nat | d < 0x40 && dscp < 0x40 && ecn < 4 :: tos == Tos(d, ecn) && tos' == Tos(dscp, ecn)
  }

  lemma NewTosRemarks(dscp: byte, tos: byte)
    requires dscp < 0x40
    ensures Remarked(tos, NewTos(dscp, tos), dscp)
  {
    NewTosFields(dscp, tos);
    assert tos == Tos(tos / 4, tos % 4) && NewTos(dscp, tos) == Tos(dscp, tos % 4);
  }

  lemma NewTosFields(dscp: byte, tos: byte)
    ensures NewTos(dscp, tos) / 4 == dscp % 0x40 && NewTos(dscp, tos) % 4 == tos % 4
    ensures NewTos(dscp, tos) == tos <==> tos / 4 == dscp % 0x40
  {
    assert dscp * 4 % 0x100 == dscp % 0x40 * 4;
  }

  /** At any offset: 0 if the DSCP is already there, 1 if it is set, and -1 iff a byte that is needed is missing. */
  lemma MarkFailsIff(f: seq<byte>, off: nat, dscp: byte)
    ensures Marked(f, off, dscp).rc in {-1, 0, 1}
    ensures Marked(f, off, dscp).rc == -1 <==>
            off + 2 > |f| || (off + 12 > |f| && f[off + 1] / 4 != dscp % 0x40)
    ensures Marked(f, off, dscp).rc == 0 <==> off + 2 <= |f| && f[off + 1] / 4 == dscp % 0x40
  {
    if off + 2 <= |f| {
      NewTosFields(dscp, f[off + 1]);
    }
  }

  /** Whenever the parser reports an IPv4 header, `mark_dscp` cannot fail: checksum and TOS are written together or
      not at all. */
  lemma MarkNeverFails(f: seq<byte>, dscp: byte)
    requires IpOffset(f) != 0
    ensures Marked(f, IpOffset(f), dscp).rc in {0, 1}
    ensures Marked(f, IpOffset(f), dscp).rc == 0 <==> f[IpOffset(f) + 1] / 4 == dscp % 0x40
    ensures Marked(f, IpOffset(f), dscp).rc == 0 ==> Marked(f, IpOffset(f), dscp).frame == f
  {
    IpOffsetInFrame(f);
    NewTosFields(dscp, f[IpOffset(f) + 1]);
  }

  /** Apart from the TOS and the checksum no byte changes, and a packet that is not time-sensitive does not change
      at all. */
  lemma OnlyMarkChanges(p: Packet, cfg: Config, ports: PortMap)
    ensures var o := Process(p, cfg, ports);
      && SameButMark(p.frame, o.packet.frame)
      && o.packet.meta == p.meta
      && o.packet.priority == (if IsTs(o.reason) then cfg.Priority() else p.priority)
      && (!IsTs(o.reason) ==> o.packet == p)
      && (o.marked <==> o.packet.frame != p.frame)
  {
  }

  /** Once set, the DSCP is found set. */
  lemma NewTosTwice(dscp: byte, tos: byte)
    ensures NewTos(dscp, NewTos(dscp, tos)) == NewTos(dscp, tos)
  {
    NewTosFields(dscp, tos);
    NewTosFields(dscp, NewTos(dscp, tos));
  }

  /** The outcome of the last of `n` more runs of the program. */
  function Rerun(o: Outcome, cfg: Config, ports: PortMap, n: nat): Outcome {
    if n == 0 then o else Process(Rerun(o, cfg, ports, n - 1).packet, cfg, ports)
  }

  /** However often the program runs again, nothing more changes: same reason, same priority, same bytes, nothing
      marked. */
  lemma {:induction false} Idempotent(p: Packet, cfg: Config, ports: PortMap, n: nat)
    requires n > 0
    ensures Rerun(Process(p, cfg, ports), cfg, ports, n) == Process(p, cfg, ports).(marked := false)
  {
    var o := Process(p, cfg, ports);
    if n > 1 {
      Idempotent(p, cfg, ports, n - 1);
    }
    assert Rerun(o, cfg, ports, n - 1).packet == o.packet;
    OnlyMarkChanges(p, cfg, ports);
    MarkIsInvisible(p.frame, o.packet.frame, p.meta, cfg, ports);
    if WholeIpv4(p.frame) && cfg.MarkDscp() && IsTs(o.reason) {
      NewTosTwice(cfg.Dscp(), p.frame[L3(p.frame) + 1]);
    }
  }

  lemma {:induction false} RunsAlike(p: Packet, cfg: Config, ports: PortMap, n: nat)
    ensures Rerun(Process(p, cfg, ports), cfg, ports, n).packet == Process(p, cfg, ports).packet
  {
    if n > 0 {
      Idempotent(p, cfg, ports, n);
    }
  }

  lemma TosWritten(p: Packet, cfg: Config, ports: PortMap)
    requires WholeIpv4(p.frame) && cfg.MarkDscp() && IsTs(Process(p, cfg, ports).reason)
    ensures Process(p, cfg, ports).packet.frame[L3(p.frame) + 1] == NewTos(cfg.Dscp(), p.frame[L3(p.frame) + 1])
  {
  }

  /** A time-sensitive IPv4 datagram leaves with the configured DSCP and its own ECN bits. */
  lemma DscpIsSet(p: Packet, cfg: Config, ports: PortMap)
    requires WholeIpv4(p.frame) && cfg.MarkDscp() && IsTs(Process(p, cfg, ports).reason)
    ensures Remarked(p.frame[L3(p.frame) + 1], Process(p, cfg, ports).packet.frame[L3(p.frame) + 1], cfg.Dscp())
  {
    TosWritten(p, cfg, ports);
    NewTosRemarks(cfg.Dscp(), p.frame[L3(p.frame) + 1]);
  }

  /** A time-sensitive packet gets the configured priority, or 6; any other keeps its own. Without flag 1 no byte
      changes. */
  lemma ConfiguredPriority(p: Packet, cfg: Config, ports: PortMap)
    ensures var o := Process(p, cfg, ports);
      && o.reason == Reason(p.frame, p.meta, cfg, ports)
      && (o.reason in {TsAvtp, TsPcp, TsUdp} ==> o.packet.priority == if cfg.priority == 0 then 6 else cfg.priority)
      && (o.reason in {Normal, ParseShort} ==> o.packet.priority == p.priority)
      && (cfg.flags % 2 == 0 ==> o.packet.frame == p.frame && !o.marked)
  {
  }

  /** A fresh CPU's counters after one packet: which slot counts what. */
  lemma FirstPacketCounts(o: Outcome)
    requires o.reason != DscpMarked
    ensures Counted([0, 0, 0, 0, 0, 0], o) ==
            match o.reason
            case Normal => if o.marked then [1, 0, 0, 0, 1, 0] else [1, 0, 0, 0, 0, 0]
            case TsAvtp => if o.marked then [0, 1, 0, 0, 1, 0] else [0, 1, 0, 0, 0, 0]
            case TsPcp => if o.marked then [0, 0, 1, 0, 1, 0] else [0, 0, 1, 0, 0, 0]
            case TsUdp => if o.marked then [0, 0, 0, 1, 1, 0] else [0, 0, 0, 1, 0, 0]
            case ParseShort => if o.marked then [0, 0, 0, 0, 1, 1] else [0, 0, 0, 0, 0, 1]
  {
  }

  /** The pieces of one datagram leave with the same priority, even if a piece is cut off inside its IP header. */
  lemma FragmentsShareBand(p: Packet, q: Packet, cfg: Config, ports: PortMap)
    requires p.priority == q.priority && p.meta == q.meta
    requires IsIp(p.frame) && IsIp(q.frame) && SameL2(p.frame, q.frame)
    requires HasIpHeader(p.frame) ==> IsFragment(p.frame)
    requires HasIpHeader(q.frame) ==> IsFragment(q.frame)
    ensures Process(p, cfg, ports).packet.priority == Process(q, cfg, ports).packet.priority
    ensures Process(p, cfg, ports).packet.frame == p.frame && Process(q, cfg, ports).packet.frame == q.frame
  {
    assert EtherType(p.frame) == U16At(p.frame[..L3(p.frame)], L3(p.frame) - 2);
    assert Tags(p.frame) > 0 ==> p.frame[ETH_HLEN] == p.frame[..L3(p.frame)][ETH_HLEN];
    assert Tags(q.frame) > 0 ==> q.frame[ETH_HLEN] == q.frame[..L3(q.frame)][ETH_HLEN];
  }

  /** The IPv4 header with its options, as far as the frame holds it. */
  function Header(f: seq<byte>, off: nat): seq<byte>
    requires off < |f|
  {
    var end := off + HeaderLength(f, off);
    f[off..if end <= |f| then end else |f|]
  }

  /** The rewritten header is the old one retagged: options and all. */
  lemma MarkedHeader(f: seq<byte>, off: nat, tos: byte, g: seq<byte>)
    requires off + IP_HLEN <= |f| && HeaderLength(f, off) >= IP_HLEN
    requires g == f[..off] + Retagged(f[off..], tos)
    ensures |Header(f, off)| >= IP_HLEN && Header(f, off)[0] == f[off]
    ensures Header(g, off) == Retagged(Header(f, off), tos)
  {
    var h := Header(f, off);
    assert f[off..] == h + f[off + |h|..];
    RetaggedPrefix(h, f[off + |h|..], tos);
    assert g == f[..off] + (Retagged(h, tos) + f[off + |h|..]);
    assert g[off] == Retagged(h, tos)[0] == f[off];
  }

  /**
   For every packet, tagged or not, with or without options, and however often the program runs: what a receiver
   computes over the header is unchanged, and a rewritten header carries exactly the checksum that computing it from
   scratch gives iff it arrived valid.
   */
  lemma {:induction false} ChecksumStaysRight(p: Packet, cfg: Config, ports: PortMap, n: nat)
    requires WholeIpv4(p.frame)
    ensures var o := Process(p, cfg, ports);
      var g := Rerun(o, cfg, ports, n).packet.frame;
      && |g| == |p.frame|
      && var before, after := Header(p.frame, L3(p.frame)), Header(g, L3(p.frame));
      && |after| == |before| >= IP_HLEN
      && IpChecksum(after) == IpChecksum(before)
      && (o.marked ==> (U16At(after, CHECK) == IpChecksum(ZeroCheck(after)) <==> IpChecksum(before) == 0))
  {
    var o := Process(p, cfg, ports);
    var before := Header(p.frame, L3(p.frame));
    RunsAlike(p, cfg, ports, n);
    if o.marked {
      var tos := NewTos(cfg.Dscp(), p.frame[L3(p.frame) + 1]);
      MarkedHeader(p.frame, L3(p.frame), tos, o.packet.frame);
      RetaggedResidue(before, tos);
      RetaggedIsFromScratch(before, tos);
    } else {
      OnlyMarkChanges(p, cfg, ports);
    }
  }
}
