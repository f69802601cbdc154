/** Constants, runtime configuration and packet model shared by the BPF programs (`ts_common.h`). */
module TsCommon {
  import opened Bytes

  const DEFAULT_UDP_PORT: u16 := 6000
  const AVTP_ETHERTYPE: u16 := 0x22F0
  const VLAN_PCP_MIN: nat := 5
  const DEFAULT_PRIORITY: u32 := 6         // TC_PRIO_INTERACTIVE
  const DEFAULT_DSCP: u32 := 46            // EF
  const ETH_P_8021Q: u16 := 0x8100
  const ETH_P_8021AD: u16 := 0x88A8
  const ETH_P_IP: u16 := 0x0800
  const IPPROTO_UDP: byte := 17
  const ETH_HLEN: nat := 14
  const VLAN_HLEN: nat := 4
  const IP_HLEN: nat := 20                 // without options
  const UDP_HLEN: nat := 8

  /** `struct ts_config`: 0 means the compiled-in default. */
  datatype Config = Config(priority: u32, dscp: u32, flags: u32) {
    predicate MarkDscp() { flags % 2 == 1 }

    predicate DisableUdpDefault() { flags / 2 % 2 == 1 }

    function Priority(): u32 { if priority != 0 then priority else DEFAULT_PRIORITY }

    function Dscp(): (d: byte)
      ensures d < 0x40
    {
      (if dscp != 0 then dscp else DEFAULT_DSCP) % 0x40
    }
  }

  const ZERO_CONFIG := Config(0, 0, 0)

  /** `ts_udp_ports`: the presence of a key counts, not its value. */
  type PortMap = map<u16, byte>

  /** `enum ts_counter`. */
  datatype Counter = Normal | TsAvtp | TsPcp | TsUdp | DscpMarked | ParseShort {
    function Index(): nat {
      match this
      case Normal => 0
      case TsAvtp => 1
      case TsPcp => 2
      case TsUdp => 3
      case DscpMarked => 4
      case ParseShort => 5
    }
  }

  const CNT_MAX: nat := 6

  /** The VLAN tag a driver may have moved out of the frame. */
  datatype Meta = Meta(vlanPresent: bool, vlanTci: u32)

  /** What a BPF program sees of a packet. */
  datatype Packet = Packet(frame: seq<byte>, priority: u32, meta: Meta)

  datatype Verdict = Unspec | Ok | Shot | Redirect

  /** `struct __sk_buff`: the frame is rewritten in place, its length never changes. */
  class Skb {
    const data: array<byte>
    const meta: Meta
    var priority: u32

    constructor (frame: seq<byte>, priority: u32, meta: Meta)
      ensures fresh(data)
      ensures Value() == Packet(frame, priority, meta)
    {
      this.data := new byte[|frame|](i requires 0 <= i < |frame| => frame[i]);
      this.meta := meta;
      this.priority := priority;
    }

    ghost function Value(): Packet
      reads this, data
    {
      Packet(data[..], priority, meta)
    }
  }
}
