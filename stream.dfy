/**
 * The stream builder of the high-level crate: its setters, and the part of
 * `build` that resolves the destination, MTU, packet size and delay and
 * decides the register writes, source filter and resend policy. The socket
 * binding and the device writes themselves are I/O; the writes are
 * returned in the order `build` issues them.
 */
module StreamSetup {
  import opened Bytes
  import opened Wrappers
  import Gvcp

  type Ipv4 = Gvcp.Ipv4

  /** `StreamDest`: where the device sends the stream. */
  datatype StreamDest =
    | Unicast(dstIp: Ipv4, dstPort: u16)
    | Multicast(group: Ipv4, port: u16, loopback: bool, ttl: u32)
  {
    function Port(): u16 { if Unicast? then dstPort else port }
    function Addr(): Ipv4 { if Unicast? then dstIp else group }
    function WithPort(p: u16): (d: StreamDest)
      ensures d.Port() == p && d.Addr() == Addr() && d.Unicast? == Unicast?
      ensures Multicast? ==> d.loopback == loopback && d.ttl == ttl
    {
      if Unicast? then Unicast(dstIp, p) else Multicast(group, p, loopback, ttl)
    }
  }

  datatype GenicamError = Transport(message: string)

  /** The fields of `StreamBuilder` other than the device handle. */
  datatype Settings = Settings(iface: Option<Gvcp.Interface>, dest: Option<StreamDest>, rcvbufBytes: Option<nat>,
                               autoPacketSize: bool, targetMtu: Option<u32>, packetSize: Option<u32>,
                               packetDelay: Option<u32>, channel: u32, dstPort: u16)

  /** What `new` starts from: auto packet size, channel 0, port 0 and nothing else set. */
  const Initial := Settings(None, None, None, true, None, None, None, 0, 0)

  /** `destination_port`: the port is remembered and any destination already set moves to it. */
  function WithDestinationPort(s: Settings, port: u16): (t: Settings)
    ensures t.dstPort == port
    ensures s.dest.None? ==> t.dest.None?
    ensures s.dest.Some? ==> t.dest == Some(s.dest.value.WithPort(port))
    ensures t.(dstPort := s.dstPort, dest := s.dest) == s
  {
    s.(dstPort := port, dest := if s.dest.Some? then Some(s.dest.value.WithPort(port)) else None)
  }

  /** `multicast`: a group gives a multicast destination on the current port, loopback off, TTL 1; none clears it. */
  function WithMulticast(s: Settings, group: Option<Ipv4>): (t: Settings)
    ensures group.None? ==> t.dest.None?
    ensures group.Some? ==> t.dest == Some(Multicast(group.value, s.dstPort, false, 1))
    ensures t.(dest := s.dest) == s
  {
    s.(dest := if group.Some? then Some(Multicast(group.value, s.dstPort, false, 1)) else None)
  }

  /** `StreamConfig` as the builder fills it. */
  datatype StreamConfig = StreamConfig(dest: StreamDest, iface: Gvcp.Interface, packetSize: Option<u32>,
                                       packetDelay: Option<u32>, sourceFilter: Option<Ipv4>, resendEnabled: bool)

  /** The outcome of `build` short of the socket: parameters, configuration and register writes. */
  datatype Negotiated = Negotiated(params: Gvcp.StreamParams, config: StreamConfig, writes: seq<Gvcp.RegisterWrite>)

  /** Port 0 means "not chosen"; the default is then 0x5FFF. */
  function DefaultPort(dstPort: u16): (p: u16)
    ensures p != 0
    ensures dstPort != 0 ==> p == dstPort
  {
    if dstPort == 0 then 0x5FFF else dstPort
  }

  /** The destination: the one set, or unicast to the interface address; a port of 0 becomes the default. */
  function ResolveDest(dest: Option<StreamDest>, host: Ipv4, dstPort: u16): (d: StreamDest)
    ensures d.Port() != 0
    ensures dest.None? ==> d == Unicast(host, DefaultPort(dstPort))
    ensures dest.Some? ==> d == dest.value.WithPort(if dest.value.Port() == 0 then DefaultPort(dstPort) else dest.value.Port())
  {
    var given := if dest.Some? then dest.value else Unicast(host, DefaultPort(dstPort));
    if given.Port() == 0 then given.WithPort(DefaultPort(dstPort)) else given
  }

  /** In auto mode the NIC rule on the MTU; otherwise the override, or the rule on 1500 bytes. */
  function PacketSizeFor(s: Settings, mtu: u32, bestPacketSize: u32 -> u32): u32
  {
    if s.autoPacketSize then bestPacketSize(mtu)
    else s.packetSize.UnwrapOr(bestPacketSize(1500))
  }

  /** In auto mode 25 ticks of 80 ns up to a 1500-byte MTU and none above; otherwise the override, or 0. */
  function PacketDelayOf(s: Settings, mtu: u32): (ticks: u32)
    ensures s.autoPacketSize ==> ticks == Gvcp.PacketDelayFor(mtu)
    ensures !s.autoPacketSize ==> ticks == s.packetDelay.UnwrapOr(0)
  {
    if s.autoPacketSize then (if mtu <= 1500 then 2000 / 80 else 0) else s.packetDelay.UnwrapOr(0)
  }

  /**
   * The resolution of `build`. `mtuOf` and `bestPacketSize` are the NIC
   * helpers, which are not part of this model.
   */
  function Resolve(s: Settings, mtuOf: Gvcp.Interface -> Result<u32, string>, bestPacketSize: u32 -> u32)
    : (r: Result<Negotiated, GenicamError>)
    ensures s.iface.None? ==> r == Err(Transport("stream requires a network interface"))
    ensures s.iface.Some? && s.iface.value.ipv4.None? ==> r == Err(Transport("interface lacks IPv4 address"))
    ensures r.Ok? <==> s.iface.Some? && s.iface.value.ipv4.Some? && mtuOf(s.iface.value).Ok?
  {
    match s.iface
    case None => Err(Transport("stream requires a network interface"))
    case Some(iface) =>
      match iface.ipv4
      case None => Err(Transport("interface lacks IPv4 address"))
      case Some(host) =>
        var dest := ResolveDest(s.dest, host, s.dstPort);
        match mtuOf(iface)
        case Err(e) => Err(Transport(e))
        case Ok(ifaceMtu) =>
          var mtu := Gvcp.EffectiveMtu(s.targetMtu, ifaceMtu);
          var packetSize := PacketSizeFor(s, mtu, bestPacketSize);
          var packetDelay := PacketDelayOf(s, mtu);
          var destWrites := if dest.Unicast? then Gvcp.StreamDestinationWrites(s.channel, dest.dstIp, dest.dstPort) else [];
          var writes := destWrites
            + [Gvcp.RegisterWrite(Gvcp.StreamReg(s.channel, Gvcp.STREAM_PACKET_SIZE), U32Be(packetSize)),
               Gvcp.RegisterWrite(Gvcp.StreamReg(s.channel, Gvcp.STREAM_PACKET_DELAY), U32Be(packetDelay))];
          var filter := if dest.Multicast? then None else Some(dest.Addr());
          Ok(Negotiated(Gvcp.StreamParams(packetSize, packetDelay, mtu, dest.Addr(), dest.Port()),
                        StreamConfig(dest, iface, Some(packetSize), Some(packetDelay), filter, !dest.Multicast?),
                        writes))
  }

  /**
   * A resolved stream: the port is never 0, the MTU is the smaller of the
   * target and the interface's, the packet size and delay follow the mode,
   * and the parameters describe the destination.
   */
  lemma ResolvedStream(s: Settings, mtuOf: Gvcp.Interface -> Result<u32, string>, bestPacketSize: u32 -> u32)
    requires Resolve(s, mtuOf, bestPacketSize).Ok?
    ensures var n := Resolve(s, mtuOf, bestPacketSize).value;
      && n.params.port != 0
      && n.params.port == n.config.dest.Port() && n.params.host == n.config.dest.Addr()
      && n.params.mtu == Gvcp.EffectiveMtu(s.targetMtu, mtuOf(s.iface.value).value)
      && n.params.mtu <= mtuOf(s.iface.value).value
      && (s.targetMtu.Some? ==> n.params.mtu <= s.targetMtu.value)
      && (s.autoPacketSize ==> n.params.packetSize == bestPacketSize(n.params.mtu))
      && (!s.autoPacketSize && s.packetSize.None? ==> n.params.packetSize == bestPacketSize(1500))
      && (!s.autoPacketSize && s.packetSize.Some? ==> n.params.packetSize == s.packetSize.value)
      && (s.autoPacketSize && n.params.mtu <= 1500 ==> n.params.packetDelay == 25)
      && (s.autoPacketSize && n.params.mtu > 1500 ==> n.params.packetDelay == 0)
      && (!s.autoPacketSize ==> n.params.packetDelay == s.packetDelay.UnwrapOr(0))
  {
  }

  /**
   * Only a unicast stream gets a source filter (the destination address),
   * resends, and a write of the destination registers.
   */
  lemma UnicastOnly(s: Settings, mtuOf: Gvcp.Interface -> Result<u32, string>, bestPacketSize: u32 -> u32)
    requires Resolve(s, mtuOf, bestPacketSize).Ok?
    ensures var n := Resolve(s, mtuOf, bestPacketSize).value;
      && (n.config.resendEnabled <==> n.config.dest.Unicast?)
      && (n.config.sourceFilter.Some? <==> n.config.dest.Unicast?)
      && (n.config.dest.Unicast? ==> n.config.sourceFilter == Some(n.config.dest.dstIp))
      && (n.config.dest.Unicast? <==> |n.writes| == 4)
      && (n.config.dest.Unicast? ==>
            n.writes[..2] == Gvcp.StreamDestinationWrites(s.channel, n.config.dest.dstIp, n.config.dest.dstPort))
      && n.writes[|n.writes| - 2].address == Gvcp.StreamReg(s.channel, Gvcp.STREAM_PACKET_SIZE)
      && n.writes[|n.writes| - 1].address == Gvcp.StreamReg(s.channel, Gvcp.STREAM_PACKET_DELAY)
  {
  }

  /** With no destination set the stream is unicast to the interface address, on the default port. */
  lemma DefaultDestination(s: Settings, mtuOf: Gvcp.Interface -> Result<u32, string>, bestPacketSize: u32 -> u32)
    requires Resolve(s, mtuOf, bestPacketSize).Ok? && s.dest.None?
    ensures Resolve(s, mtuOf, bestPacketSize).value.config.dest
      == Unicast(s.iface.value.ipv4.value, if s.dstPort == 0 then 0x5FFF else s.dstPort)
  {
  }

  /** After `destination_port(p)` with p non-zero the stream uses port p, whatever destination was set. */
  lemma DestinationPortWins(s: Settings, p: u16, mtuOf: Gvcp.Interface -> Result<u32, string>, bestPacketSize: u32 -> u32)
    requires p != 0 && Resolve(WithDestinationPort(s, p), mtuOf, bestPacketSize).Ok?
    ensures Resolve(WithDestinationPort(s, p), mtuOf, bestPacketSize).value.params.port == p
  {
  }

  /** `StreamBuilder`: the setters update the settings one field at a time. */
  class StreamBuilder {
    var iface: Option<Gvcp.Interface>
    var dest: Option<StreamDest>
    var rcvbufBytes: Option<nat>
    var autoPacketSize: bool
    var targetMtu: Option<u32>
    var packetSize: Option<u32>
    var packetDelay: Option<u32>
    var channel: u32
    var dstPort: u16

    function Current(): Settings
      reads this
    {
      Settings(iface, dest, rcvbufBytes, autoPacketSize, targetMtu, packetSize, packetDelay, channel, dstPort)
    }

    constructor ()
      ensures Current() == Initial
    {
      iface, dest, rcvbufBytes := None, None, None;
      autoPacketSize := true;
      targetMtu, packetSize, packetDelay := None, None, None;
      channel, dstPort := 0, 0;
    }

    method Iface(i: Gvcp.Interface)
      modifies this
      ensures Current() == old(Current()).(iface := Some(i))
    {
      iface := Some(i);
    }

    method Dest(d: StreamDest)
      modifies this
      ensures Current() == old(Current()).(dest := Some(d))
    {
      dest := Some(d);
    }

    method AutoPacketSize(enable: bool)
      modifies this
      ensures Current() == old(Current()).(autoPacketSize := enable)
    {
      autoPacketSize := enable;
    }

    method TargetMtu(mtu: u32)
      modifies this
      ensures Current() == old(Current()).(targetMtu := Some(mtu))
    {
      targetMtu := Some(mtu);
    }

    method PacketSize(size: u32)
      modifies this
      ensures Current() == old(Current()).(packetSize := Some(size))
    {
      packetSize := Some(size);
    }

    method PacketDelay(delay: u32)
      modifies this
      ensures Current() == old(Current()).(packetDelay := Some(delay))
    {
      packetDelay := Some(delay);
    }

    method DestinationPort(port: u16)
      modifies this
      ensures Current() == WithDestinationPort(old(Current()), port)
    {
      dstPort := port;
      if dest.Some? {
        var d := dest.value;
        dest := Some(match d
          case Unicast(ip, _) => Unicast(ip, port)
          case Multicast(group, _, loopback, ttl) => Multicast(group, port, loopback, ttl));
      }
    }

    method SetMulticast(group: Option<Ipv4>)
      modifies this
      ensures Current() == WithMulticast(old(Current()), group)
    {
      if group.Some? {
        dest := Some(Multicast(group.value, dstPort, false, 1));
      } else {
        dest := None;
      }
    }

    method RcvbufBytes(size: nat)
      modifies this
      ensures Current() == old(Current()).(rcvbufBytes := Some(size))
    {
      rcvbufBytes := Some(size);
    }

    method Channel(c: u32)
      modifies this
      ensures Current() == old(Current()).(channel := c)
    {
      channel := c;
    }

    /** The destination step of `build`: the default, then a zero port replaced by the default port. */
    method DestFor(host: Ipv4) returns (d: StreamDest)
      ensures d == ResolveDest(dest, host, dstPort)
    {
      var defaultPort: u16 := if dstPort == 0 then 0x5FFF else dstPort;
      d := if dest.Some? then dest.value else Unicast(host, defaultPort);
      match d {
        case Unicast(ip, p) =>
          if p == 0 { d := Unicast(ip, defaultPort); }
        case Multicast(g, p, l, t) =>
          if p == 0 { d := Multicast(g, defaultPort, l, t); }
      }
    }

    /** `build`, up to the socket: the resolution, step by step. */
    method Build(mtuOf: Gvcp.Interface -> Result<u32, string>, bestPacketSize: u32 -> u32)
      returns (r: Result<Negotiated, GenicamError>)
      ensures r == Resolve(Current(), mtuOf, bestPacketSize)
    {
      if iface.None? {
        return Err(Transport("stream requires a network interface"));
      }
      var i := iface.value;
      if i.ipv4.None? {
        return Err(Transport("interface lacks IPv4 address"));
      }
      var host := i.ipv4.value;
      var d := DestFor(host);
      var m := mtuOf(i);
      if m.Err? {
        return Err(Transport(m.error));
      }
      var mtu := if targetMtu.Some? && targetMtu.value < m.value then targetMtu.value else m.value;
      var size := if autoPacketSize then bestPacketSize(mtu) else packetSize.UnwrapOr(bestPacketSize(1500));
      var delay: u32 := 0;
      if autoPacketSize {
        if mtu <= 1500 {
          delay := 2000 / 80;
        }
      } else {
        delay := packetDelay.UnwrapOr(0);
      }
      var writes: seq<Gvcp.RegisterWrite> := [];
      if d.Unicast? {
        writes := Gvcp.StreamDestinationWrites(channel, d.dstIp, d.dstPort);
      }
      writes := writes + [Gvcp.RegisterWrite(Gvcp.StreamReg(channel, Gvcp.STREAM_PACKET_SIZE), U32Be(size)),
                          Gvcp.RegisterWrite(Gvcp.StreamReg(channel, Gvcp.STREAM_PACKET_DELAY), U32Be(delay))];
      var filter := if d.Multicast? then None else Some(d.Addr());
      var config := StreamConfig(d, i, Some(size), Some(delay), filter, !d.Multicast?);
      r := Ok(Negotiated(Gvcp.StreamParams(size, delay, mtu, d.Addr(), d.Port()), config, writes));
    }
  }
}
