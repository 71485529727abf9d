/**
 * GVCP action commands: the 24-byte ACTION_CMD payload, the acknowledgement
 * header parser, and the wait loop of `send_action` that counts distinct
 * acknowledging devices.
 */
module Action {
  import opened Bytes
  import opened Wrappers
  import opened GenCp
  import Gvcp

  const ACTION_COMMAND: u16 := 0x0080
  const ACTION_ACK: u16 := 0x0081
  const ACTION_PAYLOAD: nat := 24
  /** Size of the receive buffer for acknowledgements. */
  const ACK_RECV_BUFFER: nat := 512

  datatype ActionParams = ActionParams(deviceKey: u32, groupKey: u32, groupMask: u32, scheduledTime: Option<u64>,
                                       channel: u16)

  datatype AckSummary = AckSummary(sent: nat, acks: nat)

  datatype IpAddr = V4(ip: Gvcp.Ipv4) | V6(bytes: seq<u8>)

  /** An `io::Error` of the given kind, or a failure of the socket itself. */
  datatype ActionError = InvalidInput(message: string) | InvalidData(message: string) | SocketError

  /**
   * `encode_payload`: device key, group key, group mask, the scheduled
   * time as high and low 32-bit words (0 when absent), the channel and a
   * reserved zero.
   */
  function EncodePayload(p: ActionParams): (r: seq<u8>)
    ensures |r| == ACTION_PAYLOAD
    ensures ReadU32(r, 0) == p.deviceKey && ReadU32(r, 4) == p.groupKey && ReadU32(r, 8) == p.groupMask
    ensures ReadU32(r, 12) == p.scheduledTime.UnwrapOr(0) / 0x1_0000_0000
    ensures ReadU32(r, 16) == p.scheduledTime.UnwrapOr(0) % 0x1_0000_0000
    ensures ReadU16(r, 20) == p.channel && ReadU16(r, 22) == 0
  {
    var ticks := p.scheduledTime.UnwrapOr(0);
    var high: u32 := ticks / 0x1_0000_0000;  // the high word, ticks / 2^32
    var low: u32 := ticks % 0x1_0000_0000;   // the low word, ticks % 2^32
    var k1, k2, k3 := U32Be(p.deviceKey), U32Be(p.groupKey), U32Be(p.groupMask);
    var keys := k1 + k2 + k3;
    var time := U32Be(high) + U32Be(low);
    var tail := U16Be(p.channel) + U16Be(0);
    var r := keys + time + tail;
    // Each field is located by descending into the part of `r` that holds it.
    ReadU32Front(keys + time, tail, 0); ReadU32Front(keys, time, 0);
    ReadU32Front(k1 + k2, k3, 0); ReadU32Front(k1, k2, 0); ReadU32Whole(p.deviceKey);
    ReadU32Front(keys + time, tail, 4); ReadU32Front(keys, time, 4);
    ReadU32Front(k1 + k2, k3, 4); ReadU32Back(k1, k2, 0, 4); ReadU32Whole(p.groupKey);
    ReadU32Front(keys + time, tail, 8); ReadU32Front(keys, time, 8);
    ReadU32Back(k1 + k2, k3, 0, 8); ReadU32Whole(p.groupMask);
    ReadU32Front(keys + time, tail, 12); ReadU32Back(keys, time, 0, 12);
    ReadU32Front(U32Be(high), U32Be(low), 0); ReadU32Whole(high);
    ReadU32Front(keys + time, tail, 16); ReadU32Back(keys, time, 4, 16);
    ReadU32Back(U32Be(high), U32Be(low), 0, 4); ReadU32Whole(low);
    ReadU16Back(keys + time, tail, 0, 20); ReadU16Front(U16Be(p.channel), U16Be(0), 0); ReadU16Whole(p.channel);
    ReadU16Back(keys + time, tail, 2, 22); ReadU16Back(U16Be(p.channel), U16Be(0), 0, 2); ReadU16Whole(0);
    r
  }

  /** The two words read back as one big-endian u64 give the scheduled time; none is time 0. */
  lemma PayloadTicks(p: ActionParams)
    ensures ReadU64(EncodePayload(p), 12) == p.scheduledTime.UnwrapOr(0)
    ensures p.scheduledTime.None? ==> ReadU64(EncodePayload(p), 12) == 0
  {
    ReadU64Split(EncodePayload(p), 12);
  }

  /** The unit test's payload layout. */
  lemma PayloadLayoutExample()
    ensures var r := EncodePayload(ActionParams(0x1122_3344, 0x5566_7788, 0xFFFF_0000, Some(0x0102_0304_0506_0708), 0x090A));
      && ReadU32(r, 0) == 0x1122_3344 && ReadU32(r, 4) == 0x5566_7788 && ReadU32(r, 8) == 0xFFFF_0000
      && ReadU32(r, 12) == 0x0102_0304 && ReadU32(r, 16) == 0x0506_0708 && ReadU16(r, 20) == 0x090A
  {
  }

  /** `parse_ack`: the four big-endian header words of an acknowledgement of at least 8 bytes. */
  function ParseAck(buf: seq<u8>): (r: Result<Gvcp.GvcpAckHeader, ActionError>)
    ensures r.Err? <==> |buf| < 8
    ensures r.Err? ==> r.error == InvalidData("acknowledgement shorter than GVCP header")
    ensures r.Ok? ==>
      && r.value.status == FromRaw(ReadU16(buf, 0)) && r.value.command == ReadU16(buf, 2)
      && r.value.length == ReadU16(buf, 4) && r.value.requestId == ReadU16(buf, 6)
  {
    if |buf| < 8 then Err(InvalidData("acknowledgement shorter than GVCP header"))
    else Ok(Gvcp.GvcpAckHeader(FromRaw(ReadU16(buf, 0)), ReadU16(buf, 2), ReadU16(buf, 4), ReadU16(buf, 6)))
  }

  /** The header a device sends parses back, whatever follows it. */
  lemma ParseAckOfHeader(status: u16, command: u16, length: u16, requestId: u16, rest: seq<u8>)
    ensures ParseAck(U16Be(status) + U16Be(command) + U16Be(length) + U16Be(requestId) + rest)
         == Ok(Gvcp.GvcpAckHeader(FromRaw(status), command, length, requestId))
  {
    var buf := U16Be(status) + U16Be(command) + U16Be(length) + U16Be(requestId) + rest;
    ReadU16Of(buf, 0, status);
    ReadU16Of(buf, 2, command);
    ReadU16Of(buf, 4, length);
    ReadU16Of(buf, 6, requestId);
  }

  /** `is_broadcast`: only the IPv4 limited broadcast address 255.255.255.255. */
  predicate IsBroadcast(addr: IpAddr)
  {
    addr.V4? && addr.ip == 0xFFFF_FFFF
  }

  /** The ACTION_CMD datagram: ack required, broadcast exactly for the broadcast address. */
  function ActionPacket(dest: IpAddr, p: ActionParams, requestId: u16): (r: seq<u8>)
    ensures |r| == 32
    ensures ReadU16(r, 0) == (if IsBroadcast(dest) then ACK_REQUIRED + BROADCAST else ACK_REQUIRED)
    ensures ReadU16(r, 2) == ACTION_COMMAND && ReadU16(r, 4) == 24 && ReadU16(r, 6) == requestId
    ensures r[8..] == EncodePayload(p)
  {
    Gvcp.GvcpRequestHeader(CommandFlags(true, IsBroadcast(dest)), ACTION_COMMAND, ACTION_PAYLOAD as u16, requestId)
      .Encode(EncodePayload(p))
  }

  // -------------------------------------------------------------------
  // Waiting for acknowledgements

  /** What one receive of the wait loop gives: a datagram, an error, or the end of the timeout. */
  datatype Reply = AckFrom(src: IpAddr, bytes: seq<u8>) | ReceiveError | Deadline

  /** An acknowledgement that counts: ACTION_ACK, this request, status Success. */
  predicate Counted(h: Gvcp.GvcpAckHeader, requestId: u16)
  {
    h.command == ACTION_ACK && h.requestId == requestId && h.status == Success
  }

  /** The reply is a datagram from `src` that parses into a counted acknowledgement. */
  predicate AcceptedFrom(x: Reply, requestId: u16, src: IpAddr)
  {
    x.AckFrom? && x.src == src && ParseAck(Gvcp.Truncate(x.bytes, ACK_RECV_BUFFER)).Ok?
    && Counted(ParseAck(Gvcp.Truncate(x.bytes, ACK_RECV_BUFFER)).value, requestId)
  }

  /** The reply is a datagram too short for a header, which ends `send_action` with an error. */
  predicate Malformed(x: Reply)
  {
    x.AckFrom? && |Gvcp.Truncate(x.bytes, ACK_RECV_BUFFER)| < 8
  }

  /** Every reply in [i, k) is a datagram: the loop gets past them. */
  predicate Continues(replies: seq<Reply>, i: nat, k: nat)
    requires i <= k <= |replies|
  {
    forall j :: i <= j < k ==> replies[j].AckFrom? && !Malformed(replies[j])
  }

  /**
   * The wait loop from reply `i` on with `seen` the sources counted so
   * far: a receive error or the deadline stops it, a short datagram is an
   * error, and a counted acknowledgement adds its source.
   */
  function Wait(replies: seq<Reply>, requestId: u16, i: nat, seen: set<IpAddr>): (r: Result<set<IpAddr>, ActionError>)
    requires i <= |replies|
    ensures r.Ok? ==> seen <= r.value
    ensures r.Err? ==> i < |replies|
    decreases |replies| - i
  {
    if i == |replies| then Ok(seen)
    else match replies[i]
      case ReceiveError => Ok(seen)
      case Deadline => Ok(seen)
      case AckFrom(src, bytes) =>
        match ParseAck(Gvcp.Truncate(bytes, ACK_RECV_BUFFER))
        case Err(e) => Err(e)
        case Ok(h) => Wait(replies, requestId, i + 1, if Counted(h, requestId) then seen + {src} else seen)
  }

  /** Getting past [i, k) is getting past reply `i` and then past [i + 1, k). */
  lemma ContinuesStep(replies: seq<Reply>, i: nat, k: nat)
    requires i < k <= |replies|
    ensures Continues(replies, i, k) <==> replies[i].AckFrom? && !Malformed(replies[i]) && Continues(replies, i + 1, k)
  {
  }

  /** A reply with property `p` at `i` or among the datagrams the loop gets past after it. */
  lemma ReachedStep(replies: seq<Reply>, i: nat, p: Reply -> bool)
    requires i < |replies| && replies[i].AckFrom? && !Malformed(replies[i])
    ensures (exists k :: i <= k < |replies| && Continues(replies, i, k) && p(replies[k])) <==>
      p(replies[i]) || exists k :: i + 1 <= k < |replies| && Continues(replies, i + 1, k) && p(replies[k])
  {
    if exists k :: i <= k < |replies| && Continues(replies, i, k) && p(replies[k]) {
      var k :| i <= k < |replies| && Continues(replies, i, k) && p(replies[k]);
      if k > i {
        ContinuesStep(replies, i, k);
      }
    }
    if exists k :: i + 1 <= k < |replies| && Continues(replies, i + 1, k) && p(replies[k]) {
      var k :| i + 1 <= k < |replies| && Continues(replies, i + 1, k) && p(replies[k]);
      ContinuesStep(replies, i, k);
    }
    assert Continues(replies, i, i);
  }

  /**
   * The sources the loop counts are exactly those already seen and those
   * of counted acknowledgements it reaches before it stops.
   */
  lemma {:induction false} WaitSources(replies: seq<Reply>, requestId: u16, i: nat, seen: set<IpAddr>, x: IpAddr)
    requires i <= |replies|
    requires Wait(replies, requestId, i, seen).Ok?
    ensures x in Wait(replies, requestId, i, seen).value <==>
      x in seen || exists k :: i <= k < |replies| && Continues(replies, i, k) && AcceptedFrom(replies[k], requestId, x)
    decreases |replies| - i
  {
    if i < |replies| && replies[i].AckFrom? {
      var h := ParseAck(Gvcp.Truncate(replies[i].bytes, ACK_RECV_BUFFER)).value;
      var seen' := if Counted(h, requestId) then seen + {replies[i].src} else seen;
      assert Wait(replies, requestId, i, seen) == Wait(replies, requestId, i + 1, seen');
      assert !Malformed(replies[i]);
      WaitSources(replies, requestId, i + 1, seen', x);
      ReachedStep(replies, i, r => AcceptedFrom(r, requestId, x));
      assert x in seen' <==> x in seen || AcceptedFrom(replies[i], requestId, x);
    } else if i < |replies| {
      assert forall k :: i <= k < |replies| ==> !Continues(replies, i, k) || k == i;
    }
  }

  /** The loop fails exactly when it reaches a datagram too short for a header. */
  lemma {:induction false} WaitFails(replies: seq<Reply>, requestId: u16, i: nat, seen: set<IpAddr>)
    requires i <= |replies|
    ensures Wait(replies, requestId, i, seen).Err? <==>
      exists k :: i <= k < |replies| && Continues(replies, i, k) && Malformed(replies[k])
    decreases |replies| - i
  {
    if i < |replies| && replies[i].AckFrom? && !Malformed(replies[i]) {
      var h := ParseAck(Gvcp.Truncate(replies[i].bytes, ACK_RECV_BUFFER)).value;
      var seen' := if Counted(h, requestId) then seen + {replies[i].src} else seen;
      assert Wait(replies, requestId, i, seen) == Wait(replies, requestId, i + 1, seen');
      WaitFails(replies, requestId, i + 1, seen');
      ReachedStep(replies, i, Malformed);
    } else if i < |replies| && replies[i].AckFrom? {
      assert Continues(replies, i, i);
    } else if i < |replies| {
      assert forall k :: i <= k < |replies| ==> !Continues(replies, i, k) || k == i;
    }
  }

  /** Acknowledgements from one device, however many, count once. */
  lemma RepeatedAckCountsOnce(src: IpAddr, ack: seq<u8>, requestId: u16)
    requires AcceptedFrom(AckFrom(src, ack), requestId, src)
    ensures Wait([AckFrom(src, ack), AckFrom(src, ack)], requestId, 0, {}) == Ok({src})
  {
    var rs := [AckFrom(src, ack), AckFrom(src, ack)];
    assert {src} + {src} == {src};
    assert Wait(rs, requestId, 2, {src}) == Ok({src});
    assert Wait(rs, requestId, 1, {src}) == Ok({src});
    assert {} + {src} == {src};
    assert Wait(rs, requestId, 0, {}) == Wait(rs, requestId, 1, {src});
  }

  /**
   * `send_action` on IPv4 after the datagram went out (`sendOk`), with the
   * request id drawn from 0x8000..=0xFFFE and `replies` what the socket
   * delivers until the deadline. It sends one datagram, returns at once
   * for a zero timeout, and otherwise counts each acknowledging source once.
   */
  method SendAction(dest: IpAddr, params: ActionParams, timeoutMs: nat, requestId: u16, sendOk: bool,
                    replies: seq<Reply>)
    returns (r: Result<AckSummary, ActionError>, packet: Option<seq<u8>>)
    requires 0x8000 <= requestId <= 0xFFFE
    ensures dest.V6? ==> r == Err(InvalidInput("IPv6 destinations are not supported for actions")) && packet.None?
    ensures dest.V4? ==> packet == Some(ActionPacket(dest, params, requestId))
    ensures dest.V4? && !sendOk ==> r == Err(SocketError)
    ensures dest.V4? && sendOk && timeoutMs == 0 ==> r == Ok(AckSummary(1, 0))
    ensures dest.V4? && sendOk && timeoutMs > 0 ==>
      match Wait(replies, requestId, 0, {})
      case Ok(sources) => r == Ok(AckSummary(1, |sources|))
      case Err(e) => r == Err(e)
  {
    if dest.V6? {
      return Err(InvalidInput("IPv6 destinations are not supported for actions")), None;
    }
    var payload := EncodePayload(params);
    var flags := CommandFlags(true, false);
    if IsBroadcast(dest) {
      flags := flags.(broadcast := true);
    }
    packet := Some(Gvcp.GvcpRequestHeader(flags, ACTION_COMMAND, |payload| as u16, requestId).Encode(payload));
    if !sendOk {
      return Err(SocketError), packet;
    }
    if timeoutMs == 0 {
      return Ok(AckSummary(1, 0)), packet;
    }
    var acks := WaitForAcks(replies, requestId);
    match acks
    case Ok(n) => r := Ok(AckSummary(1, n));
    case Err(e) => r := Err(e);
  }

  /**
   * The receive loop of `send_action`: stops at a receive error or the
   * deadline, fails on a datagram too short for a header, and counts a
   * source the first time it acknowledges.
   */
  method WaitForAcks(replies: seq<Reply>, requestId: u16) returns (r: Result<nat, ActionError>)
    ensures match Wait(replies, requestId, 0, {})
      case Ok(sources) => r == Ok(|sources|)
      case Err(e) => r == Err(e)
  {
    var acks := 0;
    var seen: set<IpAddr> := {};
    var i := 0;
    while i < |replies|
      invariant i <= |replies|
      invariant acks == |seen|
      invariant Wait(replies, requestId, 0, {}) == Wait(replies, requestId, i, seen)
    {
      match replies[i]
      case ReceiveError =>
        break;
      case Deadline =>
        break;
      case AckFrom(src, bytes) =>
        var header := ParseAck(Gvcp.Truncate(bytes, ACK_RECV_BUFFER));
        if header.Err? {
          return Err(header.error);
        }
        var h := header.value;
        if h.command == ACTION_ACK && h.requestId == requestId && h.status == Success {
          if src !in seen {  // a source not counted yet joins the set
            seen := seen + {src};
            acks := acks + 1;
          } else {
            assert seen + {src} == seen;
          }
        }
      i := i + 1;
    }
    r := Ok(acks);
  }
}
