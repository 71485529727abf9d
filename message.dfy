/**
 * The GVCP message channel: parsing of EVENTDATA acknowledgements
 * (`EventPacket::parse`) and the receive loop that discards malformed
 * datagrams (`EventSocket::recv`).
 */
module EventMessage {
  import opened Bytes
  import opened Wrappers

  const GVCP_HEADER: nat := 8
  const OPCODE_EVENT_DATA_ACK: u16 := 0x000D
  const MAX_EVENT_SIZE: nat := 2048

  /** Where a datagram came from; carried through unchanged. */
  datatype SocketAddr = SocketAddr(ip: seq<u8>, port: u16)

  datatype EventPacket = EventPacket(src: SocketAddr, eventId: u16, timestampDev: u64, streamChannel: u16,
                                     blockId: u16, payload: seq<u8>)

  /** `io::Error` of kind `InvalidData` with its message, or a failed receive. */
  datatype EventError = InvalidData(message: string) | RecvFailed

  // -------------------------------------------------------------------
  // The layout of a well-formed event packet, by byte offset

  /** Stream channel, block id and payload length follow the timestamp only when 6 bytes remain after it. */
  predicate HasChannelFields(data: seq<u8>)
  {
    |data| >= 26
  }

  /** Offset of the mandatory 2-byte reserved field. */
  function ReservedOffset(data: seq<u8>): nat
  {
    if HasChannelFields(data) then 26 else 20
  }

  /** The declared payload length, 0 when the channel fields are absent. */
  function DeclaredPayload(data: seq<u8>): u16
  {
    if HasChannelFields(data) then ReadU16(data, 24) else 0
  }

  /**
   * A datagram the parser accepts: at most 2048 bytes, status 0, opcode
   * EVENTDATA_ACK, a length field that accounts for every byte after the
   * 8-byte header, room for event id, notification, timestamp and the
   * reserved field, and either no declared payload length or one that
   * matches the bytes left.
   */
  predicate WellFormedEvent(data: seq<u8>)
  {
    && GVCP_HEADER + 2 <= |data| <= MAX_EVENT_SIZE
    && ReadU16(data, 0) == 0
    && ReadU16(data, 2) == OPCODE_EVENT_DATA_ACK
    && ReadU16(data, 4) + GVCP_HEADER == |data|
    && ReservedOffset(data) + 2 <= |data|
    && (DeclaredPayload(data) == 0 || DeclaredPayload(data) as int == |data| - ReservedOffset(data) - 2)
  }

  /** The packet a well-formed datagram carries. */
  function EventOf(src: SocketAddr, data: seq<u8>): (r: EventPacket)
    requires WellFormedEvent(data)
    ensures r.src == src && r.eventId == ReadU16(data, 8)
    ensures |r.payload| <= |data| && r.payload == data[|data| - |r.payload|..]
    ensures DeclaredPayload(data) != 0 ==> |r.payload| == DeclaredPayload(data) as int
  {
    EventPacket(src, ReadU16(data, 8), ReadU64(data, 12),
                if HasChannelFields(data) then ReadU16(data, 20) else 0,
                if HasChannelFields(data) then ReadU16(data, 22) else 0,
                data[ReservedOffset(data) + 2..])
  }

  /**
   * `EventPacket::parse`, consuming the datagram with a cursor field by
   * field: it accepts exactly the well-formed datagrams and returns the
   * fields at their offsets; the size checks come first.
   */
  method ParseEvent(src: SocketAddr, data: seq<u8>) returns (r: Result<EventPacket, EventError>)
    ensures |data| < GVCP_HEADER + 2 ==> r == Err(InvalidData("packet too short"))
    ensures GVCP_HEADER + 2 <= |data| && |data| > MAX_EVENT_SIZE ==> r == Err(InvalidData("packet too large"))
    ensures r.Ok? <==> WellFormedEvent(data)
    ensures r.Ok? ==> r.value == EventOf(src, data)
  {
    if |data| < GVCP_HEADER + 2 {
      return Err(InvalidData("packet too short"));
    }
    if |data| > MAX_EVENT_SIZE {
      return Err(InvalidData("packet too large"));
    }
    var pos: nat := 0;
    var status := ReadU16(data, pos);
    pos := pos + 2;
    var opcode := ReadU16(data, pos);
    pos := pos + 2;
    var length := ReadU16(data, pos);
    pos := pos + 2;
    pos := pos + 2;  // request id, unused
    if status != 0 {
      return Err(InvalidData("device reported error status"));
    }
    if opcode != OPCODE_EVENT_DATA_ACK {
      return Err(InvalidData("unexpected opcode for event packet"));
    }
    if length as int + GVCP_HEADER != |data| {
      return Err(InvalidData("length mismatch"));
    }
    if |data| - pos < 2 {
      // "event payload missing identifier": the size check above leaves 2 bytes
      assert false;
    }
    var eventId := ReadU16(data, pos);
    pos := pos + 2;
    if |data| - pos < 2 {
      return Err(InvalidData("event payload missing notification"));
    }
    pos := pos + 2;  // notification, unused
    if |data| - pos < 8 {
      return Err(InvalidData("event payload missing timestamp"));
    }
    var high: nat := ReadU32(data, pos);
    var low: nat := ReadU32(data, pos + 4);
    ReadU64Split(data, pos);
    var timestampDev: u64 := high * 0x1_0000_0000 + low;  // high * 2^32 + low
    pos := pos + 8;
    var streamChannel: u16 := 0;
    var blockId: u16 := 0;
    var payloadLength: nat := 0;
    if |data| - pos >= 6 {
      streamChannel := ReadU16(data, pos);
      blockId := ReadU16(data, pos + 2);
      payloadLength := ReadU16(data, pos + 4);
      pos := pos + 6;
    }
    if |data| - pos < 2 {
      return Err(InvalidData("event payload missing reserved field"));
    }
    pos := pos + 2;  // reserved
    var remaining := |data| - pos;
    if payloadLength != 0 && payloadLength != remaining {
      return Err(InvalidData("event payload length mismatch"));
    }
    r := Ok(EventPacket(src, eventId, timestampDev, streamChannel, blockId, data[pos..]));
  }

  /**
   * A datagram of 26 or 27 bytes is always rejected: the channel fields are
   * read because 6 bytes remain after the timestamp, and then the reserved
   * field no longer fits. One of 22 to 25 bytes keeps zero channel fields.
   */
  lemma ChannelFieldsGap(data: seq<u8>)
    ensures |data| == 26 || |data| == 27 ==> !WellFormedEvent(data)
    ensures WellFormedEvent(data) && |data| < 26 ==> |data| >= 22 && EventOf(SocketAddr([], 0), data).streamChannel == 0
  {
  }

  // -------------------------------------------------------------------
  // Building a packet (the layout the device sends)

  function EventHead(requestId: u16, payloadSize: nat): (r: seq<u8>)
    requires payloadSize <= MAX_EVENT_SIZE - 28
    ensures |r| == 8
    ensures ReadU16(r, 0) == 0 && ReadU16(r, 2) == OPCODE_EVENT_DATA_ACK && ReadU16(r, 4) == 20 + payloadSize
  {
    var r := U16Be(0) + U16Be(OPCODE_EVENT_DATA_ACK) + U16Be(20 + payloadSize) + U16Be(requestId);
    ReadU16Of(r, 0, 0);
    ReadU16Of(r, 2, OPCODE_EVENT_DATA_ACK);
    ReadU16Of(r, 4, 20 + payloadSize);
    r
  }

  function EventBody(eventId: u16, notification: u16, timestamp: u64, channel: u16, block: u16, payloadSize: nat): (r: seq<u8>)
    requires payloadSize <= MAX_EVENT_SIZE - 28
    ensures |r| == 20
    ensures ReadU16(r, 0) == eventId && ReadU64(r, 4) == timestamp
    ensures ReadU16(r, 12) == channel && ReadU16(r, 14) == block && ReadU16(r, 16) == payloadSize
  {
    var r := U16Be(eventId) + U16Be(notification) + U64Be(timestamp) + U16Be(channel) + U16Be(block)
      + U16Be(payloadSize) + U16Be(0);
    ReadU16Of(r, 0, eventId);
    ReadU64Of(r, 4, timestamp);
    ReadU16Of(r, 12, channel);
    ReadU16Of(r, 14, block);
    ReadU16Of(r, 16, payloadSize);
    r
  }

  /** A full event packet with all optional fields present, as the unit test builds it. */
  function BuildEvent(requestId: u16, eventId: u16, notification: u16, timestamp: u64, channel: u16, block: u16,
                      payload: seq<u8>): (r: seq<u8>)
    requires |payload| <= MAX_EVENT_SIZE - 28
    ensures |r| == 28 + |payload|
  {
    EventHead(requestId, |payload|) + EventBody(eventId, notification, timestamp, channel, block, |payload|) + payload
  }

  /** Every field of a built packet can be read back at its offset. */
  lemma BuildEventFields(requestId: u16, eventId: u16, notification: u16, timestamp: u64,
                         channel: u16, block: u16, payload: seq<u8>)
    requires |payload| <= MAX_EVENT_SIZE - 28
    ensures var data := BuildEvent(requestId, eventId, notification, timestamp, channel, block, payload);
      && ReadU16(data, 0) == 0 && ReadU16(data, 2) == OPCODE_EVENT_DATA_ACK && ReadU16(data, 4) == 20 + |payload|
      && ReadU16(data, 8) == eventId && ReadU64(data, 12) == timestamp
      && ReadU16(data, 20) == channel && ReadU16(data, 22) == block && ReadU16(data, 24) == |payload|
      && data[28..] == payload
  {
    var head := EventHead(requestId, |payload|);
    var body := EventBody(eventId, notification, timestamp, channel, block, |payload|);
    var data := head + body + payload;
    assert data[..8] == head;
    assert data[0..2] == head[0..2] && data[2..4] == head[2..4] && data[4..6] == head[4..6];
    ReadU16Within(head, body, payload, 0);
    ReadU64Within(head, body, payload, 4);
    ReadU16Within(head, body, payload, 12);
    ReadU16Within(head, body, payload, 14);
    ReadU16Within(head, body, payload, 16);
    assert data[28..] == payload;
  }

  /** Parsing a built packet gives back every field and the payload. */
  lemma BuildThenParse(src: SocketAddr, requestId: u16, eventId: u16, notification: u16, timestamp: u64,
                       channel: u16, block: u16, payload: seq<u8>)
    requires |payload| <= MAX_EVENT_SIZE - 28
    ensures WellFormedEvent(BuildEvent(requestId, eventId, notification, timestamp, channel, block, payload))
    ensures EventOf(src, BuildEvent(requestId, eventId, notification, timestamp, channel, block, payload))
         == EventPacket(src, eventId, timestamp, channel, block, payload)
  {
    BuildEventFields(requestId, eventId, notification, timestamp, channel, block, payload);
  }

  /** The unit test's packet: event 0x1234, timestamp 0x0002_0003_0004_0005, channel 7, block 8, payload 1 2 3 4. */
  lemma UnitTestPacket(src: SocketAddr)
    ensures var data := BuildEvent(0xCAFE, 0x1234, 0x0001, 0x0002_0003_0004_0005, 7, 8, [1, 2, 3, 4]);
      && |data| == 32 && WellFormedEvent(data)
      && EventOf(src, data) == EventPacket(src, 0x1234, 0x0002_0003_0004_0005, 7, 8, [1, 2, 3, 4])
  {
    BuildThenParse(src, 0xCAFE, 0x1234, 0x0001, 0x0002_0003_0004_0005, 7, 8, [1, 2, 3, 4]);
  }

  // -------------------------------------------------------------------
  // The receive loop

  /** What one `recv_from` on the message socket delivers. */
  datatype Incoming = Datagram(src: SocketAddr, bytes: seq<u8>) | ReceiveError

  /** The bytes the 2048-byte receive buffer holds for a datagram. */
  function Received(bytes: seq<u8>): (r: seq<u8>)
    ensures |r| <= MAX_EVENT_SIZE
    ensures |bytes| <= MAX_EVENT_SIZE ==> r == bytes
  {
    if |bytes| <= MAX_EVENT_SIZE then bytes else bytes[..MAX_EVENT_SIZE]
  }

  /** Datagrams that the loop discards. */
  predicate Discarded(x: Incoming)
  {
    x.Datagram? && !WellFormedEvent(Received(x.bytes))
  }

  /**
   * `EventSocket::recv` over the datagrams the socket will deliver, in
   * order: malformed ones are discarded and the loop goes on; the first
   * well-formed one is returned, a receive error is passed up. `None`
   * with `used == |incoming|` means the loop is still waiting.
   */
  method Recv(incoming: seq<Incoming>) returns (r: Option<Result<EventPacket, EventError>>, used: nat)
    ensures used <= |incoming|
    ensures forall k :: 0 <= k < used - 1 ==> Discarded(incoming[k])
    ensures r.None? ==> used == |incoming| && forall k :: 0 <= k < |incoming| ==> Discarded(incoming[k])
    ensures r.Some? && r.value.Err? ==> used > 0 && incoming[used - 1] == ReceiveError && r.value.error == RecvFailed
    ensures r.Some? && r.value.Ok? ==>
      && used > 0 && incoming[used - 1].Datagram? && WellFormedEvent(Received(incoming[used - 1].bytes))
      && r.value.value == EventOf(incoming[used - 1].src, Received(incoming[used - 1].bytes))
  {
    used := 0;
    while used < |incoming|
      invariant used <= |incoming|
      invariant forall k :: 0 <= k < used ==> Discarded(incoming[k])
    {
      var next := incoming[used];
      used := used + 1;
      match next
      case ReceiveError =>
        return Some(Err(RecvFailed)), used;
      case Datagram(src, bytes) =>
        var parsed := ParseEvent(src, Received(bytes));
        if parsed.Ok? {
          return Some(parsed), used;
        }
    }
    r := None;
  }
}
