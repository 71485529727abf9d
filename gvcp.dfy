/**
 * The GVCP control path of a GigE Vision device (GigE Vision section 7.3):
 * request headers, discovery acknowledgements, the request-id counter,
 * the retry loop over an abstract transport, chunked memory access,
 * stream-channel and event-mask registers, packet-resend requests and the
 * merge of discovery results.
 */
module Gvcp {
  import opened Bytes
  import opened Wrappers
  import opened Text
  import opened Utf8
  import opened GenCp

  const PORT: u16 := 3956
  const DISCOVERY_COMMAND: u16 := 0x0002
  const DISCOVERY_ACK: u16 := 0x0003
  const PACKET_RESEND_COMMAND: u16 := 0x0040
  const PACKET_RESEND_ACK: u16 := 0x0041

  const MESSAGE_DESTINATION_ADDRESS: u64 := 0x0900_0200
  const MESSAGE_DESTINATION_PORT: u64 := 0x0900_0204
  const EVENT_NOTIFICATION_BASE: u64 := 0x0900_0300
  const EVENT_NOTIFICATION_STRIDE: u64 := 4

  /** Bytes read per ReadMem request, and the extra bytes a WriteMem request carries. */
  const GENCP_MAX_BLOCK: nat := 512
  const GENCP_WRITE_OVERHEAD: nat := 8
  const WRITE_BLOCK: nat := 504  // GENCP_MAX_BLOCK - GENCP_WRITE_OVERHEAD

  const CONTROL_TIMEOUT_MS: nat := 500
  const MAX_RETRIES: nat := 4
  const RETRY_BASE_DELAY_MS: nat := 20
  const RETRY_JITTER_MS: nat := 10

  /** Receive buffers: discovery responses and GenCP acknowledgements are cut to these sizes. */
  const DISCOVERY_BUFFER: nat := 2048
  const ACK_BUFFER: nat := HEADER_SIZE + GENCP_MAX_BLOCK + GENCP_WRITE_OVERHEAD

  /** Stream-channel register block (GigE Vision 2.1, table 63). */
  const STREAM_CHANNEL_BASE: u64 := 0x0900_0400
  const STREAM_CHANNEL_STRIDE: u64 := 0x40
  const STREAM_DESTINATION_ADDRESS: u64 := 0x00
  const STREAM_DESTINATION_PORT: u64 := 0x04
  const STREAM_PACKET_SIZE: u64 := 0x24
  const STREAM_PACKET_DELAY: u64 := 0x28

  // -------------------------------------------------------------------
  // Headers

  datatype GvcpRequestHeader = GvcpRequestHeader(flags: CommandFlags, command: u16, length: u16, requestId: u16)
  {
    /** The 8-byte big-endian header followed by the payload verbatim. */
    function Encode(payload: seq<u8>): (r: seq<u8>)
      ensures |r| == HEADER_SIZE + |payload|
      ensures ReadU16(r, 0) == flags.Bits() && ReadU16(r, 2) == command
      ensures ReadU16(r, 4) == length && ReadU16(r, 6) == requestId
      ensures r[HEADER_SIZE..] == payload
    {
      var r := U16Be(flags.Bits()) + U16Be(command) + U16Be(length) + U16Be(requestId) + payload;
      ReadU16Of(r, 0, flags.Bits());
      ReadU16Of(r, 2, command);
      ReadU16Of(r, 4, length);
      ReadU16Of(r, 6, requestId);
      r
    }
  }

  /** A GVCP request with a GenCP command code is byte-for-byte the GenCP command. */
  lemma EncodeMatchesGenCp(h: GvcpRequestHeader, op: OpCode, payload: seq<u8>)
    requires h.command == CommandCode(op)
    ensures h.Encode(payload) == EncodeCmd(GenCpCmd(CommandHeader(h.flags, op, h.length, h.requestId), payload))
  {
  }

  /** The unit test: command 0x1234, length 4, request id 0xBEEF, payload 1 2 3 4. */
  lemma RequestHeaderExample()
    ensures GvcpRequestHeader(CommandFlags(true, false), 0x1234, 4, 0xBEEF).Encode([1, 2, 3, 4])
         == [0x00, 0x01, 0x12, 0x34, 0x00, 0x04, 0xBE, 0xEF, 1, 2, 3, 4]
  {
    U16BeBytes(1);
    U16BeBytes(0x1234);
    U16BeBytes(4);
    U16BeBytes(0xBEEF);
  }

  datatype GvcpAckHeader = GvcpAckHeader(status: StatusCode, command: u16, length: u16, requestId: u16)

  /** `From<AckHeader>`: the opcode becomes its raw acknowledgement code, which decodes back to it. */
  function FromAckHeader(a: AckHeader): (r: GvcpAckHeader)
    ensures r.status == a.status && r.length == a.length && r.requestId == a.requestId
    ensures FromAck(r.command) == Ok(a.opcode)
  {
    FromAckInvertsAckCode(AckCode(a.opcode));
    GvcpAckHeader(a.status, AckCode(a.opcode), a.length, a.requestId)
  }

  /** The unit test: a DeviceBusy ReadMem acknowledgement header. */
  lemma AckHeaderConversionExample()
    ensures FromAckHeader(AckHeader(DeviceBusy, ReadMem, 12, 0x44)) == GvcpAckHeader(DeviceBusy, 0x0085, 12, 0x44)
  {
  }

  datatype GigeError = Io | Protocol(message: string) | Timeout | GenCp(cause: GenCpError) | Status(status: StatusCode)

  // -------------------------------------------------------------------
  // Discovery acknowledgements

  /** An IPv4 address as its 32-bit big-endian value; its order is the address order. */
  type Ipv4 = u32

  datatype DeviceInfo = DeviceInfo(ip: Ipv4, mac: seq<u8>, model: Option<string>, manufacturer: Option<string>)

  predicate AsciiWhitespaceByte(b: u8)
  {
    9 <= b <= 13 || b == 32
  }

  predicate GraphicAscii(bytes: seq<u8>)
  {
    forall i :: 0 <= i < |bytes| ==> 0x21 <= bytes[i] <= 0x7E
  }

  /** An ASCII byte decodes to whitespace exactly when it is ASCII whitespace. */
  lemma AsciiWhitespace(b: u8)
    requires b < 0x80
    ensures IsWhitespace(b as char) <==> AsciiWhitespaceByte(b)
  {
  }

  /**
   * `parse_string`: the bytes before the first NUL, decoded as lossy UTF-8
   * and trimmed of Unicode whitespace; `None` when nothing is left.
   */
  function ParseString(bytes: seq<u8>): (r: Option<string>)
    ensures r.None? <==>
      forall i :: 0 <= i < |Utf8Lossy(UntilNul(bytes))| ==> IsWhitespace(Utf8Lossy(UntilNul(bytes))[i])
    ensures r.Some? ==> 0 < |r.value| <= |bytes| && !IsWhitespace(r.value[0]) && !IsWhitespace(r.value[|r.value| - 1])
    ensures |UntilNul(bytes)| > 0 && GraphicAscii(UntilNul(bytes)) ==>
      && r.Some? && |r.value| == |UntilNul(bytes)|
      && forall i :: 0 <= i < |r.value| ==> r.value[i] == bytes[i] as char
  {
    var text := Utf8Lossy(UntilNul(bytes));
    var s := Trim(text);
    TrimEmpty(text);
    ParseStringGraphic(bytes);
    if s == [] then None else Some(s)
  }

  /** Printable ASCII without spaces decodes to itself and survives the trim. */
  lemma ParseStringGraphic(bytes: seq<u8>)
    ensures |UntilNul(bytes)| > 0 && GraphicAscii(UntilNul(bytes)) ==>
      && Trim(Utf8Lossy(UntilNul(bytes))) == Utf8Lossy(UntilNul(bytes))
      && |Utf8Lossy(UntilNul(bytes))| == |UntilNul(bytes)|
      && forall i :: 0 <= i < |UntilNul(bytes)| ==> Utf8Lossy(UntilNul(bytes))[i] == bytes[i] as char
  {
    var u := UntilNul(bytes);
    if |u| > 0 && GraphicAscii(u) {
      AsciiDecodes(u);
      var text := Utf8Lossy(u);
      forall i | 0 <= i < |text| ensures !IsWhitespace(text[i]) {
        AsciiWhitespace(u[i]);
      }
      TrimNoWhitespace(text);
    }
  }

  /** On ASCII text the string is absent exactly when every byte is ASCII whitespace. */
  lemma ParseStringAscii(bytes: seq<u8>)
    requires IsAscii(UntilNul(bytes))
    ensures ParseString(bytes).None? <==> forall i :: 0 <= i < |UntilNul(bytes)| ==> AsciiWhitespaceByte(bytes[i])
  {
    var u := UntilNul(bytes);
    AsciiDecodes(u);
    forall i | 0 <= i < |u| ensures IsWhitespace(Utf8Lossy(u)[i]) <==> AsciiWhitespaceByte(bytes[i]) {
      AsciiWhitespace(u[i]);
    }
  }

  /** Text beyond ASCII is decoded, not replaced byte by byte: C3 A9 is "é". */
  lemma ParseStringUtf8Example()
    ensures ParseString([0xC3, 0xA9]) == Some("é")
  {
    var bytes: seq<u8> := [0xC3, 0xA9];
    assert UntilNul(bytes) == bytes;
    TwoByteExample();
    assert !IsWhitespace('é');
    TrimNoWhitespace("é");
  }

  /** C2 A0 is U+00A0, no-break space, which the Unicode trim removes. */
  lemma ParseStringNoBreakSpace()
    ensures ParseString([0xC2, 0xA0]) == None
  {
    var bytes: seq<u8> := [0xC2, 0xA0];
    assert UntilNul(bytes) == bytes;
    assert DecodeStep(bytes) == ('\U{A0}', 2);
    assert bytes[2..] == [];
    assert Utf8Lossy(bytes) == "\U{A0}";
  }

  /** The bytes after the terminating NUL never reach the string. */
  lemma ParseStringTerminated(text: seq<u8>, rest: seq<u8>)
    requires forall i :: 0 <= i < |text| ==> text[i] != 0
    ensures ParseString(text + [0] + rest) == ParseString(text)
  {
    UntilNulTerminated(text, rest);
  }

  /** Offsets of the fields the discovery payload parser reads. */
  const MAC_OFFSET: nat := 12
  const IP_OFFSET: nat := 22
  const FIXED_FIELDS: nat := 34
  const MANUFACTURER_OFFSET: nat := 34
  const MODEL_OFFSET: nat := 66
  const DISCOVERY_STRING: nat := 32

  /** `read_fixed_string`: a 32-byte string field at `pos`, if the payload holds it. */
  function ReadFixedString(payload: seq<u8>, pos: nat): (r: Result<Option<string>, GigeError>)
    ensures r.Ok? <==> pos + DISCOVERY_STRING <= |payload|
  {
    if |payload| < pos + DISCOVERY_STRING then Err(Protocol("discovery string truncated"))
    else Ok(ParseString(payload[pos..pos + DISCOVERY_STRING]))
  }

  /**
   * `parse_discovery_payload` as the source writes it. `None` stands for a
   * panic: the size check admits 32 bytes while the fixed fields before the
   * strings take 34, so a 32- or 33-byte payload runs the cursor out in the
   * gateway read.
   */
  function ParseDiscoveryPayloadAsWritten(payload: seq<u8>): (r: Option<Result<DeviceInfo, GigeError>>)
    ensures r.None? <==> 32 <= |payload| < FIXED_FIELDS
  {
    if |payload| < 32 then Some(Err(Protocol("discovery payload too small")))
    else if |payload| < FIXED_FIELDS then None
    else Some(ParseDiscoveryPayload(payload))
  }

  /** A zero-filled 32-byte payload passes the size check and then panics. */
  lemma DiscoveryPayloadPanicExample()
    ensures ParseDiscoveryPayloadAsWritten(seq(32, _ => 0)) == None
  {
  }

  /**
   * `parse_discovery_payload` with the size check the field layout needs
   * (34 bytes): the MAC at 12..18, the IPv4 address at 22..26, then the
   * manufacturer and model strings of 32 bytes each.
   */
  function ParseDiscoveryPayload(payload: seq<u8>): (r: Result<DeviceInfo, GigeError>)
    ensures r.Ok? <==> |payload| >= MODEL_OFFSET + DISCOVERY_STRING
    ensures |payload| < FIXED_FIELDS ==> r == Err(Protocol("discovery payload too small"))
    ensures FIXED_FIELDS <= |payload| < MODEL_OFFSET + DISCOVERY_STRING ==> r == Err(Protocol("discovery string truncated"))
    ensures r.Err? ==> r == Err(Protocol("discovery payload too small")) || r == Err(Protocol("discovery string truncated"))
    ensures r.Ok? ==>
      && r.value.mac == payload[MAC_OFFSET..MAC_OFFSET + 6]
      && r.value.ip == ReadU32(payload, IP_OFFSET)
      && r.value.manufacturer == ParseString(payload[MANUFACTURER_OFFSET..MODEL_OFFSET])
      && r.value.model == ParseString(payload[MODEL_OFFSET..MODEL_OFFSET + DISCOVERY_STRING])
  {
    if |payload| < FIXED_FIELDS then Err(Protocol("discovery payload too small"))
    else
      var mac := payload[MAC_OFFSET..MAC_OFFSET + 6];
      var ip := ReadU32(payload, IP_OFFSET);
      match ReadFixedString(payload, MANUFACTURER_OFFSET)
      case Err(e) => Err(e)
      case Ok(manufacturer) =>
        match ReadFixedString(payload, MODEL_OFFSET)
        case Err(e) => Err(e)
        case Ok(model) => Ok(DeviceInfo(ip, mac, model, manufacturer))
  }

  /** Outside the two panicking lengths the corrected parser agrees with the source. */
  lemma DiscoveryPayloadAgrees(payload: seq<u8>)
    requires |payload| != 32 && |payload| != 33
    ensures ParseDiscoveryPayloadAsWritten(payload) == Some(ParseDiscoveryPayload(payload))
  {
  }

  /** `format!("unexpected discovery opcode {command:#06x}")`. */
  function OpcodeMessage(command: u16): string
  {
    "unexpected discovery opcode " + HexWord(command)
  }

  /** `format!("discovery returned status {status:#06x}")`. */
  function StatusMessage(status: u16): string
  {
    "discovery returned status " + HexWord(status)
  }

  /** The two formatted messages differ from each other and from every fixed discovery message. */
  lemma DiscoveryMessagesDiffer(command: u16, status: u16)
    ensures |OpcodeMessage(command)| == 34 && |StatusMessage(status)| == 32
    ensures OpcodeMessage(command) != StatusMessage(status)
    ensures OpcodeMessage(command) != "GVCP ack too short" && StatusMessage(status) != "GVCP ack too short"
    ensures OpcodeMessage(command) != "discovery payload truncated" && StatusMessage(status) != "discovery payload truncated"
    ensures OpcodeMessage(command) != "discovery payload too small" && StatusMessage(status) != "discovery payload too small"
    ensures OpcodeMessage(command) != "discovery string truncated" && StatusMessage(status) != "discovery string truncated"
  {
  }

  /**
   * `parse_discovery_ack`: too short first; a foreign request id is
   * skipped before the opcode and status are looked at; then the payload
   * of the declared length must be present and parse.
   */
  function ParseDiscoveryAck(buf: seq<u8>, expected: u16): (r: Result<Option<DeviceInfo>, GigeError>)
    ensures |buf| < HEADER_SIZE <==> r == Err(Protocol("GVCP ack too short"))
    ensures r == Ok(None) <==> |buf| >= HEADER_SIZE && ReadU16(buf, 6) != expected
    ensures |buf| >= HEADER_SIZE && ReadU16(buf, 6) == expected && ReadU16(buf, 2) != DISCOVERY_ACK ==>
      r == Err(Protocol(OpcodeMessage(ReadU16(buf, 2))))
    ensures |buf| >= HEADER_SIZE && ReadU16(buf, 6) == expected && ReadU16(buf, 2) == DISCOVERY_ACK && ReadU16(buf, 0) != 0 ==>
      r == Err(Protocol(StatusMessage(ReadU16(buf, 0))))
    ensures |buf| >= HEADER_SIZE ==>
      (r == Err(Protocol("discovery payload truncated")) <==>
         && ReadU16(buf, 6) == expected && ReadU16(buf, 2) == DISCOVERY_ACK && ReadU16(buf, 0) == 0
         && |buf| < HEADER_SIZE + ReadU16(buf, 4))
    ensures r.Ok? && r.value.Some? ==>
      && |buf| >= HEADER_SIZE && ReadU16(buf, 6) == expected && ReadU16(buf, 2) == DISCOVERY_ACK && ReadU16(buf, 0) == 0
      && |buf| >= HEADER_SIZE + ReadU16(buf, 4)
      && ParseDiscoveryPayload(buf[HEADER_SIZE..HEADER_SIZE + ReadU16(buf, 4)]) == Ok(r.value.value)
  {
    if |buf| < HEADER_SIZE then Err(Protocol("GVCP ack too short"))
    else
      var status := ReadU16(buf, 0);
      var command := ReadU16(buf, 2);
      var length := ReadU16(buf, 4);
      var requestId := ReadU16(buf, 6);
      if requestId != expected then Ok(None)
      else if command != DISCOVERY_ACK then Err(Protocol(OpcodeMessage(command)))
      else if status != 0 then Err(Protocol(StatusMessage(status)))
      else if |buf| < HEADER_SIZE + length then Err(Protocol("discovery payload truncated"))
      else
        match ParseDiscoveryPayload(buf[HEADER_SIZE..HEADER_SIZE + length])
        case Err(e) => Err(e)
        case Ok(info) => Ok(Some(info))
  }

  /** Once the header is accepted, the only errors left are the truncation and the payload's own. */
  lemma DiscoveryAckPayloadErrors(buf: seq<u8>, expected: u16)
    requires |buf| >= HEADER_SIZE && ReadU16(buf, 6) == expected && ReadU16(buf, 2) == DISCOVERY_ACK && ReadU16(buf, 0) == 0
    ensures ParseDiscoveryAck(buf, expected).Err? ==>
      ParseDiscoveryAck(buf, expected).error in
        {Protocol("discovery payload truncated"), Protocol("discovery payload too small"), Protocol("discovery string truncated")}
  {
  }

  /** The formatted opcode and status errors come only from their own checks. */
  lemma DiscoveryAckMessages(buf: seq<u8>, expected: u16)
    requires |buf| >= HEADER_SIZE
    ensures ParseDiscoveryAck(buf, expected) == Err(Protocol(OpcodeMessage(ReadU16(buf, 2)))) <==>
      ReadU16(buf, 6) == expected && ReadU16(buf, 2) != DISCOVERY_ACK
    ensures ParseDiscoveryAck(buf, expected) == Err(Protocol(StatusMessage(ReadU16(buf, 0)))) <==>
      ReadU16(buf, 6) == expected && ReadU16(buf, 2) == DISCOVERY_ACK && ReadU16(buf, 0) != 0
  {
    var status, command, length := ReadU16(buf, 0), ReadU16(buf, 2), ReadU16(buf, 4);
    var r := ParseDiscoveryAck(buf, expected);
    DiscoveryMessagesDiffer(command, status);
    var opcodeError, statusError := Err(Protocol(OpcodeMessage(command))), Err(Protocol(StatusMessage(status)));
    if ReadU16(buf, 6) != expected {
      assert r.Ok?;
    } else if command != DISCOVERY_ACK {
      assert r == opcodeError && r != statusError;
    } else if status != 0 {
      assert r == statusError && r != opcodeError;
    } else if |buf| < HEADER_SIZE + length {
      assert r == Err(Protocol("discovery payload truncated"));
      assert r != statusError && r != opcodeError;
    } else {
      DiscoveryAckPayloadErrors(buf, expected);
    }
  }

  // -------------------------------------------------------------------
  // Request identifiers

  /** The counter step of `next_request_id`: 16-bit wrapping increment that skips 0. */
  function NextId(x: u16): (r: u16)
    ensures r != 0
    ensures x < U16_MAX ==> r == x + 1
    ensures x == U16_MAX ==> r == 1
  {
    var n := (x + 1) % 0x1_0000;  // the successor modulo 2^16
    if n == 0 then 1 else n
  }

  /** The counter after k steps. */
  function IdAfter(start: u16, k: nat): u16
  {
    if k == 0 then start else NextId(IdAfter(start, k - 1))
  }

  /** Position x of the cycle 1, 2, .., 65535, 1, .. */
  function Cycle(x: nat): u16
  {
    x % U16_MAX + 1
  }

  /** Counting modulo m: one more either adds one to the remainder or wraps it to 0. */
  lemma ModStep(x: nat, m: int)
    requires m > 0
    ensures (x + 1) % m == if x % m + 1 < m then x % m + 1 else 0
  {
    var q := x / m;
    if x % m + 1 < m {
      DivModUnique(x + 1, m, q, x % m + 1);
    } else {
      DivModUnique(x + 1, m, q + 1, 0);
    }
  }

  /** Stepping the counter moves one place along the cycle. */
  lemma NextIdCycle(x: nat)
    ensures NextId(Cycle(x)) == Cycle(x + 1)
  {
    ModStep(x, U16_MAX);
  }

  /** From a nonzero start the counter cycles through 1..65535: closed form. */
  lemma {:induction false} IdAfterClosedForm(start: u16, k: nat)
    requires start != 0
    ensures IdAfter(start, k) == Cycle(start - 1 + k)
  {
    if k > 0 {
      IdAfterClosedForm(start, k - 1);
      var x: nat := start - 1 + (k - 1);
      NextIdCycle(x);
      assert x + 1 == start - 1 + k;
    } else {
      DivModUnique(start - 1, U16_MAX, 0, start - 1);
    }
  }

  /** No identifier handed out from a nonzero start is 0, and any 65535 consecutive ones are distinct. */
  lemma IdsDistinct(start: u16, i: nat, j: nat)
    requires start != 0 && i < j < i + U16_MAX
    ensures IdAfter(start, i) != 0
    ensures IdAfter(start, i) != IdAfter(start, j)
  {
    IdAfterClosedForm(start, i);
    IdAfterClosedForm(start, j);
    ModDistinct(start - 1 + i, start - 1 + j, U16_MAX);
  }

  lemma ModDistinct(a: nat, b: nat, m: int)
    requires a < b < a + m
    ensures a % m != b % m
  {
    var q := a / m;
    var ra := a % m;
    var d := b - a;
    if ra + d < m {
      DivModUnique(b, m, q, ra + d);
    } else {
      DivModUnique(b, m, q + 1, ra + d - m);
    }
  }

  // -------------------------------------------------------------------
  // Retry backoff


  /** Rust's `saturating_sub` on unsigned values. */
  function SaturatingSub(a: nat, b: nat): (r: nat)
    ensures r == if a >= b then a - b else 0
  {
    if a >= b then a - b else 0
  }

  /** The backoff before the retry that follows attempt `attempt`, without jitter. */
  function BackoffBase(attempt: nat): (d: nat)
    ensures RETRY_BASE_DELAY_MS <= d <= 8 * RETRY_BASE_DELAY_MS
  {
    var multiplier := Pow2(MinNat(SaturatingSub(attempt, 1), 3));
    Pow2Monotone(MinNat(SaturatingSub(attempt, 1), 3), 3);
    var scaled := RETRY_BASE_DELAY_MS * multiplier;
    if scaled > RETRY_BASE_DELAY_MS then scaled else RETRY_BASE_DELAY_MS
  }

  /** `backoff`: the base delay plus a jitter of at most 10 ms drawn by the caller. */
  function BackoffDelay(attempt: nat, jitter: nat): (d: nat)
    requires jitter <= RETRY_JITTER_MS
    ensures RETRY_BASE_DELAY_MS <= d <= 8 * RETRY_BASE_DELAY_MS + RETRY_JITTER_MS
    ensures d - jitter == BackoffBase(attempt)
  {
    BackoffBase(attempt) + jitter
  }

  /** The schedule: 20, 40, 80, 160 ms and 160 ms from then on. */
  lemma BackoffSchedule(attempt: nat)
    ensures BackoffBase(0) == 20 && BackoffBase(1) == 20 && BackoffBase(2) == 40
    ensures BackoffBase(3) == 80
    ensures attempt >= 4 ==> BackoffBase(attempt) == 160
  {
    assert Pow2(1) == 2 && Pow2(2) == 4 && Pow2(3) == 8;
  }

  /** Later attempts never wait less. */
  lemma BackoffMonotone(a: nat, b: nat)
    requires a <= b
    ensures BackoffBase(a) <= BackoffBase(b)
  {
    var ka := MinNat(SaturatingSub(a, 1), 3);
    var kb := MinNat(SaturatingSub(b, 1), 3);
    Pow2Monotone(ka, kb);
  }

  // -------------------------------------------------------------------
  // The retry loop of `transact_with_retry`

  /** What the abstract transport does with one attempt's datagram. */
  datatype Exchange = SendFailed | Received(datagram: seq<u8>) | RecvFailed | TimedOut

  datatype Step = Done(result: Result<GenCpAck, GigeError>) | Retry

  /** The datagram as the receive buffer holds it: cut to `size` bytes. */
  function Truncate(datagram: seq<u8>, size: nat): (r: seq<u8>)
    ensures |r| <= size && |r| <= |datagram| && r == datagram[..|r|]
    ensures |datagram| <= size ==> r == datagram
  {
    if |datagram| <= size then datagram else datagram[..size]
  }

  /**
   * One attempt of the retry loop, number `attempt` (from 1), that sent
   * request id `id`: send and receive failures and timeouts are retried
   * until the fourth attempt, as is an acknowledgement for another request
   * and a DeviceBusy status; a malformed acknowledgement, a wrong opcode
   * and every other status end the loop at once.
   */
  function AttemptOutcome(opcode: OpCode, id: u16, e: Exchange, attempt: nat): (o: Step)
    ensures attempt >= MAX_RETRIES ==> o.Done?
  {
    var last := attempt >= MAX_RETRIES;
    match e
    case SendFailed => if last then Done(Err(GigeError.Io)) else Retry
    case RecvFailed => if last then Done(Err(GigeError.Io)) else Retry
    case TimedOut => if last then Done(Err(Timeout)) else Retry
    case Received(datagram) =>
      match DecodeAck(Truncate(datagram, ACK_BUFFER))
      case Err(cause) => Done(Err(GenCp(cause)))
      case Ok(ack) =>
        if ack.header.requestId != id then
          if last then Done(Err(Protocol("acknowledgement id mismatch"))) else Retry
        else if ack.header.opcode != opcode then Done(Err(Protocol("unexpected opcode in acknowledgement")))
        else match ack.header.status
          case Success => Done(Ok(ack))
          case DeviceBusy => if last then Done(Err(Status(DeviceBusy))) else Retry
          case _ => Done(Err(Status(ack.header.status)))
  }

  /** The acknowledgement an exchange delivered, if it decodes. */
  function AckOf(e: Exchange): (r: Option<GenCpAck>)
    ensures r.Some? <==> e.Received? && DecodeAck(Truncate(e.datagram, ACK_BUFFER)).Ok?
  {
    if e.Received? then
      match DecodeAck(Truncate(e.datagram, ACK_BUFFER))
      case Ok(ack) => Some(ack)
      case Err(_) => None
    else None
  }

  /**
   * The attempt succeeds exactly on a decoded acknowledgement of this
   * request and opcode with status Success, and fails with an opcode error
   * exactly when only the opcode disagrees; a datagram that does not decode
   * ends the loop with the decoder's error.
   */
  lemma AttemptOutcomeCases(opcode: OpCode, id: u16, e: Exchange, attempt: nat)
    ensures AttemptOutcome(opcode, id, e, attempt) == Done(Err(Protocol("unexpected opcode in acknowledgement"))) <==>
      AckOf(e).Some? && AckOf(e).value.header.requestId == id && AckOf(e).value.header.opcode != opcode
    ensures AttemptOutcome(opcode, id, e, attempt).Done? && AttemptOutcome(opcode, id, e, attempt).result.Ok? <==>
      AckOf(e).Some? && AckOf(e).value.header.requestId == id && AckOf(e).value.header.opcode == opcode
      && AckOf(e).value.header.status == Success
    ensures AttemptOutcome(opcode, id, e, attempt).Done? && AttemptOutcome(opcode, id, e, attempt).result.Ok? ==>
      AckOf(e).Some? && AttemptOutcome(opcode, id, e, attempt).result.value == AckOf(e).value
    ensures e.Received? && DecodeAck(Truncate(e.datagram, ACK_BUFFER)).Err? ==>
      AttemptOutcome(opcode, id, e, attempt) == Done(Err(GenCp(DecodeAck(Truncate(e.datagram, ACK_BUFFER)).error)))
  {
  }

  /** The loop from attempt `attempt` on, with `id` the next request id: the result and the attempts made. */
  function TransactFrom(opcode: OpCode, id: u16, exchanges: seq<Exchange>, attempt: nat): (res: (Result<GenCpAck, GigeError>, nat))
    requires 1 <= attempt <= MAX_RETRIES && |exchanges| >= MAX_RETRIES
    ensures attempt <= res.1 <= MAX_RETRIES
    decreases MAX_RETRIES - attempt
  {
    match AttemptOutcome(opcode, id, exchanges[attempt - 1], attempt)
    case Done(r) => (r, attempt)
    case Retry => TransactFrom(opcode, NextId(id), exchanges, attempt + 1)
  }

  /** One attempt of the retry loop either ends it with its result or passes on to the next id. */
  lemma TransactFromStep(opcode: OpCode, id: u16, exchanges: seq<Exchange>, attempt: nat, o: Step)
    requires 1 <= attempt <= MAX_RETRIES && |exchanges| >= MAX_RETRIES
    requires o == AttemptOutcome(opcode, id, exchanges[attempt - 1], attempt)
    ensures o.Done? ==> TransactFrom(opcode, id, exchanges, attempt) == (o.result, attempt)
    ensures o.Retry? ==> attempt < MAX_RETRIES
    ensures o.Retry? ==> TransactFrom(opcode, id, exchanges, attempt) == TransactFrom(opcode, NextId(id), exchanges, attempt + 1)
  {
  }

  /** The whole retry loop, given what the transport does on each of the (at most four) attempts. */
  function Transact(opcode: OpCode, id: u16, exchanges: seq<Exchange>): (res: (Result<GenCpAck, GigeError>, nat))
    requires |exchanges| >= MAX_RETRIES
    ensures 1 <= res.1 <= MAX_RETRIES
  {
    TransactFrom(opcode, id, exchanges, 1)
  }

  /** Four timeouts in a row end in `Timeout` after exactly four attempts. */
  lemma AllTimeouts(opcode: OpCode, id: u16)
    ensures Transact(opcode, id, [TimedOut, TimedOut, TimedOut, TimedOut]) == (Err(Timeout), 4)
  {
    var ex := [TimedOut, TimedOut, TimedOut, TimedOut];
    assert TransactFrom(opcode, IdAfter(id, 3), ex, 4) == (Err(Timeout), 4);
    assert TransactFrom(opcode, IdAfter(id, 2), ex, 3) == (Err(Timeout), 4);
    assert TransactFrom(opcode, IdAfter(id, 1), ex, 2) == (Err(Timeout), 4);
  }

  /** A DeviceBusy answer to the current request is retried exactly while attempts remain. */
  lemma BusyRetriedWhileAttemptsRemain(opcode: OpCode, id: u16, e: Exchange, attempt: nat)
    requires e.Received?
    requires DecodeAck(Truncate(e.datagram, ACK_BUFFER)).Ok?
    requires DecodeAck(Truncate(e.datagram, ACK_BUFFER)).value.header == AckHeader(DeviceBusy, opcode,
      DecodeAck(Truncate(e.datagram, ACK_BUFFER)).value.header.length, id)
    ensures AttemptOutcome(opcode, id, e, attempt) == if attempt < MAX_RETRIES then Retry else Done(Err(Status(DeviceBusy)))
  {
  }

  /** The first acknowledgement that matches and reports success ends the loop with it. */
  lemma FirstSuccess(opcode: OpCode, id: u16, exchanges: seq<Exchange>)
    requires |exchanges| >= MAX_RETRIES && exchanges[0].Received?
    requires DecodeAck(Truncate(exchanges[0].datagram, ACK_BUFFER)).Ok?
    requires DecodeAck(Truncate(exchanges[0].datagram, ACK_BUFFER)).value.header.requestId == id
    requires DecodeAck(Truncate(exchanges[0].datagram, ACK_BUFFER)).value.header.opcode == opcode
    requires DecodeAck(Truncate(exchanges[0].datagram, ACK_BUFFER)).value.header.status == Success
    ensures Transact(opcode, id, exchanges) == (Ok(DecodeAck(Truncate(exchanges[0].datagram, ACK_BUFFER)).value), 1)
  {
  }

  /** The command of one attempt: ack required, and the payload length cast to 16 bits. */
  function AttemptCommand(opcode: OpCode, payload: seq<u8>, id: u16): (c: GenCpCmd)
    ensures c.header.flags.ackRequired && !c.header.flags.broadcast
    ensures c.header.requestId == id && c.payload == payload
  {
    GenCpCmd(CommandHeader(CommandFlags(true, false), opcode, PayloadLength(payload), id), payload)
  }

  /** `payload.len() as u16`: the length modulo 2^16, exact for every payload this module sends. */
  function PayloadLength(payload: seq<u8>): (n: u16)
    ensures |payload| <= U16_MAX ==> n == |payload|
  {
    if |payload| <= U16_MAX then
      DivModUnique(|payload|, 0x1_0000, 0, |payload|);
      |payload| % 0x1_0000
    else |payload| % 0x1_0000
  }

  /** A GVCP control channel; only the request-id counter is state the model keeps. */
  class GigeDevice {
    var requestId: u16

    /** `open`: the counter starts at 1. */
    constructor Open()
      ensures requestId == 1
    {
      requestId := 1;
    }

    /** `next_request_id`: hand out the current id and advance the counter. */
    method NextRequestId() returns (id: u16)
      modifies this
      ensures id == old(requestId) && requestId == NextId(old(requestId))
    {
      id := requestId;
      requestId := NextId(requestId);
    }

    /**
     * `transact_with_retry` over an abstract transport: `exchanges[k]` is
     * what happens to attempt k + 1 and `jitters[k]` is the jitter drawn
     * for the backoff after it. Returns the result, the commands sent (each
     * goes out as its `EncodeCmd` bytes) and the backoff delays waited.
     */
    method TransactWithRetry(opcode: OpCode, payload: seq<u8>, exchanges: seq<Exchange>, jitters: seq<nat>)
      returns (r: Result<GenCpAck, GigeError>, sent: seq<GenCpCmd>, delays: seq<nat>)
      requires |exchanges| >= MAX_RETRIES && |jitters| >= MAX_RETRIES
      requires forall k :: 0 <= k < |jitters| ==> jitters[k] <= RETRY_JITTER_MS
      modifies this
      ensures (r, |sent|) == Transact(opcode, old(requestId), exchanges)
      ensures sent == Commands(opcode, payload, old(requestId), |sent|)
      ensures |delays| == |sent| - 1 && delays == Delays(jitters, |delays|)
      ensures requestId == IdAfter(old(requestId), |sent|)
    {
      var start := requestId;
      var attempt: nat := 0;
      sent := [];
      delays := [];
      while true
        invariant 0 <= attempt < MAX_RETRIES
        invariant requestId == IdAfter(start, attempt)
        invariant sent == Commands(opcode, payload, start, attempt)
        invariant delays == Delays(jitters, attempt)
        invariant Transact(opcode, start, exchanges) == TransactFrom(opcode, IdAfter(start, attempt), exchanges, attempt + 1)
        decreases MAX_RETRIES - attempt
      {
        attempt := attempt + 1;
        var id := NextRequestId();
        sent := sent + [AttemptCommand(opcode, payload, id)];
        var step := AttemptOutcome(opcode, id, exchanges[attempt - 1], attempt);
        TransactFromStep(opcode, id, exchanges, attempt, step);
        if step.Done? {
          r := step.result;
          return;
        }
        delays := delays + [BackoffDelay(attempt, jitters[attempt - 1])];
      }
    }

    /**
     * `request_resend`: one PACKETRESEND_CMD with a fresh request id and
     * no retry; `e` is what the transport does with it.
     */
    method RequestResend(blockId: u16, first: u16, last: u16, e: Exchange) returns (r: Result<(), GigeError>, packet: seq<u8>)
      modifies this
      ensures packet == ResendRequest(blockId, first, last, old(requestId))
      ensures r == ResendAckCheck(old(requestId), e)
      ensures requestId == NextId(old(requestId))
    {
      var payload := ResendPayload(blockId, first, last);
      var id := NextRequestId();
      var header := GvcpRequestHeader(CommandFlags(true, false), PACKET_RESEND_COMMAND, |payload| as u16, id);
      packet := header.Encode(payload);
      r := ResendAckCheck(id, e);
    }
  }

  /** The commands of the first n attempts: attempt k + 1 carries the k-th request id after `start`. */
  function Commands(opcode: OpCode, payload: seq<u8>, start: u16, n: nat): (r: seq<GenCpCmd>)
    ensures |r| == n
    ensures forall k :: 0 <= k < n ==> r[k] == AttemptCommand(opcode, payload, IdAfter(start, k))
  {
    if n == 0 then [] else Commands(opcode, payload, start, n - 1) + [AttemptCommand(opcode, payload, IdAfter(start, n - 1))]
  }

  /** The backoffs after the first n attempts: the one after attempt k + 1 uses jitter k. */
  function Delays(jitters: seq<nat>, n: nat): (r: seq<nat>)
    requires n <= |jitters| && forall k :: 0 <= k < |jitters| ==> jitters[k] <= RETRY_JITTER_MS
    ensures |r| == n
    ensures forall k :: 0 <= k < n ==> r[k] == BackoffDelay(k + 1, jitters[k])
  {
    if n == 0 then [] else Delays(jitters, n - 1) + [BackoffDelay(n, jitters[n - 1])]
  }

  // -------------------------------------------------------------------
  // Chunked memory access

  /** How many requests a transfer of `len` bytes takes in blocks of `block`. */
  function ChunkCount(len: nat, block: nat): (n: nat)
    requires block > 0
    ensures n * block >= len && (n == 0 || (n - 1) * block < len)
  {
    var n := (len + block - 1) / block;
    DivModUnique(len + block - 1, block, n, (len + block - 1) % block);
    n
  }

  /** The size of request i: a full block, except for the last one. */
  function ChunkSize(len: nat, block: nat, i: nat): (n: nat)
    requires block > 0
    ensures n <= block
    ensures i * block < len ==> n > 0 && i * block + n <= len
  {
    if len <= i * block then 0 else MinNat(block, len - i * block)
  }

  /** The ReadMem request payload: address, then byte count. */
  function ReadRequest(address: u64, count: u32): (r: seq<u8>)
    ensures |r| == 12
  {
    U64Be(address) + U32Be(count)
  }

  /** The device reads the address and the count back from a ReadMem request. */
  lemma ReadRequestFields(address: u64, count: u32)
    ensures ReadU64(ReadRequest(address, count), 0) == address
    ensures ReadU32(ReadRequest(address, count), 8) == count
  {
    ReadWriteU64([], address, U32Be(count));
    ReadWriteU32(U64Be(address), count, []);
    assert U64Be(address) + U32Be(count) + [] == U64Be(address) + U32Be(count);
  }

  /** A ReadMem acknowledgement is accepted when it carries exactly the requested bytes. */
  predicate ReadAccepted(ack: Result<GenCpAck, GigeError>, size: nat)
  {
    ack.Ok? && |ack.value.payload| == size
  }

  /** Chunk i of a transfer in blocks of `block` exists exactly when it starts before the end. */
  lemma ChunkIndexBound(len: nat, block: nat, i: nat)
    requires block > 0
    ensures i * block < len <==> i < ChunkCount(len, block)
  {
    var n := ChunkCount(len, block);
    if i < n {
      MulLe(i, n - 1, block);
    } else {
      MulLe(n, i, block);
    }
  }

  /**
   * Every chunk's start address `addr + offset` fits a u64: the last chunk
   * starts at most at U64_MAX. (Past that the Rust addition overflows.)
   */
  predicate ChunkStartsFit(addr: u64, len: nat, block: nat)
    requires block > 0
  {
    len == 0 || addr + (ChunkCount(len, block) - 1) * block <= U64_MAX
  }

  lemma ChunkStartFits(addr: u64, len: nat, block: nat, i: nat)
    requires block > 0 && ChunkStartsFit(addr, len, block) && i * block < len
    ensures addr + i * block <= U64_MAX
  {
    ChunkIndexBound(len, block, i);
    MulLe(i, ChunkCount(len, block) - 1, block);
  }

  /** The address chunk i of a transfer at `addr` goes to. */
  function ChunkAddress(addr: u64, len: nat, block: nat, i: nat): (a: u64)
    requires block > 0 && ChunkStartsFit(addr, len, block) && i * block < len
    ensures a == addr + i * block
  {
    ChunkStartFits(addr, len, block, i);
    addr + i * block
  }

  /** `format!("expected {chunk} bytes but device returned {n}")`. */
  function ShortReadMessage(chunk: nat, n: nat): string
  {
    "expected " + NatToDecimal(chunk) + " bytes but device returned " + NatToDecimal(n)
  }

  /** Put the data of earlier chunks in front of a successful outcome; a failure is kept as it is. */
  function Prepend(data: seq<u8>, res: (Result<seq<u8>, GigeError>, nat)): (Result<seq<u8>, GigeError>, nat)
  {
    (if res.0.Ok? then Ok(data + res.0.value) else res.0, res.1)
  }

  /**
   * The outcome of a read from chunk i on, given the acknowledgement of
   * every request: the data the remaining chunks bring, or the first
   * refusal, with the number of requests sent by then.
   */
  function ReadFrom(len: nat, acks: seq<Result<GenCpAck, GigeError>>, i: nat): (r: (Result<seq<u8>, GigeError>, nat))
    requires |acks| >= ChunkCount(len, GENCP_MAX_BLOCK)
    ensures i <= r.1 && (r.0.Err? ==> i < r.1)
    ensures r.0.Ok? && i * GENCP_MAX_BLOCK <= len ==> |r.0.value| == len - i * GENCP_MAX_BLOCK
    decreases len - i * GENCP_MAX_BLOCK
  {
    if len <= i * GENCP_MAX_BLOCK then (Ok([]), i)
    else
      ChunkIndexBound(len, GENCP_MAX_BLOCK, i);
      var ack := acks[i];
      if ack.Err? then (Err(ack.error), i + 1)
      else if |ack.value.payload| != ChunkSize(len, GENCP_MAX_BLOCK, i) then
        (Err(Protocol(ShortReadMessage(ChunkSize(len, GENCP_MAX_BLOCK, i), |ack.value.payload|))), i + 1)
      else Prepend(ack.value.payload, ReadFrom(len, acks, i + 1))
  }

  /** Request i of a read of `len` bytes at `addr`: at block i, of the chunk's size. */
  ghost predicate ReadRequestsMatch(addr: u64, len: nat, requests: seq<seq<u8>>)
    requires ChunkStartsFit(addr, len, GENCP_MAX_BLOCK)
  {
    forall i :: 0 <= i < |requests| ==>
      && i * GENCP_MAX_BLOCK < len
      && requests[i] == ReadRequest(ChunkAddress(addr, len, GENCP_MAX_BLOCK, i), ChunkSize(len, GENCP_MAX_BLOCK, i))
  }

  lemma ReadRequestsSnoc(addr: u64, len: nat, requests: seq<seq<u8>>, next: seq<u8>)
    requires ChunkStartsFit(addr, len, GENCP_MAX_BLOCK)
    requires ReadRequestsMatch(addr, len, requests)
    requires |requests| * GENCP_MAX_BLOCK < len
    requires next == ReadRequest(ChunkAddress(addr, len, GENCP_MAX_BLOCK, |requests|), ChunkSize(len, GENCP_MAX_BLOCK, |requests|))
    ensures ReadRequestsMatch(addr, len, requests + [next])
  {
    var t := requests + [next];
    assert forall i :: 0 <= i < |requests| ==> t[i] == requests[i];
  }

  /**
   * `read_mem` over an abstract transaction: `acks[i]` is what
   * `transact_with_retry` returns for request i. Requests go out at
   * consecutive addresses in blocks of at most 512 bytes, and the outcome
   * is `ReadFrom(len, acks, 0)`; the lemmas below say what that means.
   */
  method ReadMemory(addr: u64, len: nat, acks: seq<Result<GenCpAck, GigeError>>)
    returns (r: Result<seq<u8>, GigeError>, requests: seq<seq<u8>>)
    requires ChunkStartsFit(addr, len, GENCP_MAX_BLOCK)
    requires |acks| >= ChunkCount(len, GENCP_MAX_BLOCK)
    ensures ReadRequestsMatch(addr, len, requests)
    ensures (r, |requests|) == ReadFrom(len, acks, 0)
  {
    var remaining := len;
    var offset := 0;
    var data: seq<u8> := [];
    requests := [];
    assert Prepend([], ReadFrom(len, acks, 0)) == ReadFrom(len, acks, 0) by {
      if ReadFrom(len, acks, 0).0.Ok? {
        assert [] + ReadFrom(len, acks, 0).0.value == ReadFrom(len, acks, 0).0.value;
      }
    }
    while remaining > 0
      invariant offset + remaining == len && |data| == offset
      invariant remaining > 0 ==> offset == |requests| * GENCP_MAX_BLOCK
      invariant remaining == 0 ==> |requests| * GENCP_MAX_BLOCK >= len
      invariant ReadRequestsMatch(addr, len, requests)
      invariant ReadFrom(len, acks, 0) == Prepend(data, ReadFrom(len, acks, |requests|))
    {
      var i := |requests|;
      var chunk := MinNat(remaining, GENCP_MAX_BLOCK);
      assert chunk == ChunkSize(len, GENCP_MAX_BLOCK, i);
      var start := ChunkAddress(addr, len, GENCP_MAX_BLOCK, i);
      assert start == addr + offset;
      ReadRequestsSnoc(addr, len, requests, ReadRequest(start, chunk));
      ChunkIndexBound(len, GENCP_MAX_BLOCK, i);
      requests := requests + [ReadRequest(start, chunk)];
      var ack := acks[i];
      if ack.Err? {
        r := Err(ack.error);
        return;
      }
      if |ack.value.payload| != chunk {
        r := Err(Protocol(ShortReadMessage(chunk, |ack.value.payload|)));
        return;
      }
      ReadFromStep(len, acks, i, data);
      data := data + ack.value.payload;
      remaining := remaining - chunk;
      offset := offset + chunk;
    }
    assert data + [] == data;
    r := Ok(data);
  }

  /** An accepted chunk moves from the outcome of the rest of the read to the data in front of it. */
  lemma ReadFromStep(len: nat, acks: seq<Result<GenCpAck, GigeError>>, i: nat, data: seq<u8>)
    requires |acks| >= ChunkCount(len, GENCP_MAX_BLOCK) && i * GENCP_MAX_BLOCK < len && i < |acks|
    requires ReadAccepted(acks[i], ChunkSize(len, GENCP_MAX_BLOCK, i))
    ensures Prepend(data, ReadFrom(len, acks, i)) == Prepend(data + acks[i].value.payload, ReadFrom(len, acks, i + 1))
  {
    var rest := ReadFrom(len, acks, i + 1);
    if rest.0.Ok? {
      assert data + (acks[i].value.payload + rest.0.value) == data + acks[i].value.payload + rest.0.value;
    }
  }

  /** A read succeeds exactly when every remaining request is acknowledged with its whole chunk. */
  lemma {:induction false} ReadFromAccepted(len: nat, acks: seq<Result<GenCpAck, GigeError>>, i: nat)
    requires |acks| >= ChunkCount(len, GENCP_MAX_BLOCK)
    ensures ReadFrom(len, acks, i).0.Ok? <==>
      forall j :: i <= j < ChunkCount(len, GENCP_MAX_BLOCK) ==> ReadAccepted(acks[j], ChunkSize(len, GENCP_MAX_BLOCK, j))
    decreases len - i * GENCP_MAX_BLOCK
  {
    ChunkIndexBound(len, GENCP_MAX_BLOCK, i);
    if i * GENCP_MAX_BLOCK < len {
      ReadFromAccepted(len, acks, i + 1);
    }
  }

  /** The number of requests sent: at most one per chunk, and one per chunk when the read succeeds. */
  lemma {:induction false} ReadFromCount(len: nat, acks: seq<Result<GenCpAck, GigeError>>, i: nat)
    requires |acks| >= ChunkCount(len, GENCP_MAX_BLOCK) && i <= ChunkCount(len, GENCP_MAX_BLOCK)
    ensures i <= ReadFrom(len, acks, i).1 <= ChunkCount(len, GENCP_MAX_BLOCK)
    ensures ReadFrom(len, acks, i).0.Ok? ==> ReadFrom(len, acks, i).1 == ChunkCount(len, GENCP_MAX_BLOCK)
    ensures ReadFrom(len, acks, i).0.Err? ==> i < ReadFrom(len, acks, i).1
    decreases len - i * GENCP_MAX_BLOCK
  {
    ChunkIndexBound(len, GENCP_MAX_BLOCK, i);
    if i * GENCP_MAX_BLOCK < len {
      ReadFromCount(len, acks, i + 1);
    }
  }

  /** A failed read ends at the first refused request: the one before it were all accepted. */
  lemma {:induction false} ReadFromError(len: nat, acks: seq<Result<GenCpAck, GigeError>>, i: nat)
    requires |acks| >= ChunkCount(len, GENCP_MAX_BLOCK) && i <= ChunkCount(len, GENCP_MAX_BLOCK)
    requires ReadFrom(len, acks, i).0.Err?
    ensures var last := ReadFrom(len, acks, i).1 - 1;
      && i <= last < ChunkCount(len, GENCP_MAX_BLOCK)
      && (forall j :: i <= j < last ==> ReadAccepted(acks[j], ChunkSize(len, GENCP_MAX_BLOCK, j)))
      && !ReadAccepted(acks[last], ChunkSize(len, GENCP_MAX_BLOCK, last))
      && ReadFrom(len, acks, i).0.error ==
           if acks[last].Err? then acks[last].error
           else Protocol(ShortReadMessage(ChunkSize(len, GENCP_MAX_BLOCK, last), |acks[last].value.payload|))
    decreases len - i * GENCP_MAX_BLOCK
  {
    ChunkIndexBound(len, GENCP_MAX_BLOCK, i);
    ReadFromCount(len, acks, i);
    var ack := acks[i];
    if ack.Ok? && |ack.value.payload| == ChunkSize(len, GENCP_MAX_BLOCK, i) {
      ReadFromError(len, acks, i + 1);
    }
  }

  /** A successful read returns the chunks' payloads in order, each at its block's offset. */
  lemma {:induction false} ReadFromData(len: nat, acks: seq<Result<GenCpAck, GigeError>>, i: nat)
    requires |acks| >= ChunkCount(len, GENCP_MAX_BLOCK) && i * GENCP_MAX_BLOCK <= len
    requires ReadFrom(len, acks, i).0.Ok?
    ensures var data := ReadFrom(len, acks, i).0.value;
      && |data| == len - i * GENCP_MAX_BLOCK
      && forall j :: i <= j < ChunkCount(len, GENCP_MAX_BLOCK) ==>
           ReadAccepted(acks[j], ChunkSize(len, GENCP_MAX_BLOCK, j)) &&
           data[(j - i) * GENCP_MAX_BLOCK..(j - i) * GENCP_MAX_BLOCK + ChunkSize(len, GENCP_MAX_BLOCK, j)] == acks[j].value.payload
    decreases len - i * GENCP_MAX_BLOCK
  {
    ChunkIndexBound(len, GENCP_MAX_BLOCK, i);
    if i * GENCP_MAX_BLOCK < len {
      var n := ChunkSize(len, GENCP_MAX_BLOCK, i);
      var p := acks[i].value.payload;
      var data := ReadFrom(len, acks, i).0.value;
      if n == GENCP_MAX_BLOCK {
        ReadFromData(len, acks, i + 1);
        var rest := ReadFrom(len, acks, i + 1).0.value;
        assert data == p + rest;
        forall j | i < j < ChunkCount(len, GENCP_MAX_BLOCK)
          ensures ReadAccepted(acks[j], ChunkSize(len, GENCP_MAX_BLOCK, j))
          ensures data[(j - i) * GENCP_MAX_BLOCK..(j - i) * GENCP_MAX_BLOCK + ChunkSize(len, GENCP_MAX_BLOCK, j)] == acks[j].value.payload
        {
          assert (j - i) * GENCP_MAX_BLOCK == GENCP_MAX_BLOCK + (j - (i + 1)) * GENCP_MAX_BLOCK;
        }
      } else {
        ChunkIndexBound(len, GENCP_MAX_BLOCK, i + 1);
        assert ReadFrom(len, acks, i + 1) == (Ok([]), i + 1);
        assert data == p + [];
      }
    }
  }

  /** The WriteMem request payload: address, then the data. */
  function WriteRequest(address: u64, data: seq<u8>): (r: seq<u8>)
    ensures |r| == 8 + |data|
  {
    U64Be(address) + data
  }

  /** The device reads the address and the data back from a WriteMem request. */
  lemma WriteRequestFields(address: u64, data: seq<u8>)
    ensures ReadU64(WriteRequest(address, data), 0) == address
    ensures WriteRequest(address, data)[8..] == data
  {
    ReadWriteU64([], address, data);
  }

  /** The bytes request i of a write carries. */
  function WriteChunk(data: seq<u8>, i: nat): (chunk: seq<u8>)
    requires i * WRITE_BLOCK < |data|
    ensures 0 < |chunk| <= WRITE_BLOCK
  {
    data[i * WRITE_BLOCK..i * WRITE_BLOCK + ChunkSize(|data|, WRITE_BLOCK, i)]
  }

  /** A WriteMem acknowledgement is accepted when it carries no payload. */
  predicate WriteAccepted(ack: Result<GenCpAck, GigeError>)
  {
    ack.Ok? && ack.value.payload == []
  }

  /**
   * The outcome of a write from chunk i on, given the acknowledgement of
   * every request, with the number of requests sent by then.
   */
  function WriteFrom(size: nat, acks: seq<Result<GenCpAck, GigeError>>, i: nat): (r: (Result<(), GigeError>, nat))
    requires |acks| >= ChunkCount(size, WRITE_BLOCK)
    ensures i <= r.1 && (r.0.Err? ==> i < r.1)
    decreases size - i * WRITE_BLOCK
  {
    if size <= i * WRITE_BLOCK then (Ok(()), i)
    else
      ChunkIndexBound(size, WRITE_BLOCK, i);
      var ack := acks[i];
      if ack.Err? then (Err(ack.error), i + 1)
      else if ack.value.payload != [] then
        var refused: Result<(), GigeError> := Err(Protocol("write acknowledgement carried unexpected payload"));
        (refused, i + 1)
      else WriteFrom(size, acks, i + 1)
  }

  /** Request i of a write of `data` at `addr`: chunk i at its own address. */
  ghost predicate WriteRequestsMatch(addr: u64, data: seq<u8>, requests: seq<seq<u8>>)
    requires ChunkStartsFit(addr, |data|, WRITE_BLOCK)
  {
    forall i :: 0 <= i < |requests| ==>
      && i * WRITE_BLOCK < |data|
      && requests[i] == WriteRequest(ChunkAddress(addr, |data|, WRITE_BLOCK, i), WriteChunk(data, i))
  }

  lemma WriteRequestsSnoc(addr: u64, data: seq<u8>, requests: seq<seq<u8>>, offset: nat, chunk: nat)
    requires ChunkStartsFit(addr, |data|, WRITE_BLOCK)
    requires WriteRequestsMatch(addr, data, requests)
    requires offset == |requests| * WRITE_BLOCK < |data| && chunk == MinNat(|data| - offset, WRITE_BLOCK)
    ensures WriteRequestsMatch(addr, data, requests + [WriteRequest(ChunkAddress(addr, |data|, WRITE_BLOCK, |requests|), data[offset..offset + chunk])])
  {
    var start := ChunkAddress(addr, |data|, WRITE_BLOCK, |requests|);
    var next := WriteRequest(start, data[offset..offset + chunk]);
    assert next == WriteRequest(start, WriteChunk(data, |requests|));
    var t := requests + [next];
    assert forall k :: 0 <= k < |requests| ==> t[k] == requests[k];
  }

  /**
   * `write_mem` over an abstract transaction: the data goes out in
   * consecutive blocks of at most 504 bytes (512 less the 8-byte address),
   * each at its own address, and the outcome is `WriteFrom(|data|, acks, 0)`.
   */
  method WriteMemory(addr: u64, data: seq<u8>, acks: seq<Result<GenCpAck, GigeError>>)
    returns (r: Result<(), GigeError>, requests: seq<seq<u8>>)
    requires ChunkStartsFit(addr, |data|, WRITE_BLOCK)
    requires |acks| >= ChunkCount(|data|, WRITE_BLOCK)
    ensures WriteRequestsMatch(addr, data, requests)
    ensures (r, |requests|) == WriteFrom(|data|, acks, 0)
  {
    var offset := 0;
    requests := [];
    while offset < |data|
      invariant offset <= |data|
      invariant offset < |data| ==> offset == |requests| * WRITE_BLOCK
      invariant offset == |data| ==> |requests| * WRITE_BLOCK >= |data|
      invariant WriteRequestsMatch(addr, data, requests)
      invariant WriteFrom(|data|, acks, 0) == WriteFrom(|data|, acks, |requests|)
    {
      var i := |requests|;
      var chunk := MinNat(|data| - offset, WRITE_BLOCK);
      // The source also refuses a zero-sized chunk; inside this loop there is none.
      assert chunk > 0;
      ChunkIndexBound(|data|, WRITE_BLOCK, i);
      WriteRequestsSnoc(addr, data, requests, offset, chunk);
      WriteFromStep(|data|, acks, i);
      var start := ChunkAddress(addr, |data|, WRITE_BLOCK, i);
      requests := requests + [WriteRequest(start, data[offset..offset + chunk])];
      var ack := acks[i];
      if ack.Err? {
        r := Err(ack.error);
        return;
      }
      if ack.value.payload != [] {
        r := Err(Protocol("write acknowledgement carried unexpected payload"));
        return;
      }
      offset := offset + chunk;
    }
    r := Ok(());
  }

  /** One request of the write: a refused acknowledgement ends it, an accepted one goes on to the next chunk. */
  lemma WriteFromStep(size: nat, acks: seq<Result<GenCpAck, GigeError>>, i: nat)
    requires |acks| >= ChunkCount(size, WRITE_BLOCK) && i * WRITE_BLOCK < size
    ensures i < |acks|
    ensures WriteFrom(size, acks, i) ==
      if acks[i].Err? then (Err(acks[i].error), i + 1)
      else if acks[i].value.payload != [] then (Err(Protocol("write acknowledgement carried unexpected payload")), i + 1)
      else WriteFrom(size, acks, i + 1)
  {
    ChunkIndexBound(size, WRITE_BLOCK, i);
  }

  /** A write succeeds exactly when every request is acknowledged with an empty payload. */
  lemma {:induction false} WriteFromAccepted(size: nat, acks: seq<Result<GenCpAck, GigeError>>, i: nat)
    requires |acks| >= ChunkCount(size, WRITE_BLOCK)
    ensures WriteFrom(size, acks, i).0.Ok? <==>
      forall j :: i <= j < ChunkCount(size, WRITE_BLOCK) ==> WriteAccepted(acks[j])
    decreases size - i * WRITE_BLOCK
  {
    ChunkIndexBound(size, WRITE_BLOCK, i);
    if i * WRITE_BLOCK < size {
      WriteFromAccepted(size, acks, i + 1);
    }
  }

  /** A failed write ends at the first refused request, and every earlier one was accepted; a successful one sends every chunk. */
  lemma {:induction false} WriteFromOutcome(size: nat, acks: seq<Result<GenCpAck, GigeError>>, i: nat)
    requires |acks| >= ChunkCount(size, WRITE_BLOCK) && i <= ChunkCount(size, WRITE_BLOCK)
    ensures var out := WriteFrom(size, acks, i);
      var res, sent := out.0, out.1;
      && i <= sent <= ChunkCount(size, WRITE_BLOCK)
      && (res.Ok? ==> sent == ChunkCount(size, WRITE_BLOCK))
      && (forall j :: i <= j < sent - 1 ==> WriteAccepted(acks[j]))
      && (res.Err? ==>
            && i < sent
            && !WriteAccepted(acks[sent - 1])
            && res.error == (if acks[sent - 1].Err? then acks[sent - 1].error
                             else Protocol("write acknowledgement carried unexpected payload")))
    decreases size - i * WRITE_BLOCK
  {
    ChunkIndexBound(size, WRITE_BLOCK, i);
    if i * WRITE_BLOCK < size && WriteAccepted(acks[i]) {
      WriteFromOutcome(size, acks, i + 1);
    }
  }

  /** The write chunks partition the data: concatenated in order they give it back. */
  lemma {:induction false} WriteChunksCover(data: seq<u8>, i: nat)
    requires i * WRITE_BLOCK <= |data|
    ensures data[i * WRITE_BLOCK..] == WriteChunksFrom(data, i)
    decreases |data| - i * WRITE_BLOCK
  {
    if i * WRITE_BLOCK < |data| {
      var n := ChunkSize(|data|, WRITE_BLOCK, i);
      if n == WRITE_BLOCK {
        WriteChunksCover(data, i + 1);
        assert data[i * WRITE_BLOCK..] == data[i * WRITE_BLOCK..i * WRITE_BLOCK + n] + data[(i + 1) * WRITE_BLOCK..];
      } else {
        assert i * WRITE_BLOCK + n == |data|;
      }
    }
  }

  /** The concatenation of the data chunks from request i on. */
  function WriteChunksFrom(data: seq<u8>, i: nat): seq<u8>
    requires i * WRITE_BLOCK <= |data|
    decreases |data| - i * WRITE_BLOCK
  {
    if i * WRITE_BLOCK == |data| then []
    else
      var chunk := WriteChunk(data, i);
      if i * WRITE_BLOCK + |chunk| == |data| then chunk else chunk + WriteChunksFrom(data, i + 1)
  }

  // -------------------------------------------------------------------
  // Register writes

  datatype RegisterWrite = RegisterWrite(address: u64, bytes: seq<u8>)

  /** `set_message_destination`: the IPv4 octets, then the big-endian port. */
  function MessageDestinationWrites(ip: Ipv4, port: u16): (w: seq<RegisterWrite>)
    ensures |w| == 2 && w[0].address == MESSAGE_DESTINATION_ADDRESS && w[1].address == MESSAGE_DESTINATION_PORT
    ensures |w[0].bytes| == 4 && |w[1].bytes| == 2
    ensures ReadU32(w[0].bytes, 0) == ip && ReadU16(w[1].bytes, 0) == port
  {
    ReadU32Of(U32Be(ip), 0, ip);
    ReadU16Of(U16Be(port), 0, port);
    [RegisterWrite(MESSAGE_DESTINATION_ADDRESS, U32Be(ip)), RegisterWrite(MESSAGE_DESTINATION_PORT, U16Be(port))]
  }

  /** `stream_reg`: the register at `offset` in the block of stream channel `channel`. */
  function StreamReg(channel: u32, offset: u64): (r: u64)
    requires offset < STREAM_CHANNEL_STRIDE
    ensures r >= STREAM_CHANNEL_BASE
    ensures (r - STREAM_CHANNEL_BASE) / STREAM_CHANNEL_STRIDE == channel
    ensures (r - STREAM_CHANNEL_BASE) % STREAM_CHANNEL_STRIDE == offset
  {
    DivModUnique(channel * STREAM_CHANNEL_STRIDE + offset, STREAM_CHANNEL_STRIDE, channel, offset);
    STREAM_CHANNEL_BASE + channel * STREAM_CHANNEL_STRIDE + offset
  }

  /** Registers of different channels or offsets never collide. */
  lemma StreamRegInjective(c1: u32, o1: u64, c2: u32, o2: u64)
    requires o1 < STREAM_CHANNEL_STRIDE && o2 < STREAM_CHANNEL_STRIDE
    ensures StreamReg(c1, o1) == StreamReg(c2, o2) <==> c1 == c2 && o1 == o2
  {
  }

  /** `set_stream_destination`: host address, then host port, in the channel's block. */
  function StreamDestinationWrites(channel: u32, ip: Ipv4, port: u16): (w: seq<RegisterWrite>)
    ensures |w| == 2 && |w[0].bytes| == 4 && |w[1].bytes| == 2
    ensures w[0].address == StreamReg(channel, STREAM_DESTINATION_ADDRESS) && ReadU32(w[0].bytes, 0) == ip
    ensures w[1].address == StreamReg(channel, STREAM_DESTINATION_PORT) && ReadU16(w[1].bytes, 0) == port
  {
    ReadU32Of(U32Be(ip), 0, ip);
    ReadU16Of(U16Be(port), 0, port);
    [RegisterWrite(StreamReg(channel, STREAM_DESTINATION_ADDRESS), U32Be(ip)),
     RegisterWrite(StreamReg(channel, STREAM_DESTINATION_PORT), U16Be(port))]
  }

  /** `min` of the target MTU, when one is set, and the interface MTU. */
  function EffectiveMtu(target: Option<u32>, ifaceMtu: u32): (m: u32)
    ensures m <= ifaceMtu && (target.Some? ==> m <= target.value)
    ensures m == ifaceMtu || (target.Some? && m == target.value)
  {
    match target
    case None => ifaceMtu
    case Some(limit) => if limit < ifaceMtu then limit else ifaceMtu
  }

  /** Without jumbo frames packets are spaced 2 us apart, in 80 ns ticks; with them, not at all. */
  function PacketDelayFor(mtu: u32): (ticks: u32)
    ensures mtu <= 1500 ==> ticks * 80 == 2000
    ensures mtu > 1500 ==> ticks == 0
  {
    if mtu <= 1500 then 2000 / 80 else 0
  }

  datatype StreamParams = StreamParams(packetSize: u32, packetDelay: u32, mtu: u32, host: Ipv4, port: u16)

  /**
   * `negotiate_stream`: the interface must have an IPv4 address and a
   * readable MTU; `bestPacketSize` is the packet-size rule of the NIC
   * helper, which is not part of this model. Returns the parameters and
   * the register writes, destination first, then packet size, then delay.
   */
  function NegotiateStream(channel: u32, hostIp: Option<Ipv4>, ifaceMtu: Result<u32, GigeError>, port: u16,
                           target: Option<u32>, bestPacketSize: u32 -> u32): (r: Result<(StreamParams, seq<RegisterWrite>), GigeError>)
    ensures hostIp.None? ==> r == Err(Protocol("interface lacks IPv4 address"))
    ensures hostIp.Some? && ifaceMtu.Err? ==> r == Err(ifaceMtu.error)
    ensures r.Ok? <==> hostIp.Some? && ifaceMtu.Ok?
    ensures r.Ok? ==>
      var (params, writes) := r.value;
      && params.mtu == EffectiveMtu(target, ifaceMtu.value)
      && params.packetSize == bestPacketSize(params.mtu)
      && params.packetDelay == PacketDelayFor(params.mtu)
      && params.host == hostIp.value && params.port == port
      && writes == StreamDestinationWrites(channel, params.host, port)
         + [RegisterWrite(StreamReg(channel, STREAM_PACKET_SIZE), U32Be(params.packetSize)),
            RegisterWrite(StreamReg(channel, STREAM_PACKET_DELAY), U32Be(params.packetDelay))]
  {
    match hostIp
    case None => Err(Protocol("interface lacks IPv4 address"))
    case Some(host) =>
      match ifaceMtu
      case Err(e) => Err(e)
      case Ok(m) =>
        var mtu := EffectiveMtu(target, m);
        var packetSize := bestPacketSize(mtu);
        var packetDelay := PacketDelayFor(mtu);
        Ok((StreamParams(packetSize, packetDelay, mtu, host, port),
            StreamDestinationWrites(channel, host, port)
            + [RegisterWrite(StreamReg(channel, STREAM_PACKET_SIZE), U32Be(packetSize)),
               RegisterWrite(StreamReg(channel, STREAM_PACKET_DELAY), U32Be(packetDelay))]))
  }

  // -------------------------------------------------------------------
  // Event notification mask

  /** The mask register holding event `id`: one 32-bit register per 32 events. */
  function EventRegister(id: u16): (a: u64)
    ensures EVENT_NOTIFICATION_BASE <= a < EVENT_NOTIFICATION_BASE + 2048 * EVENT_NOTIFICATION_STRIDE
  {
    EVENT_NOTIFICATION_BASE + (id / 32) * EVENT_NOTIFICATION_STRIDE
  }

  /** Two events share a register exactly when they are in the same group of 32. */
  lemma EventRegisterShared(a: u16, b: u16)
    ensures EventRegister(a) == EventRegister(b) <==> a / 32 == b / 32
  {
  }

  /** The bit position of event `id` in its register. */
  function EventShift(id: u16): (k: bv5)
    ensures k as int == id % 32
  {
    (id % 32) as bv5
  }

  predicate BitOf(v: bv32, j: bv5)
  {
    (v >> j) & 1 == 1
  }

  /** `value |= bit` to enable, `value &= !bit` to disable. */
  function UpdateMask(value: bv32, id: u16, on: bool): (r: bv32)
    ensures BitOf(r, EventShift(id)) == on
  {
    var k := EventShift(id);
    OwnBit(value, k);
    if on then value | (1 << k) else value & !(1 << k)
  }

  /** Setting bit k turns it on, clearing it turns it off. */
  lemma OwnBit(value: bv32, k: bv5)
    ensures BitOf(value | (1 << k), k) && !BitOf(value & !(1 << k), k)
  {
  }

  /** Only the event's own bit changes, and it becomes `on`. */
  lemma UpdateMaskBits(value: bv32, id: u16, on: bool, j: bv5)
    ensures BitOf(UpdateMask(value, id, on), j) == if j == EventShift(id) then on else BitOf(value, j)
  {
  }

  /**
   * `enable_event` given what reading the mask register returned: the
   * rewritten register, or the read error, or an error for a read of the
   * wrong size.
   */
  function EnableEvent(id: u16, on: bool, current: Result<seq<u8>, GigeError>): (r: Result<RegisterWrite, GigeError>)
    ensures r.Ok? <==> current.Ok? && |current.value| == 4
    ensures current.Err? ==> r == Err(current.error)
    ensures r.Ok? ==>
      && r.value.address == EventRegister(id)
      && |r.value.bytes| == 4
      && ReadU32(r.value.bytes, 0) as bv32 == UpdateMask(ReadU32(current.value, 0) as bv32, id, on)
  {
    match current
    case Err(e) => Err(e)
    case Ok(bytes) =>
      if |bytes| != 4 then Err(Protocol("event notification register length mismatch"))
      else
        var value := UpdateMask(ReadU32(bytes, 0) as bv32, id, on);
        ReadU32Of(U32Be(value as int), 0, value as int);
        Ok(RegisterWrite(EventRegister(id), U32Be(value as int)))
  }

  // -------------------------------------------------------------------
  // Packet resend

  /** The resend payload: block id, a reserved zero, first and last packet id. */
  function ResendPayload(blockId: u16, first: u16, last: u16): (r: seq<u8>)
    ensures |r| == 8
    ensures ReadU16(r, 0) == blockId && ReadU16(r, 2) == 0 && ReadU16(r, 4) == first && ReadU16(r, 6) == last
  {
    var r := U16Be(blockId) + U16Be(0) + U16Be(first) + U16Be(last);
    ReadU16Of(r, 0, blockId);
    ReadU16Of(r, 2, 0);
    ReadU16Of(r, 4, first);
    ReadU16Of(r, 6, last);
    r
  }

  /** The resend request: ack required, PACKETRESEND_CMD, length 8, then the payload. */
  function ResendRequest(blockId: u16, first: u16, last: u16, requestId: u16): (r: seq<u8>)
    ensures |r| == 16 && ReadU16(r, 0) == ACK_REQUIRED && ReadU16(r, 2) == PACKET_RESEND_COMMAND
    ensures ReadU16(r, 4) == 8 && ReadU16(r, 6) == requestId
    ensures ReadU16(r, 8) == blockId && ReadU16(r, 10) == 0 && ReadU16(r, 12) == first && ReadU16(r, 14) == last
  {
    var p := ResendPayload(blockId, first, last);
    var r := GvcpRequestHeader(CommandFlags(true, false), PACKET_RESEND_COMMAND, 8, requestId).Encode(p);
    assert r[HEADER_SIZE..] == p;
    ReadU16Shift(r, 8, 0);
    ReadU16Shift(r, 8, 2);
    ReadU16Shift(r, 8, 4);
    ReadU16Shift(r, 8, 6);
    r
  }

  /**
   * The acknowledgement check of `request_resend`: the 8-byte receive
   * buffer must fill, then the opcode, the empty length, the request id and
   * a Success status are checked in that order.
   */
  function ResendAckCheck(requestId: u16, e: Exchange): (r: Result<(), GigeError>)
    ensures r.Ok? <==>
      && e.Received? && |e.datagram| >= HEADER_SIZE
      && ReadU16(e.datagram, 2) == PACKET_RESEND_ACK && ReadU16(e.datagram, 4) == 0
      && ReadU16(e.datagram, 6) == requestId && ReadU16(e.datagram, 0) == 0
    ensures e.Received? && |e.datagram| < HEADER_SIZE ==> r == Err(Protocol("resend ack length mismatch"))
    ensures e.Received? && |e.datagram| >= HEADER_SIZE && ReadU16(e.datagram, 2) != PACKET_RESEND_ACK ==>
      r == Err(Protocol("unexpected resend ack opcode"))
    ensures
      && e.Received? && |e.datagram| >= HEADER_SIZE && ReadU16(e.datagram, 2) == PACKET_RESEND_ACK
      && ReadU16(e.datagram, 4) != 0
      ==> r == Err(Protocol("resend ack carried payload"))
    ensures
      && e.Received? && |e.datagram| >= HEADER_SIZE && ReadU16(e.datagram, 2) == PACKET_RESEND_ACK
      && ReadU16(e.datagram, 4) == 0 && ReadU16(e.datagram, 6) != requestId
      ==> r == Err(Protocol("resend ack request id mismatch"))
    ensures r.Err? && r.error.Status? ==>
      && e.Received? && |e.datagram| >= HEADER_SIZE
      && ReadU16(e.datagram, 2) == PACKET_RESEND_ACK && ReadU16(e.datagram, 4) == 0
      && ReadU16(e.datagram, 6) == requestId && r.error.status == FromRaw(ReadU16(e.datagram, 0))
    ensures e.TimedOut? ==> r == Err(Timeout)
    ensures e.SendFailed? || e.RecvFailed? ==> r == Err(GigeError.Io)
  {
    match e
    case SendFailed => Err(GigeError.Io)
    case RecvFailed => Err(GigeError.Io)
    case TimedOut => Err(Timeout)
    case Received(datagram) =>
      var buf := Truncate(datagram, HEADER_SIZE);
      if |buf| != HEADER_SIZE then Err(Protocol("resend ack length mismatch"))
      else
        assert buf == datagram[..HEADER_SIZE];
        assert buf[0..2] == datagram[0..2] && buf[2..4] == datagram[2..4];
        assert buf[4..6] == datagram[4..6] && buf[6..8] == datagram[6..8];
        var status := FromRaw(ReadU16(buf, 0));
        var command := ReadU16(buf, 2);
        var length := ReadU16(buf, 4);
        var ackId := ReadU16(buf, 6);
        if command != PACKET_RESEND_ACK then Err(Protocol("unexpected resend ack opcode"))
        else if length != 0 then Err(Protocol("resend ack carried payload"))
        else if ackId != requestId then Err(Protocol("resend ack request id mismatch"))
        else if status != Success then Err(Status(status))
        else Ok(())
  }

  // -------------------------------------------------------------------
  // Discovery

  /** A host interface as the interface enumeration reports it. */
  datatype Interface = Interface(name: string, ipv4: Option<Ipv4>, broadcast: Option<Ipv4>)

  predicate IsLoopback(ip: Ipv4)
  {
    ip / 0x100_0000 == 127
  }

  predicate Eligible(iface: Interface, filter: Option<string>)
  {
    iface.ipv4.Some? && !IsLoopback(iface.ipv4.value) && (filter.Some? ==> iface.name == filter.value)
  }

  /** The interfaces discovery broadcasts on: IPv4, not loopback, and of the requested name if any. */
  function DiscoveryInterfaces(ifaces: seq<Interface>, filter: Option<string>): (r: seq<Interface>)
    ensures forall x :: x in r <==> x in ifaces && Eligible(x, filter)
    ensures |r| <= |ifaces|
  {
    if |ifaces| == 0 then []
    else if Eligible(ifaces[0], filter) then [ifaces[0]] + DiscoveryInterfaces(ifaces[1..], filter)
    else DiscoveryInterfaces(ifaces[1..], filter)
  }

  /**
   * The eligible interfaces keep their input order: the selection of a
   * concatenation is the selections of its parts, one after the other, and
   * a single interface is kept exactly when it is eligible.
   */
  lemma {:induction false} DiscoveryInterfacesInOrder(a: seq<Interface>, b: seq<Interface>, filter: Option<string>)
    ensures DiscoveryInterfaces(a + b, filter) == DiscoveryInterfaces(a, filter) + DiscoveryInterfaces(b, filter)
    ensures |a| == 1 ==> DiscoveryInterfaces(a, filter) == if Eligible(a[0], filter) then a else []
  {
    if |a| > 0 {
      assert (a + b)[0] == a[0];
      assert (a + b)[1..] == a[1..] + b;
      DiscoveryInterfacesInOrder(a[1..], b, filter);
    } else {
      assert a + b == b;
    }
    if |a| == 1 {
      assert DiscoveryInterfaces(a[1..], filter) == [];
    }
  }

  /** The request id of the broadcast on interface number `idx`: 0x0100 plus the index, wrapping. */
  function DiscoveryRequestId(idx: nat): (r: u16)
    ensures idx < 0xFF00 ==> r == 0x0100 + idx
  {
    (0x0100 + idx % 0x1_0000) % 0x1_0000  // the index modulo 2^16, added to 0x0100 modulo 2^16
  }

  /** Where the broadcast goes: the interface's broadcast address, else 255.255.255.255. */
  function DiscoveryDestination(iface: Interface): (r: Ipv4)
    ensures iface.broadcast.Some? ==> r == iface.broadcast.value
    ensures iface.broadcast.None? ==> r == 0xFFFF_FFFF
  {
    iface.broadcast.UnwrapOr(0xFFFF_FFFF)
  }

  /** The discovery command: ack required and broadcast, opcode 2, no payload. */
  function DiscoveryRequest(requestId: u16): (r: seq<u8>)
    ensures |r| == HEADER_SIZE
  {
    GvcpRequestHeader(CommandFlags(true, true), DISCOVERY_COMMAND, 0, requestId).Encode([])
  }

  lemma DiscoveryRequestExample()
    ensures DiscoveryRequest(0x0100) == [0x80, 0x01, 0x00, 0x02, 0x00, 0x00, 0x01, 0x00]
  {
    U16BeBytes(0x8001);
    U16BeBytes(2);
    U16BeBytes(0);
    U16BeBytes(0x0100);
  }

  /** What each received datagram parses to: the buffer keeps at most 2048 bytes of it. */
  function ResponseOf(datagram: seq<u8>, requestId: u16): (r: Result<Option<DeviceInfo>, GigeError>)
    ensures |datagram| <= DISCOVERY_BUFFER ==> r == ParseDiscoveryAck(datagram, requestId)
    ensures |datagram| < HEADER_SIZE ==> r == Err(Protocol("GVCP ack too short"))
    ensures |datagram| >= HEADER_SIZE && ReadU16(datagram, 6) != requestId ==> r == Ok(None)
  {
    if |datagram| > DISCOVERY_BUFFER then
      var kept := datagram[..DISCOVERY_BUFFER];
      assert datagram == kept + datagram[DISCOVERY_BUFFER..];
      ReadU16Front(kept, datagram[DISCOVERY_BUFFER..], 6);
      ParseDiscoveryAck(kept, requestId)
    else ParseDiscoveryAck(datagram, requestId)
  }

  function Responses(datagrams: seq<seq<u8>>, requestId: u16): (r: seq<Result<Option<DeviceInfo>, GigeError>>)
    ensures |r| == |datagrams| && forall j :: 0 <= j < |r| ==> r[j] == ResponseOf(datagrams[j], requestId)
  {
    seq(|datagrams|, j requires 0 <= j < |datagrams| => ResponseOf(datagrams[j], requestId))
  }

  /** The devices gathered on one interface: the first malformed response fails the interface. */
  function Gathered(parsed: seq<Result<Option<DeviceInfo>, GigeError>>): Result<seq<DeviceInfo>, GigeError>
  {
    if |parsed| == 0 then Ok([])
    else
      match Gathered(parsed[..|parsed| - 1])
      case Err(e) => Err(e)
      case Ok(found) =>
        match parsed[|parsed| - 1]
        case Err(e) => Err(e)
        case Ok(None) => Ok(found)
        case Ok(Some(info)) => Ok(found + [info])
  }

  /** Gathering fails exactly when some response is malformed, and it reports the first such error. */
  lemma {:induction false} GatheredError(parsed: seq<Result<Option<DeviceInfo>, GigeError>>)
    ensures Gathered(parsed).Err? <==> exists j :: 0 <= j < |parsed| && parsed[j].Err?
    ensures Gathered(parsed).Err? ==>
      exists j :: 0 <= j < |parsed| && parsed[j] == Err(Gathered(parsed).error) && forall t :: 0 <= t < j ==> parsed[t].Ok?
  {
    if |parsed| > 0 {
      var n := |parsed| - 1;
      var prefix := parsed[..n];
      GatheredError(prefix);
      assert forall j :: 0 <= j < n ==> prefix[j] == parsed[j];
      if Gathered(prefix).Err? {
        var j :| 0 <= j < n && prefix[j] == Err(Gathered(prefix).error) && forall t :: 0 <= t < j ==> prefix[t].Ok?;
        assert parsed[j].Err?;
      } else {
        assert forall t :: 0 <= t < n ==> parsed[t].Ok?;
      }
    }
  }

  /** A successful gathering holds exactly the devices the responses describe, in arrival order. */
  lemma {:induction false} GatheredDevices(parsed: seq<Result<Option<DeviceInfo>, GigeError>>)
    requires Gathered(parsed).Ok?
    ensures forall x :: x in Gathered(parsed).value <==> Ok(Some(x)) in parsed
    ensures |Gathered(parsed).value| <= |parsed|
  {
    if |parsed| > 0 {
      var n := |parsed| - 1;
      var prefix := parsed[..n];
      GatheredDevices(prefix);
      assert parsed == prefix + [parsed[n]];
    }
  }

  /**
   * The receive loop on one interface until the timer fires: `datagrams`
   * are the responses that arrived in time, in arrival order.
   */
  method CollectResponses(datagrams: seq<seq<u8>>, requestId: u16) returns (r: Result<seq<DeviceInfo>, GigeError>)
    ensures r == Gathered(Responses(datagrams, requestId))
  {
    ghost var parsed := Responses(datagrams, requestId);
    var responses: seq<DeviceInfo> := [];
    var i := 0;
    while i < |datagrams|
      invariant 0 <= i <= |datagrams|
      invariant Gathered(parsed[..i]) == Ok(responses)
    {
      assert parsed[..i + 1][..i] == parsed[..i];
      var response := ParseDiscoveryAck(Truncate(datagrams[i], DISCOVERY_BUFFER), requestId);
      assert response == parsed[i];
      if response.Err? {
        r := Err(response.error);
        assert Gathered(parsed[..i + 1]) == r;
        GatheredStopsAtError(parsed, i + 1);
        return;
      }
      if response.value.Some? {
        responses := responses + [response.value.value];
      }
      i := i + 1;
    }
    assert parsed[..i] == parsed;
    r := Ok(responses);
  }

  /** Once a prefix fails, the whole sequence fails with the same error. */
  lemma {:induction false} GatheredStopsAtError(parsed: seq<Result<Option<DeviceInfo>, GigeError>>, k: nat)
    requires k <= |parsed| && Gathered(parsed[..k]).Err?
    ensures Gathered(parsed) == Gathered(parsed[..k])
    decreases |parsed| - k
  {
    if k < |parsed| {
      assert parsed[..k + 1][..k] == parsed[..k];
      GatheredStopsAtError(parsed, k + 1);
    } else {
      assert parsed[..k] == parsed;
    }
  }

  type DeviceKey = (Ipv4, seq<u8>)

  function Key(d: DeviceInfo): DeviceKey { (d.ip, d.mac) }

  /** The first device in `s` with key `k`, as the `entry(..).or_insert` map keeps it. */
  function FirstOf(s: seq<DeviceInfo>, k: DeviceKey): (r: Option<DeviceInfo>)
    ensures r.Some? ==> r.value in s && Key(r.value) == k
  {
    if |s| == 0 then None
    else
      var earlier := FirstOf(s[..|s| - 1], k);
      if earlier.Some? then earlier
      else if Key(s[|s| - 1]) == k then Some(s[|s| - 1])
      else None
  }

  lemma FirstOfSnoc(s: seq<DeviceInfo>, x: DeviceInfo, k: DeviceKey)
    ensures FirstOf(s + [x], k) == if FirstOf(s, k).Some? then FirstOf(s, k) else if Key(x) == k then Some(x) else None
  {
    assert (s + [x])[..|s|] == s;
  }

  function KeysOf(s: seq<DeviceInfo>): set<DeviceKey>
  {
    set i | 0 <= i < |s| :: Key(s[i])
  }

  lemma KeysOfSnoc(s: seq<DeviceInfo>, d: DeviceInfo)
    ensures KeysOf(s + [d]) == KeysOf(s) + {Key(d)}
  {
    var t := s + [d];
    assert forall i :: 0 <= i < |s| ==> t[i] == s[i];
    assert t[|s|] == d;
  }

  /** What the de-duplicating loop knows after the first `j` devices, with `keys` the keys seen so far. */
  ghost predicate DedupeInv(all: seq<DeviceInfo>, j: nat, unique: seq<DeviceInfo>, keys: set<DeviceKey>)
  {
    && j <= |all|
    && keys == KeysOf(unique)
    && (forall a, b :: 0 <= a < b < |unique| ==> Key(unique[a]) != Key(unique[b]))
    && (forall i :: 0 <= i < |unique| ==> FirstOf(all[..j], Key(unique[i])) == Some(unique[i]))
    && (forall k :: FirstOf(all[..j], k).Some? ==> k in keys)
    && (forall t :: 0 <= t < j ==> Key(all[t]) in keys)
  }

  /** The first-seen device of every key after one more device. */
  lemma FirstOfSnocAll(s: seq<DeviceInfo>, x: DeviceInfo)
    ensures forall k :: FirstOf(s + [x], k) == if FirstOf(s, k).Some? then FirstOf(s, k) else if Key(x) == k then Some(x) else None
  {
    forall k ensures FirstOf(s + [x], k) == if FirstOf(s, k).Some? then FirstOf(s, k) else if Key(x) == k then Some(x) else None {
      FirstOfSnoc(s, x, k);
    }
  }

  /** A device whose key was seen already is skipped. */
  lemma DedupeSkip(all: seq<DeviceInfo>, j: nat, unique: seq<DeviceInfo>, keys: set<DeviceKey>)
    requires DedupeInv(all, j, unique, keys) && j < |all| && Key(all[j]) in keys
    ensures DedupeInv(all, j + 1, unique, keys)
  {
    assert all[..j + 1] == all[..j] + [all[j]];
    FirstOfSnocAll(all[..j], all[j]);
  }

  /** A device with a new key is appended. */
  lemma DedupeAdd(all: seq<DeviceInfo>, j: nat, unique: seq<DeviceInfo>, keys: set<DeviceKey>)
    requires DedupeInv(all, j, unique, keys) && j < |all| && Key(all[j]) !in keys
    ensures DedupeInv(all, j + 1, unique + [all[j]], keys + {Key(all[j])})
  {
    var d := all[j];
    assert all[..j + 1] == all[..j] + [d];
    FirstOfSnocAll(all[..j], d);
    KeysOfSnoc(unique, d);
    var u := unique + [d];
    assert forall i :: 0 <= i < |unique| ==> u[i] == unique[i];
    assert u[|unique|] == d;
  }

  /** The first-seen device for every key, in first-seen order. */
  method Dedupe(all: seq<DeviceInfo>) returns (unique: seq<DeviceInfo>)
    ensures forall i, j :: 0 <= i < j < |unique| ==> Key(unique[i]) != Key(unique[j])
    ensures forall i :: 0 <= i < |unique| ==> FirstOf(all, Key(unique[i])) == Some(unique[i])
    ensures forall j :: 0 <= j < |all| ==> Key(all[j]) in KeysOf(unique)
  {
    var seen: map<DeviceKey, DeviceInfo> := map[];
    unique := [];
    var j := 0;
    while j < |all|
      invariant DedupeInv(all, j, unique, seen.Keys)
    {
      var d := all[j];
      if Key(d) !in seen {
        DedupeAdd(all, j, unique, seen.Keys);
        seen := seen[Key(d) := d];
        unique := unique + [d];
      } else {
        DedupeSkip(all, j, unique, seen.Keys);
      }
      j := j + 1;
    }
    assert all[..j] == all;
  }

  predicate SortedByIp(s: seq<DeviceInfo>)
  {
    forall i, j :: 0 <= i < j < |s| ==> s[i].ip <= s[j].ip
  }

  /** Insert after every device with an address not above `d`'s. */
  function InsertByIp(sorted: seq<DeviceInfo>, d: DeviceInfo): (r: seq<DeviceInfo>)
    ensures multiset(r) == multiset(sorted) + multiset{d}
    ensures |r| > 0 && (r[0] == d || (|sorted| > 0 && r[0] == sorted[0]))
  {
    if |sorted| == 0 then [d]
    else if d.ip < sorted[0].ip then [d] + sorted
    else
      assert sorted == [sorted[0]] + sorted[1..];
      [sorted[0]] + InsertByIp(sorted[1..], d)
  }

  lemma {:induction false} InsertByIpSorted(sorted: seq<DeviceInfo>, d: DeviceInfo)
    requires SortedByIp(sorted)
    ensures SortedByIp(InsertByIp(sorted, d))
  {
    if |sorted| > 0 && d.ip >= sorted[0].ip {
      var rest := InsertByIp(sorted[1..], d);
      InsertByIpSorted(sorted[1..], d);
      assert sorted[0].ip <= rest[0].ip by {
        if rest[0] != d {
          assert sorted[1..][0] == sorted[1];
        }
      }
      SortedCons(sorted[0], rest);
    } else if |sorted| > 0 {
      SortedCons(d, sorted);
    }
  }

  /** A device not above the head of a sorted list can go in front of it. */
  lemma SortedCons(x: DeviceInfo, s: seq<DeviceInfo>)
    requires SortedByIp(s) && (|s| > 0 ==> x.ip <= s[0].ip)
    ensures SortedByIp([x] + s)
  {
    var r := [x] + s;
    forall i, j | 0 <= i < j < |r| ensures r[i].ip <= r[j].ip {
      if i > 0 {
        assert r[i] == s[i - 1] && r[j] == s[j - 1];
      } else {
        assert r[j] == s[j - 1];
      }
    }
  }

  /** `sort_by_key(|d| d.ip)`: ordered by address, a permutation of the input. */
  function SortByIp(s: seq<DeviceInfo>): (r: seq<DeviceInfo>)
    ensures SortedByIp(r) && multiset(r) == multiset(s)
  {
    if |s| == 0 then []
    else
      assert s == s[..|s| - 1] + [s[|s| - 1]];
      InsertByIpSorted(SortByIp(s[..|s| - 1]), s[|s| - 1]);
      InsertByIp(SortByIp(s[..|s| - 1]), s[|s| - 1])
  }

  /** The devices of the interfaces that succeeded, in the order the results arrived. */
  function Devices(results: seq<Result<seq<DeviceInfo>, GigeError>>): seq<DeviceInfo>
  {
    if |results| == 0 then []
    else Devices(results[..|results| - 1]) + (if results[|results| - 1].Ok? then results[|results| - 1].value else [])
  }

  /**
   * The join loop of discovery: `results` are the interface tasks' results
   * in completion order. The first failed task fails discovery; otherwise
   * the first device seen for every (ip, mac) is kept and the list is
   * ordered by address.
   */
  method MergeDiscovered(results: seq<Result<seq<DeviceInfo>, GigeError>>) returns (r: Result<seq<DeviceInfo>, GigeError>)
    ensures r.Err? <==> exists i :: 0 <= i < |results| && results[i].Err?
    ensures r.Err? ==> exists i :: 0 <= i < |results| && results[i] == Err(r.error) && forall t :: 0 <= t < i ==> results[t].Ok?
    ensures r.Ok? ==>
      && SortedByIp(r.value)
      && (forall i, j :: 0 <= i < j < |r.value| ==> Key(r.value[i]) != Key(r.value[j]))
      && (forall x :: x in r.value ==> FirstOf(Devices(results), Key(x)) == Some(x))
      && (forall d :: d in Devices(results) ==> Key(d) in KeysOf(r.value))
  {
    var all: seq<DeviceInfo> := [];
    var i := 0;
    while i < |results|
      invariant 0 <= i <= |results|
      invariant all == Devices(results[..i])
      invariant forall t :: 0 <= t < i ==> results[t].Ok?
    {
      assert results[..i + 1][..i] == results[..i];
      if results[i].Err? {
        r := Err(results[i].error);
        return;
      }
      all := all + results[i].value;
      i := i + 1;
    }
    assert results[..i] == results;
    var unique := Dedupe(all);
    var sorted := SortByIp(unique);
    SortedKeepsDedupe(unique, sorted, all);
    r := Ok(sorted);
  }

  lemma SortedKeepsDedupe(unique: seq<DeviceInfo>, sorted: seq<DeviceInfo>, all: seq<DeviceInfo>)
    requires multiset(sorted) == multiset(unique)
    requires forall i, j :: 0 <= i < j < |unique| ==> Key(unique[i]) != Key(unique[j])
    requires forall i :: 0 <= i < |unique| ==> FirstOf(all, Key(unique[i])) == Some(unique[i])
    requires forall j :: 0 <= j < |all| ==> Key(all[j]) in KeysOf(unique)
    ensures forall i, j :: 0 <= i < j < |sorted| ==> Key(sorted[i]) != Key(sorted[j])
    ensures forall x :: x in sorted ==> FirstOf(all, Key(x)) == Some(x)
    ensures forall d :: d in all ==> Key(d) in KeysOf(sorted)
  {
    forall x | x in sorted ensures FirstOf(all, Key(x)) == Some(x) {
      assert x in multiset(unique);
    }
    forall d | d in all ensures Key(d) in KeysOf(sorted) {
      var i :| 0 <= i < |unique| && Key(unique[i]) == Key(d);
      assert unique[i] in multiset(sorted);
      var t :| 0 <= t < |sorted| && sorted[t] == unique[i];
    }
    forall i, j | 0 <= i < j < |sorted| ensures Key(sorted[i]) != Key(sorted[j]) {
      DistinctKeysAfterPermutation(unique, sorted, i, j);
    }
  }

  /** A permutation of a list with distinct keys has distinct keys. */
  lemma DistinctKeysAfterPermutation(unique: seq<DeviceInfo>, sorted: seq<DeviceInfo>, i: nat, j: nat)
    requires multiset(sorted) == multiset(unique)
    requires forall a, b :: 0 <= a < b < |unique| ==> Key(unique[a]) != Key(unique[b])
    requires i < j < |sorted|
    ensures Key(sorted[i]) != Key(sorted[j])
  {
    DistinctKeysCountOne(unique, sorted[j]);
    assert sorted[i] in multiset(sorted) && sorted[j] in multiset(sorted);
    SameKeySameDevice(unique, sorted[i], sorted[j]);
    RepeatCounted(sorted, i, j);
  }

  lemma SameKeySameDevice(unique: seq<DeviceInfo>, x: DeviceInfo, y: DeviceInfo)
    requires forall a, b :: 0 <= a < b < |unique| ==> Key(unique[a]) != Key(unique[b])
    requires x in unique && y in unique
    ensures Key(x) == Key(y) ==> x == y
  {
  }

  lemma RepeatCounted(s: seq<DeviceInfo>, i: nat, j: nat)
    requires i < j < |s|
    ensures s[i] == s[j] ==> multiset(s)[s[j]] >= 2
  {
    assert s == s[..j] + [s[j]] + s[j + 1..];
    assert s[i] in s[..j];
  }

  lemma {:induction false} DistinctKeysCountOne(unique: seq<DeviceInfo>, x: DeviceInfo)
    requires forall a, b :: 0 <= a < b < |unique| ==> Key(unique[a]) != Key(unique[b])
    ensures multiset(unique)[x] <= 1
  {
    if |unique| > 0 {
      var n := |unique| - 1;
      assert unique == unique[..n] + [unique[n]];
      DistinctKeysCountOne(unique[..n], x);
      if unique[n] == x {
        assert x !in unique[..n];
      }
    }
  }
}
