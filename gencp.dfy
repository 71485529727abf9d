/**
 * GenCP, the generic control protocol: command encoding, acknowledgement
 * decoding and the opcode and status tables. Every header field is a
 * big-endian u16; the header is 8 bytes.
 */
module GenCp {
  import opened Bytes
  import opened Wrappers

  const HEADER_SIZE: nat := 8

  /** Command flag bits. */
  const ACK_REQUIRED: u16 := 0x0001
  const BROADCAST: u16 := 0x8000

  /** The flag set as its raw bits: only the two defined flags can be present. */
  datatype CommandFlags = CommandFlags(ackRequired: bool, broadcast: bool)
  {
    function Bits(): (r: u16)
      ensures r % 2 == 1 <==> ackRequired
      ensures r >= BROADCAST <==> broadcast
    {
      (if ackRequired then ACK_REQUIRED else 0) + (if broadcast then BROADCAST else 0)
    }
  }

  datatype OpCode = ReadMem | WriteMem

  function CommandCode(op: OpCode): u16
  {
    match op
    case ReadMem => 0x0084
    case WriteMem => 0x0086
  }

  function AckCode(op: OpCode): u16
  {
    CommandCode(op) + 1
  }

  datatype GenCpError = InvalidPacket(reason: string) | UnknownOpcode(code: u16) | Io

  function FromCommand(code: u16): Result<OpCode, GenCpError>
  {
    match code
    case 0x0084 => Ok(ReadMem)
    case 0x0086 => Ok(WriteMem)
    case _ => Err(UnknownOpcode(code))
  }

  function FromAck(code: u16): Result<OpCode, GenCpError>
  {
    match code
    case 0x0085 => Ok(ReadMem)
    case 0x0087 => Ok(WriteMem)
    case _ => Err(UnknownOpcode(code))
  }

  /** The two opcodes have distinct command and acknowledgement codes. */
  lemma OpCodeTable(op: OpCode)
    ensures AckCode(op) == CommandCode(op) + 1
    ensures CommandCode(ReadMem) == 0x0084 && CommandCode(WriteMem) == 0x0086
    ensures FromCommand(CommandCode(op)) == Ok(op)
  {
  }

  /** `from_ack` inverts `ack_code`, and every other code is `UnknownOpcode`. */
  lemma FromAckInvertsAckCode(code: u16)
    ensures FromAck(code).Ok? <==> code == 0x0085 || code == 0x0087
    ensures FromAck(code).Ok? ==> AckCode(FromAck(code).value) == code
    ensures FromAck(code).Err? ==> FromAck(code).error == UnknownOpcode(code)
    ensures forall op: OpCode :: FromAck(AckCode(op)) == Ok(op)
  {
    assert FromAck(AckCode(ReadMem)) == Ok(ReadMem);
    assert FromAck(AckCode(WriteMem)) == Ok(WriteMem);
  }

  datatype StatusCode =
    | Success
    | NotImplemented
    | InvalidParameter
    | InvalidAddress
    | DeviceBusy
    | Error
    | Unknown(code: u16)

  function FromRaw(raw: u16): StatusCode
  {
    match raw
    case 0x0000 => Success
    case 0x8001 => NotImplemented
    case 0x8002 => InvalidParameter
    case 0x8003 => InvalidAddress
    case 0x8004 => DeviceBusy
    case 0x8005 => Error
    case other => Unknown(other)
  }

  function ToRaw(s: StatusCode): u16
  {
    match s
    case Success => 0x0000
    case NotImplemented => 0x8001
    case InvalidParameter => 0x8002
    case InvalidAddress => 0x8003
    case DeviceBusy => 0x8004
    case Error => 0x8005
    case Unknown(code) => code
  }

  /** A status that `from_raw` can produce: `Unknown` only for codes outside the table. */
  predicate Canonical(s: StatusCode)
  {
    s.Unknown? ==> s.code !in {0x0000, 0x8001, 0x8002, 0x8003, 0x8004, 0x8005}
  }

  /** Every raw status survives the round trip through `from_raw`. */
  lemma ToRawFromRaw(raw: u16)
    ensures ToRaw(FromRaw(raw)) == raw
    ensures Canonical(FromRaw(raw))
  {
  }

  /** The other direction holds exactly for the canonical statuses. */
  lemma FromRawToRaw(s: StatusCode)
    ensures FromRaw(ToRaw(s)) == s <==> Canonical(s)
  {
  }

  datatype CommandHeader = CommandHeader(flags: CommandFlags, opcode: OpCode, length: u16, requestId: u16)
  datatype AckHeader = AckHeader(status: StatusCode, opcode: OpCode, length: u16, requestId: u16)
  datatype GenCpCmd = GenCpCmd(header: CommandHeader, payload: seq<u8>)
  datatype GenCpAck = GenCpAck(header: AckHeader, payload: seq<u8>)

  /** `encode_cmd`: flags, command code, length and request id, then the payload verbatim. */
  function EncodeCmd(cmd: GenCpCmd): (r: seq<u8>)
    ensures |r| == HEADER_SIZE + |cmd.payload|
    ensures ReadU16(r, 0) == cmd.header.flags.Bits()
    ensures ReadU16(r, 2) == CommandCode(cmd.header.opcode)
    ensures ReadU16(r, 4) == cmd.header.length
    ensures ReadU16(r, 6) == cmd.header.requestId
    ensures r[HEADER_SIZE..] == cmd.payload
  {
    var h := cmd.header;
    var r := U16Be(h.flags.Bits()) + U16Be(CommandCode(h.opcode)) + U16Be(h.length) + U16Be(h.requestId) + cmd.payload;
    ReadU16Of(r, 0, h.flags.Bits());
    ReadU16Of(r, 2, CommandCode(h.opcode));
    ReadU16Of(r, 4, h.length);
    ReadU16Of(r, 6, h.requestId);
    r
  }

  /**
   * `decode_ack`: too short, then length mismatch, then opcode; the payload
   * is everything after the header.
   */
  function DecodeAck(buf: seq<u8>): (r: Result<GenCpAck, GenCpError>)
    ensures |buf| < HEADER_SIZE <==> r == Err(InvalidPacket("too short"))
    ensures r == Err(InvalidPacket("length mismatch")) <==>
      |buf| >= HEADER_SIZE && |buf| != HEADER_SIZE + ReadU16(buf, 4)
    ensures r.Ok? <==> |buf| >= HEADER_SIZE && |buf| == HEADER_SIZE + ReadU16(buf, 4) && FromAck(ReadU16(buf, 2)).Ok?
    ensures r.Ok? ==>
      && r.value.header.status == FromRaw(ReadU16(buf, 0))
      && AckCode(r.value.header.opcode) == ReadU16(buf, 2)
      && r.value.header.length == ReadU16(buf, 4) == |r.value.payload|
      && r.value.header.requestId == ReadU16(buf, 6)
      && r.value.payload == buf[HEADER_SIZE..]
  {
    if |buf| < HEADER_SIZE then Err(InvalidPacket("too short"))
    else
      var statusRaw := ReadU16(buf, 0);
      var opcodeRaw := ReadU16(buf, 2);
      var length := ReadU16(buf, 4);
      var requestId := ReadU16(buf, 6);
      if |buf| != HEADER_SIZE + length then Err(InvalidPacket("length mismatch"))
      else
        FromAckInvertsAckCode(opcodeRaw);
        match FromAck(opcodeRaw)
        case Err(e) => Err(e)
        case Ok(opcode) => Ok(GenCpAck(AckHeader(FromRaw(statusRaw), opcode, length, requestId), buf[HEADER_SIZE..]))
  }

  /** The bytes a device sends for an acknowledgement. */
  function AckBytes(ack: GenCpAck): (r: seq<u8>)
    ensures |r| == HEADER_SIZE + |ack.payload|
  {
    var h := ack.header;
    U16Be(ToRaw(h.status)) + U16Be(AckCode(h.opcode)) + U16Be(h.length) + U16Be(h.requestId) + ack.payload
  }

  /** Decoding a well-formed acknowledgement gives back its header and payload. */
  lemma DecodeAckBytes(ack: GenCpAck)
    requires ack.header.length == |ack.payload| && Canonical(ack.header.status)
    ensures DecodeAck(AckBytes(ack)) == Ok(ack)
  {
    var h := ack.header;
    var r := AckBytes(ack);
    ReadU16Of(r, 0, ToRaw(h.status));
    ReadU16Of(r, 2, AckCode(h.opcode));
    ReadU16Of(r, 4, h.length);
    ReadU16Of(r, 6, h.requestId);
    FromRawToRaw(h.status);
    FromAckInvertsAckCode(AckCode(h.opcode));
    assert r[HEADER_SIZE..] == ack.payload;
  }

  /** A decoded acknowledgement re-encodes to exactly the bytes it came from. */
  lemma DecodeAckThenEncode(buf: seq<u8>)
    requires DecodeAck(buf).Ok?
    ensures AckBytes(DecodeAck(buf).value) == buf
  {
    var ack := DecodeAck(buf).value;
    ToRawFromRaw(ReadU16(buf, 0));
    WriteReadU16(buf, 0);
    WriteReadU16(buf, 2);
    WriteReadU16(buf, 4);
    WriteReadU16(buf, 6);
    assert buf == buf[0..2] + buf[2..4] + buf[4..6] + buf[6..8] + buf[8..];
  }

  /** The unit-test packets: a ReadMem ack with four payload bytes and an empty WriteMem ack. */
  lemma DecodeReadMemAckExample()
    ensures DecodeAck([0x00, 0x00, 0x00, 0x85, 0x00, 0x04, 0x42, 0x42, 0xAA, 0xAA, 0xAA, 0xAA])
         == Ok(GenCpAck(AckHeader(Success, ReadMem, 4, 0x4242), [0xAA, 0xAA, 0xAA, 0xAA]))
  {
    var a := GenCpAck(AckHeader(Success, ReadMem, 4, 0x4242), [0xAA, 0xAA, 0xAA, 0xAA]);
    U16BeBytes(0x4242);
    U16BeBytes(4);
    U16BeBytes(0x85);
    U16BeBytes(0);
    assert AckBytes(a) == [0x00, 0x00, 0x00, 0x85, 0x00, 0x04, 0x42, 0x42, 0xAA, 0xAA, 0xAA, 0xAA];
    DecodeAckBytes(a);
  }

  lemma DecodeWriteMemAckExample()
    ensures DecodeAck([0x00, 0x00, 0x00, 0x87, 0x00, 0x00, 0x10, 0x01])
         == Ok(GenCpAck(AckHeader(Success, WriteMem, 0, 0x1001), []))
  {
    var b := GenCpAck(AckHeader(Success, WriteMem, 0, 0x1001), []);
    U16BeBytes(0x1001);
    U16BeBytes(0x87);
    U16BeBytes(0);
    assert AckBytes(b) == [0x00, 0x00, 0x00, 0x87, 0x00, 0x00, 0x10, 0x01];
    DecodeAckBytes(b);
  }

  /** A declared length that disagrees with the datagram is rejected before the opcode is looked at. */
  lemma DecodeLengthMismatchExample()
    ensures DecodeAck([0x00, 0x00, 0x12, 0x34, 0x00, 0x05, 0x42, 0x42, 0xAA]) == Err(InvalidPacket("length mismatch"))
  {
    var c: seq<u8> := [0x00, 0x00, 0x12, 0x34, 0x00, 0x05, 0x42, 0x42, 0xAA];
    U16BeBytes(5);
    ReadU16Of(c, 4, 5);
  }

  /** The unit-test command: ReadMem of 64 bytes at 0x0010_0200 with request id 0x42. */
  lemma EncodeCmdExample()
    ensures EncodeCmd(GenCpCmd(CommandHeader(CommandFlags(true, false), ReadMem, 12, 0x42),
                               U64Be(0x0010_0200) + U32Be(64)))
         == [0x00, 0x01, 0x00, 0x84, 0x00, 0x0C, 0x00, 0x42] + U64Be(0x0010_0200) + U32Be(64)
  {
    U16BeBytes(1);
    U16BeBytes(0x84);
    U16BeBytes(12);
    U16BeBytes(0x42);
  }
}
