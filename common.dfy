/**
 * Helpers shared by the command-line tool's subcommands
 * (crates/gencamctl/src/common.rs): MAC formatting, the PGM/PPM image
 * encoders and the choice of one device from a discovery result.
 * `usize` is taken as 64 bits wide.
 */
module CtlCommon {
  import opened Bytes
  import opened Wrappers
  import opened Text
  import Gvcp

  // -------------------------------------------------------------------
  // MAC formatting.

  /** The two-digit upper-case hex text of each byte. */
  function HexParts(bytes: seq<u8>): (r: seq<string>)
    ensures |r| == |bytes|
    ensures forall i :: 0 <= i < |r| ==> r[i] == HexByte(bytes[i])
  {
    if |bytes| == 0 then [] else [HexByte(bytes[0])] + HexParts(bytes[1..])
  }

  /** Joining two-character pieces with ':' puts piece i at 3i and a ':' after every piece but the last. */
  lemma {:induction false} JoinPairs(parts: seq<string>)
    requires |parts| >= 1 && forall i :: 0 <= i < |parts| ==> |parts[i]| == 2
    ensures |Join(parts, ":")| == 3 * |parts| - 1
    ensures forall i :: 0 <= i < |parts| ==> Join(parts, ":")[3 * i..3 * i + 2] == parts[i]
    ensures forall i :: 0 <= i < |parts| - 1 ==> Join(parts, ":")[3 * i + 2] == ':'
  {
    if |parts| > 1 {
      var rest := parts[1..];
      JoinPairs(rest);
      var j := Join(parts, ":");
      var jr := Join(rest, ":");
      assert j == parts[0] + ":" + jr;
      forall i | 1 <= i < |parts|
        ensures j[3 * i..3 * i + 2] == parts[i]
      {
        assert j[3 * i..3 * i + 2] == jr[3 * (i - 1)..3 * (i - 1) + 2];
      }
      forall i | 1 <= i < |parts| - 1
        ensures j[3 * i + 2] == ':'
      {
        assert j[3 * i + 2] == jr[3 * (i - 1) + 2];
      }
      assert j[0..2] == parts[0];
    }
  }

  /** `format_mac`: six upper-case hex pairs separated by ':', 17 characters in all. */
  function FormatMac(mac: seq<u8>): (r: string)
    requires |mac| == 6
    ensures |r| == 17
    ensures forall i :: 0 <= i < 6 ==> r[3 * i..3 * i + 2] == HexByte(mac[i])
    ensures forall i :: 0 <= i < 5 ==> r[3 * i + 2] == ':'
  {
    JoinPairs(HexParts(mac));
    Join(HexParts(mac), ":")
  }

  /** Reading the six hex pairs of a formatted MAC address. */
  function ParseMac(s: string): (r: seq<nat>)
    requires |s| == 17
  {
    seq(6, i requires 0 <= i < 6 => DigitsValue(s[3 * i..3 * i + 2], 16))
  }

  /** The formatted address reads back as the MAC bytes. */
  lemma MacRoundTrip(mac: seq<u8>)
    requires |mac| == 6
    ensures ParseMac(FormatMac(mac)) == mac
  {
    var r := FormatMac(mac);
    forall i | 0 <= i < 6
      ensures ParseMac(r)[i] == mac[i]
    {
      assert r[3 * i..3 * i + 2] == HexByte(mac[i]);
    }
  }

  // -------------------------------------------------------------------
  // PGM and PPM encoding.

  predicate IsAscii(s: string)
  {
    forall i :: 0 <= i < |s| ==> s[i] as int < 0x80
  }

  /** The bytes of ASCII text. */
  function AsciiBytes(s: string): (r: seq<u8>)
    requires IsAscii(s)
    ensures |r| == |s| && forall i :: 0 <= i < |s| ==> r[i] == s[i] as int
  {
    if |s| == 0 then [] else [s[0] as int as u8] + AsciiBytes(s[1..])
  }

  /** The header text `"{magic}\n{width} {height}\n255\n"`. */
  function HeaderText(magic: string, width: u32, height: u32): string
  {
    magic + "\n" + NatToDecimal(width) + " " + NatToDecimal(height) + "\n255\n"
  }

  /** The header as bytes; for an ASCII magic the whole header is ASCII. */
  function Header(magic: string, width: u32, height: u32): (r: seq<u8>)
    requires IsAscii(magic)
    ensures |r| == |HeaderText(magic, width, height)|
  {
    var t := HeaderText(magic, width, height);
    assert IsAscii(t) by {
      forall i | 0 <= i < |t| ensures t[i] as int < 0x80 {
        var w, h := NatToDecimal(width), NatToDecimal(height);
        assert t == magic + "\n" + w + " " + h + "\n255\n";
        if i >= |magic| + 1 && i < |magic| + 1 + |w| {
          assert t[i] == w[i - |magic| - 1];
        } else if i >= |magic| + 2 + |w| && i < |magic| + 2 + |w| + |h| {
          assert t[i] == h[i - |magic| - 2 - |w|];
        }
      }
    }
    AsciiBytes(t)
  }

  /** `checked_mul` on 64-bit `usize`. */
  function CheckedMul(a: nat, b: nat): (r: Option<nat>)
    ensures r.Some? <==> a * b <= U64_MAX
    ensures r.Some? ==> r.value == a * b
  {
    if a * b <= U64_MAX then Some(a * b) else None
  }

  /** The area of a u32 by u32 image always fits a 64-bit `usize`. */
  lemma AreaFits(width: u32, height: u32)
    ensures width * height <= U64_MAX
  {
    MulLe(width, U32_MAX, height);
    MulLe(height, U32_MAX, U32_MAX);
  }

  function MismatchMessage(kind: string, expected: nat, got: nat): string
  {
    kind + " payload length mismatch: expected " + NatToDecimal(expected) + ", got " + NatToDecimal(got)
  }

  /**
   * `encode_pgm`: the payload must hold exactly width x height bytes; the
   * output is the P5 header followed by the payload.
   */
  function EncodePgm(width: u32, height: u32, data: seq<u8>): (r: Result<seq<u8>, string>)
    ensures r.Ok? <==> |data| == width * height
    ensures r.Ok? ==> r.value == Header("P5", width, height) + data
    ensures r.Err? ==> r.error == MismatchMessage("PGM", width * height, |data|)
  {
    AreaFits(width, height);
    match CheckedMul(width, height)
    case None => Err("image area overflow")
    case Some(expected) =>
      if expected != |data| then Err(MismatchMessage("PGM", expected, |data|))
      else Ok(Header("P5", width, height) + data)
  }

  /**
   * `encode_ppm` as written: the P6 header, but the payload is checked
   * against width x height bytes, one per pixel, where P6 carries three.
   */
  function EncodePpmAsWritten(width: u32, height: u32, data: seq<u8>): (r: Result<seq<u8>, string>)
    ensures r.Ok? <==> |data| == width * height
    ensures r.Ok? ==> r.value == Header("P6", width, height) + data
  {
    AreaFits(width, height);
    match CheckedMul(width, height)
    case None => Err("image area overflow")
    case Some(expected) =>
      if expected != |data| then Err(MismatchMessage("PPM", expected, |data|))
      else Ok(Header("P6", width, height) + data)
  }

  /**
   * `encode_ppm` as its test expects: three bytes (R, G, B) per pixel,
   * with the byte count checked for 64-bit overflow.
   */
  function EncodePpm(width: u32, height: u32, data: seq<u8>): (r: Result<seq<u8>, string>)
    ensures width * height * 3 > U64_MAX ==> r == Err("image area overflow")
    ensures r.Ok? <==> width * height * 3 <= U64_MAX && |data| == width * height * 3
    ensures r.Ok? ==> r.value == Header("P6", width, height) + data
    ensures r.Ok? ==> |r.value| == |HeaderText("P6", width, height)| + 3 * (width * height)
  {
    AreaFits(width, height);
    match CheckedMul(width, height)
    case None => Err("image area overflow")
    case Some(area) =>
      match CheckedMul(area, 3)
      case None => Err("image area overflow")
      case Some(expected) =>
        if expected != |data| then Err(MismatchMessage("PPM", expected, |data|))
        else Ok(Header("P6", width, height) + data)
  }

  lemma HeaderOfTwoByTwo(magic: string)
    requires IsAscii(magic) && |magic| == 2
    ensures HeaderText(magic, 2, 2) == magic + "\n2 2\n255\n"
    ensures |Header(magic, 2, 2)| == 11
    ensures Header(magic, 2, 2) == AsciiBytes(magic + "\n2 2\n255\n")
  {
    assert NatToDecimal(2) == "2";
  }

  /** A 2 x 2 greyscale image of four bytes encodes to the 11-byte header plus the four bytes. */
  lemma PgmTwoByTwo()
    ensures EncodePgm(2, 2, [0, 0, 0, 0]).Ok?
    ensures EncodePgm(2, 2, [0, 0, 0, 0]).value[..11] == AsciiBytes("P5\n2 2\n255\n")
    ensures |EncodePgm(2, 2, [0, 0, 0, 0]).value| == 15
  {
    HeaderOfTwoByTwo("P5");
    var data: seq<u8> := [0, 0, 0, 0];
    var h := Header("P5", 2, 2);
    assert EncodePgm(2, 2, data) == Ok(h + data);
    assert (h + data)[..11] == h;
  }

  const TWELVE_ZEROS: seq<u8> := [0, 0, 0, 0, 0, 0, 0, 0, 0, 0, 0, 0]

  /** A 2 x 2 colour image of twelve bytes is rejected by the code as written. */
  lemma PpmAsWrittenRejectsTwoByTwo()
    ensures EncodePpmAsWritten(2, 2, TWELVE_ZEROS).Err?
  {
  }

  /** ... and accepted by the corrected encoder, giving the header plus the twelve bytes. */
  lemma PpmTwoByTwo()
    ensures EncodePpm(2, 2, TWELVE_ZEROS).Ok?
    ensures EncodePpm(2, 2, TWELVE_ZEROS).value[..11] == AsciiBytes("P6\n2 2\n255\n")
    ensures |EncodePpm(2, 2, TWELVE_ZEROS).value| == 23
  {
    HeaderOfTwoByTwo("P6");
    var h := Header("P6", 2, 2);
    assert EncodePpm(2, 2, TWELVE_ZEROS) == Ok(h + TWELVE_ZEROS);
    assert (h + TWELVE_ZEROS)[..11] == h;
  }

  /** The payload follows the header unchanged, so it can be cut back out of the encoding. */
  lemma PgmPayloadRecoverable(width: u32, height: u32, data: seq<u8>)
    requires EncodePgm(width, height, data).Ok?
    ensures EncodePgm(width, height, data).value[|Header("P5", width, height)|..] == data
    ensures EncodePgm(width, height, data).value[..|Header("P5", width, height)|] == Header("P5", width, height)
  {
  }

  // -------------------------------------------------------------------
  // Device selection.

  /** The dotted-quad text of an IPv4 address. */
  function Ipv4Text(ip: Gvcp.Ipv4): string
  {
    NatToDecimal(ip / 0x100_0000) + "." + NatToDecimal(ip / 0x1_0000 % 0x100) + "."
      + NatToDecimal(ip / 0x100 % 0x100) + "." + NatToDecimal(ip % 0x100)
  }

  /** The first discovered device with the given address. */
  function FindByIp(devices: seq<Gvcp.DeviceInfo>, ip: Gvcp.Ipv4): (r: Option<nat>)
    ensures r.None? <==> forall j :: 0 <= j < |devices| ==> devices[j].ip != ip
    ensures r.Some? ==> r.value < |devices| && devices[r.value].ip == ip
    ensures r.Some? ==> forall j :: 0 <= j < r.value ==> devices[j].ip != ip
  {
    if |devices| == 0 then None
    else if devices[0].ip == ip then Some(0)
    else
      match FindByIp(devices[1..], ip)
      case None => None
      case Some(k) => Some(k + 1)
  }

  /**
   * `select_device`: exactly one of `--ip` and `--index` must be given;
   * `discovered` is the outcome of the discovery both choices run.
   */
  function SelectDevice(ip: Option<Gvcp.Ipv4>, index: Option<nat>,
                        discovered: Result<seq<Gvcp.DeviceInfo>, string>): (r: Result<Gvcp.DeviceInfo, string>)
    ensures ip.Some? == index.Some? ==> r.Err?
    ensures r.Ok? ==> discovered.Ok?
    ensures r.Ok? && ip.Some? ==> r.value.ip == ip.value
    ensures r.Ok? && index.Some? ==> index.value < |discovered.value| && r.value == discovered.value[index.value]
  {
    match (ip, index)
    case (Some(addr), None) =>
      (match discovered
       case Err(e) => Err(e)
       case Ok(devices) =>
         match FindByIp(devices, addr)
         case Some(k) => Ok(devices[k])
         case None => Ok(Gvcp.DeviceInfo(addr, [0, 0, 0, 0, 0, 0], None, None)))
    case (None, Some(idx)) =>
      (match discovered
       case Err(e) => Err(e)
       case Ok(devices) =>
         if idx < |devices| then Ok(devices[idx]) else Err("no device at index " + NatToDecimal(idx)))
    case (Some(addr), Some(_)) => Err("specify either --ip or --index, not both (using " + Ipv4Text(addr) + ")")
    case (None, None) => Err("a camera must be selected via --ip or --index")
  }

  /** Giving both or neither selector is an error, whatever discovery finds. */
  lemma SelectDeviceNeedsOneSelector(ip: Option<Gvcp.Ipv4>, index: Option<nat>,
                                     discovered: Result<seq<Gvcp.DeviceInfo>, string>)
    requires ip.Some? == index.Some?
    ensures SelectDevice(ip, index, discovered).Err?
    ensures SelectDevice(ip, index, discovered) == SelectDevice(ip, index, Ok([]))
  {
  }

  /**
   * Selecting by address succeeds whenever discovery does, and always yields
   * a device with that address: the first one discovered, or a placeholder
   * with a zero MAC and no names.
   */
  lemma SelectByIp(addr: Gvcp.Ipv4, devices: seq<Gvcp.DeviceInfo>)
    ensures SelectDevice(Some(addr), None, Ok(devices)).Ok?
    ensures SelectDevice(Some(addr), None, Ok(devices)).value.ip == addr
    ensures SelectDevice(Some(addr), None, Ok(devices)).value in devices
      <==> exists j :: 0 <= j < |devices| && devices[j].ip == addr
    ensures (forall j :: 0 <= j < |devices| ==> devices[j].ip != addr) ==>
      SelectDevice(Some(addr), None, Ok(devices)).value == Gvcp.DeviceInfo(addr, [0, 0, 0, 0, 0, 0], None, None)
  {
  }

  /** Selecting by index succeeds exactly for an index within the discovered list. */
  lemma SelectByIndex(idx: nat, devices: seq<Gvcp.DeviceInfo>)
    ensures SelectDevice(None, Some(idx), Ok(devices)).Ok? <==> idx < |devices|
    ensures idx < |devices| ==> SelectDevice(None, Some(idx), Ok(devices)).value == devices[idx]
    ensures idx >= |devices| ==> SelectDevice(None, Some(idx), Ok(devices)).error == "no device at index " + NatToDecimal(idx)
  {
  }

  /** A failed discovery is passed on when exactly one selector is given. */
  lemma SelectDiscoveryFails(ip: Option<Gvcp.Ipv4>, index: Option<nat>, e: string)
    requires ip.Some? != index.Some?
    ensures SelectDevice(ip, index, Err(e)) == Err(e)
  {
  }
}
