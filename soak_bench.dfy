/**
 * Command-line handling of the streaming soak benchmark
 * (crates/genicam/examples/soak_bench.rs): durations with an `s`, `m` or
 * `h` suffix, and the argument loop with its required flags and checks.
 * Addresses are parsed by the standard library's `Ipv4Addr` parser, which
 * enters as `parseIpv4`.
 */
module SoakBench {
  import opened Bytes
  import opened Wrappers
  import opened Text
  import Gvcp

  // -------------------------------------------------------------------
  // Durations.

  /** `u64` multiplication wraps as in a build without overflow checks. */
  function WrapU64(x: nat): (r: u64)
    ensures x <= U64_MAX ==> r == x
  {
    x % 0x1_0000_0000_0000_0000
  }

  function EndsWith(s: string, c: char): bool
  {
    |s| > 0 && s[|s| - 1] == c
  }

  function ParseU64(s: string): (r: Result<u64, string>)
    ensures r.Ok? <==> ParseUnsigned(s, 10, U64_MAX).Ok?
    ensures r.Ok? ==> r.value == ParseUnsigned(s, 10, U64_MAX).value
  {
    match ParseUnsigned(s, 10, U64_MAX)
    case Err(e) => Err(e)
    case Ok(v) => Ok(v)
  }

  /** A count scaled to seconds. */
  function Scaled(r: Result<u64, string>, factor: nat): Result<u64, string>
  {
    match r
    case Err(e) => Err(e)
    case Ok(v) => Ok(WrapU64(v * factor))
  }

  /**
   * `parse_duration`, in seconds: a trailing `s`, `m` or `h` (tried in that
   * order) gives the unit of the number before it; without a suffix the
   * number is seconds.
   */
  function ParseDuration(text: string): (r: Result<u64, string>)
    ensures text == "" ==> r == Err("cannot parse integer from empty string")
    ensures r.Ok? ==> |text| > 0 && (text[|text| - 1] in "smh" || IsDigitOf(text[|text| - 1], 10))
  {
    var body := if |text| > 0 then text[..|text| - 1] else text;
    if EndsWith(text, 's') then ParseU64(body)
    else if EndsWith(text, 'm') then Scaled(ParseU64(body), 60)
    else if EndsWith(text, 'h') then Scaled(ParseU64(body), 3600)
    else ParseU64(text)
  }

  /** The decimal text of a number parses back to it. */
  lemma ParseDecimal(n: u64)
    ensures ParseU64(NatToDecimal(n)) == Ok(n)
  {
    var d := NatToDecimal(n);
    assert Unsigned(d, false) == d;
    DecimalRoundTrip(n);
  }

  /** A number without a unit, or with `s`, is that many seconds. */
  lemma ParseSeconds(n: u64)
    ensures ParseDuration(NatToDecimal(n)) == Ok(n)
    ensures ParseDuration(NatToDecimal(n) + "s") == Ok(n)
  {
    var d := NatToDecimal(n);
    ParseDecimal(n);
    assert (d + "s")[..|d|] == d;
    assert !EndsWith(d, 's') && !EndsWith(d, 'm') && !EndsWith(d, 'h');
  }

  /** A number with `m` is that many minutes, wrapping around 2^64 seconds. */
  lemma ParseMinutes(n: u64)
    ensures ParseDuration(NatToDecimal(n) + "m") == Ok(WrapU64(n * 60))
  {
    var d := NatToDecimal(n);
    ParseDecimal(n);
    var t := d + "m";
    assert t[..|d|] == d;
    assert !EndsWith(t, 's') && EndsWith(t, 'm');
  }

  /** A number with `h` is that many hours, wrapping around 2^64 seconds. */
  lemma ParseHours(n: u64)
    ensures ParseDuration(NatToDecimal(n) + "h") == Ok(WrapU64(n * 3600))
  {
    var d := NatToDecimal(n);
    ParseDecimal(n);
    var t := d + "h";
    assert t[..|d|] == d;
    assert !EndsWith(t, 's') && !EndsWith(t, 'm') && EndsWith(t, 'h');
  }

  /** Without overflow the units scale exactly. */
  lemma ParseDurationExact(n: u64)
    requires n * 3600 <= U64_MAX
    ensures ParseDuration(NatToDecimal(n) + "m") == Ok(n * 60)
    ensures ParseDuration(NatToDecimal(n) + "h") == Ok(n * 3600)
  {
    ParseMinutes(n);
    ParseHours(n);
  }

  /** A text ending in anything but a digit or one of the three units is rejected. */
  lemma ParseDurationUnknownUnit(text: string)
    requires |text| > 0 && text[|text| - 1] !in "smh" && !IsDigitOf(text[|text| - 1], 10)
    ensures ParseDuration(text).Err?
  {
    var d := Unsigned(text, false);
    if |d| > 0 {
      assert d[|d| - 1] == text[|text| - 1];
    }
  }

  /** `90m` is 5400 seconds. */
  lemma NinetyMinutes()
    ensures ParseDuration("90m") == Ok(5400)
  {
    assert "90m"[..2] == "90";
    assert Unsigned("90", false) == "90";
    assert "90"[..1] == "9";
    assert DigitsValue("90", 10) == 90;
  }

  /** `2h` is 7200 seconds. */
  lemma TwoHours()
    ensures ParseDuration("2h") == Ok(7200)
  {
    assert "2h"[..1] == "2";
    assert Unsigned("2", false) == "2";
    assert DigitsValue("2", 10) == 2;
  }

  /** A unit after something that is not a number is rejected. */
  lemma NotANumber()
    ensures ParseDuration("xs").Err?
  {
    assert "xs"[..1] == "x";
    assert !IsDigitOf('x', 10);
  }

  // -------------------------------------------------------------------
  // Arguments.

  datatype DestMode = Unicast | Multicast

  datatype Args = Args(duration: u64, iface: Gvcp.Ipv4, mode: DestMode, group: Option<Gvcp.Ipv4>,
                       port: Option<u16>, ttl: u32, loopback: bool, streamIdx: u32, auto: bool,
                       json: Option<string>)

  /** What `parse_args` hands back: the arguments, the usage text for `--help`, or an error. */
  datatype Outcome = Run(args: Args) | Usage | Failure(message: string)

  /** The loop's locals. */
  datatype Flags = Flags(duration: Option<u64>, iface: Option<Gvcp.Ipv4>, mode: Option<DestMode>,
                         group: Option<Gvcp.Ipv4>, port: Option<u16>, ttl: u32, loopback: bool,
                         streamIdx: u32, auto: bool, json: Option<string>)

  const Defaults := Flags(None, None, None, None, None, 1, false, 0, false, None)

  type Ipv4Parser = string -> Option<Gvcp.Ipv4>

  const BAD_IPV4 := "invalid IPv4 address syntax"

  /** The checks after the loop, in the source's order. */
  function Finish(f: Flags): (r: Outcome)
    ensures r.Run? ==> r.args.ttl <= 255
    ensures r.Run? && r.args.mode == Multicast ==> r.args.group.Some? && r.args.port.Some?
    ensures r.Run? ==> Some(r.args.duration) == f.duration && Some(r.args.iface) == f.iface
    ensures r.Run? ==> Some(r.args.mode) == f.mode
  {
    if f.duration.None? then Failure("--duration is required")
    else if f.iface.None? then Failure("--iface is required")
    else if f.mode.None? then Failure("--dest is required")
    else if f.ttl > 255 then Failure("--ttl must be <= 255")
    else if f.mode.value == Multicast && (f.group.None? || f.port.None?) then
      Failure("multicast mode requires --group and --port")
    else
      Run(Args(f.duration.value, f.iface.value, f.mode.value, f.group, f.port, f.ttl, f.loopback,
               f.streamIdx, f.auto, f.json))
  }

  /** One pass of the loop: the flags after the argument at i (and its value), or where parsing stops. */
  datatype Step = Next(flags: Flags, next: nat) | Stop(outcome: Outcome)

  function StepAt(args: seq<string>, i: nat, f: Flags, parseIpv4: Ipv4Parser): (r: Step)
    requires i < |args|
    ensures r.Next? ==> i < r.next <= |args|
    ensures r.Stop? ==> !r.outcome.Run?
  {
    var arg := args[i];
    var hasValue := i + 1 < |args|;
    if arg == "--duration" then
      if !hasValue then Stop(Failure("--duration requires a value"))
      else match ParseDuration(args[i + 1])
        case Err(e) => Stop(Failure(e))
        case Ok(d) => Next(f.(duration := Some(d)), i + 2)
    else if arg == "--iface" then
      if !hasValue then Stop(Failure("--iface requires an IPv4 address"))
      else match parseIpv4(args[i + 1])
        case None => Stop(Failure(BAD_IPV4))
        case Some(ip) => Next(f.(iface := Some(ip)), i + 2)
    else if arg == "--dest" then
      if !hasValue then Stop(Failure("--dest requires a mode"))
      else if args[i + 1] == "unicast" then Next(f.(mode := Some(Unicast)), i + 2)
      else if args[i + 1] == "multicast" then Next(f.(mode := Some(Multicast)), i + 2)
      else Stop(Failure("unsupported dest mode '" + args[i + 1] + "'; expected unicast or multicast"))
    else if arg == "--group" then
      if !hasValue then Stop(Failure("--group requires an IPv4 address"))
      else match parseIpv4(args[i + 1])
        case None => Stop(Failure(BAD_IPV4))
        case Some(ip) => Next(f.(group := Some(ip)), i + 2)
    else if arg == "--port" then
      if !hasValue then Stop(Failure("--port requires a value"))
      else match ParseUnsigned(args[i + 1], 10, U16_MAX)
        case Err(e) => Stop(Failure(e))
        case Ok(p) => Next(f.(port := Some(p)), i + 2)
    else if arg == "--ttl" then
      if !hasValue then Stop(Failure("--ttl requires a value"))
      else match ParseUnsigned(args[i + 1], 10, U32_MAX)
        case Err(e) => Stop(Failure(e))
        case Ok(t) => Next(f.(ttl := t), i + 2)
    else if arg == "--loopback" then Next(f.(loopback := true), i + 1)
    else if arg == "--stream-idx" then
      if !hasValue then Stop(Failure("--stream-idx requires a value"))
      else match ParseUnsigned(args[i + 1], 10, U32_MAX)
        case Err(e) => Stop(Failure(e))
        case Ok(s) => Next(f.(streamIdx := s), i + 2)
    else if arg == "--auto" then Next(f.(auto := true), i + 1)
    else if arg == "--json" then
      if !hasValue then Stop(Failure("--json requires a path"))
      else Next(f.(json := Some(args[i + 1])), i + 2)
    else if arg == "--help" then Stop(Usage)
    else Stop(Failure("unknown argument: " + arg))
  }

  /** The outcome of the loop from argument i with flags f, followed by the final checks. */
  function ScanFrom(args: seq<string>, i: nat, f: Flags, parseIpv4: Ipv4Parser): (r: Outcome)
    requires i <= |args|
    ensures r.Run? ==> r.args.ttl <= 255
    ensures r.Run? && r.args.mode == Multicast ==> r.args.group.Some? && r.args.port.Some?
    decreases |args| - i
  {
    if i == |args| then Finish(f)
    else match StepAt(args, i, f, parseIpv4)
      case Stop(o) => o
      case Next(g, j) => ScanFrom(args, j, g, parseIpv4)
  }

  /** `parse_args` over the arguments after the program name. */
  function ParseArgs(args: seq<string>, parseIpv4: Ipv4Parser): (r: Outcome)
    ensures r.Run? ==> "--duration" in args && "--iface" in args && "--dest" in args
    ensures r.Run? ==> r.args.ttl <= 255
    ensures r.Run? && r.args.mode == Multicast ==> r.args.group.Some? && r.args.port.Some?
  {
    var r := ScanFrom(args, 0, Defaults, parseIpv4);
    if r.Run? then
      RequiredFlagsFrom(args, 0, Defaults, parseIpv4);
      assert args[0..] == args;
      r
    else r
  }

  /** The argument loop; the record `flags` holds the source's ten locals. */
  method ParseArgsLoop(args: seq<string>, parseIpv4: Ipv4Parser) returns (r: Outcome)
    ensures r == ParseArgs(args, parseIpv4)
  {
    var flags := Defaults;
    var i := 0;
    while i < |args|
      invariant i <= |args|
      invariant ParseArgs(args, parseIpv4) == ScanFrom(args, i, flags, parseIpv4)
      decreases |args| - i
    {
      var stop, next;
      stop, flags, next := ScanArg(args, i, flags, parseIpv4);
      if stop.Some? {
        return stop.value;
      }
      i := next;
    }
    r := Finish(flags);
  }

  /**
   * One pass of the loop body for the first five flags; the others go to
   * `ScanOtherArg`. `stop` is what `parse_args` returns early, if anything.
   */
  method ScanArg(args: seq<string>, i: nat, flags: Flags, parseIpv4: Ipv4Parser)
    returns (stop: Option<Outcome>, flags': Flags, next: nat)
    requires i < |args|
    ensures StepAt(args, i, flags, parseIpv4) == if stop.Some? then Stop(stop.value) else Next(flags', next)
  {
    flags', next := flags, i + 2;
    stop := None;
    var arg := args[i];
    if arg == "--duration" {
      if i + 1 >= |args| {
        return Some(Failure("--duration requires a value")), flags, i;
      }
      var d := ParseDuration(args[i + 1]);
      if d.Err? {
        return Some(Failure(d.error)), flags, i;
      }
      flags' := flags.(duration := Some(d.value));
    } else if arg == "--iface" {
      if i + 1 >= |args| {
        return Some(Failure("--iface requires an IPv4 address")), flags, i;
      }
      var ip := parseIpv4(args[i + 1]);
      if ip.None? {
        return Some(Failure(BAD_IPV4)), flags, i;
      }
      flags' := flags.(iface := ip);
    } else if arg == "--dest" {
      if i + 1 >= |args| {
        return Some(Failure("--dest requires a mode")), flags, i;
      }
      var value := args[i + 1];
      if value == "unicast" {
        flags' := flags.(mode := Some(Unicast));
      } else if value == "multicast" {
        flags' := flags.(mode := Some(Multicast));
      } else {
        return Some(Failure("unsupported dest mode '" + value + "'; expected unicast or multicast")), flags, i;
      }
    } else if arg == "--group" {
      if i + 1 >= |args| {
        return Some(Failure("--group requires an IPv4 address")), flags, i;
      }
      var ip := parseIpv4(args[i + 1]);
      if ip.None? {
        return Some(Failure(BAD_IPV4)), flags, i;
      }
      flags' := flags.(group := ip);
    } else if arg == "--port" {
      if i + 1 >= |args| {
        return Some(Failure("--port requires a value")), flags, i;
      }
      var p := ParseUnsigned(args[i + 1], 10, U16_MAX);
      if p.Err? {
        return Some(Failure(p.error)), flags, i;
      }
      flags' := flags.(port := Some(p.value));
    } else {
      stop, flags', next := ScanOtherArg(args, i, flags, parseIpv4);
    }
  }

  /** The loop body for the remaining flags, `--help` and unknown arguments. */
  method ScanOtherArg(args: seq<string>, i: nat, flags: Flags, parseIpv4: Ipv4Parser)
    returns (stop: Option<Outcome>, flags': Flags, next: nat)
    requires i < |args|
    requires args[i] !in {"--duration", "--iface", "--dest", "--group", "--port"}
    ensures StepAt(args, i, flags, parseIpv4) == if stop.Some? then Stop(stop.value) else Next(flags', next)
  {
    flags', next := flags, i + 2;
    stop := None;
    var arg := args[i];
    if arg == "--ttl" {
      if i + 1 >= |args| {
        return Some(Failure("--ttl requires a value")), flags, i;
      }
      var t := ParseUnsigned(args[i + 1], 10, U32_MAX);
      if t.Err? {
        return Some(Failure(t.error)), flags, i;
      }
      flags' := flags.(ttl := t.value);
    } else if arg == "--loopback" {
      flags', next := flags.(loopback := true), i + 1;
    } else if arg == "--stream-idx" {
      if i + 1 >= |args| {
        return Some(Failure("--stream-idx requires a value")), flags, i;
      }
      var s := ParseUnsigned(args[i + 1], 10, U32_MAX);
      if s.Err? {
        return Some(Failure(s.error)), flags, i;
      }
      flags' := flags.(streamIdx := s.value);
    } else if arg == "--auto" {
      flags', next := flags.(auto := true), i + 1;
    } else if arg == "--json" {
      if i + 1 >= |args| {
        return Some(Failure("--json requires a path")), flags, i;
      }
      flags' := flags.(json := Some(args[i + 1]));
    } else if arg == "--help" {
      stop := Some(Usage);
    } else {
      stop := Some(Failure("unknown argument: " + arg));
    }
  }

  /** A step sets the duration, interface or mode only when its argument is that flag. */
  lemma StepSetsOwnFlag(args: seq<string>, i: nat, f: Flags, parseIpv4: Ipv4Parser)
    requires i < |args| && StepAt(args, i, f, parseIpv4).Next?
    ensures StepAt(args, i, f, parseIpv4).flags.duration.Some? ==> f.duration.Some? || args[i] == "--duration"
    ensures StepAt(args, i, f, parseIpv4).flags.iface.Some? ==> f.iface.Some? || args[i] == "--iface"
    ensures StepAt(args, i, f, parseIpv4).flags.mode.Some? ==> f.mode.Some? || args[i] == "--dest"
  {
    var arg := args[i];
    if arg != "--duration" && arg != "--iface" && arg != "--dest" {
      var g := StepAt(args, i, f, parseIpv4).flags;
      assert g.duration == f.duration && g.iface == f.iface && g.mode == f.mode;
    }
  }

  /** The flags left to set must be named in the arguments still to come. */
  lemma {:induction false} RequiredFlagsFrom(args: seq<string>, i: nat, f: Flags, parseIpv4: Ipv4Parser)
    requires i <= |args|
    requires ScanFrom(args, i, f, parseIpv4).Run?
    ensures f.duration.Some? || "--duration" in args[i..]
    ensures f.iface.Some? || "--iface" in args[i..]
    ensures f.mode.Some? || "--dest" in args[i..]
    decreases |args| - i
  {
    if i < |args| {
      var step := StepAt(args, i, f, parseIpv4);
      assert step.Next?;
      StepSetsOwnFlag(args, i, f, parseIpv4);
      RequiredFlagsFrom(args, step.next, step.flags, parseIpv4);
      assert args[i] in args[i..] by {
        assert args[i] == args[i..][0];
      }
      assert forall x :: x in args[step.next..] ==> x in args[i..] by {
        assert args[step.next..] == args[i..][step.next - i..];
      }
    }
  }

  /** The minimal command line: ttl 1, no group, port or JSON path, stream 0, no flags. */
  lemma MinimalCommandLine(iface: string, ip: Gvcp.Ipv4, parseIpv4: Ipv4Parser)
    requires parseIpv4(iface) == Some(ip)
    ensures ParseArgs(["--duration", "10", "--iface", iface, "--dest", "unicast"], parseIpv4)
      == Run(Args(10, ip, Unicast, None, None, 1, false, 0, false, None))
  {
    MinimalScan(iface, ip, parseIpv4);
  }

  /** The scan behind MinimalCommandLine, one flag at a time. */
  lemma MinimalScan(iface: string, ip: Gvcp.Ipv4, parseIpv4: Ipv4Parser)
    requires parseIpv4(iface) == Some(ip)
    ensures ScanFrom(["--duration", "10", "--iface", iface, "--dest", "unicast"], 0, Defaults, parseIpv4)
      == Run(Args(10, ip, Unicast, None, None, 1, false, 0, false, None))
  {
    var args := ["--duration", "10", "--iface", iface, "--dest", "unicast"];
    TenSeconds();
    var f1 := Defaults.(duration := Some(10));
    var f2 := f1.(iface := Some(ip));
    var f3 := f2.(mode := Some(Unicast));
    StepDuration(args, 0, Defaults, parseIpv4, 10);
    ScanNext(args, 0, Defaults, parseIpv4, f1, 2);
    StepIface(args, 2, f1, parseIpv4, ip);
    ScanNext(args, 2, f1, parseIpv4, f2, 4);
    StepUnicast(args, 4, f2, parseIpv4);
    ScanNext(args, 4, f2, parseIpv4, f3, 6);
    assert ScanFrom(args, 6, f3, parseIpv4) == Finish(f3);
  }

  /** The text "10" is a duration of ten seconds. */
  lemma TenSeconds()
    ensures ParseDuration("10") == Ok(10)
  {
    assert NatToDecimal(10) == "10" by {
      assert NatToDecimal(1) == "1";
      assert NatToDecimal(0) == "0";
    }
    ParseSeconds(10);
  }

  /** A step that goes on leaves the rest of the scan to the next position. */
  lemma ScanNext(args: seq<string>, i: nat, f: Flags, parseIpv4: Ipv4Parser, g: Flags, j: nat)
    requires i < |args| && StepAt(args, i, f, parseIpv4) == Next(g, j)
    ensures ScanFrom(args, i, f, parseIpv4) == ScanFrom(args, j, g, parseIpv4)
  {
  }

  /** `--duration` with a value that parses sets the duration and moves past both. */
  lemma StepDuration(args: seq<string>, i: nat, f: Flags, parseIpv4: Ipv4Parser, d: u64)
    requires i + 1 < |args| && args[i] == "--duration" && ParseDuration(args[i + 1]) == Ok(d)
    ensures StepAt(args, i, f, parseIpv4) == Next(f.(duration := Some(d)), i + 2)
  {
  }

  /** `--iface` with an address that parses sets the interface and moves past both. */
  lemma StepIface(args: seq<string>, i: nat, f: Flags, parseIpv4: Ipv4Parser, ip: Gvcp.Ipv4)
    requires i + 1 < |args| && args[i] == "--iface" && parseIpv4(args[i + 1]) == Some(ip)
    ensures StepAt(args, i, f, parseIpv4) == Next(f.(iface := Some(ip)), i + 2)
  {
  }

  /** `--dest unicast` selects unicast and moves past both. */
  lemma StepUnicast(args: seq<string>, i: nat, f: Flags, parseIpv4: Ipv4Parser)
    requires i + 1 < |args| && args[i] == "--dest" && args[i + 1] == "unicast"
    ensures StepAt(args, i, f, parseIpv4) == Next(f.(mode := Some(Unicast)), i + 2)
  {
  }

  /** Destination modes are matched exactly: `Unicast` is not `unicast`. */
  lemma DestModeCaseSensitive(parseIpv4: Ipv4Parser)
    ensures ParseArgs(["--dest", "Unicast"], parseIpv4)
      == Failure("unsupported dest mode '" + "Unicast" + "'; expected unicast or multicast")
  {
    var args := ["--dest", "Unicast"];
    assert args[1][0] != "unicast"[0] && |args[1]| != |"multicast"|;
    assert StepAt(args, 0, Defaults, parseIpv4)
      == Stop(Failure("unsupported dest mode '" + "Unicast" + "'; expected unicast or multicast"));
  }

  /** The first argument that is no flag ends parsing with an error naming it. */
  lemma UnknownArgument(arg: string, rest: seq<string>, parseIpv4: Ipv4Parser)
    requires arg !in {"--duration", "--iface", "--dest", "--group", "--port", "--ttl", "--loopback",
                      "--stream-idx", "--auto", "--json", "--help"}
    ensures ParseArgs([arg] + rest, parseIpv4) == Failure("unknown argument: " + arg)
  {
    assert ([arg] + rest)[0] == arg;
  }

  /** Multicast without `--port` is rejected once the loop is done. */
  lemma MulticastNeedsPort(f: Flags)
    requires f.duration.Some? && f.iface.Some? && f.mode == Some(Multicast) && f.ttl <= 255
    requires f.port.None?
    ensures Finish(f) == Failure("multicast mode requires --group and --port")
  {
  }
}
