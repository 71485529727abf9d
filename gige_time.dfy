/**
 * Device timestamp registers and the GigE host-time mapping
 * (crates/tl-gige/src/time.rs): the SFNC TimestampControl/Value/
 * TickFrequency register accesses over an abstract control channel, and a
 * 32-sample regression window whose anchors are taken from the first sample.
 * The regression arithmetic is floating point and enters as a parameter.
 */
module GigeTime {
  import opened Bytes
  import opened Wrappers

  const REG_TIMESTAMP_CONTROL: u64 := 0x0900_0100
  const REG_TIMESTAMP_VALUE: u64 := 0x0900_0104
  const REG_TIMESTAMP_TICK_FREQUENCY: u64 := 0x0900_010C
  const TIMESTAMP_LATCH_BIT: u32 := 0x0000_0002
  const TIMESTAMP_RESET_BIT: u32 := 0x0000_0001
  const MAX_TIME_WINDOW: nat := 32

  /** `Control` wraps a transport error of the control channel, kept as its message. */
  datatype TimeError = Control(message: string) | Protocol(reason: string)

  /** `write_u32_be`: the four big-endian bytes of `value`. */
  function WriteU32Be(value: u32): (r: seq<u8>)
    ensures |r| == 4 && BeValue(r) == value
  {
    BeValueOfBytes(value, 4);
    Pow2Of32();
    DivModUnique(value, Pow2(32), 0, value);
    U32Be(value)
  }

  /** `parse_u64_be`: a register value must be exactly eight bytes, read big-endian. */
  function ParseU64Be(data: seq<u8>): (r: Result<u64, TimeError>)
    ensures r.Ok? <==> |data| == 8
    ensures r.Ok? ==> r.value == BeValue(data)
    ensures r.Err? ==> r.error == Protocol("unexpected register size")
  {
    if |data| != 8 then Err(Protocol("unexpected register size"))
    else
      assert data[0..8] == data;
      Ok(ReadU64(data, 0))
  }

  /** The eight bytes of a u64 parse back to it. */
  lemma ParseU64BeRoundTrip(v: u64)
    ensures ParseU64Be(U64Be(v)) == Ok(v)
  {
    BeValueOfBytes(v, 8);
    Pow2Of64();
    DivModUnique(v, Pow2(64), 0, v);
  }

  /** The control words are the big-endian 1 and 2. */
  lemma ControlWords()
    ensures WriteU32Be(TIMESTAMP_RESET_BIT) == [0, 0, 0, 1]
    ensures WriteU32Be(TIMESTAMP_LATCH_BIT) == [0, 0, 0, 2]
  {
    U32BeBytes(TIMESTAMP_RESET_BIT);
    U32BeBytes(TIMESTAMP_LATCH_BIT);
  }

  /**
   * The register access the timestamp helpers need. The device's answers
   * are given as `onRead` and `onWrite`; `written` logs every write request.
   */
  class ControlChannel {
    var written: seq<(u64, seq<u8>)>
    const onRead: (u64, nat) -> Result<seq<u8>, TimeError>
    const onWrite: (u64, seq<u8>) -> Result<(), TimeError>

    constructor(onRead: (u64, nat) -> Result<seq<u8>, TimeError>, onWrite: (u64, seq<u8>) -> Result<(), TimeError>)
      ensures written == [] && this.onRead == onRead && this.onWrite == onWrite
    {
      written := [];
      this.onRead := onRead;
      this.onWrite := onWrite;
    }

    method ReadRegister(addr: u64, len: nat) returns (r: Result<seq<u8>, TimeError>)
      ensures r == onRead(addr, len)
    {
      r := onRead(addr, len);
    }

    method WriteRegister(addr: u64, data: seq<u8>) returns (r: Result<(), TimeError>)
      modifies this
      ensures written == old(written) + [(addr, data)]
      ensures r == onWrite(addr, data)
    {
      written := written + [(addr, data)];
      r := onWrite(addr, data);
    }
  }

  /** `timestamp_reset`: writes the reset bit to TimestampControl. */
  method TimestampReset(ctrl: ControlChannel) returns (r: Result<(), TimeError>)
    modifies ctrl
    ensures ctrl.written == old(ctrl.written) + [(0x0900_0100, [0, 0, 0, 1])]
    ensures r == ctrl.onWrite(0x0900_0100, [0, 0, 0, 1])
  {
    ControlWords();
    r := ctrl.WriteRegister(REG_TIMESTAMP_CONTROL, WriteU32Be(TIMESTAMP_RESET_BIT));
  }

  /** `timestamp_latch`: writes the latch bit to TimestampControl. */
  method TimestampLatch(ctrl: ControlChannel) returns (r: Result<(), TimeError>)
    modifies ctrl
    ensures ctrl.written == old(ctrl.written) + [(0x0900_0100, [0, 0, 0, 2])]
    ensures r == ctrl.onWrite(0x0900_0100, [0, 0, 0, 2])
  {
    ControlWords();
    r := ctrl.WriteRegister(REG_TIMESTAMP_CONTROL, WriteU32Be(TIMESTAMP_LATCH_BIT));
  }

  /** A read of an eight-byte register: the channel's error, or the parsed value. */
  function RegisterValue(answer: Result<seq<u8>, TimeError>): (r: Result<u64, TimeError>)
  {
    match answer
    case Err(e) => Err(e)
    case Ok(bytes) => ParseU64Be(bytes)
  }

  /** `read_timestamp_value`: eight bytes at 0x0900_0104. */
  method ReadTimestampValue(ctrl: ControlChannel) returns (r: Result<u64, TimeError>)
    ensures ctrl.onRead(0x0900_0104, 8).Err? ==> r == Err(ctrl.onRead(0x0900_0104, 8).error)
    ensures ctrl.onRead(0x0900_0104, 8).Ok? ==> r == ParseU64Be(ctrl.onRead(0x0900_0104, 8).value)
  {
    var bytes := ctrl.ReadRegister(REG_TIMESTAMP_VALUE, 8);
    r := RegisterValue(bytes);
  }

  /** `read_tick_frequency`: eight bytes at 0x0900_010C. */
  method ReadTickFrequency(ctrl: ControlChannel) returns (r: Result<u64, TimeError>)
    ensures ctrl.onRead(0x0900_010C, 8).Err? ==> r == Err(ctrl.onRead(0x0900_010C, 8).error)
    ensures ctrl.onRead(0x0900_010C, 8).Ok? ==> r == ParseU64Be(ctrl.onRead(0x0900_010C, 8).value)
  {
    var bytes := ctrl.ReadRegister(REG_TIMESTAMP_TICK_FREQUENCY, 8);
    r := RegisterValue(bytes);
  }

  /** A host `Instant`, as a reading of a monotonic clock. */
  type Instant = nat
  /** A host `SystemTime`, as a reading of the wall clock. */
  type SystemTime = int

  datatype Sample = Sample(dev: u64, host: Instant)

  /** The window after one `update`: a full window drops its oldest sample, then the new one is appended. */
  function Slide(w: seq<Sample>, s: Sample): seq<Sample>
  {
    (if |w| == MAX_TIME_WINDOW then w[1..] else w) + [s]
  }

  /** The last `MAX_TIME_WINDOW` samples of a history (all of them when there are fewer). */
  function Latest(history: seq<Sample>): (r: seq<Sample>)
  {
    history[|history| - MinNat(|history|, MAX_TIME_WINDOW)..]
  }

  /** Sliding the latest samples over a new one gives the latest samples of the longer history. */
  lemma SlideLatest(history: seq<Sample>, s: Sample)
    ensures |Latest(history)| <= MAX_TIME_WINDOW
    ensures Slide(Latest(history), s) == Latest(history + [s])
    ensures |Slide(Latest(history), s)| <= MAX_TIME_WINDOW
    ensures Slide(Latest(history), s)[|Slide(Latest(history), s)| - 1] == s
  {
    var n := |history|;
    var h := history + [s];
    if n < MAX_TIME_WINDOW {
      assert Latest(history) == history;
      assert Latest(h) == h;
    } else {
      var w := Latest(history);
      assert w == history[n - 32..];
      assert w[1..] == history[n - 31..];
      assert Latest(h) == h[n + 1 - 32..];
      assert w[1..] + [s] == h[n - 31..];
    }
  }

  class TimeSync {
    /** The mapping coefficients are `f64` in the source. */
    var a: real
    var b: real
    var window: seq<Sample>
    var anchorHost: Instant
    var anchorSystem: SystemTime
    /** Every sample passed to `update`, oldest first. */
    ghost var history: seq<Sample>

    /** The window is the latest 32 samples, and the anchor is the first sample's host instant. */
    ghost predicate Valid()
      reads this
    {
      && window == Latest(history)
      && |window| <= MAX_TIME_WINDOW
      && (|history| > 0 ==> |window| > 0 && anchorHost == history[0].host)
    }

    /** `TimeSync::new`: the identity mapping (1, 0), an empty window, the anchors read from the clocks. */
    constructor(nowHost: Instant, nowSystem: SystemTime)
      ensures Valid() && history == []
      ensures a == 1.0 && b == 0.0 && window == []
      ensures anchorHost == nowHost && anchorSystem == nowSystem
    {
      a, b := 1.0, 0.0;
      window := [];
      anchorHost, anchorSystem := nowHost, nowSystem;
      history := [];
    }

    /**
     * `recompute`: fewer than two samples leave the mapping as it is;
     * otherwise the regression over the window relative to the anchor,
     * given as `regress` and None when its denominator vanishes, replaces it.
     */
    method Recompute(regress: (seq<Sample>, Instant) -> Option<(real, real)>)
      requires Valid()
      modifies this
      ensures Valid() && window == old(window) && history == old(history)
      ensures anchorHost == old(anchorHost) && anchorSystem == old(anchorSystem)
      ensures |window| < 2 || regress(window, anchorHost).None? ==> a == old(a) && b == old(b)
      ensures |window| >= 2 && regress(window, anchorHost).Some? ==> (a, b) == regress(window, anchorHost).value
    {
      if |window| < 2 {
        return;
      }
      var line := regress(window, anchorHost);
      if line.None? {
        return;
      }
      a, b := line.value.0, line.value.1;
    }

    /**
     * `update`: an empty window takes its anchors from this sample (the wall
     * clock read as `nowSystem`); a full window drops its oldest sample; the
     * new one is appended and the mapping recomputed.
     */
    method Update(devTs: u64, hostInstant: Instant, nowSystem: SystemTime,
                  regress: (seq<Sample>, Instant) -> Option<(real, real)>)
      requires Valid()
      modifies this
      ensures Valid() && history == old(history) + [Sample(devTs, hostInstant)]
      ensures window == Slide(old(window), Sample(devTs, hostInstant))
      ensures old(window) == [] ==> anchorHost == hostInstant && anchorSystem == nowSystem
      ensures old(window) != [] ==> anchorHost == old(anchorHost) && anchorSystem == old(anchorSystem)
      ensures |window| < 2 || regress(window, anchorHost).None? ==> a == old(a) && b == old(b)
      ensures |window| >= 2 && regress(window, anchorHost).Some? ==> (a, b) == regress(window, anchorHost).value
    {
      if |window| == 0 {
        anchorHost := hostInstant;
        anchorSystem := nowSystem;
      }
      SlideLatest(history, Sample(devTs, hostInstant));
      if |window| == MAX_TIME_WINDOW {
        window := window[1..];
      }
      window := window + [Sample(devTs, hostInstant)];
      history := history + [Sample(devTs, hostInstant)];
      Recompute(regress);
    }
  }
}
