/**
 * The transport statistics: counters that only ever grow by `fetch_add`
 * (so modulo 2^64), and snapshots that copy them.
 */
module Stats {
  import opened Bytes

  /** `u64::wrapping_add`, which is what `AtomicU64::fetch_add` does. */
  function WrappingAdd(x: u64, n: u64): (r: u64)
    ensures x + n < 0x1_0000_0000_0000_0000 ==> r == x + n
    ensures x + n >= 0x1_0000_0000_0000_0000 ==> r + 0x1_0000_0000_0000_0000 == x + n
    ensures n == 0 ==> r == x
  {
    (x + n) % 0x1_0000_0000_0000_0000
  }

  /** A counter moves forward: it grows by n unless it wraps, and then it is below n. */
  lemma CounterGrows(x: u64, n: u64)
    ensures WrappingAdd(x, n) >= x || WrappingAdd(x, n) < n
    ensures WrappingAdd(x, n) >= x <==> x + n < 0x1_0000_0000_0000_0000
  {
  }

  /** `Snapshot` without its clock-derived `elapsed` and `packets_per_second`. */
  datatype StreamSnapshot = StreamSnapshot(packets: u64, resends: u64, resendRanges: u64, droppedFrames: u64,
                                           backpressureDrops: u64, lateFrames: u64, poolExhaustions: u64)

  const ZeroStream := StreamSnapshot(0, 0, 0, 0, 0, 0, 0)

  /** `StreamStats`. */
  class StreamStats {
    var packets: u64
    var resends: u64
    var resendRanges: u64
    var droppedFrames: u64
    var backpressureDrops: u64
    var lateFrames: u64
    var poolExhaustions: u64

    /** `snapshot`: every counter as it stands. */
    function Snapshot(): (s: StreamSnapshot)
      reads this
      ensures s.packets == packets && s.resends == resends && s.resendRanges == resendRanges
      ensures s.droppedFrames == droppedFrames && s.backpressureDrops == backpressureDrops
      ensures s.lateFrames == lateFrames && s.poolExhaustions == poolExhaustions
    {
      StreamSnapshot(packets, resends, resendRanges, droppedFrames, backpressureDrops, lateFrames, poolExhaustions)
    }

    constructor ()
      ensures Snapshot() == ZeroStream
    {
      packets, resends, resendRanges, droppedFrames := 0, 0, 0, 0;
      backpressureDrops, lateFrames, poolExhaustions := 0, 0, 0;
    }

    method RecordPacket()
      modifies this
      ensures Snapshot() == old(Snapshot()).(packets := WrappingAdd(old(packets), 1))
    {
      packets := WrappingAdd(packets, 1);
    }

    method RecordResend()
      modifies this
      ensures Snapshot() == old(Snapshot()).(resends := WrappingAdd(old(resends), 1))
    {
      resends := WrappingAdd(resends, 1);
    }

    /** `record_resend_ranges`: adds the count; zero ranges leave the counter untouched. */
    method RecordResendRanges(ranges: u64)
      modifies this
      ensures Snapshot() == old(Snapshot()).(resendRanges := WrappingAdd(old(resendRanges), ranges))
      ensures ranges == 0 ==> Snapshot() == old(Snapshot())
    {
      if ranges > 0 {
        resendRanges := WrappingAdd(resendRanges, ranges);
      }
    }

    method RecordDrop()
      modifies this
      ensures Snapshot() == old(Snapshot()).(droppedFrames := WrappingAdd(old(droppedFrames), 1))
    {
      droppedFrames := WrappingAdd(droppedFrames, 1);
    }

    method RecordBackpressureDrop()
      modifies this
      ensures Snapshot() == old(Snapshot()).(backpressureDrops := WrappingAdd(old(backpressureDrops), 1))
    {
      backpressureDrops := WrappingAdd(backpressureDrops, 1);
    }

    method RecordLateFrame()
      modifies this
      ensures Snapshot() == old(Snapshot()).(lateFrames := WrappingAdd(old(lateFrames), 1))
    {
      lateFrames := WrappingAdd(lateFrames, 1);
    }

    method RecordPoolExhaustion()
      modifies this
      ensures Snapshot() == old(Snapshot()).(poolExhaustions := WrappingAdd(old(poolExhaustions), 1))
    {
      poolExhaustions := WrappingAdd(poolExhaustions, 1);
    }
  }

  /** Starting from zero, n recorded packets (n below 2^64) read back as n. */
  method CountPackets(n: nat) returns (s: StreamSnapshot)
    requires n < 0x1_0000_0000_0000_0000
    ensures s == ZeroStream.(packets := n)
  {
    var stats := new StreamStats();
    for i := 0 to n
      invariant stats.Snapshot() == ZeroStream.(packets := i)
    {
      stats.RecordPacket();
    }
    s := stats.Snapshot();
  }

  /** `EventSnapshot` without `elapsed`. */
  datatype EventSnapshot = EventSnapshot(received: u64, malformed: u64, filtered: u64)

  /** `EventStats`. */
  class EventStats {
    var received: u64
    var malformed: u64
    var filtered: u64

    function Snapshot(): (s: EventSnapshot)
      reads this
      ensures s.received == received && s.malformed == malformed && s.filtered == filtered
    {
      EventSnapshot(received, malformed, filtered)
    }

    constructor ()
      ensures Snapshot() == EventSnapshot(0, 0, 0)
    {
      received, malformed, filtered := 0, 0, 0;
    }

    method RecordEvent()
      modifies this
      ensures Snapshot() == old(Snapshot()).(received := WrappingAdd(old(received), 1))
    {
      received := WrappingAdd(received, 1);
    }

    method RecordMalformed()
      modifies this
      ensures Snapshot() == old(Snapshot()).(malformed := WrappingAdd(old(malformed), 1))
    {
      malformed := WrappingAdd(malformed, 1);
    }

    method RecordFiltered()
      modifies this
      ensures Snapshot() == old(Snapshot()).(filtered := WrappingAdd(old(filtered), 1))
    {
      filtered := WrappingAdd(filtered, 1);
    }
  }

  datatype ActionSnapshot = ActionSnapshot(sent: u64, acknowledgements: u64, failures: u64)

  /** `ActionStats`. */
  class ActionStats {
    var sent: u64
    var acknowledgements: u64
    var failures: u64

    function Snapshot(): (s: ActionSnapshot)
      reads this
      ensures s.sent == sent && s.acknowledgements == acknowledgements && s.failures == failures
    {
      ActionSnapshot(sent, acknowledgements, failures)
    }

    constructor ()
      ensures Snapshot() == ActionSnapshot(0, 0, 0)
    {
      sent, acknowledgements, failures := 0, 0, 0;
    }

    method RecordSend()
      modifies this
      ensures Snapshot() == old(Snapshot()).(sent := WrappingAdd(old(sent), 1))
    {
      sent := WrappingAdd(sent, 1);
    }

    method RecordAck()
      modifies this
      ensures Snapshot() == old(Snapshot()).(acknowledgements := WrappingAdd(old(acknowledgements), 1))
    {
      acknowledgements := WrappingAdd(acknowledgements, 1);
    }

    method RecordFailure()
      modifies this
      ensures Snapshot() == old(Snapshot()).(failures := WrappingAdd(old(failures), 1))
    {
      failures := WrappingAdd(failures, 1);
    }
  }

  datatype TimeSnapshot = TimeSnapshot(samples: u64, latches: u64, resets: u64)

  /** `TimeStats`. */
  class TimeStats {
    var samples: u64
    var latches: u64
    var resets: u64

    function Snapshot(): (s: TimeSnapshot)
      reads this
      ensures s.samples == samples && s.latches == latches && s.resets == resets
    {
      TimeSnapshot(samples, latches, resets)
    }

    constructor ()
      ensures Snapshot() == TimeSnapshot(0, 0, 0)
    {
      samples, latches, resets := 0, 0, 0;
    }

    method RecordSample()
      modifies this
      ensures Snapshot() == old(Snapshot()).(samples := WrappingAdd(old(samples), 1))
    {
      samples := WrappingAdd(samples, 1);
    }

    method RecordLatch()
      modifies this
      ensures Snapshot() == old(Snapshot()).(latches := WrappingAdd(old(latches), 1))
    {
      latches := WrappingAdd(latches, 1);
    }

    method RecordReset()
      modifies this
      ensures Snapshot() == old(Snapshot()).(resets := WrappingAdd(old(resets), 1))
    {
      resets := WrappingAdd(resets, 1);
    }
  }
}
