/** Network-interface helpers: the GVSP payload an MTU leaves, and the wildcard bind address. */
module Nic {
  import opened Bytes
  import Action

  /** IPv4 (20), UDP (8) and GVSP (8) header bytes. */
  const OVERHEAD: nat := 20 + 8 + 8

  /** `u32::saturating_sub`. */
  function SaturatingSub(a: u32, b: u32): (r: u32)
    ensures a >= b ==> r + b == a
    ensures a < b ==> r == 0
  {
    if a >= b then a - b else 0
  }

  /** `max_payload_from_mtu`: the MTU less the header overhead, never below zero. */
  function MaxPayloadFromMtu(mtu: u32): (r: u32)
    ensures mtu >= 36 ==> r == mtu - 36
    ensures mtu < 36 ==> r == 0
    ensures r <= mtu
  {
    SaturatingSub(mtu, OVERHEAD)
  }

  /** A larger MTU never leaves a smaller payload. */
  lemma MaxPayloadMonotone(a: u32, b: u32)
    requires a <= b
    ensures MaxPayloadFromMtu(a) <= MaxPayloadFromMtu(b)
    ensures MaxPayloadFromMtu(b) - MaxPayloadFromMtu(a) <= b - a
  {
  }

  /** `default_bind_addr`: the unspecified IPv4 address 0.0.0.0. */
  function DefaultBindAddr(): (a: Action.IpAddr)
    ensures a.V4? && a.ip == 0
  {
    Action.V4(0)
  }
}
