/** Timer and sequence-number arithmetic of a connection. */
module Timing {
  import opened Words

  /** The period, in milliseconds, at which connections are serviced. */
  const TICK_MS: nat := 10

  /** The requested packet interval in milliseconds as the producer uses it. */
  function RequestedInterval(microseconds: nat): (ms: nat)
    ensures ms < WORD16
  {
    var remainder := microseconds % (TICK_MS * 1000);
    if remainder == 0 then microseconds / 1000 % WORD16
    else (microseconds / 1000 - remainder / 1000) % WORD16
  }

  /** The interval rounded up, whose being zero switches production off. */
  function ExpectedPacketRate(microseconds: nat): (ms: nat)
    ensures ms < WORD16
  {
    var remainder := microseconds % (TICK_MS * 1000);
    if remainder == 0 then microseconds / 1000 % WORD16
    else (microseconds / 1000 + TICK_MS - remainder / 1000) % WORD16
  }

  predicate Due(timer: nat, elapsed: nat) {
    timer <= elapsed
  }

  /** The transmission trigger timer after a tick: reloaded when due, and never below zero. */
  function NextTrigger(timer: nat, elapsed: nat, interval: nat): nat {
    if Due(timer, elapsed) then
      if timer + interval > elapsed then timer + interval - elapsed else 0
    else timer - elapsed
  }

  /** The inactivity watchdog value: O->T interval in milliseconds times 4, 8, 16, ... The stack shifts a 64-bit number by
      2 plus an 8-bit multiplier that nobody checks; this value is what it gets up to a multiplier of 39. */
  function WatchdogValue(microseconds: nat, multiplier: nat): nat {
    microseconds / 1000 * Pow2(2 + multiplier)
  }

  function Pow2(n: nat): nat {
    if n == 0 then 1 else 2 * Pow2(n - 1)
  }

  function InitialWatchdog(microseconds: nat, multiplier: nat): nat {
    if WatchdogValue(microseconds, multiplier) > 10000 then WatchdogValue(microseconds, multiplier) else 10000
  }

  /** `SEQ_GT32`: the difference, taken as a signed 32-bit number, is positive. */
  predicate SequenceGreater(a: nat, b: nat) {
    0 < (a - b) % WORD32 < WORD32 / 2
  }
}
