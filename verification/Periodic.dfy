/** The release times of the real-time threads of `positionreq-sender.c` and `speedcmd-sender.c`. */
module Periodic {

  const NANOS: int := 1_000_000_000
  const UINT64: int := 0x1_0000_0000_0000_0000

  class Timespec {
    var tv_sec: int
    var tv_nsec: int

    ghost predicate Valid()
      reads this
    {
      0 <= tv_nsec < NANOS
    }

    /** The instant as one number of nanoseconds. */
    ghost function Instant(): int
      reads this
    {
      tv_sec * NANOS + tv_nsec
    }

    constructor (sec: int, nsec: int)
      requires 0 <= nsec < NANOS
      ensures Valid() && Instant() == sec * NANOS + nsec
    {
      tv_sec, tv_nsec := sec, nsec;
    }

    /** next_cycle_start.  The 64-bit addition cannot overflow for a cycle time that fits a `long long`. */
    method NextCycleStart(cycle_time_ns: int)
      requires Valid() && 0 <= cycle_time_ns < UINT64 / 2
      modifies this
      ensures Valid() && Instant() == old(Instant()) + cycle_time_ns
      ensures tv_sec * 1_000_000_000 + tv_nsec == old(tv_sec) * 1_000_000_000 + old(tv_nsec) + cycle_time_ns
      ensures 0 <= tv_nsec < 1_000_000_000
    {
      var t_ns := (tv_nsec + cycle_time_ns) % UINT64;
      tv_sec := tv_sec + t_ns / NANOS;
      tv_nsec := t_ns % NANOS;
    }
  }

  /** The loop of rt_thread_run: the n-th wake-up time is exactly n cycles after the start, without drift. */
  method RtThreadRun(ts: Timespec, cycle_time_ns: int, cycles: nat) returns (releases: seq<int>)
    requires ts.Valid() && 0 <= cycle_time_ns < UINT64 / 2
    modifies ts
    ensures ts.Valid() && |releases| == cycles
    ensures forall n :: 0 <= n < cycles ==>
      releases[n] == old(ts.tv_sec) * 1_000_000_000 + old(ts.tv_nsec) + (n + 1) * cycle_time_ns
  {
    releases := [];
    ghost var start := ts.Instant();
    while |releases| < cycles
      invariant |releases| <= cycles && ts.Valid()
      invariant ts.Instant() == start + |releases| * cycle_time_ns
      invariant forall n :: 0 <= n < |releases| ==> releases[n] == start + (n + 1) * cycle_time_ns
    {
      ts.NextCycleStart(cycle_time_ns);
      releases := releases + [ts.tv_sec * NANOS + ts.tv_nsec];
    }
  }
}
