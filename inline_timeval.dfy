/** src/timeval.cpp: the same converter as module Timeval, but with the
    clock-type conversion written out in five cases instead of delegated to
    `gpr_convert_clock_type`.  `gpr_now`, `gpr_time_add` and `gpr_time_sub`
    come in through `ops`. */
module InlineTimeval {
  import opened Gpr
  import Timeval

  function ConvertClockType(ops: TimeOps, t: Timespec, target: ClockType): (r: Timespec)
    ensures t.clock == target ==> r == t
    ensures Timeval.IsSentinelSeconds(t.sec) ==> r == t.(clock := target)
    ensures TagsHonoured(ops) ==> r.clock == target
  {
    if t.clock == target then t
    else if Timeval.IsSentinelSeconds(t.sec) then t.(clock := target)
    else if target == Timespan then ops.sub(t, ops.now(t.clock))
    else if t.clock == Timespan then ops.add(ops.now(target), t)
    else ops.add(ops.now(target), ops.sub(t, ops.now(t.clock)))
  }

  /** On the two shortcut paths the conversion never consults the clock or
      the time arithmetic. */
  lemma ShortcutsIgnoreOps(ops1: TimeOps, ops2: TimeOps, t: Timespec, target: ClockType)
    requires t.clock == target || Timeval.IsSentinelSeconds(t.sec)
    ensures ConvertClockType(ops1, t, target) == ConvertClockType(ops2, t, target)
  {
  }

  /** The three arithmetic paths, for a finite timespec on another clock. */
  lemma ArithmeticPaths(ops: TimeOps, t: Timespec, target: ClockType)
    requires t.clock != target && !Timeval.IsSentinelSeconds(t.sec)
    ensures target == Timespan ==>
              ConvertClockType(ops, t, target) == ops.sub(t, ops.now(t.clock))
    ensures target != Timespan && t.clock == Timespan ==>
              ConvertClockType(ops, t, target) == ops.add(ops.now(target), t)
    ensures target != Timespan && t.clock != Timespan ==>
              ConvertClockType(ops, t, target)
              == ops.add(ops.now(target), ops.sub(t, ops.now(t.clock)))
  {
  }

  /** The inline conversion as a `Converter`; it has both properties that
      module Timeval asks of `gpr_convert_clock_type`. */
  function Conversion(ops: TimeOps): (convert: Converter)
    ensures Timeval.KeepsSameClock(convert)
    ensures Timeval.RetagsSentinels(convert)
  {
    (t: Timespec, c: ClockType) => ConvertClockType(ops, t, c)
  }

  function TimespecToMilliseconds(ops: TimeOps, ts: Timespec): (r: Timeval.ExtReal)
    ensures ts.sec == INT64_MAX && ts.nsec == Timeval.MAX_FINITE_NANOS ==> r == Timeval.PInf
    ensures ts.sec == INT64_MIN && ts.nsec == -Timeval.MAX_FINITE_NANOS ==> r == Timeval.NInf
    ensures (ts.clock == Realtime || Timeval.IsSentinelSeconds(ts.sec))
            && !(ts.sec == INT64_MAX && ts.nsec == Timeval.MAX_FINITE_NANOS)
            && !(ts.sec == INT64_MIN && ts.nsec == -Timeval.MAX_FINITE_NANOS)
            ==> r == Timeval.Fin(ts.sec as real * 1000.0 + ts.nsec as real / 1_000_000.0)
  {
    Timeval.TimespecToMilliseconds(Conversion(ops), ts)
  }

  /** Whole milliseconds and both infinities come back unchanged through the
      inline conversion, whatever the clock reads. */
  lemma RoundTrip(ops: TimeOps, fromMicros: FromMicros, ms: int)
    requires INT64_MIN <= ms * 1000 <= INT64_MAX
    requires fromMicros(ms * 1000, Realtime).clock == Realtime
    requires Timeval.Decomposes(fromMicros(ms * 1000, Realtime), ms * 1000)
    ensures TimespecToMilliseconds(ops, Timeval.MillisecondsToTimespec(fromMicros, Timeval.Finite(ms * 1000)))
            == Timeval.Fin(ms as real)
    ensures TimespecToMilliseconds(ops, Timeval.MillisecondsToTimespec(fromMicros, Timeval.PosInf))
            == Timeval.PInf
    ensures TimespecToMilliseconds(ops, Timeval.MillisecondsToTimespec(fromMicros, Timeval.NegInf))
            == Timeval.NInf
  {
    Timeval.WholeMillisecondsRoundTrip(Conversion(ops), fromMicros, ms);
  }
}
