/** The millisecond/timespec converter of the Node binding, with the
    clock-type conversion left as a parameter.  With `convert` standing for
    `gpr_convert_clock_type` this is src/ext/timeval.cc; src/timeval.cpp
    repeats the same code around its own inline conversion, which module
    InlineTimeval supplies. */
module Timeval {
  import opened Gpr

  const NANOS_PER_SECOND: int := 1_000_000_000
  const MAX_FINITE_NANOS: int := NANOS_PER_SECOND - 1

  /** The binding's millisecond input: one of the two IEEE infinities, or a
      finite value already turned into whole microseconds (`millis * 1000`
      truncated to int64). */
  datatype Millis = PosInf | NegInf | Finite(micros: Int64)

  /** The binding's millisecond output, with exact real arithmetic in place
      of doubles. */
  datatype ExtReal = PInf | NInf | Fin(value: real)

  /** Seconds at either end of the int64 range mark an infinite timespec. */
  predicate IsSentinelSeconds(sec: int) {
    sec == INT64_MAX || sec == INT64_MIN
  }

  function MakeInfiniteTimespec(future: bool, clock: ClockType): (r: Timespec)
    ensures r.clock == clock
    ensures future ==> r.sec == INT64_MAX && r.nsec == MAX_FINITE_NANOS
    ensures !future ==> r.sec == INT64_MIN && r.nsec == -MAX_FINITE_NANOS
  {
    Timespec(if future then INT64_MAX else INT64_MIN,
             if future then MAX_FINITE_NANOS else -MAX_FINITE_NANOS,
             clock)
  }

  function InfiniteFutureTimespec(clock: ClockType): (r: Timespec)
    ensures r.sec == INT64_MAX && r.nsec == MAX_FINITE_NANOS && r.clock == clock
  {
    MakeInfiniteTimespec(true, clock)
  }

  function InfinitePastTimespec(clock: ClockType): (r: Timespec)
    ensures r.sec == INT64_MIN && r.nsec == -MAX_FINITE_NANOS && r.clock == clock
  {
    MakeInfiniteTimespec(false, clock)
  }

  /** The two sentinels of one clock differ in both numeric fields; the
      sentinels of two clocks differ only in their tag. */
  lemma SentinelsDistinct(c1: ClockType, c2: ClockType)
    ensures InfiniteFutureTimespec(c1).sec != InfinitePastTimespec(c1).sec
    ensures InfiniteFutureTimespec(c1).nsec != InfinitePastTimespec(c1).nsec
    ensures InfiniteFutureTimespec(c1).clock == InfinitePastTimespec(c1).clock
    ensures InfiniteFutureTimespec(c1).(clock := c2) == InfiniteFutureTimespec(c2)
    ensures InfinitePastTimespec(c1).(clock := c2) == InfinitePastTimespec(c2)
    ensures InfiniteFutureTimespec(c1) == InfiniteFutureTimespec(c2) <==> c1 == c2
    ensures InfinitePastTimespec(c1) == InfinitePastTimespec(c2) <==> c1 == c2
  {
  }

  /** Under `gpr_time_cmp`, no timespec whose nanoseconds are less than a
      second in magnitude lies after the infinite future or before the
      infinite past of its clock. */
  lemma SentinelsAreExtremes(t: Timespec)
    requires -NANOS_PER_SECOND < t.nsec < NANOS_PER_SECOND
    ensures TimeCmp(t, InfiniteFutureTimespec(t.clock)) <= 0
    ensures TimeCmp(InfinitePastTimespec(t.clock), t) <= 0
  {
  }

  function MillisecondsToTimespec(fromMicros: FromMicros, millis: Millis): (r: Timespec)
    ensures millis == PosInf ==> r == InfiniteFutureTimespec(Realtime)
    ensures millis == NegInf ==> r == InfinitePastTimespec(Realtime)
    ensures millis.Finite? ==> r == fromMicros(millis.micros, Realtime)
    ensures (millis.Finite? ==> fromMicros(millis.micros, Realtime).clock == Realtime) ==>
              r.clock == Realtime
  {
    match millis
    case PosInf => InfiniteFutureTimespec(Realtime)
    case NegInf => InfinitePastTimespec(Realtime)
    case Finite(us) => fromMicros(us, Realtime)
  }

  /** `TimespecToMilliseconds`: convert to REALTIME, then recognise the two
      REALTIME sentinels by `gpr_time_cmp`; anything else is
      `tv_sec * 1000 + tv_nsec / 10^6`.  Every answer is about the converted
      value, never about `ts` itself. */
  function TimespecToMilliseconds(convert: Converter, ts: Timespec): (r: ExtReal)
    ensures var t := convert(ts, Realtime);
      && (r == PInf <==> t.sec == INT64_MAX && t.nsec == MAX_FINITE_NANOS)
      && (r == NInf <==> t.sec == INT64_MIN && t.nsec == -MAX_FINITE_NANOS)
      && (r.Fin? ==> r.value == t.sec as real * 1000.0 + t.nsec as real / 1_000_000.0)
  {
    var t := convert(ts, Realtime);
    if TimeCmp(t, InfiniteFutureTimespec(Realtime)) == 0 then PInf
    else if TimeCmp(t, InfinitePastTimespec(Realtime)) == 0 then NInf
    else Fin(t.sec as real * 1000.0 + t.nsec as real / 1_000_000.0)
  }

  /** The result depends on the timespec and the conversion only through the
      converted value. */
  lemma DependsOnlyOnConversion(convert1: Converter, ts1: Timespec,
                                convert2: Converter, ts2: Timespec)
    requires convert1(ts1, Realtime) == convert2(ts2, Realtime)
    ensures TimespecToMilliseconds(convert1, ts1) == TimespecToMilliseconds(convert2, ts2)
  {
  }

  /** A conversion to the clock a timespec already has returns it unchanged. */
  ghost predicate KeepsSameClock(convert: Converter) {
    forall t: Timespec, c: ClockType :: t.clock == c ==> convert(t, c) == t
  }

  /** A conversion leaves the fields of an infinite timespec alone and only
      rewrites its tag. */
  ghost predicate RetagsSentinels(convert: Converter) {
    forall t: Timespec, c: ClockType :: IsSentinelSeconds(t.sec) ==> convert(t, c) == t.(clock := c)
  }

  /** The sentinels of every clock read back as the matching infinity. */
  lemma SentinelToMilliseconds(convert: Converter, c: ClockType)
    requires RetagsSentinels(convert)
    ensures TimespecToMilliseconds(convert, InfiniteFutureTimespec(c)) == PInf
    ensures TimespecToMilliseconds(convert, InfinitePastTimespec(c)) == NInf
  {
    assert convert(InfiniteFutureTimespec(c), Realtime) == InfiniteFutureTimespec(Realtime);
    assert convert(InfinitePastTimespec(c), Realtime) == InfinitePastTimespec(Realtime);
  }

  /** Both infinities survive a trip through the timespec representation. */
  lemma InfinityRoundTrip(convert: Converter, fromMicros: FromMicros)
    requires KeepsSameClock(convert)
    ensures TimespecToMilliseconds(convert, MillisecondsToTimespec(fromMicros, PosInf)) == PInf
    ensures TimespecToMilliseconds(convert, MillisecondsToTimespec(fromMicros, NegInf)) == NInf
  {
    assert convert(InfiniteFutureTimespec(Realtime), Realtime) == InfiniteFutureTimespec(Realtime);
    assert convert(InfinitePastTimespec(Realtime), Realtime) == InfinitePastTimespec(Realtime);
  }

  /** `t` is the normalised timespec of `us` microseconds: nanoseconds in
      [0, 10^9) and `tv_sec * 10^9 + tv_nsec` equal to `us * 1000`. */
  predicate Decomposes(t: Timespec, us: int) {
    0 <= t.nsec < NANOS_PER_SECOND && t.sec * NANOS_PER_SECOND + t.nsec == us * 1000
  }

  /** Every int64 microsecond count has exactly one normalised timespec, and
      it fits the int64/int32 fields; so the decomposition asked of
      `gpr_time_from_micros` below can always be met, and pins its result down. */
  lemma MicrosDecomposeUniquely(us: Int64, clock: ClockType)
    ensures exists t: Timespec :: t.clock == clock && Decomposes(t, us)
    ensures forall t1: Timespec, t2: Timespec ::
              t1.clock == t2.clock && Decomposes(t1, us) && Decomposes(t2, us) ==> t1 == t2
  {
    var t := Timespec(us / 1_000_000, (us % 1_000_000) * 1000, clock);
    assert Decomposes(t, us);
    forall t1: Timespec, t2: Timespec |
      t1.clock == t2.clock && Decomposes(t1, us) && Decomposes(t2, us)
      ensures t1 == t2
    {
      assert (t1.sec - t2.sec) * NANOS_PER_SECOND == t2.nsec - t1.nsec;
    }
  }

  /** A finite microsecond count comes back as the same count of
      milliseconds, when `gpr_time_from_micros` decomposes it. */
  lemma FiniteRoundTrip(convert: Converter, fromMicros: FromMicros, us: Int64)
    requires KeepsSameClock(convert)
    requires fromMicros(us, Realtime).clock == Realtime
    requires Decomposes(fromMicros(us, Realtime), us)
    ensures TimespecToMilliseconds(convert, MillisecondsToTimespec(fromMicros, Finite(us)))
            == Fin(us as real / 1000.0)
  {
    var t := fromMicros(us, Realtime);
    assert convert(t, Realtime) == t;
    assert !IsSentinelSeconds(t.sec);
    assert t.sec as real * 1000.0 + t.nsec as real / 1_000_000.0 == us as real / 1000.0;
  }

  /** Whole milliseconds come back exactly. */
  lemma WholeMillisecondsRoundTrip(convert: Converter, fromMicros: FromMicros, ms: int)
    requires KeepsSameClock(convert)
    requires INT64_MIN <= ms * 1000 <= INT64_MAX
    requires fromMicros(ms * 1000, Realtime).clock == Realtime
    requires Decomposes(fromMicros(ms * 1000, Realtime), ms * 1000)
    ensures TimespecToMilliseconds(convert, MillisecondsToTimespec(fromMicros, Finite(ms * 1000)))
            == Fin(ms as real)
  {
    FiniteRoundTrip(convert, fromMicros, ms * 1000);
  }

  /** The other direction: a normalised REALTIME timespec on a whole
      microsecond reads as `us / 1000` milliseconds, and those `us`
      microseconds convert back to the very same timespec. */
  lemma TimespecRoundTrip(convert: Converter, fromMicros: FromMicros, t: Timespec)
    requires KeepsSameClock(convert)
    requires t.clock == Realtime && 0 <= t.nsec < NANOS_PER_SECOND && t.nsec % 1000 == 0
    requires INT64_MIN <= t.sec * 1_000_000 + t.nsec / 1000 <= INT64_MAX
    requires fromMicros(t.sec * 1_000_000 + t.nsec / 1000, Realtime).clock == Realtime
    requires Decomposes(fromMicros(t.sec * 1_000_000 + t.nsec / 1000, Realtime),
                        t.sec * 1_000_000 + t.nsec / 1000)
    ensures TimespecToMilliseconds(convert, t)
            == Fin((t.sec * 1_000_000 + t.nsec / 1000) as real / 1000.0)
    ensures MillisecondsToTimespec(fromMicros, Finite(t.sec * 1_000_000 + t.nsec / 1000)) == t
  {
    var us: Int64 := t.sec * 1_000_000 + t.nsec / 1000;
    assert Decomposes(t, us);
    FiniteRoundTrip(convert, fromMicros, us);
    var t' := fromMicros(us, Realtime);
    assert (t'.sec - t.sec) * NANOS_PER_SECOND == t.nsec - t'.nsec;
  }
}
