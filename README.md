# Node binding timestamp converter, in Dafny

The gRPC Node binding converts JavaScript millisecond values (a double,
possibly ±Infinity) to and from the gpr library's `gpr_timespec`: an int64
`tv_sec`, an int32 `tv_nsec` and a clock tag (`MONOTONIC`, `REALTIME`,
`PRECISE`, `TIMESPAN`). Infinite future and infinite past have no tag of their
own. They are reserved bit patterns: `tv_sec` at the top or bottom of the int64
range, and `tv_nsec` = ±999 999 999.

The repository holds two copies of the converter. `src/ext/timeval.cc`
hands clock-type conversion to `gpr_convert_clock_type`. `src/timeval.cpp`
writes the conversion out in five cases. Apart from that, the two files are
line-for-line identical: `src/ext/timeval.cc:26-77` matches
`src/timeval.cpp:7-79`. The model defines the shared part once.

- `gpr.dfy`, module `Gpr`, holds the library vocabulary:
  - `ClockType` and `Timespec`, with `tv_sec` and `tv_nsec` held to their
    int64 and int32 ranges;
  - `TimeOps`, which bundles the injected `gpr_now`, `gpr_time_add` and
    `gpr_time_sub`;
  - the signatures of `gpr_time_from_micros` and of a clock conversion;
  - the hypothesis `TagsHonoured` about the primitives' clock tags;
  - `TimeCmp`, a model of `gpr_time_cmp`.
- `timeval.dfy`, module `Timeval`, holds the converter with the clock
  conversion as a parameter. That parameter is `gpr_convert_clock_type`,
  so this module is `src/ext/timeval.cc`. It also states two properties a
  conversion may have: `KeepsSameClock` and `RetagsSentinels`. The generic
  lemmas assume them.
- `inline_timeval.dfy`, module `InlineTimeval`, holds the five-case
  `ConvertClockType` of `src/timeval.cpp`. `Conversion` proves that this
  conversion has both properties, so every lemma of `Timeval` applies to
  `src/timeval.cpp` with no hypothesis about the conversion.

Input and output types:
- The millisecond input is `Millis = PosInf | NegInf | Finite(micros)`.
  `micros` is the int64 value of `static_cast<int64_t>(millis * 1000)`.
- The output is `ExtReal = PInf | NInf | Fin(value)`, with an exact `real`.

## Model

| member | source | states |
|---|---|---|
| `Gpr.TimeCmp` | src/timeval.cpp:70-73 | the comparison used to recognise sentinels is zero exactly when `tv_sec` and `tv_nsec` both agree; the result is -1, 0 or 1 |
| `Timeval.MakeInfiniteTimespec` | src/timeval.cpp:36-43 | keeps the given clock tag; future gives int64 max and +999 999 999; past gives int64 min and -999 999 999 |
| `Timeval.InfiniteFutureTimespec` | src/timeval.cpp:49-51 | int64 max seconds, 999 999 999 nanoseconds, the given tag |
| `Timeval.InfinitePastTimespec` | src/timeval.cpp:53-55 | int64 min seconds, -999 999 999 nanoseconds, the given tag |
| `Timeval.SentinelsDistinct` | src/ext/timeval.cc:34-53 | future and past of one clock differ in both seconds and nanoseconds and share the tag; sentinels of two clocks differ only in the tag, and are equal exactly when the clocks are |
| `Timeval.SentinelsAreExtremes` | src/ext/timeval.cc:34-41 | under `gpr_time_cmp`, no timespec whose nanoseconds are below one second in magnitude is after the infinite future of its clock or before the infinite past |
| `Timeval.MillisecondsToTimespec` | src/ext/timeval.cc:55-64 | +∞ gives the REALTIME future sentinel; -∞ gives the REALTIME past sentinel; a finite count gives `gpr_time_from_micros(us, REALTIME)`; every output is tagged REALTIME whenever `from_micros` honours its tag |
| `Timeval.TimespecToMilliseconds` | src/ext/timeval.cc:66-77 | with `t` the REALTIME conversion of the input: +∞ exactly when `t` has the future sentinel's fields; -∞ exactly when it has the past sentinel's; otherwise `t.sec*1000 + t.nsec/10^6` |
| `Timeval.DependsOnlyOnConversion` | src/ext/timeval.cc:66-72 | two inputs, possibly under different conversions, whose converted values agree give the same result |
| `Timeval.SentinelToMilliseconds` | src/ext/timeval.cc:66-72 | for a conversion that only retags sentinels, the future sentinel of any clock reads as +∞ and the past sentinel as -∞ |
| `Timeval.InfinityRoundTrip` | src/ext/timeval.cc:55-72 | for a conversion that leaves a REALTIME value unchanged, +∞ and -∞ survive `MillisecondsToTimespec` followed by `TimespecToMilliseconds` |
| `Timeval.MicrosDecomposeUniquely` | src/ext/timeval.cc:61-62 | every int64 microsecond count has exactly one normalised timespec (nanoseconds in [0, 10^9), `sec*10^9 + nsec = us*1000`) on any clock |
| `Timeval.FiniteRoundTrip` | src/ext/timeval.cc:60-76 | a finite count of `us` microseconds reads back as exactly `us/1000` milliseconds, when `from_micros` decomposes it and the conversion keeps REALTIME values |
| `Timeval.WholeMillisecondsRoundTrip` | src/ext/timeval.cc:60-76 | a whole millisecond count `ms` (with `ms*1000` in int64) reads back as exactly `ms` |
| `Timeval.TimespecRoundTrip` | src/ext/timeval.cc:55-76 | a normalised REALTIME timespec on a whole microsecond reads as `us/1000` milliseconds, and `us` microseconds convert back to that same timespec |
| `InlineTimeval.ConvertClockType` | src/timeval.cpp:11-34 | the same clock gives the input unchanged; a sentinel gives the input with only the tag rewritten; when the primitives honour their tags, the result always carries the target tag |
| `InlineTimeval.ShortcutsIgnoreOps` | src/timeval.cpp:12-22 | on the same-clock and sentinel paths the result does not depend on `gpr_now`, `gpr_time_add` or `gpr_time_sub` |
| `InlineTimeval.ArithmeticPaths` | src/timeval.cpp:24-33 | a finite timespec on another clock becomes `sub(t, now(t.clock))` for TIMESPAN, `add(now(target), t)` from TIMESPAN, and `add(now(target), sub(t, now(t.clock)))` between absolute clocks |
| `InlineTimeval.Conversion` | src/timeval.cpp:11-22 | the five-case conversion leaves a value on its own clock unchanged and only retags sentinels, the two properties the shared converter relies on |
| `InlineTimeval.TimespecToMilliseconds` | src/timeval.cpp:68-79 | the future sentinel of any clock gives +∞ and the past sentinel -∞; any other REALTIME or sentinel-second value gives `sec*1000 + nsec/10^6`, whatever the clock reads |
| `InlineTimeval.RoundTrip` | src/timeval.cpp:57-79 | whole milliseconds and both infinities come back unchanged through `MillisecondsToTimespec` and `TimespecToMilliseconds` |

## Left out

- IEEE double arithmetic is not modelled. This covers the rounding of `millis * 1000`, the truncating `static_cast<int64_t>`, overflow for huge magnitudes, NaN inputs, and the double rounding in `tv_sec * 1000 + tv_nsec / 1e6`. The input is an already-truncated int64 microsecond count and the output an exact real.
- `Timeval.TimespecToMilliseconds`: the finite result is exact in reals. The source returns a double, which loses precision for large seconds.
- `gpr_now` reads the system clock. It is a function parameter (`TimeOps.now`), so the clock is one fixed snapshot per conversion.
- `gpr_time_add`, `gpr_time_sub`, `gpr_time_from_micros` and `gpr_convert_clock_type` belong to the gpr library, which is not part of this model. They are function parameters. What the lemmas need of them is written as explicit hypotheses: `TagsHonoured`, `KeepsSameClock`, `RetagsSentinels`, and `Decomposes` for the one microsecond count a lemma names. How `gpr_time_from_micros` treats the extreme counts is not modelled.
- `Gpr.TimeCmp`: `gpr_time_cmp` is modelled as the lexicographic order on (`tv_sec`, `tv_nsec`). The converter only asks whether the result is zero. Two things are not modelled: any special-casing of nanoseconds at the sentinel seconds, and any assertion that both operands share a clock.
- The two copies are modelled once. The shared functions stand for `src/timeval.cpp:36-79` and `src/ext/timeval.cc:34-77` alike. Only the conversion differs between them.
- Header includes, namespaces and build files are not modelled.
