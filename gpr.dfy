/** The vocabulary of the gpr time library that the Node timestamp converter
    is written against: the `gpr_timespec` record, its clock tags, and the
    library primitives the converter calls.  The primitives themselves are
    not part of this model; they are passed in as function values. */
module Gpr {

  const INT64_MIN: int := -0x8000_0000_0000_0000
  const INT64_MAX: int := 0x7fff_ffff_ffff_ffff

  type Int64 = x: int | INT64_MIN <= x <= INT64_MAX
  type Int32 = x: int | -0x8000_0000 <= x <= 0x7fff_ffff

  /** `gpr_clock_type`: three absolute clocks and the relative TIMESPAN kind. */
  datatype ClockType = Monotonic | Realtime | Precise | Timespan

  /** `gpr_timespec`: `tv_sec` is an int64, `tv_nsec` an int32. */
  datatype Timespec = Timespec(sec: Int64, nsec: Int32, clock: ClockType)

  /** The clock-dependent primitives used by the clock-type conversion:
      `gpr_now`, `gpr_time_add` and `gpr_time_sub`. */
  datatype TimeOps = TimeOps(
    now: ClockType -> Timespec,
    add: (Timespec, Timespec) -> Timespec,
    sub: (Timespec, Timespec) -> Timespec)

  /** `gpr_time_from_micros(us, clock_type)`. */
  type FromMicros = (Int64, ClockType) -> Timespec

  /** A clock-type conversion `(t, clock_type) -> t'`, such as `gpr_convert_clock_type`. */
  type Converter = (Timespec, ClockType) -> Timespec

  /** What the conversion expects of the primitives' clock tags: `gpr_now(c)`
      is tagged `c`, a sum carries its first operand's tag, and the difference
      of a time and an absolute time is a TIMESPAN. */
  ghost predicate TagsHonoured(ops: TimeOps) {
    && (forall c :: ops.now(c).clock == c)
    && (forall a, b :: ops.add(a, b).clock == a.clock)
    && (forall a: Timespec, b: Timespec :: b.clock != Timespan ==> ops.sub(a, b).clock == Timespan)
  }

  /** `gpr_time_cmp`, as the lexicographic order on (`tv_sec`, `tv_nsec`).
      The converter only ever asks whether the result is zero. */
  function TimeCmp(a: Timespec, b: Timespec): (r: int)
    ensures r == 0 <==> a.sec == b.sec && a.nsec == b.nsec
    ensures -1 <= r <= 1
  {
    if a.sec < b.sec then -1
    else if a.sec > b.sec then 1
    else if a.nsec < b.nsec then -1
    else if a.nsec > b.nsec then 1
    else 0
  }
}
