/** Windows system time (`FILETIME`: 100-nanosecond ticks since
    1601-01-01 UTC) and its conversion `uepoch` to microseconds since the
    Unix epoch, in `uint64_t` arithmetic. */
module FileTime {
  import opened MachineInt

  datatype FileTime = FileTime(high: uint32, low: uint32)

  const TICKS_PER_MICROSECOND: nat := 10

  /** Microseconds from 1601-01-01 to 1970-01-01. */
  const EPOCH_OFFSET_US: nat := 11644473600000000

  /** The same instant in ticks. */
  const EPOCH_OFFSET_TICKS: nat := 116444736000000000

  /** `tt = high; tt <<= 32; tt |= low`: the low half is below 2^32, so the
      or is an addition. */
  function Ticks(ft: FileTime): (t: uint64)
    ensures t / TWO_TO_32 == ft.high && t % TWO_TO_32 == ft.low
  {
    ft.high * TWO_TO_32 + ft.low
  }

  function FromTicks(t: uint64): FileTime {
    FileTime(t / TWO_TO_32, t % TWO_TO_32)
  }

  /** Every 64-bit tick count has exactly one `FILETIME`. */
  lemma TicksRoundTrip(t: uint64, ft: FileTime)
    ensures Ticks(FromTicks(t)) == t
    ensures FromTicks(Ticks(ft)) == ft
  {
  }

  /** `uepoch`: divide by ten, subtract the offset, all in `uint64_t`. */
  function UEpoch(ft: FileTime): uint64 {
    WrapUint64(Ticks(ft) / TICKS_PER_MICROSECOND - EPOCH_OFFSET_US)
  }

  /** From 1970 on, the result is the microseconds elapsed since 1970. */
  lemma UEpochSinceUnixEpoch(ft: FileTime)
    requires Ticks(ft) >= EPOCH_OFFSET_TICKS
    ensures UEpoch(ft) == (Ticks(ft) - EPOCH_OFFSET_TICKS) / TICKS_PER_MICROSECOND
  {
  }

  /** A later system time never gives an earlier timestamp (from 1970 on). */
  lemma UEpochMonotonic(a: FileTime, b: FileTime)
    requires EPOCH_OFFSET_TICKS <= Ticks(a) <= Ticks(b)
    ensures UEpoch(a) <= UEpoch(b)
  {
    UEpochSinceUnixEpoch(a);
    UEpochSinceUnixEpoch(b);
  }

  /** Handed to Emacs as `intmax_t`, the timestamp is the signed microsecond
      count since 1970 for every `FILETIME`: the `uint64_t` wrap-around of a
      time before 1970 is undone by the conversion. */
  lemma UEpochAsSigned(ft: FileTime)
    ensures ToInt64(UEpoch(ft)) == Ticks(ft) / TICKS_PER_MICROSECOND - EPOCH_OFFSET_US
  {
  }
}
