/** The millisecond clock, and the difference of two of its readings (library/include/dn_thread.h). */
module Clock {

  type Time = t: nat | t < 0x1_0000_0000

  /** calc_time_diff, in 32 bits. */
  function TimeDiff(start: Time, end: Time): Time {
    if end >= start then end - start else (0xFFFF_FFFF - end + start) % 0x1_0000_0000
  }

  /** The macro gives the time that has passed, modulo the range of the clock, exactly if the clock
      has not wrapped in between. */
  lemma DiffIsPassedExactly(start: Time, end: Time)
    ensures TimeDiff(start, end) == (end - start) % 0x1_0000_0000 <==> start <= end
  {
  }

  /** One millisecond across the wrap counts as nearly the whole range. */
  lemma WrapCountsLong()
    ensures TimeDiff(0xFFFF_FFFF, 0) == 0xFFFF_FFFE && (0 - 0xFFFF_FFFF) % 0x1_0000_0000 == 1
  {
  }
}
