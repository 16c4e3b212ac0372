/**
 * Timestamp arithmetic of the time simulator (simulations/time_utils.py).
 * Timestamps are whole seconds; the current time is passed in as `now`
 * instead of being read from the clock.
 */
module TimeUtils {

  const SecondsPerHour: int := 3600

  /** The length of `hours` hours, in seconds (Python's `timedelta(hours=hours)`). */
  function Hours(hours: int): int
  {
    hours * SecondsPerHour
  }

  /** `TimeSimulator.time_since`: the time elapsed between `timestamp` and `now`. */
  function TimeSince(now: int, timestamp: int): (elapsed: int)
    ensures timestamp + elapsed == now
    ensures elapsed > 0 <==> timestamp < now
  {
    now - timestamp
  }

  /**
   * `TimeSimulator.is_older_than`: strictly more than `hours` hours have
   * elapsed since `timestamp`. Stated here in the form the session store's
   * idle scan uses (`last_activity < now - hours`), and with the two
   * boundary cases: a timestamp exactly `hours` old is not older, and for a
   * non-negative threshold a timestamp that is not in the past is not older.
   */
  function IsOlderThan(now: int, timestamp: int, hours: int): (older: bool)
    ensures older <==> timestamp < now - Hours(hours)
    ensures TimeSince(now, timestamp) == Hours(hours) ==> !older
    ensures hours >= 0 && timestamp >= now ==> !older
  {
    TimeSince(now, timestamp) > Hours(hours)
  }
}
