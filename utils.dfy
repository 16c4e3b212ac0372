/**
 * The identifier and clock helpers of agent/utils.py. The random UUID is an
 * opaque string argument and "the current time" is the argument `now`.
 */
module Utils {

  import opened Wrappers
  import TimeUtils

  /**
   * `generate_lead_id`: the UUID, prefixed with `prefix` and an underscore
   * when a non-empty prefix is given.
   */
  function GenerateLeadId(prefix: Option<string>, uuid: string): (leadId: string)
    ensures |uuid| <= |leadId| && leadId[|leadId| - |uuid|..] == uuid
    ensures prefix.Some? && prefix.value != "" ==>
              |leadId| == |prefix.value| + 1 + |uuid|
              && leadId[..|prefix.value|] == prefix.value
              && leadId[|prefix.value|] == '_'
    ensures prefix.None? || prefix.value == "" ==> leadId == uuid
  {
    if prefix.Some? && prefix.value != "" then prefix.value + "_" + uuid else uuid
  }

  /**
   * `simulate_time_advance`: `hours` hours after `currentTime`, or after
   * `now` when no starting time is given.
   */
  function SimulateTimeAdvance(hours: int, currentTime: Option<int>, now: int): (later: int)
    ensures TimeUtils.TimeSince(later, if currentTime.Some? then currentTime.value else now)
            == TimeUtils.Hours(hours)
  {
    var base := if currentTime.Some? then currentTime.value else now;
    base + TimeUtils.Hours(hours)
  }

  /**
   * Advancing the clock by `hours` hours makes a timestamp taken at the old
   * time older than `threshold` hours exactly when `hours` exceeds the
   * threshold.
   */
  lemma AdvancedClockAges(hours: int, start: int, threshold: int)
    ensures TimeUtils.IsOlderThan(SimulateTimeAdvance(hours, Some(start), start), start, threshold)
            <==> hours > threshold
  {
    var later := SimulateTimeAdvance(hours, Some(start), start);
    assert later - start == hours * TimeUtils.SecondsPerHour;
    if hours > threshold {
      assert hours * 3600 > threshold * 3600;
    } else {
      assert hours * 3600 <= threshold * 3600;
    }
  }
}
