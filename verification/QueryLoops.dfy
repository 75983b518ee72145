/** The loops of the queries over the hourly statistics (`storage/store/memory/memory.go`). */
module QueryLoops {
  import opened S = Uptime
  import opened UptimeObjects
  import opened UptimeQueries

  lemma VisitedAll(from: int, to: int, n: nat)
    requires from <= to && n > 0 && from + (n - 1) * HOUR <= to < from + n * HOUR
    ensures n == Visits(from, to)
  {
    assert (to - from) - (n - 1) * HOUR < HOUR;
  }

  /** hourlyStats of the loops: the counters of an hour, if there are any executions in it. */
  method Lookup(uptime: UptimeObjects.Uptime, hour: int) returns (found: bool, b: Bucket)
    requires uptime.Valid()
    ensures found == (At(uptime.Index(), hour).total != 0)
    ensures found ==> hour in uptime.Index() && b == At(uptime.Index(), hour)
  {
    if hour !in uptime.HourlyStatistics || uptime.HourlyStatistics[hour].TotalExecutions == 0 {
      return false, NOTHING;
    }
    return true, uptime.HourlyStatistics[hour].Counters();
  }

  method UptimeOver(uptime: UptimeObjects.Uptime, from: int, to: int) returns (ratio: real)
    requires uptime.Valid() && from <= to
    ensures ratio == Ratio(RangeSum(uptime.Index(), HourOf(from), Visits(from, to)))
    ensures var s := RangeSum(uptime.Index(), HourOf(from), Visits(from, to));
            if s.total == 0 then ratio == 0.0 else ratio * s.total as real == s.successful as real
  {
    ghost var index, n: nat := uptime.Index(), 0;
    var successfulExecutions, totalExecutions, current := 0, 0, from;
    while to - current >= 0
      invariant current == from + n * HOUR && (n > 0 ==> from + (n - 1) * HOUR <= to)
      invariant totalExecutions == RangeSum(index, HourOf(from), n).total
      invariant successfulExecutions == RangeSum(index, HourOf(from), n).successful
    {
      HourAfter(from, n);
      RangeSumGrows(index, HourOf(from), n);
      var found, hourlyStats := Lookup(uptime, HourOf(current));
      if found {
        successfulExecutions := successfulExecutions + hourlyStats.successful;
        totalExecutions := totalExecutions + hourlyStats.total;
      }
      n, current := n + 1, current + HOUR;
    }
    VisitedAll(from, to, n);
    if totalExecutions == 0 {
      return 0.0;
    }
    return successfulExecutions as real / totalExecutions as real;
  }

  method AverageResponseTimeOver(uptime: UptimeObjects.Uptime, from: int, to: int) returns (average: nat)
    requires uptime.Valid() && from <= to
    ensures average == Mean(RangeSum(uptime.Index(), HourOf(from), Visits(from, to)))
  {
    ghost var index, n: nat := uptime.Index(), 0;
    var totalExecutions: nat, totalResponseTime: nat, current := 0, 0, from;
    while to - current >= 0
      invariant current == from + n * HOUR && (n > 0 ==> from + (n - 1) * HOUR <= to)
      invariant totalExecutions == RangeSum(index, HourOf(from), n).total
      invariant totalResponseTime == RangeSum(index, HourOf(from), n).responseTime
    {
      HourAfter(from, n);
      RangeSumGrows(index, HourOf(from), n);
      var found, hourlyStats := Lookup(uptime, HourOf(current));
      if found {
        totalExecutions := totalExecutions + hourlyStats.total;
        totalResponseTime := (totalResponseTime + hourlyStats.responseTime) % TWO64;
      }
      n, current := n + 1, current + HOUR;
    }
    VisitedAll(from, to, n);
    if totalExecutions == 0 {
      return 0;
    }
    return totalResponseTime / totalExecutions;
  }

  method HourlyAverageResponseTimesOver(uptime: UptimeObjects.Uptime, from: int, to: int)
    returns (averages: map<int, nat>)
    requires uptime.Valid() && from <= to
    ensures HourlyOf(uptime.Index(), from, to, averages)
  {
    ghost var index, n: nat := uptime.Index(), 0;
    var current := from;
    averages := map[];
    while to - current >= 0
      invariant current == from + n * HOUR && (n > 0 ==> from + (n - 1) * HOUR <= to)
      invariant averages == HourlyMeans(index, HourOf(from), n)
    {
      HourAfter(from, n);
      var found, hourlyStats := Lookup(uptime, HourOf(current));
      if found {
        averages := averages[HourOf(current) := hourlyStats.responseTime / hourlyStats.total];
      }
      n, current := n + 1, current + HOUR;
    }
    VisitedAll(from, to, n);
    HourlyMeansAnswer(index, from, to);
  }
}
