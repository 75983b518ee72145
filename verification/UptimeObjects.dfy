/**
 The hourly statistics as the objects that are updated in place (`config/endpoint/uptime.go`,
 `storage/store/memory/uptime.go`).
 */
module UptimeObjects {
  import opened S = Uptime

  class HourlyUptimeStatistics {
    var TotalExecutions: nat
    var SuccessfulExecutions: nat
    var TotalExecutionsResponseTime: nat

    constructor ()
      ensures Counters() == NOTHING
    {
      TotalExecutions, SuccessfulExecutions, TotalExecutionsResponseTime := 0, 0, 0;
    }

    function Counters(): Bucket
      reads this
    {
      Bucket(TotalExecutions, SuccessfulExecutions, TotalExecutionsResponseTime)
    }

    /** Counts one more result. */
    method Count(r: S.Result)
      modifies this
      ensures Counters() == Counted(old(Counters()), r)
    {
      if r.success {
        SuccessfulExecutions := SuccessfulExecutions + 1;
      }
      TotalExecutions := TotalExecutions + 1;
      TotalExecutionsResponseTime := (TotalExecutionsResponseTime + ToUint64(Milliseconds(r.duration))) % TWO64;
    }
  }

  lemma NoHour(hours: set<int>)
    requires forall h :: h !in hours
    ensures hours == {}
  {
    assert forall h :: h in hours <==> h in {};
  }

  lemma SomeHour(hours: set<int>)
    requires hours != {}
    ensures exists h :: h in hours
  {
    if forall h :: h !in hours {
      NoHour(hours);
    }
  }

  class Uptime {
    var HourlyStatistics: map<int, HourlyUptimeStatistics>

    ghost var Repr: set<object>

    constructor ()
      ensures HourlyStatistics == map[] && Valid() && Index() == map[] && Repr == {this}
    {
      HourlyStatistics, Repr := map[], {this};
    }

    /** Every hour has an object of its own. */
    ghost predicate Valid()
      reads this
    {
      && this in Repr
      && (forall h | h in HourlyStatistics :: HourlyStatistics[h] in Repr - {this})
      && forall h, k | h in HourlyStatistics && k in HourlyStatistics && h != k ::
        HourlyStatistics[h] != HourlyStatistics[k]
    }

    ghost function Index(): S.Index
      requires Valid()
      reads this, Repr
    {
      map h | h in HourlyStatistics :: HourlyStatistics[h].Counters()
    }

    /** processUptimeAfterResult */
    method ProcessUptimeAfterResult(r: S.Result, now: int)
      requires Valid()
      modifies Repr
      ensures Valid() && fresh(Repr - old(Repr)) && old(Repr) <= Repr
      ensures Index() == Process(old(Index()), r, now)
    {
      CountResult(r);
      assert |HourlyStatistics| == |Index()| by {
        assert HourlyStatistics.Keys == Index().Keys;
      }
      if |HourlyStatistics| > CLEAN_UP_THRESHOLD {
        CleanUp(CutOff(now));
      }
    }

    method CountResult(r: S.Result)
      requires Valid()
      modifies Repr
      ensures Valid() && fresh(Repr - old(Repr)) && old(Repr) <= Repr
      ensures Index() == WithResult(old(Index()), r)
    {
      var hour := HourOf(r.timestamp);
      var hourlyStats;
      if hour in HourlyStatistics {
        hourlyStats := HourlyStatistics[hour];
      } else {
        hourlyStats := new HourlyUptimeStatistics();
        HourlyStatistics, Repr := HourlyStatistics[hour := hourlyStats], Repr + {hourlyStats};
      }
      hourlyStats.Count(r);
      assert forall h | h in old(HourlyStatistics) && h != hour ::
             HourlyStatistics[h].Counters() == old(HourlyStatistics[h].Counters());
      assert Index() == WithResult(old(Index()), r);
    }

    /** The hours are visited in no particular order. */
    method CleanUp(cutOff: int)
      requires Valid()
      modifies this`HourlyStatistics
      ensures Valid()
      ensures Index() == CleanedUp(old(Index()), cutOff)
    {
      ghost var before := HourlyStatistics;
      var hours: set<int> := HourlyStatistics.Keys;
      while hours != {}
        invariant hours <= before.Keys && Valid()
        invariant forall h :: h in HourlyStatistics <==> h in before && (h in hours || h >= cutOff)
        invariant forall h | h in HourlyStatistics :: HourlyStatistics[h] == before[h]
        decreases hours
      {
        SomeHour(hours);
        var hour :| hour in hours;
        if cutOff > hour {
          HourlyStatistics := HourlyStatistics - {hour};
        }
        hours := hours - {hour};
      }
      assert forall h | h in HourlyStatistics :: h in before && h >= cutOff && HourlyStatistics[h] == before[h];
      assert Index() == CleanedUp(old(Index()), cutOff);
    }
  }
}
