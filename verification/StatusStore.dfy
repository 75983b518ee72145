/**
 The in-memory status store (`storage/store/memory/memory.go`): every field and every query agrees with the history.
 */
module StatusStore {
  import opened EndpointStatus
  import opened EventLog
  import opened QueryLoops
  import opened Slices
  import opened Uptime
  import opened UptimeQueries
  import W = Wrappers

  datatype StoreError = ErrEndpointNotFound | ErrInvalidTimeRange

  lemma SetAgain<V>(m: map<string, V>, k: string)
    requires k in m
    ensures m[k := m[k]] == m
  {
  }

  class Store {
    const maximumNumberOfResults: nat
    const maximumNumberOfEvents: nat
    var endpointCache: map<string, Status>

    ghost var Repr: set<object>

    constructor (maximumNumberOfResults: nat, maximumNumberOfEvents: nat)
      ensures Valid() && fresh(Repr) && endpointCache == map[]
      ensures this.maximumNumberOfResults == maximumNumberOfResults
              && this.maximumNumberOfEvents == maximumNumberOfEvents
    {
      this.maximumNumberOfResults, this.maximumNumberOfEvents := maximumNumberOfResults, maximumNumberOfEvents;
      endpointCache, Repr := map[], {this};
    }

    /** The status belongs to this store, and is what its history makes of it. */
    ghost predicate Holds(s: Status)
      reads this, Repr
    {
      && s in Repr && s.Repr <= Repr && this !in s.Repr
      && s.Valid() && s.Agrees(maximumNumberOfResults, maximumNumberOfEvents)
    }

    ghost predicate Valid()
      reads this, Repr
    {
      && this in Repr
      && (forall k | k in endpointCache :: Holds(endpointCache[k]))
      && forall k, l | k in endpointCache && l in endpointCache && k != l ::
           endpointCache[k].Repr !! endpointCache[l].Repr
    }

    /** A status nothing was written to still belongs to the store. */
    twostate lemma Untouched(s: Status)
      requires old(Holds(s)) && old(Repr) <= Repr && unchanged(old(s.Repr))
      ensures Holds(s)
    {
    }

    /** The status may be written to without touching the statuses of other endpoints. */
    ghost predicate Apart(endpointKey: string, status: Status)
      reads this, status, endpointCache.Values
    {
      && this !in status.Repr
      && (endpointKey in endpointCache ==> endpointCache[endpointKey] == status)
      && forall k | k in endpointCache && k != endpointKey :: endpointCache[k].Repr !! status.Repr
    }

    /** Writing to one status and putting it in the cache leaves the store valid. */
    twostate lemma StillValid(new endpointKey: string, status: Status)
      requires old(Valid())
      requires old(Apart(endpointKey, status))
      requires unchanged(old(Repr) - old(status.Repr) - {this})
      requires forall o | o in status.Repr :: o in old(status.Repr) || (fresh(o) && o != this)
      requires endpointCache == old(endpointCache)[endpointKey := status] && Repr == old(Repr) + status.Repr
      requires Holds(status)
      ensures Valid()
    {
      forall k | k in endpointCache && k != endpointKey
        ensures Holds(endpointCache[k]) && endpointCache[k].Repr !! status.Repr
                && endpointCache[k].Repr == old(endpointCache[k].Repr)
      {
        assert endpointCache[k] in old(endpointCache).Values;
        Untouched(endpointCache[k]);
      }
    }

    /** AddResult and Set. */
    method AddAndSet(endpointKey: string, status: Status, result: Uptime.Result, now: int, spare: Spare)
      requires Valid() && Apart(endpointKey, status)
      requires status.Valid() && status.Agrees(maximumNumberOfResults, maximumNumberOfEvents)
      modifies status.Repr, this`endpointCache, this`Repr
      ensures Valid() && forall o | o in Repr :: o in old(Repr) || o in old(status.Repr) || fresh(o)
      ensures endpointCache == old(endpointCache)[endpointKey := status]
      ensures status.history == old(status.history) + [Insertion(result, now)] && status.started == old(status.started)
      ensures status.Results.lent == old(status.Results.lent) && status.Events.lent == old(status.Events.lent)
    {
      AddToHistory(status, result, maximumNumberOfResults, maximumNumberOfEvents, now, spare);
      endpointCache := endpointCache[endpointKey := status];
      Repr := Repr + status.Repr;
      StillValid(endpointKey, status);
    }

    /** An insertion for an endpoint that has been seen before. */
    method InsertKnown(endpointKey: string, result: Uptime.Result, now: int, spare: Spare)
      requires Valid() && endpointKey in endpointCache
      modifies this`endpointCache, this`Repr, endpointCache[endpointKey].Repr
      ensures Valid() && fresh(Repr - old(Repr))
      ensures endpointCache == old(endpointCache)
      ensures var s := endpointCache[endpointKey];
              && s.history == old(s.history) + [Insertion(result, now)] && s.started == old(s.started)
              && s.Results.lent == old(s.Results.lent) && s.Events.lent == old(s.Events.lent)
    {
      SetAgain(endpointCache, endpointKey);
      AddAndSet(endpointKey, endpointCache[endpointKey], result, now, spare);
    }

    /** An insertion for a new endpoint. */
    method InsertNew(
      group: string, name: string, endpointKey: string, result: Uptime.Result, firstSeen: int, now: int, spare: Spare)
      requires Valid() && endpointKey !in endpointCache
      modifies this`endpointCache, this`Repr
      ensures Valid() && fresh(Repr - old(Repr))
      ensures forall k :: k in endpointCache <==> k in old(endpointCache) || k == endpointKey
      ensures forall k | k in old(endpointCache) :: endpointCache[k] == old(endpointCache)[k]
      ensures var s := endpointCache[endpointKey]; s.history == [Insertion(result, now)] && s.started == firstSeen
    {
      var status := NewStatus(group, name, endpointKey, firstSeen, spare.events);
      AddAndSet(endpointKey, status, result, now, spare);
    }

    /**
     The history of the endpoint grows by the result, and everything lent from it stays lent with what it showed first.
     Nothing is written to the statuses of other endpoints.
     */
    method InsertEndpointResult(
      group: string, name: string, endpointKey: string, result: Uptime.Result, firstSeen: int, now: int, spare: Spare)
      requires Valid()
      modifies this`endpointCache, this`Repr
      modifies if endpointKey in endpointCache then endpointCache[endpointKey].Repr else {}
      ensures Valid() && fresh(Repr - old(Repr))
      ensures endpointKey in old(endpointCache) ==>
                var s := old(endpointCache)[endpointKey];
                && endpointCache == old(endpointCache)
                && s.history == old(s.history) + [Insertion(result, now)] && s.started == old(s.started)
                && s.Results.lent == old(s.Results.lent) && s.Events.lent == old(s.Events.lent)
      ensures endpointKey !in old(endpointCache) ==>
                && (forall k :: k in endpointCache <==> k in old(endpointCache) || k == endpointKey)
                && (forall k | k in old(endpointCache) :: endpointCache[k] == old(endpointCache)[k])
                && endpointCache[endpointKey].history == [Insertion(result, now)]
                && endpointCache[endpointKey].started == firstSeen
    {
      if endpointKey in endpointCache {
        InsertKnown(endpointKey, result, now, spare);
      } else {
        InsertNew(group, name, endpointKey, result, firstSeen, now, spare);
      }
    }

    // ---------- queries ----------

    /** So does writing to one status in place. */
    twostate lemma StillValidInPlace(new key: string)
      requires old(Valid()) && key in old(endpointCache)
      requires unchanged(this)
      requires Holds(endpointCache[key]) && endpointCache[key].Repr == old(endpointCache[key].Repr)
      requires unchanged(old(Repr) - old(endpointCache[key].Repr))
      ensures Valid()
    {
      forall k | k in endpointCache && k != key
        ensures Holds(endpointCache[k]) && endpointCache[k].Repr == old(endpointCache[k].Repr)
      {
        assert endpointCache[k] in old(endpointCache).Values;
        Untouched(endpointCache[k]);
      }
    }

    /** And so does lending from it. */
    twostate lemma StillValidLending(new key: string)
      requires old(Valid()) && key in old(endpointCache)
      requires unchanged(this) && unchanged(old(Repr) - {endpointCache[key].Results, endpointCache[key].Events})
      requires Holds(endpointCache[key]) && endpointCache[key].Repr == old(endpointCache[key].Repr)
      ensures Valid()
    {
      StillValidInPlace(key);
    }

    method CopyKnown(key: string, params: W.Option<Params>) returns (copy: Status)
      requires Valid() && key in endpointCache
      modifies endpointCache[key].Results`lent, endpointCache[key].Events`lent
      ensures Valid()
      ensures fresh(copy) && Copied(endpointCache[key], copy, params, maximumNumberOfResults, maximumNumberOfEvents)
      ensures StillLent(old(endpointCache[key].Results.lent), endpointCache[key].Results.lent)
      ensures StillLent(old(endpointCache[key].Events.lent), endpointCache[key].Events.lent)
    {
      copy := CopyOfHistory(endpointCache[key], params, maximumNumberOfResults, maximumNumberOfEvents);
      StillValidLending(key);
    }

    /**
     A copy of what the history makes of the endpoint; it shows views of the live lists, which are lent from now on.
     */
    method GetEndpointStatusByKey(key: string, params: W.Option<Params>) returns (r: W.Result<Status, StoreError>)
      requires Valid()
      modifies (if key in endpointCache then {endpointCache[key].Results} else {})`lent
      modifies (if key in endpointCache then {endpointCache[key].Events} else {})`lent
      ensures Valid()
      ensures key !in endpointCache ==> r == W.Failure(ErrEndpointNotFound)
      ensures key in endpointCache ==> 
                && r.Success? && fresh(r.value)
                && Copied(endpointCache[key], r.value, params, maximumNumberOfResults, maximumNumberOfEvents)
      ensures key in endpointCache ==>
                && StillLent(old(endpointCache[key].Results.lent), endpointCache[key].Results.lent)
                && StillLent(old(endpointCache[key].Events.lent), endpointCache[key].Events.lent)
    {
      if key !in endpointCache {
        return W.Failure(ErrEndpointNotFound);
      }
      var copy := CopyKnown(key, params);
      return W.Success(copy);
    }

    method GetUptimeByKey(key: string, from: int, to: int) returns (r: W.Result<real, StoreError>)
      requires Valid()
      ensures from > to ==> r == W.Failure(ErrInvalidTimeRange)
      ensures from <= to && key !in endpointCache ==> r == W.Failure(ErrEndpointNotFound)
      ensures from <= to && key in endpointCache ==>
                var history := endpointCache[key].history;
                && r == W.Success(Ratio(RangeSum(Replay(history), HourOf(from), Visits(from, to))))
                && (!Cleaned(history, HourOf(from)) ==>
                      UptimeOfHistory(history, HourOf(from), LastVisited(from, to), r.value))
    {
      if from > to {
        return W.Failure(ErrInvalidTimeRange);
      }
      if key !in endpointCache {
        return W.Failure(ErrEndpointNotFound);
      }
      AnswersHistory(endpointCache[key].history, from, to);
      RatioIsUptime(endpointCache[key].history, HourOf(from), LastVisited(from, to));
      var ratio := UptimeOver(endpointCache[key].Uptime, from, to);
      return W.Success(ratio);
    }

    method GetAverageResponseTimeByKey(key: string, from: int, to: int) returns (r: W.Result<nat, StoreError>)
      requires Valid()
      ensures from > to ==> r == W.Failure(ErrInvalidTimeRange)
      ensures from <= to && key !in endpointCache ==> r == W.Failure(ErrEndpointNotFound)
      ensures from <= to && key in endpointCache ==>
                var history := endpointCache[key].history;
                && r == W.Success(Mean(RangeSum(Replay(history), HourOf(from), Visits(from, to))))
                && (!Cleaned(history, HourOf(from)) ==>
                      r == W.Success(Mean(Totals(history, HourOf(from), LastVisited(from, to)))))
    {
      if from > to {
        return W.Failure(ErrInvalidTimeRange);
      }
      if key !in endpointCache {
        return W.Failure(ErrEndpointNotFound);
      }
      AnswersHistory(endpointCache[key].history, from, to);
      var average := AverageResponseTimeOver(endpointCache[key].Uptime, from, to);
      return W.Success(average);
    }

    method GetHourlyAverageResponseTimeByKey(key: string, from: int, to: int)
      returns (r: W.Result<map<int, nat>, StoreError>)
      requires Valid()
      ensures from > to ==> r == W.Failure(ErrInvalidTimeRange)
      ensures from <= to && key !in endpointCache ==> r == W.Failure(ErrEndpointNotFound)
      ensures from <= to && key in endpointCache ==>
                var history := endpointCache[key].history;
                && r.Success? && HourlyOf(Replay(history), from, to, r.value)
                && (!Cleaned(history, HourOf(from)) ==> HourlyOfHistory(history, from, to, r.value))
    {
      if from > to {
        return W.Failure(ErrInvalidTimeRange);
      }
      if key !in endpointCache {
        return W.Failure(ErrEndpointNotFound);
      }
      var averages := HourlyAverageResponseTimesOver(endpointCache[key].Uptime, from, to);
      if !Cleaned(endpointCache[key].history, HourOf(from)) {
        HourlyAnswerIsHistory(endpointCache[key].history, from, to, averages);
      }
      return W.Success(averages);
    }
  }

  /** What the queries add up is what the whole history adds up to, unless the first hour has been cut off. */
  lemma AnswersHistory(history: seq<Insertion>, from: int, to: int)
    requires from <= to
    ensures !Cleaned(history, HourOf(from)) ==>
              RangeSum(Replay(history), HourOf(from), Visits(from, to)) ==
                Totals(history, HourOf(from), LastVisited(from, to))
  {
    if !Cleaned(history, HourOf(from)) {
      RangeSumIsHistory(history, HourOf(from), Visits(from, to));
    }
  }
}
