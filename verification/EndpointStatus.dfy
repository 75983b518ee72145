/**
 The status of one endpoint in memory and the copies of it handed out (`config/endpoint/status.go`,
 `storage/store/memory/util.go`).
 */
module EndpointStatus {
  import opened EventLog
  import opened Paging
  import opened Slices
  import opened UptimeObjects
  import opened Wrappers
  import S = Uptime

  class Status {
    const Name: string
    const Group: string
    const Key: string
    const Results: Variable<S.Result>
    const Events: Variable<Event>
    const Uptime: UptimeObjects.Uptime
    const ResultsCount: nat

    ghost var Repr: set<object>

    /** When the endpoint was first seen, and everything inserted since. */
    ghost var started: int
    ghost var history: seq<S.Insertion>

    constructor (
      group: string, name: string, key: string, results: Slice<S.Result>, events: Slice<Event>, resultsCount: nat,
      ghost started: int)
      requires results.Fits() && events.Fits()
      ensures Group == group && Name == name && Key == key && ResultsCount == resultsCount && this.started == started
              && history == []
      ensures fresh(Results) && fresh(Events) && fresh(Uptime)
      ensures Results.Repr == {Results, results.a} && Events.Repr == {Events, events.a} && Uptime.Repr == {Uptime}
      ensures Results.slice == results && Events.slice == events && Results.lent == map[] && Events.lent == map[]
      ensures Results.Valid() && Events.Valid() && Uptime.Valid() && Uptime.Index() == map[]
    {
      Group, Name, Key, ResultsCount := group, name, key, resultsCount;
      this.started, history, Repr := started, [], {this};
      Results := new Variable(results);
      Events := new Variable(events);
      Uptime := new UptimeObjects.Uptime();
    }

    /** The parts are well formed and share nothing. */
    ghost predicate Valid()
      reads this, Repr
    {
      && this in Repr && Results in Repr && Events in Repr && Uptime in Repr
      && Results.Repr <= Repr && Events.Repr <= Repr && Uptime.Repr <= Repr
      && Results.Valid() && Events.Valid() && Uptime.Valid()
      && Results.Repr !! Events.Repr !! Uptime.Repr
      && this !in Results.Repr && this !in Events.Repr && this !in Uptime.Repr
    }

    ghost function Log(): Log
      requires Results.slice.Fits() && Events.slice.Fits()
      reads Results, Events, Results.slice.a, Events.slice.a
    {
      EventLog.Log(Results.Contents(), Events.Contents())
    }

    /** The status is what the history makes of it. */
    ghost predicate Agrees(maxResults: nat, maxEvents: nat)
      requires Valid()
      reads this, Repr
    {
      && Log() == Logged(started, ResultsOf(history), maxResults, maxEvents)
      && Uptime.Index() == S.Replay(history)
    }
  }

  function ResultsOf(hs: seq<S.Insertion>): seq<S.Result> {
    if hs == [] then [] else ResultsOf(hs[..|hs| - 1]) + [hs[|hs| - 1].result]
  }

  /** NewStatus with its START event, as the store creates it for an endpoint it has not seen before. */
  method NewStatus(group: string, name: string, key: string, now: int, spare: nat) returns (s: Status)
    ensures s.Valid() && fresh(s.Repr) && s.Key == key
    ensures s.started == now && s.history == [] && s.Log() == Log([], [Event(START, now)])
    ensures s.Uptime.Index() == map[] && s.Results.lent == map[] && s.Events.lent == map[]
  {
    var results := new S.Result[0];
    var events := new Event[0];
    s := new Status(group, name, key, Slice(results, 0, 0), Slice(events, 0, 0), 0, now);
    s.Events.Append(Event(START, now), spare);
    s.Repr := {s} + s.Results.Repr + s.Events.Repr + s.Uptime.Repr;
  }

  /** Where append has to allocate, and how much room it then leaves, is up to the runtime. */
  datatype Spare = Spare(results: nat, events: nat)

  /** The first half of AddResult: an event, if the result is the first one or differs from the one before. */
  method AddEvent(
    results: Variable<S.Result>, events: Variable<Event>, result: S.Result, maximumNumberOfEvents: nat, spare: nat)
    requires results.Valid() && events.Valid() && results.Repr !! events.Repr
    modifies events`slice, events`Repr, events.slice.a
    ensures events.Valid() && fresh(events.Repr - old(events.Repr)) && old(events.Repr) <= events.Repr
    ensures events.lent == old(events.lent)
    ensures events.Contents() ==
            EventsAfter(old(Log(results.Contents(), events.Contents())), result, maximumNumberOfEvents)
  {
    if results.slice.len > 0 {
      var last := results.slice.a[results.slice.End() - 1];
      assert last == results.Contents()[|results.Contents()| - 1];
      if last.success != result.success {
        events.Append(EventOf(result), spare);
        events.KeepLast(maximumNumberOfEvents);
      }
    } else {
      events.Append(EventOf(result), spare);
    }
  }

  method AddToLists(results: Variable<S.Result>, events: Variable<Event>, result: S.Result,
                    maximumNumberOfResults: nat, maximumNumberOfEvents: nat, spare: Spare)
    requires results.Valid() && events.Valid() && results.Repr !! events.Repr
    modifies results.Repr, events.Repr
    ensures results.Valid() && fresh(results.Repr - old(results.Repr)) && old(results.Repr) <= results.Repr
    ensures events.Valid() && fresh(events.Repr - old(events.Repr)) && old(events.Repr) <= events.Repr
    ensures results.Repr !! events.Repr
    ensures results.lent == old(results.lent) && events.lent == old(events.lent)
    ensures Log(results.Contents(), events.Contents()) ==
            Add(old(Log(results.Contents(), events.Contents())), result, maximumNumberOfResults, maximumNumberOfEvents)
  {
    AddEvent(results, events, result, maximumNumberOfEvents, spare.events);
    results.Append(result, spare.results);
    results.KeepLast(maximumNumberOfResults);
  }

  method AddToParts(
    results: Variable<S.Result>, events: Variable<Event>, uptime: UptimeObjects.Uptime, result: S.Result,
    maximumNumberOfResults: nat, maximumNumberOfEvents: nat, now: int, spare: Spare)
    requires results.Valid() && events.Valid() && uptime.Valid() && results.Repr !! events.Repr !! uptime.Repr
    modifies results.Repr, events.Repr, uptime.Repr
    ensures results.Valid() && fresh(results.Repr - old(results.Repr)) && old(results.Repr) <= results.Repr
    ensures events.Valid() && fresh(events.Repr - old(events.Repr)) && old(events.Repr) <= events.Repr
    ensures uptime.Valid() && fresh(uptime.Repr - old(uptime.Repr)) && old(uptime.Repr) <= uptime.Repr
    ensures results.Repr !! events.Repr !! uptime.Repr
    ensures results.lent == old(results.lent) && events.lent == old(events.lent)
    ensures Log(results.Contents(), events.Contents()) ==
            Add(old(Log(results.Contents(), events.Contents())), result, maximumNumberOfResults, maximumNumberOfEvents)
    ensures uptime.Index() == S.Process(old(uptime.Index()), result, now)
  {
    AddToLists(results, events, result, maximumNumberOfResults, maximumNumberOfEvents, spare);
    uptime.ProcessUptimeAfterResult(result, now);
  }

  method AddResult(
    ss: Status?, result: S.Result, maximumNumberOfResults: nat, maximumNumberOfEvents: nat, now: int, spare: Spare)
    requires ss != null ==> ss.Valid()
    modifies if ss == null then {} else ss.Repr
    ensures ss != null ==>
              && ss.Valid() && fresh(ss.Repr - old(ss.Repr)) && old(ss.Repr) <= ss.Repr
              && ss.Log() == Add(old(ss.Log()), result, maximumNumberOfResults, maximumNumberOfEvents)
              && ss.Uptime.Index() == S.Process(old(ss.Uptime.Index()), result, now)
              && ss.Results.lent == old(ss.Results.lent) && ss.Events.lent == old(ss.Events.lent)
              && ss.history == old(ss.history) && ss.started == old(ss.started)
  {
    if ss != null {
      AddToParts(ss.Results, ss.Events, ss.Uptime, result, maximumNumberOfResults, maximumNumberOfEvents, now, spare);
      ss.Repr := ss.Repr + ss.Results.Repr + ss.Events.Repr + ss.Uptime.Repr;
    }
  }

  lemma HistoryGrows(ss: S.Insertion, hs: seq<S.Insertion>, started: int, maxResults: nat, maxEvents: nat)
    ensures Logged(started, ResultsOf(hs + [ss]), maxResults, maxEvents) ==
            Add(Logged(started, ResultsOf(hs), maxResults, maxEvents), ss.result, maxResults, maxEvents)
    ensures S.Replay(hs + [ss]) == S.Process(S.Replay(hs), ss.result, ss.now)
  {
    var more := ResultsOf(hs + [ss]);
    assert (hs + [ss])[..|hs|] == hs;
    assert more == ResultsOf(hs) + [ss.result];
    assert more[..|more| - 1] == ResultsOf(hs);
  }

  /** The history is remembered, and nothing else changes. */
  ghost method Remember(ss: Status, more: S.Insertion)
    requires ss.Valid()
    modifies ss`history
    ensures ss.Valid() && ss.history == old(ss.history) + [more]
    ensures ss.Log() == old(ss.Log()) && ss.Uptime.Index() == old(ss.Uptime.Index())
  {
    ss.history := ss.history + [more];
  }

  /** AddResult keeps the status what the history makes of it. */
  method AddToHistory(
    ss: Status, result: S.Result, maximumNumberOfResults: nat, maximumNumberOfEvents: nat, now: int, spare: Spare)
    requires ss.Valid() && ss.Agrees(maximumNumberOfResults, maximumNumberOfEvents)
    modifies ss.Repr
    ensures ss.Valid() && ss.Agrees(maximumNumberOfResults, maximumNumberOfEvents)
    ensures fresh(ss.Repr - old(ss.Repr)) && old(ss.Repr) <= ss.Repr && ss.started == old(ss.started)
    ensures ss.history == old(ss.history) + [S.Insertion(result, now)]
    ensures ss.Results.lent == old(ss.Results.lent) && ss.Events.lent == old(ss.Events.lent)
  {
    AddResult(ss, result, maximumNumberOfResults, maximumNumberOfEvents, now, spare);
    Remember(ss, S.Insertion(result, now));
    HistoryGrows(S.Insertion(result, now), old(ss.history), ss.started, maximumNumberOfResults, maximumNumberOfEvents);
  }

  datatype Params = Params(
    eventsPage: int, eventsPageSize: int, resultsPage: int, resultsPageSize: int, includeResultsCount: bool) {
    predicate Unpaged() {
      resultsPage == resultsPageSize == eventsPage == eventsPageSize == 0
    }
  }

  /** What a copy shows of a list. */
  function Shown<T>(list: seq<T>, params: Option<Params>, page: int, pageSize: int): seq<T> {
    if params.None? || params.value.Unpaged() then list else Page(list, page, pageSize)
  }

  /** A list is shown whole without parameters, or if all four page numbers and sizes are 0; else its page is. */
  lemma ShownIs<T>(list: seq<T>, params: Option<Params>, page: int, pageSize: int)
    ensures params.None? ==> Shown(list, params, page, pageSize) == list
    ensures params.Some? ==>
              var p := params.value;
              Shown(list, params, page, pageSize) ==
              if p.resultsPage == 0 && p.resultsPageSize == 0 && p.eventsPage == 0 && p.eventsPageSize == 0 then list
              else Page(list, page, pageSize)
  {
  }

  /** Views once lent stay lent, and are remembered with what they showed first. */
  ghost predicate StillLent<T>(before: map<Slice<T>, seq<T>>, after: map<Slice<T>, seq<T>>) {
    forall v | v in before :: v in after && after[v] == before[v]
  }

  /** The window of a list that a copy shows: a view of the live array, or an empty list of its own. */
  method Window<T>(list: Variable<T>, params: Option<Params>, page: int, pageSize: int) returns (w: Slice<T>)
    requires list.Valid()
    modifies list`lent
    ensures list.Valid() && StillLent(old(list.lent), list.lent)
    ensures w.Fits() && w.Contents() == Shown(list.Contents(), params, page, pageSize)
    ensures w in list.lent || (fresh(w.a) && w.len == 0)
  {
    if params.None? || params.value.Unpaged() {
      w := list.View(0, list.slice.len);
    } else {
      var (start, end) := StartAndEnd(list.slice.len, page, pageSize);
      IndicesAreInRange(list.slice.len, page, pageSize);
      if start < 0 || end < 0 {
        var none := new T[0];
        w := Slice(none, 0, 0);
      } else {
        w := list.View(start, end);
      }
    }
  }

  method Windows(results: Variable<S.Result>, events: Variable<Event>, params: Option<Params>)
    returns (rs: Slice<S.Result>, es: Slice<Event>)
    requires results.Valid() && events.Valid() && results.Repr !! events.Repr
    modifies results`lent, events`lent
    ensures results.Valid() && StillLent(old(results.lent), results.lent)
    ensures events.Valid() && StillLent(old(events.lent), events.lent)
    ensures var p := params.GetOr(Params(0, 0, 0, 0, false));
            && rs.Fits() && rs.Contents() == Shown(results.Contents(), params, p.resultsPage, p.resultsPageSize)
            && es.Fits() && es.Contents() == Shown(events.Contents(), params, p.eventsPage, p.eventsPageSize)
    ensures rs in results.lent || (fresh(rs.a) && rs.len == 0)
    ensures es in events.lent || (fresh(es.a) && es.len == 0)
  {
    var p := params.GetOr(Params(0, 0, 0, 0, false));
    rs := Window(results, params, p.resultsPage, p.resultsPageSize);
    es := Window(events, params, p.eventsPage, p.eventsPageSize);
  }

  /** The copy shares the arrays of the live status: from now on they are lent. */
  method ShallowCopyEndpointStatus(ss: Status, params: Option<Params>) returns (copy: Status)
    requires ss.Valid()
    modifies ss.Results`lent, ss.Events`lent
    ensures ss.Valid()
    ensures fresh(copy) && copy.Key == ss.Key && copy.Group == ss.Group && copy.Name == ss.Name
    ensures copy.ResultsCount == if params.Some? && params.value.includeResultsCount then |ss.Results.Contents()| else 0
    ensures copy.Uptime.HourlyStatistics == map[]
    ensures var p, rs, es := params.GetOr(Params(0, 0, 0, 0, false)), copy.Results.slice, copy.Events.slice;
            && rs.Fits() && rs.Contents() == Shown(ss.Results.Contents(), params, p.resultsPage, p.resultsPageSize)
            && es.Fits() && es.Contents() == Shown(ss.Events.Contents(), params, p.eventsPage, p.eventsPageSize)
            && (rs in ss.Results.lent || rs.len == 0) && (es in ss.Events.lent || es.len == 0)
    ensures StillLent(old(ss.Results.lent), ss.Results.lent) && StillLent(old(ss.Events.lent), ss.Events.lent)
  {
    var results, events := Windows(ss.Results, ss.Events, params);
    assert ss.Valid();
    var count := if params.Some? && params.value.includeResultsCount then ss.Results.slice.len else 0;
    copy := new Status(ss.Group, ss.Name, ss.Key, results, events, count, ss.started);
  }

  /**
   What a copy shows is the requested part of what the history makes of the lists, and is lent if it shows anything.
   */
  ghost predicate Copied(ss: Status, copy: Status, params: Option<Params>, maxResults: nat, maxEvents: nat)
    reads ss, ss.Results, ss.Events, copy, copy.Results, copy.Events, copy.Results.slice.a, copy.Events.slice.a
  {
    var p, rs, es := params.GetOr(Params(0, 0, 0, 0, false)), copy.Results.slice, copy.Events.slice;
    var log := Logged(ss.started, ResultsOf(ss.history), maxResults, maxEvents);
    && rs.Fits() && rs.Contents() == Shown(log.results, params, p.resultsPage, p.resultsPageSize)
    && es.Fits() && es.Contents() == Shown(log.events, params, p.eventsPage, p.eventsPageSize)
    && copy.ResultsCount == (if p.includeResultsCount then |log.results| else 0)
    && (rs in ss.Results.lent || rs.len == 0) && (es in ss.Events.lent || es.len == 0)
  }

  method CopyOfHistory(ss: Status, params: Option<Params>, ghost maxResults: nat, ghost maxEvents: nat)
    returns (copy: Status)
    requires ss.Valid() && ss.Agrees(maxResults, maxEvents)
    modifies ss.Results`lent, ss.Events`lent
    ensures ss.Valid() && ss.Agrees(maxResults, maxEvents)
    ensures fresh(copy) && Copied(ss, copy, params, maxResults, maxEvents)
    ensures StillLent(old(ss.Results.lent), ss.Results.lent) && StillLent(old(ss.Events.lent), ss.Events.lent)
  {
    copy := ShallowCopyEndpointStatus(ss, params);
    assert ss.Results.Contents() == old(ss.Results.Contents()) && ss.Events.Contents() == old(ss.Events.Contents());
    assert ss.Uptime.Index() == old(ss.Uptime.Index());
  }

  // ---------- copies and later insertions ----------

  /** A result, the clock at its clean-up, and what append then does. */
  datatype Arrival = Arrival(result: S.Result, now: int, spare: Spare)

  method AddAll(ss: Status, arrivals: seq<Arrival>, maxResults: nat, maxEvents: nat)
    requires ss.Valid() && ss.Agrees(maxResults, maxEvents)
    modifies ss.Repr
    ensures ss.Valid() && ss.Agrees(maxResults, maxEvents)
    ensures ss.Results.lent == old(ss.Results.lent) && ss.Events.lent == old(ss.Events.lent)
  {
    for i := 0 to |arrivals|
      invariant ss.Valid() && ss.Agrees(maxResults, maxEvents)
      invariant fresh(ss.Repr - old(ss.Repr))
      invariant ss.Results.lent == old(ss.Results.lent) && ss.Events.lent == old(ss.Events.lent)
    {
      AddToHistory(ss, arrivals[i].result, maxResults, maxEvents, arrivals[i].now, arrivals[i].spare);
    }
  }

  /** The windows of a copy, with what is remembered of them. */
  method LentWindows(ss: Status, params: Option<Params>, ghost maxResults: nat, ghost maxEvents: nat)
    returns (results: Slice<S.Result>, events: Slice<Event>)
    requires ss.Valid() && ss.Agrees(maxResults, maxEvents)
    modifies ss.Results`lent, ss.Events`lent
    ensures ss.Valid() && ss.Agrees(maxResults, maxEvents)
    ensures var p, log := params.GetOr(Params(0, 0, 0, 0, false)), old(ss.Log());
            && Remembered(ss.Results, results, Shown(log.results, params, p.resultsPage, p.resultsPageSize))
            && Remembered(ss.Events, events, Shown(log.events, params, p.eventsPage, p.eventsPageSize))
  {
    results, events := Windows(ss.Results, ss.Events, params);
    assert ss.Results.Contents() == old(ss.Results.Contents()) && ss.Events.Contents() == old(ss.Events.Contents());
    assert ss.Uptime.Index() == old(ss.Uptime.Index());
  }

  /** The slice is lent, with what it showed first, or shows nothing. */
  ghost predicate Remembered<T>(list: Variable<T>, w: Slice<T>, shown: seq<T>)
    reads list
  {
    w.Fits() && if w in list.lent then list.lent[w] == shown else w.len == 0 && shown == []
  }

  lemma RememberedShows<T>(list: Variable<T>, w: Slice<T>, shown: seq<T>)
    requires list.Valid() && Remembered(list, w, shown)
    ensures w.Fits() && w.Contents() == shown
  {
  }

  /**
   A copy taken before any number of insertions shows afterwards what it showed when it was taken, although it shares
   its arrays with the live status.
   */
  method CopyThenAdd(ss: Status, params: Option<Params>, arrivals: seq<Arrival>, maxResults: nat, maxEvents: nat)
    returns (results: Slice<S.Result>, events: Slice<Event>)
    requires ss.Valid() && ss.Agrees(maxResults, maxEvents)
    modifies ss.Repr
    ensures ss.Valid() && ss.Agrees(maxResults, maxEvents)
    ensures var p, log := params.GetOr(Params(0, 0, 0, 0, false)), old(ss.Log());
            && results.Fits() && results.Contents() == Shown(log.results, params, p.resultsPage, p.resultsPageSize)
            && events.Fits() && events.Contents() == Shown(log.events, params, p.eventsPage, p.eventsPageSize)
  {
    ghost var p, log := params.GetOr(Params(0, 0, 0, 0, false)), ss.Log();
    results, events := LentWindows(ss, params, maxResults, maxEvents);
    AddAll(ss, arrivals, maxResults, maxEvents);
    RememberedShows(ss.Results, results, Shown(log.results, params, p.resultsPage, p.resultsPageSize));
    RememberedShows(ss.Events, events, Shown(log.events, params, p.eventsPage, p.eventsPageSize));
  }
}
