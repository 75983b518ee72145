/**
 The result list and the event log of an endpoint (`storage/store/memory/util.go`, `config/endpoint/event.go`) as
 functions of everything ever inserted.
 */
module EventLog {
  import opened Uptime

  datatype EventType = START | HEALTHY | UNHEALTHY

  datatype Event = Event(kind: EventType, timestamp: int)

  /** NewEventFromResult */
  function EventOf(r: Result): Event {
    Event(if r.success then HEALTHY else UNHEALTHY, r.timestamp)
  }

  function LastN<T>(s: seq<T>, n: nat): seq<T> {
    if |s| > n then s[|s| - n..] else s
  }

  /** The last n elements, or all if there are not that many, in order. */
  lemma LastNIs<T>(s: seq<T>, n: nat)
    ensures var r := LastN(s, n);
            |r| == (if |s| <= n then |s| else n) && forall i | 0 <= i < |r| :: r[i] == s[|s| - |r| + i]
  {
  }

  datatype Log = Log(results: seq<Result>, events: seq<Event>)

  /** A change of outcome is an event, and so is a result when no other is kept; only the former drops old events. */
  function EventsAfter(log: Log, r: Result, maxEvents: nat): seq<Event> {
    if log.results == [] then log.events + [EventOf(r)]
    else if log.results[|log.results| - 1].success != r.success then LastN(log.events + [EventOf(r)], maxEvents)
    else log.events
  }

  /** What AddResult does to the two lists. */
  function Add(log: Log, r: Result, maxResults: nat, maxEvents: nat): Log {
    Log(LastN(log.results + [r], maxResults), EventsAfter(log, r, maxEvents))
  }

  /** The lists of an endpoint first seen at an instant, after a history of results. */
  function Logged(started: int, h: seq<Result>, maxResults: nat, maxEvents: nat): Log {
    if h == [] then Log([], [Event(START, started)])
    else Add(Logged(started, h[..|h| - 1], maxResults, maxEvents), h[|h| - 1], maxResults, maxEvents)
  }

  // ---------- the meaning ----------

  /** The history's result i begins a run of equal outcomes. */
  predicate Turns(h: seq<Result>, i: nat)
    requires i < |h|
  {
    i == 0 || h[i - 1].success != h[i].success
  }

  /** One event for every run of equal outcomes. */
  function Compressed(h: seq<Result>): seq<Event> {
    if h == [] then []
    else Compressed(h[..|h| - 1]) + if Turns(h, |h| - 1) then [EventOf(h[|h| - 1])] else []
  }

  function FullLog(started: int, h: seq<Result>): seq<Event> {
    [Event(START, started)] + Compressed(h)
  }

  /** Events are dropped only when one is added to two or more. */
  function Kept(full: seq<Event>, n: nat): seq<Event> {
    if |full| <= 2 then full else LastN(full, n)
  }

  lemma LastNOfMore<T>(s: seq<T>, x: T, n: nat)
    ensures LastN(LastN(s, n) + [x], n) == LastN(s + [x], n)
  {
  }

  lemma KeptOfMore(full: seq<Event>, e: Event, n: nat)
    requires |full| >= 2
    ensures LastN(Kept(full, n) + [e], n) == Kept(full + [e], n)
  {
    LastNOfMore(full, e, n);
  }

  /** The result list is the end of the history. */
  lemma {:induction false} ResultsAreTheEndOfTheHistory(started: int, h: seq<Result>, maxResults: nat, maxEvents: nat)
    ensures Logged(started, h, maxResults, maxEvents).results == LastN(h, maxResults)
    decreases |h|
  {
    if h != [] {
      var front, r := h[..|h| - 1], h[|h| - 1];
      ResultsAreTheEndOfTheHistory(started, front, maxResults, maxEvents);
      LastNOfMore(front, r, maxResults);
      assert h == front + [r];
    }
  }

  lemma {:induction false} SecondEvent(started: int, h: seq<Result>)
    ensures h == [] <==> |FullLog(started, h)| == 1
    decreases |h|
  {
    if h != [] {
      SecondEvent(started, h[..|h| - 1]);
    }
  }

  /** A full log after one result more. */
  function OneMore(full: seq<Event>, front: seq<Result>, r: Result): seq<Event> {
    if front == [] || front[|front| - 1].success != r.success then full + [EventOf(r)] else full
  }

  lemma OneEventMore(started: int, h: seq<Result>)
    requires h != []
    ensures var front, r := h[..|h| - 1], h[|h| - 1]; FullLog(started, h) == OneMore(FullLog(started, front), front, r)
  {
  }

  lemma LastOfLastN<T>(s: seq<T>, n: nat)
    requires s != [] && n >= 1
    ensures var kept := LastN(s, n); 1 <= |kept| <= |s| && kept[|kept| - 1] == s[|s| - 1]
  {
  }

  /**
   One result more, for a log that is the end of a longer one: its last result is enough to tell whether it is an
   event.
   */
  lemma OneResultMore(full: seq<Event>, results: seq<Result>, r: Result, maxEvents: nat)
    requires full != [] && (results == [] <==> |full| == 1)
    ensures EventsAfter(Log(results, Kept(full, maxEvents)), r, maxEvents) == Kept(OneMore(full, results, r), maxEvents)
  {
    if results != [] {
      KeptOfMore(full, EventOf(r), maxEvents);
    }
  }

  lemma LastResultIsEnough(full: seq<Event>, front: seq<Result>, r: Result, maxResults: nat)
    requires maxResults >= 1
    ensures OneMore(full, LastN(front, maxResults), r) == OneMore(full, front, r)
    ensures LastN(front, maxResults) == [] <==> front == []
  {
    if front != [] {
      LastOfLastN(front, maxResults);
    }
  }

  /**
   With room for at least one result, the event log is START and one event per run of equal outcomes, of which only the
   last ones are kept from the third event on.
   */
  lemma {:induction false} EventsAreTheEndOfTheFullLog(started: int, h: seq<Result>, maxResults: nat, maxEvents: nat)
    requires maxResults >= 1
    ensures Logged(started, h, maxResults, maxEvents).events == Kept(FullLog(started, h), maxEvents)
    decreases |h|
  {
    if h != [] {
      var front, r := h[..|h| - 1], h[|h| - 1];
      EventsAreTheEndOfTheFullLog(started, front, maxResults, maxEvents);
      ResultsAreTheEndOfTheHistory(started, front, maxResults, maxEvents);
      var full := FullLog(started, front);
      assert Logged(started, front, maxResults, maxEvents) == Log(LastN(front, maxResults), Kept(full, maxEvents));
      SecondEvent(started, front);
      LastResultIsEnough(full, front, r, maxResults);
      OneResultMore(full, LastN(front, maxResults), r, maxEvents);
      OneEventMore(started, h);
    }
  }

  function EventPerResult(h: seq<Result>): (events: seq<Event>)
    ensures |events| == |h| && forall i | 0 <= i < |h| :: events[i] == EventOf(h[i])
  {
    if h == [] then [] else EventPerResult(h[..|h| - 1]) + [EventOf(h[|h| - 1])]
  }

  /**
   Without room for results every result counts as the first one: nothing is compressed and nothing is ever dropped.
   */
  lemma {:induction false} NoResultsKeptNoEventsDropped(started: int, h: seq<Result>, maxEvents: nat)
    ensures Logged(started, h, 0, maxEvents).events == [Event(START, started)] + EventPerResult(h)
    decreases |h|
  {
    if h != [] {
      ResultsAreTheEndOfTheHistory(started, h[..|h| - 1], 0, maxEvents);
      NoResultsKeptNoEventsDropped(started, h[..|h| - 1], maxEvents);
    }
  }

  // ---------- what the compressed history says ----------

  lemma {:induction false} CompressedExtends(h: seq<Result>, i: nat)
    requires i <= |h|
    ensures Compressed(h[..i]) <= Compressed(h)
    decreases |h|
  {
    if i == |h| {
      assert h[..i] == h;
    } else {
      CompressedExtends(h[..|h| - 1], i);
      assert h[..|h| - 1][..i] == h[..i];
    }
  }

  /** The latest event of the compressed history is that of the run its last result belongs to. */
  lemma {:induction false} LatestEvent(h: seq<Result>)
    requires h != []
    ensures var c := Compressed(h); c != [] && c[|c| - 1].kind == EventOf(h[|h| - 1]).kind
    decreases |h|
  {
    if !Turns(h, |h| - 1) {
      LatestEvent(h[..|h| - 1]);
    }
  }

  /** The last result belongs to the run of equal outcomes that began with result b. */
  ghost predicate RunBegan(h: seq<Result>, b: nat) {
    && b < |h| && (b == 0 || h[b - 1].success != h[b].success)
    && forall k | b <= k < |h| :: h[k].success == h[|h| - 1].success
  }

  lemma {:induction false} LatestEventIs(h: seq<Result>) returns (b: nat)
    requires h != []
    ensures RunBegan(h, b)
    ensures var c := Compressed(h);
            c != [] && c[|c| - 1] == Event(if h[|h| - 1].success then HEALTHY else UNHEALTHY, h[b].timestamp)
    decreases |h|
  {
    if Turns(h, |h| - 1) {
      b := |h| - 1;
    } else {
      b := LatestEventIs(h[..|h| - 1]);
    }
  }

  /**
   The outcome of every result can be read off the compressed history: the events up to it are a prefix of all events,
   and the last of them says how it went, and since when.
   */
  lemma OutcomesCanBeReadOff(h: seq<Result>, i: nat) returns (b: nat)
    requires i < |h|
    ensures RunBegan(h[..i + 1], b)
    ensures var n := |Compressed(h[..i + 1])|;
            && 0 < n <= |Compressed(h)|
            && Compressed(h)[n - 1] == Event(if h[i].success then HEALTHY else UNHEALTHY, h[b].timestamp)
  {
    CompressedExtends(h, i + 1);
    b := LatestEventIs(h[..i + 1]);
  }

  predicate Alternating(events: seq<Event>) {
    forall i | 0 < i < |events| :: events[i - 1].kind != events[i].kind
  }

  lemma {:induction false} FullLogAlternates(started: int, h: seq<Result>)
    ensures Alternating(FullLog(started, h))
    decreases |h|
  {
    if h != [] {
      var front := h[..|h| - 1];
      FullLogAlternates(started, front);
      OneEventMore(started, h);
      if front != [] {
        LatestEvent(front);
      }
    }
  }

  lemma SuffixAlternates(events: seq<Event>, n: nat)
    requires Alternating(events)
    ensures Alternating(LastN(events, n))
  {
    var kept, dropped := LastN(events, n), |events| - |LastN(events, n)|;
    forall i | 0 < i < |kept| ensures kept[i - 1].kind != kept[i].kind {
      assert kept[i - 1] == events[dropped + (i - 1)] && kept[i] == events[dropped + i];
    }
  }

  lemma LengthOfKept(full: seq<Event>, n: nat)
    requires full != [] && n >= 1
    ensures 1 <= |Kept(full, n)| <= (if n >= 2 then n else 2)
  {
  }

  lemma KeptAlternates(full: seq<Event>, n: nat)
    requires Alternating(full)
    ensures Alternating(Kept(full, n))
  {
    SuffixAlternates(full, n);
  }

  lemma LastIsKept(full: seq<Event>, n: nat)
    requires full != [] && n >= 1
    ensures Kept(full, n) != [] && Kept(full, n)[|Kept(full, n)| - 1] == full[|full| - 1]
  {
    LastOfLastN(full, n);
  }

  /** The last event says how the last result went, also of those that are kept. */
  lemma LastEventMatches(started: int, h: seq<Result>, maxResults: nat, maxEvents: nat)
    requires maxResults >= 1 && maxEvents >= 1 && h != []
    ensures var results, events := LastN(h, maxResults), Kept(FullLog(started, h), maxEvents);
            && results != [] && events != []
            && events[|events| - 1].kind == EventOf(results[|results| - 1]).kind
  {
    LatestEvent(h);
    LastIsKept(FullLog(started, h), maxEvents);
    LastOfLastN(h, maxResults);
  }

  /** A log that satisfies this looks like what was observed, however little of it is kept. */
  ghost predicate Faithful(log: Log, n: nat, maxResults: nat, maxEvents: nat) {
    && 1 <= |log.events| <= (if maxEvents >= 2 then maxEvents else 2)
    && Alternating(log.events)
    && |log.results| == (if n <= maxResults then n else maxResults)
    && (log.results != [] ==> log.events[|log.events| - 1].kind == EventOf(log.results[|log.results| - 1]).kind)
  }

  /**
   With both limits at least 1, as configurations guarantee: the event log is never empty and never longer than the
   limit or 2, two neighbouring events never have the same type, and the last event says how the last kept result
   went.
   */
  lemma EventLogInvariant(started: int, h: seq<Result>, maxResults: nat, maxEvents: nat)
    requires maxResults >= 1 && maxEvents >= 1
    ensures Faithful(Logged(started, h, maxResults, maxEvents), |h|, maxResults, maxEvents)
  {
    var full := FullLog(started, h);
    ResultsAreTheEndOfTheHistory(started, h, maxResults, maxEvents);
    EventsAreTheEndOfTheFullLog(started, h, maxResults, maxEvents);
    LengthOfKept(full, maxEvents);
    FullLogAlternates(started, h);
    KeptAlternates(full, maxEvents);
    if h != [] {
      LastEventMatches(started, h, maxResults, maxEvents);
    }
  }

  /** With room for no events the log is empty from the third event on. */
  lemma EventsVanishIff(started: int, h: seq<Result>, maxResults: nat, maxEvents: nat)
    requires maxResults >= 1
    ensures Logged(started, h, maxResults, maxEvents).events == [] <==> maxEvents == 0 && |FullLog(started, h)| > 2
  {
    EventsAreTheEndOfTheFullLog(started, h, maxResults, maxEvents);
  }
}
