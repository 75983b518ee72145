/**
 What a restart does to the counters of an endpoint, and what follows for the first notices after it (`main.go`,
 `watchdog/alerting.go`): a restart keeps neither the failures handled so far nor the time of the last reminder, and of
 the successes only the count persisted with the last listed alert that is triggered.
 */
module AlertRestarts {
  import opened Wrappers
  import opened Alerts
  import opened AlertLoops
  import opened AlertRuns
  import opened AlertPersistence

  // ---------- the counters a restart loads ----------

  /** The last alert of the list that has a row. */
  function LastPersisted(key: string, cfgs: seq<Config>, rows: Records): (r: Option<nat>)
    ensures r.Some? ==> r.value < |cfgs| && Ids(key, cfgs)[r.value] in rows
    ensures forall j | 0 <= j < |cfgs| && Ids(key, cfgs)[j] in rows :: r.Some? && j <= r.value
  {
    var all := seq(|cfgs|, _ => true);
    assert forall j | 0 <= j < |cfgs| && Ids(key, cfgs)[j] in rows :: Found(Ids(key, cfgs), rows, all, j);
    LastFound(Ids(key, cfgs), rows, all, 0)
  }

  function PersistedCount(key: string, cfgs: seq<Config>, rows: Records): int {
    var last := LastPersisted(key, cfgs, rows);
    if last.Some? then rows[Ids(key, cfgs)[last.value]].successes else 0
  }

  function PersistedThreshold(key: string, cfgs: seq<Config>, rows: Records): int {
    var last := LastPersisted(key, cfgs, rows);
    if last.Some? then cfgs[last.value].failureThreshold else 0
  }

  /** A restart that can go on from this world, with working store operations and a validated configuration. */
  ghost predicate CanRestart(key: string, w: World, cfgs: seq<Config>, answers: StoreAnswers) {
    Consistent(key, w) && AllAnswered(answers, cfgs) && forall c <- cfgs :: c.Valid()
  }

  /** The counters, flags and reminder time of a world that was restarted from these rows. */
  ghost predicate LoadedFrom(key: string, cfgs: seq<Config>, rows: Records, w': World) {
    && w'.Started() && w'.cfgs == cfgs && w'.ids == Ids(key, cfgs)
    && w'.ep.successes == PersistedCount(key, cfgs, rows)
    && w'.ep.failures == PersistedThreshold(key, cfgs, rows)
    && w'.ep.lastReminderSent == ZERO_TIME
    && forall j | 0 <= j < |cfgs| :: w'.ep.alerts[j].triggered <==> w'.ids[j] in rows
  }

  lemma FoundIffPersisted(key: string, w: World, cfgs: seq<Config>, answers: StoreAnswers, j: nat)
    requires CanRestart(key, w, cfgs, answers) && j < |cfgs|
    ensures Found(Ids(key, cfgs), PrunedRows(key, cfgs, w.rows, answers), answers.readable, j) <==>
            Ids(key, cfgs)[j] in w.rows
    ensures SameRow(w.rows, PrunedRows(key, cfgs, w.rows, answers), Ids(key, cfgs)[j])
  {
    assert answers.readable[j] in answers.readable;
    EnabledRowSurvives(key, cfgs, w.rows, j);
    if Ids(key, cfgs)[j] in w.rows {
      RowFitsNewAlert(key, w, cfgs, j);
    }
  }

  /** The counters after a restart, for any old and new configuration: the last listed alert with a row decides. */
  lemma RestartCounters(key: string, w: World, cfgs: seq<Config>, answers: StoreAnswers)
    requires CanRestart(key, w, cfgs, answers)
    ensures LoadedFrom(key, cfgs, w.rows, Restart(key, cfgs, w.rows, answers))
  {
    var ids, kept := Ids(key, cfgs), PrunedRows(key, cfgs, w.rows, answers);
    RestartStarts(key, w, cfgs, answers);
    LoadAt(ids, cfgs, Unloaded(|cfgs|), kept, answers.readable, 0);
    LoadCounters(ids, cfgs, Unloaded(|cfgs|), kept, answers.readable, 0);
    forall j | 0 <= j < |cfgs|
      ensures (Found(ids, kept, answers.readable, j) <==> ids[j] in w.rows) && SameRow(w.rows, kept, ids[j])
    {
      FoundIffPersisted(key, w, cfgs, answers, j);
    }
    var last, last' := LastFound(ids, kept, answers.readable, 0), LastPersisted(key, cfgs, w.rows);
    assert last == last';
  }

  /**
   A restart right after a result, with the same configuration, keeps the count of successes exactly when the last
   listed triggered alert has the current count in its row: after a success, and after a failure if that alert has
   just been notified of, had no success persisted, or was due for a reminder that was delivered.
   */
  lemma RestartKeepsSuccessesIff(key: string, w: World, h: Handled, answers: StoreAnswers)
    requires Consistent(key, w) && |h.envs| == |w.cfgs| && AllStored(h) && AllAnswered(answers, w.cfgs)
    ensures var w' := After(w, h);
            var last := LastPersisted(key, w.cfgs, w'.rows);
            Restart(key, w.cfgs, w'.rows, answers).ep.successes == w'.ep.successes <==>
            if last.None? then !h.success
            else
              var id := w.ids[last.value];
              || h.success || id !in w.rows || w.rows[id].successes == 0
              || ReminderGoesOut(w.cfgs[last.value], w.ep, h.envs[last.value])
  {
    var w' := After(w, h);
    HandlingKeepsConsistency(key, w, h);
    HandleActsAlone(w.ids, w.cfgs, w.ep, w.rows, h.success, h.envs);
    RestartCounters(key, w', w.cfgs, answers);
    var last := LastPersisted(key, w.cfgs, w'.rows);
    if last.Some? {
      assert AlertConsistent(w', last.value);
      PersistedCountIsCurrentIff(w, h, last.value);
    }
  }

  // ---------- the first resolution after a restart ----------

  /** Without a failure since the restart, it takes exactly as many successes as the loaded count leaves to go. */
  lemma FirstResolutionAfterRestart(
    key: string, w: World, cfgs: seq<Config>, answers: StoreAnswers, w': World, hs: seq<Handled>, k: nat, j: nat)
    requires CanRestart(key, w, cfgs, answers) && w' == Restart(key, cfgs, w.rows, answers)
    requires w'.Shaped() && Fits(w', hs) && k < |hs| && j < |cfgs| && NoticeAt(w', hs, k, j) == Resolved
    ensures cfgs[j].Valid()
    ensures ResolvedInTime(hs, k, cfgs[j].successThreshold, PersistedCount(key, cfgs, w.rows),
            Ids(key, cfgs)[j] in w.rows)
  {
    RestartCounters(key, w, cfgs, answers);
    LoadedResolution(key, cfgs, w.rows, w', hs, k, j);
  }

  lemma LoadedResolution(key: string, cfgs: seq<Config>, rows: Records, w': World, hs: seq<Handled>, k: nat, j: nat)
    requires LoadedFrom(key, cfgs, rows, w')
    requires Fits(w', hs) && k < |hs| && j < |cfgs| && NoticeAt(w', hs, k, j) == Resolved
    ensures cfgs[j].Valid()
    ensures ResolvedInTime(hs, k, cfgs[j].successThreshold, PersistedCount(key, cfgs, rows), Ids(key, cfgs)[j] in rows)
  {
    ResolvedAtExactlyTheThreshold(w', hs, k, j);
  }

  /**
   Together with those before the restart, alert j is always resolved at exactly SuccessThreshold successes in a row.
   */
  ghost predicate ResolutionsContinue(key: string, w: World, cfgs: seq<Config>, answers: StoreAnswers, j: nat)
    requires |answers.readable| == |cfgs| && j < |cfgs| && Restart(key, cfgs, w.rows, answers).Shaped()
  {
    var w' := Restart(key, cfgs, w.rows, answers);
    forall hs: seq<Handled>, k: nat | Fits(w', hs) && k < |hs| && NoticeAt(w', hs, k, j) == Resolved
      && Streak(hs, k + 1, k + 1, true) ::
      w.ep.successes + k + 1 == cfgs[j].successThreshold
  }

  /**
   A run of successes interrupted by a restart is continued exactly when the loaded count is the one before the
   restart, or when one success was missing before and the loaded count leaves no more; otherwise the alert is
   resolved too early or too late.
   */
  lemma ResolutionsContinueIff(key: string, w: World, cfgs: seq<Config>, answers: StoreAnswers, j: nat)
    requires CanRestart(key, w, cfgs, answers) && j < |cfgs|
    ensures Restart(key, cfgs, w.rows, answers).Shaped()
    ensures ResolutionsContinue(key, w, cfgs, answers, j) <==>
            || Ids(key, cfgs)[j] !in w.rows
            || w.ep.successes == Least(PersistedCount(key, cfgs, w.rows), cfgs[j].successThreshold - 1)
  {
    var w', n := Restart(key, cfgs, w.rows, answers), cfgs[j].successThreshold;
    RestartCounters(key, w, cfgs, answers);
    forall hs: seq<Handled>, k: nat | Fits(w', hs) && k < |hs| && NoticeAt(w', hs, k, j) == Resolved
      && Streak(hs, k + 1, k + 1, true)
      ensures Ids(key, cfgs)[j] in w.rows && k + 1 == Remaining(n, w'.ep.successes)
    {
      LoadedResolution(key, cfgs, w.rows, w', hs, k, j);
    }
    if Ids(key, cfgs)[j] in w.rows {
      RowFitsNewAlert(key, w, cfgs, j);
      var m := Remaining(n, w'.ep.successes);
      RestoredResolves(w', j, m);
      var hs := Repeated(w', m, true);
      assert NoticeAt(w', hs, m - 1, j) == Resolved && Streak(hs, m - 1 + 1, m - 1 + 1, true);
    }
  }

  function Least(a: int, b: int): int {
    if a <= b then a else b
  }

  // ---------- the first initial notification after a restart ----------

  /**
   After a restart some run notifies of alert j before FailureThreshold failures in a row exactly when the alert is
   enabled and starts over, its threshold is above 1, and another alert of the endpoint was restored.
   */
  lemma InitialsAfterRestartIff(key: string, w: World, cfgs: seq<Config>, answers: StoreAnswers, j: nat)
    requires CanRestart(key, w, cfgs, answers) && j < |cfgs|
    ensures Restart(key, cfgs, w.rows, answers).Shaped()
    ensures InitialsEarned(Restart(key, cfgs, w.rows, answers), j) <==>
            !(&& cfgs[j].IsEnabled() && cfgs[j].failureThreshold > 1 && Ids(key, cfgs)[j] !in w.rows
              && exists l :: 0 <= l < |cfgs| && Ids(key, cfgs)[l] in w.rows)
  {
    var last := LastPersisted(key, cfgs, w.rows);
    RestartCounters(key, w, cfgs, answers);
    InitialsEarnedIff(Restart(key, cfgs, w.rows, answers), j);
    if last.Some? {
      assert cfgs[last.value].Valid();
    }
  }

  // ---------- the first reminder after a restart ----------

  /**
   The first result after a restart sends a reminder whenever it is a failure that reaches the threshold and the
   reminder is delivered: how long ago the last one was sent before the restart does not matter.
   */
  lemma FirstReminderAfterRestartIff(
    key: string, w: World, cfgs: seq<Config>, answers: StoreAnswers, h: Handled, j: nat)
    requires CanRestart(key, w, cfgs, answers) && j < |cfgs| == |h.envs|
    requires h.envs[j].checkedAt >= 0 && cfgs[j].minimumReminderInterval <= MAX_DURATION
    ensures var w' := Restart(key, cfgs, w.rows, answers);
            && w'.Shaped() && |Next(w', h).notices| == |cfgs|
            && (Next(w', h).notices[j] == Reminder <==>
                  && !h.success && w'.ids[j] in w.rows && cfgs[j].minimumReminderInterval > 0
                  && cfgs[j].failureThreshold <= PersistedThreshold(key, cfgs, w.rows) + 1
                  && h.envs[j].provider && h.envs[j].sent)
  {
    RestartCounters(key, w, cfgs, answers);
    NextAlone(Restart(key, cfgs, w.rows, answers), h, j);
    if Ids(key, cfgs)[j] in w.rows {
      RowFitsNewAlert(key, w, cfgs, j);
    }
  }

  // ---------- a lifetime with a notification that comes too early ----------

  const EARLY := Config("early", None, 3, 2, 0, None, None)
  const LATE := Config("late", None, 4, 2, 0, None, None)
  const START := Restarted([EARLY, LATE], StoreAnswers(true, [true, true]))

  function Both(success: bool): Handled {
    Handled(success, [Env(0, true, true, "", 0, true), Env(0, true, true, "", 0, true)])
  }

  /** The second alert is not triggered, the first one as given. */
  ghost predicate PairIs(key: string, w: World, triggered: bool, failures: int, successes: int) {
    && Consistent(key, w) && w.cfgs == [EARLY, LATE]
    && (w.ep.alerts[0].triggered <==> triggered) && !w.ep.alerts[1].triggered
    && w.ep.failures == failures && w.ep.successes == successes
  }

  lemma PairHandled(key: string, w: World, success: bool, triggered: bool, failures: int, successes: int)
    requires PairIs(key, w, triggered, failures, successes)
    requires if success then successes == 0 else failures < 3
    ensures PairIs(key, After(w, Both(success)), triggered || (!success && failures >= 2),
                   if success then 0 else failures + 1, if success then 1 else 0)
  {
    HandlingKeepsConsistency(key, w, Both(success));
    NextAlone(w, Both(success), 0);
    NextAlone(w, Both(success), 1);
  }

  lemma PairStarted(key: string, w: World, triggered: bool, failures: int, successes: int)
    requires (w == Unstarted() && !triggered) || PairIs(key, w, triggered, failures, successes)
    ensures Admissible(key, w, START)
    ensures var w' := Happens(key, w, START);
            PairIs(key, w', triggered, if triggered then 3 else 0, w'.ep.successes)
  {
    var cfgs, answers := START.cfgs, START.answers;
    assert Ids(key, []) == [];
    DistinctChecksums(key);
    RestartMakesConsistent(key, w, cfgs, answers);
    RestartCounters(key, w, cfgs, answers);
    if w.cfgs == cfgs {
      assert w.ids == Ids(key, cfgs);
      assert AlertConsistent(w, 0) && AlertConsistent(w, 1);
    }
    var last := LastPersisted(key, cfgs, w.rows);
    assert Ids(key, cfgs)[0] in w.rows <==> triggered;
    assert Ids(key, cfgs)[1] !in w.rows;
  }

  lemma DistinctChecksums(key: string)
    ensures EARLY.Valid() && LATE.Valid() && Distinct(Ids(key, [EARLY, LATE]))
  {
    if Checksum(EARLY) == Checksum(LATE) {
      ChecksumDeterminesConfig(EARLY, LATE);
    }
  }

  lemma ReachPair(
    key: string, events: seq<Event>, w: World, success: bool, triggered: bool, failures: int, successes: int)
    requires Lifetime(key, events) == Some(w) && PairIs(key, w, triggered, failures, successes)
    requires if success then successes == 0 else failures < 3
    ensures Lifetime(key, events + [Result(Both(success))]) == Some(After(w, Both(success)))
    ensures PairIs(key, After(w, Both(success)), triggered || (!success && failures >= 2),
                   if success then 0 else failures + 1, if success then 1 else 0)
  {
    PairHandled(key, w, success, triggered, failures, successes);
    Reach(key, events, w, Result(Both(success)));
  }

  /** Three failures, a success, and a restart. */
  function Recovering(): seq<Event> {
    [] + [START] + [Result(Both(false))] + [Result(Both(false))] + [Result(Both(false))] + [Result(Both(true))]
      + [START]
  }

  /** The next failure is the only one since that success, yet an alert with a threshold of 4 is notified of. */
  lemma RestartCanTriggerTooEarly(key: string)
    ensures var w := Lifetime(key, Recovering());
            && LATE.failureThreshold == 4 && w.Some? && w.value.cfgs == [EARLY, LATE] && |w.value.ids| == 2
            && Admissible(key, w.value, Result(Both(false)))
            && NoticeFor(w.value.ids[1], w.value, Result(Both(false))) == Initial
  {
    var e0 := [] + [START];
    PairStarted(key, Unstarted(), false, 0, 0);
    Reach(key, [], Unstarted(), START);
    var w0 := Happens(key, Unstarted(), START);
    var s0 := w0.ep.successes;
    ReachPair(key, e0, w0, false, false, 0, s0);
    var w1 := After(w0, Both(false));
    ReachPair(key, e0 + [Result(Both(false))], w1, false, false, 1, 0);
    var w2 := After(w1, Both(false));
    ReachPair(key, e0 + [Result(Both(false))] + [Result(Both(false))], w2, false, false, 2, 0);
    var w3 := After(w2, Both(false));
    var e3 := e0 + [Result(Both(false))] + [Result(Both(false))] + [Result(Both(false))];
    ReachPair(key, e3, w3, true, true, 3, 0);
    var w4 := After(w3, Both(true));
    PairStarted(key, w4, true, 0, 1);
    Reach(key, e3 + [Result(Both(true))], w4, START);
    FourthFailureNotifies(key, Happens(key, w4, START));
  }

  lemma FourthFailureNotifies(key: string, w: World)
    requires PairIs(key, w, true, 3, w.ep.successes)
    ensures Admissible(key, w, Result(Both(false))) && |w.ids| == 2
    ensures NoticeFor(w.ids[1], w, Result(Both(false))) == Initial
  {
    NoticeForIs(w, Both(false), 1);
    NextAlone(w, Both(false), 1);
  }
}
