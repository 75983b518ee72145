/**
 What HandleAlerting guarantees over a whole run of results, from one start of the program to the next
 (`watchdog/alerting.go`). Every lemma holds for arbitrary send failures, missing providers and store errors.
 */
module AlertRuns {
  import opened Wrappers
  import opened Alerts
  import opened AlertLoops

  datatype Handled = Handled(success: bool, envs: seq<Env>)

  /** An endpoint with its configured alerts and the rows they are persisted in, and the record store. */
  datatype World = World(ids: seq<RecordId>, cfgs: seq<Config>, ep: EndpointState, rows: Records)
  {
    ghost predicate Shaped() {
      |ids| == |cfgs| == |ep.alerts|
    }

    ghost predicate Valid() {
      Shaped() && forall c <- cfgs :: c.Valid()
    }

    /** A start of the program, with or without restored alerts. */
    ghost predicate Started() {
      Valid() && ep.failures >= 0 && ep.successes >= 0
    }
  }

  ghost predicate Fits(w: World, hs: seq<Handled>) {
    forall k | 0 <= k < |hs| :: |hs[k].envs| == |w.cfgs|
  }

  function Next(w: World, h: Handled): Progress
    requires w.Shaped() && |h.envs| == |w.cfgs|
  {
    Handle(w.ids, w.cfgs, w.ep, w.rows, h.success, h.envs)
  }

  /** One step, as alert j sees it. */
  lemma NextAlone(w: World, h: Handled, j: nat)
    requires w.Shaped() && |h.envs| == |w.cfgs| && j < |w.cfgs|
    ensures var p := Next(w, h);
            var o := Alone(w.cfgs[j], w.ep, w.ep.alerts[j], h.success, h.envs[j]);
            && |p.ep.alerts| == |p.notices| == |w.cfgs|
            && p.ep.alerts[j] == o.state && p.notices[j] == o.notice
            && p.ep.failures == FailuresAfter(w.ep, h.success)
            && p.ep.successes == SuccessesAfter(w.ep, h.success)
  {
    HandleActsAlone(w.ids, w.cfgs, w.ep, w.rows, h.success, h.envs);
  }

  ghost function After(w: World, h: Handled): (r: World)
    requires w.Shaped() && |h.envs| == |w.cfgs|
    ensures r.ids == w.ids && r.cfgs == w.cfgs && r.Shaped()
  {
    HandleActsAlone(w.ids, w.cfgs, w.ep, w.rows, h.success, h.envs);
    w.(ep := Next(w, h).ep, rows := Next(w, h).rows)
  }

  /** The world after a run. */
  ghost function Run(w: World, hs: seq<Handled>): (r: World)
    requires w.Shaped() && Fits(w, hs)
    ensures r.ids == w.ids && r.cfgs == w.cfgs && r.Shaped()
  {
    if hs == [] then w else After(Run(w, hs[..|hs| - 1]), hs[|hs| - 1])
  }

  /** What alert j announced at step k of a run. */
  ghost function NoticeAt(w: World, hs: seq<Handled>, k: nat, j: nat): Notice
    requires w.Shaped() && Fits(w, hs) && k < |hs| && j < |w.cfgs|
  {
    NextAlone(Run(w, hs[..k]), hs[k], j);
    Next(Run(w, hs[..k]), hs[k]).notices[j]
  }

  /** One more step of a run, as alert j sees it. */
  lemma RunStep(w: World, hs: seq<Handled>, k: nat, j: nat)
    requires w.Shaped() && Fits(w, hs) && k < |hs| && j < |w.cfgs|
    ensures var before := Run(w, hs[..k]);
            var after := Run(w, hs[..k + 1]);
            var o := Alone(w.cfgs[j], before.ep, before.ep.alerts[j], hs[k].success, hs[k].envs[j]);
            && after == After(before, hs[k])
            && after.ep.alerts[j] == o.state && NoticeAt(w, hs, k, j) == o.notice
            && after.ep.failures == FailuresAfter(before.ep, hs[k].success)
            && after.ep.successes == SuccessesAfter(before.ep, hs[k].success)
  {
    assert hs[..k + 1][..k] == hs[..k];
    NextAlone(Run(w, hs[..k]), hs[k], j);
  }

  lemma LastStep(w: World, hs: seq<Handled>, j: nat)
    requires w.Shaped() && Fits(w, hs) && hs != [] && j < |w.cfgs|
    ensures var k := |hs| - 1;
            var before := Run(w, hs[..k]);
            var o := Alone(w.cfgs[j], before.ep, before.ep.alerts[j], hs[k].success, hs[k].envs[j]);
            && Run(w, hs).ep.alerts[j] == o.state && NoticeAt(w, hs, k, j) == o.notice
            && Run(w, hs).ep.failures == FailuresAfter(before.ep, hs[k].success)
            && Run(w, hs).ep.successes == SuccessesAfter(before.ep, hs[k].success)
  {
    assert hs[..|hs|] == hs;
    RunStep(w, hs, |hs| - 1, j);
  }

  /** A step of a run announces the same in every longer run. */
  lemma NoticeOfPrefix(w: World, hs: seq<Handled>, n: nat, k: nat, j: nat)
    requires w.Shaped() && Fits(w, hs) && k < n <= |hs| && j < |w.cfgs|
    ensures NoticeAt(w, hs[..n], k, j) == NoticeAt(w, hs, k, j)
  {
    assert hs[..n][..k] == hs[..k];
  }

  // ---------- runs of equal results ----------

  /** The n results before position end all have the given success. */
  ghost predicate Streak(hs: seq<Handled>, end: int, n: int, success: bool) {
    0 <= n <= end <= |hs| && forall k | end - n <= k < end :: hs[k].success == success
  }

  lemma StreakOfPrefix(hs: seq<Handled>, m: nat, end: int, n: int, success: bool)
    requires end <= m <= |hs|
    ensures Streak(hs[..m], end, n, success) <==> Streak(hs, end, n, success)
  {
    if Streak(hs[..m], end, n, success) {
      forall k | end - n <= k < end ensures hs[k].success == success { assert hs[..m][k] == hs[k]; }
    }
  }

  lemma StreakGrows(hs: seq<Handled>, n: int, success: bool)
    requires hs != [] && n > 0
    ensures Streak(hs, |hs|, n, success) <==>
            hs[|hs| - 1].success == success && Streak(hs[..|hs| - 1], |hs| - 1, n - 1, success)
  {
    StreakOfPrefix(hs, |hs| - 1, |hs| - 1, n - 1, success);
  }

  /**
   What a counter that started at the given value is at least: a run of results, or the start and nothing but such
   results.
   */
  ghost predicate Reached(start: int, hs: seq<Handled>, end: int, n: int, success: bool) {
    Streak(hs, end, n, success) || (Streak(hs, end, end, success) && start + end >= n)
  }

  lemma ReachedInPrefix(start: int, hs: seq<Handled>, m: nat, end: int, n: int, success: bool)
    requires end <= m <= |hs|
    ensures Reached(start, hs[..m], end, n, success) <==> Reached(start, hs, end, n, success)
  {
    StreakOfPrefix(hs, m, end, n, success);
    StreakOfPrefix(hs, m, end, end, success);
  }

  lemma ReachedGrows(start: int, hs: seq<Handled>, n: int, success: bool)
    requires hs != [] && n > 0
    ensures Reached(start, hs, |hs|, n, success) <==>
            hs[|hs| - 1].success == success && Reached(start, hs[..|hs| - 1], |hs| - 1, n - 1, success)
  {
    StreakGrows(hs, n, success);
    StreakGrows(hs, |hs|, success);
  }

  lemma LastCounters(w: World, hs: seq<Handled>)
    requires w.Shaped() && Fits(w, hs) && hs != []
    ensures var before, success := Run(w, hs[..|hs| - 1]), hs[|hs| - 1].success;
            && Run(w, hs).ep.failures == FailuresAfter(before.ep, success)
            && Run(w, hs).ep.successes == SuccessesAfter(before.ep, success)
  {
    var before, h := Run(w, hs[..|hs| - 1]), hs[|hs| - 1];
    HandleActsAlone(w.ids, w.cfgs, before.ep, before.rows, h.success, h.envs);
  }

  /**
   From any start, the counters are the lengths of the trailing runs, and go on from the start while nothing
   interrupts.
   */
  lemma {:induction false} CountersAreTrailingRuns(w: World, hs: seq<Handled>, n: int)
    requires w.Shaped() && w.ep.failures >= 0 && w.ep.successes >= 0 && Fits(w, hs) && n >= 0
    ensures Run(w, hs).ep.failures >= n <==> Reached(w.ep.failures, hs, |hs|, n, false)
    ensures Run(w, hs).ep.successes >= n <==> Reached(w.ep.successes, hs, |hs|, n, true)
    decreases |hs|
  {
    if hs != [] {
      var front := hs[..|hs| - 1];
      LastCounters(w, hs);
      CountersAreTrailingRuns(w, front, 0);
      if n > 0 {
        CountersAreTrailingRuns(w, front, n - 1);
        ReachedGrows(w.ep.failures, hs, n, false);
        ReachedGrows(w.ep.successes, hs, n, true);
      }
    }
  }

  // ---------- Triggered says what it should ----------

  /**
   The result before position i was a failure that brought the counter to FailureThreshold, and a notification went
   out.
   */
  ghost predicate FiredAt(w: World, hs: seq<Handled>, j: nat, i: nat)
    requires Fits(w, hs) && j < |w.cfgs|
  {
    && 1 <= i <= |hs| && Reached(w.ep.failures, hs, i, w.cfgs[j].failureThreshold, false)
    && hs[i - 1].envs[j].provider && hs[i - 1].envs[j].sent
  }

  /** No success after position i has brought the counter to SuccessThreshold. */
  ghost predicate NotRecoveredSince(w: World, hs: seq<Handled>, j: nat, i: nat)
    requires j < |w.cfgs|
  {
    forall end: nat | i < end <= |hs| :: !Reached(w.ep.successes, hs, end, w.cfgs[j].successThreshold, true)
  }

  ghost predicate OngoingIncident(w: World, hs: seq<Handled>, j: nat)
    requires w.Shaped() && Fits(w, hs) && j < |w.cfgs|
  {
    || (w.ep.alerts[j].triggered && NotRecoveredSince(w, hs, j, 0))
    || exists i: nat :: FiredAt(w, hs, j, i) && NotRecoveredSince(w, hs, j, i)
  }

  lemma FiredInPrefix(w: World, hs: seq<Handled>, j: nat, i: nat)
    requires Fits(w, hs) && j < |w.cfgs| && hs != [] && i < |hs|
    ensures FiredAt(w, hs, j, i) == FiredAt(w, hs[..|hs| - 1], j, i)
  {
    ReachedInPrefix(w.ep.failures, hs, |hs| - 1, i, w.cfgs[j].failureThreshold, false);
  }

  lemma RecoveredInPrefix(w: World, hs: seq<Handled>, j: nat, i: nat)
    requires j < |w.cfgs| && i < |hs|
    ensures NotRecoveredSince(w, hs, j, i) <==>
            && NotRecoveredSince(w, hs[..|hs| - 1], j, i)
            && !Reached(w.ep.successes, hs, |hs|, w.cfgs[j].successThreshold, true)
  {
    var front, n := hs[..|hs| - 1], w.cfgs[j].successThreshold;
    forall end: nat | end <= |front|
      ensures Reached(w.ep.successes, front, end, n, true) == Reached(w.ep.successes, hs, end, n, true)
    {
      ReachedInPrefix(w.ep.successes, hs, |front|, end, n, true);
    }
  }

  lemma OngoingAfterOneMore(w: World, hs: seq<Handled>, j: nat)
    requires w.Shaped() && Fits(w, hs) && j < |w.cfgs| && hs != []
    ensures OngoingIncident(w, hs, j) <==>
            || (OngoingIncident(w, hs[..|hs| - 1], j)
              && !Reached(w.ep.successes, hs, |hs|, w.cfgs[j].successThreshold, true))
            || FiredAt(w, hs, j, |hs|)
  {
    var front := hs[..|hs| - 1];
    RecoveredInPrefix(w, hs, j, 0);
    if FiredAt(w, hs, j, |hs|) {
      assert NotRecoveredSince(w, hs, j, |hs|);
    }
    if i: nat :| FiredAt(w, front, j, i) && NotRecoveredSince(w, front, j, i) {
      FiredInPrefix(w, hs, j, i);
      RecoveredInPrefix(w, hs, j, i);
    }
    if i: nat :| FiredAt(w, hs, j, i) && NotRecoveredSince(w, hs, j, i) {
      if i < |hs| {
        FiredInPrefix(w, hs, j, i);
        RecoveredInPrefix(w, hs, j, i);
      }
    }
  }

  /**
   Triggered is declarative, from any start: alert j is triggered exactly when it was restored so, or some failure
   that brought the counter to FailureThreshold was notified of, and no success since has brought the counter to
   SuccessThreshold.
   */
  lemma {:induction false} TriggeredIsDeclarative(w: World, hs: seq<Handled>, j: nat)
    requires w.Started() && Fits(w, hs) && j < |w.cfgs| && w.cfgs[j].enabled != Some(false)
    ensures Run(w, hs).ep.alerts[j].triggered <==> OngoingIncident(w, hs, j)
    decreases |hs|
  {
    var c := w.cfgs[j];
    assert c.Valid();
    if hs != [] {
      LastStep(w, hs, j);
      TriggeredIsDeclarative(w, hs[..|hs| - 1], j);
      CountersAreTrailingRuns(w, hs, c.failureThreshold);
      CountersAreTrailingRuns(w, hs, c.successThreshold);
      OngoingAfterOneMore(w, hs, j);
      if hs[|hs| - 1].success {
        assert !FiredAt(w, hs, j, |hs|);
      } else {
        assert !Reached(w.ep.successes, hs, |hs|, c.successThreshold, true);
      }
    }
  }

  /** A disabled alert stays as it was at the start, and announces nothing. */
  lemma {:induction false} DisabledStaysAsItWas(w: World, hs: seq<Handled>, j: nat)
    requires w.Shaped() && Fits(w, hs) && j < |w.cfgs| && w.cfgs[j].enabled == Some(false)
    ensures Run(w, hs).ep.alerts[j] == w.ep.alerts[j]
    ensures forall k | 0 <= k < |hs| :: NoticeAt(w, hs, k, j) == Silent
    decreases |hs|
  {
    if hs != [] {
      var front := hs[..|hs| - 1];
      LastStep(w, hs, j);
      DisabledStaysAsItWas(w, front, j);
      forall k | 0 <= k < |front| ensures NoticeAt(w, hs, k, j) == Silent {
        NoticeOfPrefix(w, hs, |front|, k, j);
      }
    }
  }

  // ---------- notifications alternate ----------

  /** Initial notifications and resolutions take turns and reminders come in between; None once they do not. */
  function TakeTurns(on: bool, notices: seq<Notice>): Option<bool> {
    if notices == [] then Some(on)
    else
      var before := TakeTurns(on, notices[..|notices| - 1]);
      if before.None? then None
      else
        match notices[|notices| - 1]
        case Silent => before
        case Initial => if before.value then None else Some(true)
        case Reminder => if before.value then before else None
        case Resolved => if before.value then Some(false) else None
  }

  ghost function NoticesOf(w: World, hs: seq<Handled>, j: nat): seq<Notice>
    requires w.Shaped() && Fits(w, hs) && j < |w.cfgs|
  {
    seq(|hs|, k requires 0 <= k < |hs| => NoticeAt(w, hs, k, j))
  }

  lemma TakeTurnsOneMore(on: bool, notices: seq<Notice>, n: Notice)
    ensures TakeTurns(on, notices + [n]) ==
            if TakeTurns(on, notices).None? then None else TakeTurns(TakeTurns(on, notices).value, [n])
  {
    assert (notices + [n])[..|notices|] == notices;
    assert forall b :: TakeTurns(b, [n][..0]) == Some(b);
  }

  lemma NoticesOfOneMore(w: World, hs: seq<Handled>, j: nat)
    requires w.Shaped() && Fits(w, hs) && hs != [] && j < |w.cfgs|
    ensures NoticesOf(w, hs, j) == NoticesOf(w, hs[..|hs| - 1], j) + [NoticeAt(w, hs, |hs| - 1, j)]
  {
    var front := hs[..|hs| - 1];
    forall k | 0 <= k < |front| ensures NoticeAt(w, hs, k, j) == NoticeAt(w, front, k, j) {
      NoticeOfPrefix(w, hs, |front|, k, j);
    }
  }

  lemma AloneTakesTurns(c: Config, ep: EndpointState, a: AlertState, success: bool, e: Env)
    ensures var o := Alone(c, ep, a, success, e);
            TakeTurns(a.triggered, [o.notice]) == Some(o.state.triggered)
  {
    assert TakeTurns(a.triggered, []) == Some(a.triggered);
  }

  /** From any start, restored or fresh, the notices of an alert alternate and end where its Triggered flag is. */
  lemma {:induction false} NoticesAlternate(w: World, hs: seq<Handled>, j: nat)
    requires w.Shaped() && Fits(w, hs) && j < |w.cfgs|
    ensures TakeTurns(w.ep.alerts[j].triggered, NoticesOf(w, hs, j)) == Some(Run(w, hs).ep.alerts[j].triggered)
    decreases |hs|
  {
    if hs != [] {
      var k := |hs| - 1;
      var before := Run(w, hs[..k]);
      NoticesAlternate(w, hs[..k], j);
      LastStep(w, hs, j);
      NoticesOfOneMore(w, hs, j);
      TakeTurnsOneMore(w.ep.alerts[j].triggered, NoticesOf(w, hs[..k], j), NoticeAt(w, hs, k, j));
      AloneTakesTurns(w.cfgs[j], before.ep, before.ep.alerts[j], hs[k].success, hs[k].envs[j]);
    }
  }

  // ---------- when initial notifications and resolutions come ----------

  /** An initial notification goes out exactly when no incident is ongoing and a failure fires one. */
  lemma InitialIff(w: World, hs: seq<Handled>, k: nat, j: nat)
    requires w.Started() && Fits(w, hs) && k < |hs| && j < |w.cfgs|
    ensures NoticeAt(w, hs, k, j) == Initial <==>
            w.cfgs[j].IsEnabled() && !OngoingIncident(w, hs[..k], j) && FiredAt(w, hs, j, k + 1)
  {
    var c, upto := w.cfgs[j], hs[..k + 1];
    assert c.Valid();
    RunStep(w, hs, k, j);
    CountersAreTrailingRuns(w, upto, c.failureThreshold);
    ReachedInPrefix(w.ep.failures, hs, k + 1, k + 1, c.failureThreshold, false);
    if c.IsEnabled() {
      TriggeredIsDeclarative(w, hs[..k], j);
    }
  }

  /** A resolution comes exactly when an incident is ongoing and a success brings the counter to SuccessThreshold. */
  lemma ResolvedIff(w: World, hs: seq<Handled>, k: nat, j: nat)
    requires w.Started() && Fits(w, hs) && k < |hs| && j < |w.cfgs|
    ensures NoticeAt(w, hs, k, j) == Resolved <==>
            && w.cfgs[j].IsEnabled() && OngoingIncident(w, hs[..k], j)
            && Reached(w.ep.successes, hs, k + 1, w.cfgs[j].successThreshold, true)
  {
    var c, upto := w.cfgs[j], hs[..k + 1];
    assert c.Valid();
    RunStep(w, hs, k, j);
    CountersAreTrailingRuns(w, upto, c.successThreshold);
    ReachedInPrefix(w.ep.successes, hs, k + 1, k + 1, c.successThreshold, true);
    if c.IsEnabled() {
      TriggeredIsDeclarative(w, hs[..k], j);
    }
  }

  /** How many successes in a row it takes after a start until a restored alert is resolved. */
  function Remaining(threshold: int, start: int): int {
    if threshold - start >= 1 then threshold - start else 1
  }

  /**
   Step k resolves after exactly n successes in a row, if a failure was handled before; if none was, the alert was
   restored, and it took exactly as many successes as the counter left to go at the start.
   */
  ghost predicate ResolvedInTime(hs: seq<Handled>, k: nat, n: int, start: int, restored: bool)
    requires k < |hs| && n >= 1
  {
    if Streak(hs, k + 1, k + 1, true) then restored && k + 1 == Remaining(n, start)
    else Streak(hs, k + 1, n, true) && k + 1 - n >= 1 && !hs[k - n].success
  }

  /** From any start, every resolution comes after exactly the successes it takes. */
  lemma ResolvedAtExactlyTheThreshold(w: World, hs: seq<Handled>, k: nat, j: nat)
    requires w.Started() && Fits(w, hs) && k < |hs| && j < |w.cfgs|
    requires NoticeAt(w, hs, k, j) == Resolved
    ensures w.cfgs[j].Valid()
    ensures ResolvedInTime(hs, k, w.cfgs[j].successThreshold, w.ep.successes, w.ep.alerts[j].triggered)
  {
    var n := w.cfgs[j].successThreshold;
    assert w.cfgs[j].Valid();
    ResolvedIff(w, hs, k, j);
    if Streak(hs, k + 1, k + 1, true) {
      NoFailureNoFiring(w, hs, k, j);
    } else {
      OngoingHasFailure(w, hs, k, j);
    }
  }

  /** Successes alone leave only a restored incident, whose counter they have not brought to the threshold. */
  lemma NoFailureNoFiring(w: World, hs: seq<Handled>, k: nat, j: nat)
    requires w.Started() && Fits(w, hs) && k <= |hs| && j < |w.cfgs|
    requires Streak(hs, k, k, true) && OngoingIncident(w, hs[..k], j)
    ensures w.ep.alerts[j].triggered && (k > 0 ==> w.ep.successes + k < w.cfgs[j].successThreshold)
  {
    var front := hs[..k];
    assert w.cfgs[j].Valid();
    StreakOfPrefix(hs, k, k, k, true);
    if i: nat :| FiredAt(w, front, j, i) && NotRecoveredSince(w, front, j, i) {
      assert front[i - 1].success;
    }
    if k > 0 {
      assert !Reached(w.ep.successes, front, |front|, w.cfgs[j].successThreshold, true);
    }
  }

  /** While an incident is ongoing, SuccessThreshold successes in a row have not been handled. */
  lemma OngoingHasFailure(w: World, hs: seq<Handled>, k: nat, j: nat)
    requires w.Started() && Fits(w, hs) && k < |hs| && j < |w.cfgs|
    requires OngoingIncident(w, hs[..k], j)
    requires var n := w.cfgs[j].successThreshold; Streak(hs, k + 1, n, true) && n <= k
    ensures !hs[k - w.cfgs[j].successThreshold].success
  {
    var front, n := hs[..k], w.cfgs[j].successThreshold;
    assert w.cfgs[j].Valid();
    if hs[k - n].success {
      assert Streak(front, k, n, true);
      assert Reached(w.ep.successes, front, k, n, true);
    }
  }

  // ---------- starts after which they come too early ----------

  /** In no run from this start is alert j notified of before FailureThreshold failures in a row. */
  ghost predicate InitialsEarned(w: World, j: nat)
    requires w.Shaped() && j < |w.cfgs|
  {
    forall hs: seq<Handled>, k: nat | Fits(w, hs) && k < |hs| && NoticeAt(w, hs, k, j) == Initial ::
      Streak(hs, k + 1, w.cfgs[j].failureThreshold, false)
  }

  /** In no run from this start is alert j resolved before SuccessThreshold successes in a row. */
  ghost predicate ResolutionsEarned(w: World, j: nat)
    requires w.Shaped() && j < |w.cfgs|
  {
    forall hs: seq<Handled>, k: nat | Fits(w, hs) && k < |hs| && NoticeAt(w, hs, k, j) == Resolved ::
      Streak(hs, k + 1, w.cfgs[j].successThreshold, true)
  }

  /** The same result n times, with every notification delivered. */
  function Repeated(w: World, n: nat, success: bool): (hs: seq<Handled>)
    ensures |hs| == n && Fits(w, hs) && forall k | 0 <= k < n :: hs[k].success == success
    ensures forall k, j | 0 <= k < n && 0 <= j < |w.cfgs| :: hs[k].envs[j].provider && hs[k].envs[j].sent
  {
    seq(n, _ => Handled(success, seq(|w.cfgs|, _ => Env(0, true, true, "", 0, true))))
  }

  lemma FailuresDoNotRecover(w: World, hs: seq<Handled>, k: nat, j: nat)
    requires w.Valid() && j < |w.cfgs| && k <= |hs| && Streak(hs, k, k, false)
    ensures NotRecoveredSince(w, hs[..k], j, 0)
  {
    var front := hs[..k];
    assert w.cfgs[j].Valid();
    forall end: nat | 0 < end <= |front|
      ensures !Reached(w.ep.successes, front, end, w.cfgs[j].successThreshold, true)
    {
      assert !front[end - 1].success;
    }
  }

  /**
   Exactly the starts with a failure counter above zero notify too early, and only of alerts that are not triggered.
   */
  lemma InitialsEarnedIff(w: World, j: nat)
    requires w.Started() && j < |w.cfgs|
    ensures InitialsEarned(w, j) <==>
            !(w.cfgs[j].IsEnabled() && !w.ep.alerts[j].triggered && w.ep.failures > 0 && w.cfgs[j].failureThreshold > 1)
  {
    var n := w.cfgs[j].failureThreshold;
    assert w.cfgs[j].Valid();
    if w.cfgs[j].IsEnabled() && !w.ep.alerts[j].triggered && w.ep.failures > 0 && n > 1 {
      var m := Remaining(n, w.ep.failures);
      var hs := Repeated(w, m, false);
      var front := hs[..m - 1];
      InitialIff(w, hs, m - 1, j);
      assert forall i: nat :: !FiredAt(w, front, j, i);
      assert NoticeAt(w, hs, m - 1, j) == Initial && !Streak(hs, m, n, false);
    } else {
      forall hs: seq<Handled>, k: nat | Fits(w, hs) && k < |hs| && NoticeAt(w, hs, k, j) == Initial
        ensures Streak(hs, k + 1, n, false)
      {
        InitialIff(w, hs, k, j);
        if !Streak(hs, k + 1, n, false) {
          assert Streak(hs, k + 1, k + 1, false);
          FailuresDoNotRecover(w, hs, k, j);
        }
      }
    }
  }

  /** Exactly the starts with a success counter above zero resolve too early, and only alerts that are triggered. */
  lemma ResolutionsEarnedIff(w: World, j: nat)
    requires w.Started() && j < |w.cfgs|
    ensures ResolutionsEarned(w, j) <==>
            !(w.cfgs[j].IsEnabled() && w.ep.alerts[j].triggered && w.ep.successes > 0 && w.cfgs[j].successThreshold > 1)
  {
    var n := w.cfgs[j].successThreshold;
    assert w.cfgs[j].Valid();
    if w.cfgs[j].IsEnabled() && w.ep.alerts[j].triggered && w.ep.successes > 0 && n > 1 {
      var m := Remaining(n, w.ep.successes);
      RestoredResolves(w, j, m);
      var hs := Repeated(w, m, true);
      assert NoticeAt(w, hs, m - 1, j) == Resolved && !Streak(hs, m, n, true);
    } else {
      forall hs: seq<Handled>, k: nat | Fits(w, hs) && k < |hs| && NoticeAt(w, hs, k, j) == Resolved
        ensures Streak(hs, k + 1, n, true)
      {
        ResolvedIff(w, hs, k, j);
        ResolvedAtExactlyTheThreshold(w, hs, k, j);
      }
    }
  }

  /** A restored alert is resolved by the successes that its counter leaves to go. */
  lemma RestoredResolves(w: World, j: nat, m: nat)
    requires w.Started() && j < |w.cfgs| && w.cfgs[j].IsEnabled() && w.ep.alerts[j].triggered
    requires m == Remaining(w.cfgs[j].successThreshold, w.ep.successes)
    ensures NoticeAt(w, Repeated(w, m, true), m - 1, j) == Resolved
  {
    var hs := Repeated(w, m, true);
    assert w.cfgs[j].Valid();
    ResolvedIff(w, hs, m - 1, j);
    assert NotRecoveredSince(w, hs[..m - 1], j, 0);
  }

  // ---------- when reminders come ----------

  predicate Notified(n: Notice) {
    n == Initial || n == Reminder
  }

  /** The last alert, from alert i on, that was notified of. */
  function LastNotified(notices: seq<Notice>, i: nat): (r: Option<nat>)
    requires i <= |notices|
    ensures r.Some? ==> i <= r.value < |notices| && Notified(notices[r.value])
    ensures forall j | i <= j < |notices| && Notified(notices[j]) :: r.Some? && j <= r.value
    decreases |notices| - i
  {
    if i == |notices| then None
    else
      var later := LastNotified(notices, i + 1);
      if later.Some? then later else if Notified(notices[i]) then Some(i) else None
  }

  /** The loop leaves the time at which the last of its notifications was sent. */
  lemma {:induction false} LoopLeavesLastTime(
    ids: seq<RecordId>, cfgs: seq<Config>, p: Progress, success: bool, reference: int, envs: seq<Env>, i: nat)
    requires i <= |ids| == |cfgs| == |p.ep.alerts| == |envs| && |p.notices| == i
    ensures var q := Loop(ids, cfgs, p, success, reference, envs, i);
            && |q.notices| == |cfgs| && (forall j | 0 <= j < i :: q.notices[j] == p.notices[j])
            && var last := LastNotified(q.notices, i);
               q.ep.lastReminderSent == if last.Some? then envs[last.value].sentAt else p.ep.lastReminderSent
    decreases |cfgs| - i
  {
    if i < |cfgs| {
      var o := Turn(cfgs[i], p.ep.alerts[i], success, Count(p.ep, success), reference, envs[i]);
      var p' := Commit(ids, cfgs, p, i, o, envs[i]);
      LoopLeavesLastTime(ids, cfgs, p', success, reference, envs, i + 1);
      assert p'.notices[i] == o.notice;
    }
  }

  /** Alert j was notified of at step k, and none was after that in the first n steps. */
  ghost predicate LastNoticeAt(w: World, hs: seq<Handled>, n: nat, k: nat, j: nat)
    requires w.Shaped() && Fits(w, hs) && n <= |hs|
  {
    && k < n && j < |w.cfgs| && Notified(NoticeAt(w, hs, k, j))
    && forall k': nat, j': nat | k <= k' < n && j' < |w.cfgs| && (k < k' || j < j') ::
      !Notified(NoticeAt(w, hs, k', j'))
  }

  /** When the last notification of the first n steps was sent, for whichever alert; else, what the start remembered. */
  ghost predicate LastNoticeSentAt(w: World, hs: seq<Handled>, n: nat, t: int)
    requires w.Shaped() && Fits(w, hs) && n <= |hs|
  {
    || (t == w.ep.lastReminderSent && forall k: nat, j: nat | k < n && j < |w.cfgs| :: !Notified(NoticeAt(w, hs, k, j)))
    || exists k: nat, j: nat :: LastNoticeAt(w, hs, n, k, j) && t == hs[k].envs[j].sentAt
  }

  lemma StaysLastNotice(w: World, hs: seq<Handled>, n: nat, k: nat, j: nat)
    requires w.Shaped() && Fits(w, hs) && n < |hs| && LastNoticeAt(w, hs, n, k, j)
    requires forall j: nat | j < |w.cfgs| :: !Notified(NoticeAt(w, hs, n, j))
    ensures LastNoticeAt(w, hs, n + 1, k, j)
  {
  }

  lemma NoNoticeInStep(w: World, hs: seq<Handled>, n: nat, t: int)
    requires w.Shaped() && Fits(w, hs) && n < |hs| && LastNoticeSentAt(w, hs, n, t)
    requires forall j: nat | j < |w.cfgs| :: !Notified(NoticeAt(w, hs, n, j))
    ensures LastNoticeSentAt(w, hs, n + 1, t)
  {
    if k: nat, j: nat :| LastNoticeAt(w, hs, n, k, j) && t == hs[k].envs[j].sentAt {
      StaysLastNotice(w, hs, n, k, j);
    }
  }

  lemma LastNoticeInStep(w: World, hs: seq<Handled>, n: nat, j: nat)
    requires w.Shaped() && Fits(w, hs) && n < |hs| && j < |w.cfgs| && Notified(NoticeAt(w, hs, n, j))
    requires forall j': nat | j < j' < |w.cfgs| :: !Notified(NoticeAt(w, hs, n, j'))
    ensures LastNoticeSentAt(w, hs, n + 1, hs[n].envs[j].sentAt)
  {
    assert LastNoticeAt(w, hs, n + 1, n, j);
  }

  lemma LastNoticeAfterStep(w: World, hs: seq<Handled>, n: nat, t: int, notices: seq<Notice>)
    requires w.Shaped() && Fits(w, hs) && n < |hs| && LastNoticeSentAt(w, hs, n, t)
    requires |notices| == |w.cfgs| && forall j | 0 <= j < |w.cfgs| :: NoticeAt(w, hs, n, j) == notices[j]
    ensures var last := LastNotified(notices, 0);
            LastNoticeSentAt(w, hs, n + 1, if last.Some? then hs[n].envs[last.value].sentAt else t)
  {
    var last := LastNotified(notices, 0);
    if last.Some? {
      LastNoticeInStep(w, hs, n, last.value);
    } else {
      NoNoticeInStep(w, hs, n, t);
    }
  }

  lemma {:induction false} RemembersLastNotice(w: World, hs: seq<Handled>, n: nat)
    requires w.Shaped() && Fits(w, hs) && n <= |hs|
    ensures LastNoticeSentAt(w, hs, n, Run(w, hs[..n]).ep.lastReminderSent)
    decreases n
  {
    if n == 0 {
      assert hs[..0] == [];
    } else {
      RemembersLastNotice(w, hs, n - 1);
      var notices := StepLeavesLastTime(w, hs, n - 1);
      LastNoticeAfterStep(w, hs, n - 1, Run(w, hs[..n - 1]).ep.lastReminderSent, notices);
    }
  }

  lemma StepLeavesLastTime(w: World, hs: seq<Handled>, k: nat) returns (notices: seq<Notice>)
    requires w.Shaped() && Fits(w, hs) && k < |hs|
    ensures |notices| == |w.cfgs| && forall j | 0 <= j < |w.cfgs| :: NoticeAt(w, hs, k, j) == notices[j]
    ensures var last := LastNotified(notices, 0);
            Run(w, hs[..k + 1]).ep.lastReminderSent ==
            if last.Some? then hs[k].envs[last.value].sentAt else Run(w, hs[..k]).ep.lastReminderSent
  {
    var before, h := Run(w, hs[..k]), hs[k];
    notices := Next(before, h).notices;
    assert hs[..k + 1][..k] == hs[..k];
    var start := Progress(Counted(before.ep, h.success), before.rows, []);
    LoopLeavesLastTime(w.ids, w.cfgs, start, h.success, before.ep.lastReminderSent, h.envs, 0);
  }

  /**
   A reminder goes out exactly when an incident is ongoing, a failure at the threshold can be notified of, and at
   least the alert's interval has passed since the endpoint's last notification before this step.
   */
  lemma ReminderIff(w: World, hs: seq<Handled>, k: nat, j: nat) returns (sentAt: int)
    requires w.Started() && Fits(w, hs) && k < |hs| && j < |w.cfgs|
    ensures LastNoticeSentAt(w, hs, k, sentAt)
    ensures NoticeAt(w, hs, k, j) == Reminder <==>
            && w.cfgs[j].enabled != Some(false) && OngoingIncident(w, hs[..k], j) && FiredAt(w, hs, j, k + 1)
            && w.cfgs[j].minimumReminderInterval > 0
            && hs[k].envs[j].checkedAt - sentAt >= w.cfgs[j].minimumReminderInterval
  {
    var c, upto := w.cfgs[j], hs[..k + 1];
    sentAt := Run(w, hs[..k]).ep.lastReminderSent;
    assert c.Valid();
    RemembersLastNotice(w, hs, k);
    RunStep(w, hs, k, j);
    CountersAreTrailingRuns(w, upto, c.failureThreshold);
    ReachedInPrefix(w.ep.failures, hs, k + 1, k + 1, c.failureThreshold, false);
    if c.IsEnabled() {
      TriggeredIsDeclarative(w, hs[..k], j);
    }
  }

  // ---------- reminders keep their distance ----------

  /** The clock is read in the order of the steps and, within a step, of the alerts. */
  ghost predicate Clocked(w: World, hs: seq<Handled>)
    requires Fits(w, hs)
  {
    && (forall k, j | 0 <= k < |hs| && 0 <= j < |w.cfgs| :: w.ep.lastReminderSent <= hs[k].envs[j].sentAt)
    && (forall k, j, k', j' | 0 <= k <= k' < |hs| && 0 <= j < |w.cfgs| && 0 <= j' < |w.cfgs| && (k < k' || j <= j') ::
          hs[k].envs[j].sentAt <= hs[k'].envs[j'].sentAt)
  }

  lemma {:induction false} LoopKeepsLatest(
    ids: seq<RecordId>, cfgs: seq<Config>, p: Progress, success: bool, reference: int, envs: seq<Env>, i: nat, j: nat,
    latest: int)
    requires i <= |ids| == |cfgs| == |p.ep.alerts| == |envs| && i <= j <= |cfgs|
    requires forall k, l | i <= k <= l < |cfgs| :: envs[k].sentAt <= envs[l].sentAt
    requires forall k | i <= k < |cfgs| :: p.ep.lastReminderSent <= envs[k].sentAt <= latest
    requires p.ep.lastReminderSent <= latest
    ensures var q := Loop(ids, cfgs, p, success, reference, envs, i);
            && p.ep.lastReminderSent <= q.ep.lastReminderSent <= latest
            && (j < |cfgs| ==>
                  var o := Turn(cfgs[j], p.ep.alerts[j], success, Count(p.ep, success), reference, envs[j]);
                  Notified(o.notice) ==> envs[j].sentAt <= q.ep.lastReminderSent)
    decreases |cfgs| - i
  {
    if i < |cfgs| {
      var o := Turn(cfgs[i], p.ep.alerts[i], success, Count(p.ep, success), reference, envs[i]);
      var next := if i == j then i + 1 else j;
      LoopKeepsLatest(ids, cfgs, Commit(ids, cfgs, p, i, o, envs[i]), success, reference, envs, i + 1, next, latest);
    }
  }

  lemma StepKeepsLatest(w: World, h: Handled, j: nat, latest: int)
    requires w.Shaped() && |h.envs| == |w.cfgs| && j < |w.cfgs|
    requires forall k, l | 0 <= k <= l < |w.cfgs| :: h.envs[k].sentAt <= h.envs[l].sentAt
    requires forall k | 0 <= k < |w.cfgs| :: w.ep.lastReminderSent <= h.envs[k].sentAt <= latest
    ensures w.ep.lastReminderSent <= After(w, h).ep.lastReminderSent <= latest
    ensures |Next(w, h).notices| == |w.cfgs|
    ensures Notified(Next(w, h).notices[j]) ==> h.envs[j].sentAt <= After(w, h).ep.lastReminderSent
  {
    NextAlone(w, h, j);
    var start := Progress(Counted(w.ep, h.success), w.rows, []);
    LoopKeepsLatest(w.ids, w.cfgs, start, h.success, w.ep.lastReminderSent, h.envs, 0, j, latest);
  }

  /** No alert has sent anything after the given time in the first n steps. */
  ghost predicate SentBy(w: World, hs: seq<Handled>, n: nat, latest: int)
    requires Fits(w, hs)
  {
    && w.ep.lastReminderSent <= latest
    && (forall i, l | 0 <= i < n && i < |hs| && 0 <= l < |w.cfgs| :: hs[i].envs[l].sentAt <= latest)
  }

  /** The clock readings of one step lie in order between those of earlier steps and the latest one. */
  lemma StepIsClocked(w: World, hs: seq<Handled>, n: nat, h: Handled, latest: int)
    requires Fits(w, hs) && Clocked(w, hs) && 0 < n <= |hs| && h == hs[n - 1] && |w.cfgs| > 0
             && SentBy(w, hs, n, latest)
    ensures SentBy(w, hs, n - 1, h.envs[0].sentAt)
    ensures forall k, l | 0 <= k <= l < |w.cfgs| :: h.envs[k].sentAt <= h.envs[l].sentAt
    ensures forall k | 0 <= k < |w.cfgs| :: h.envs[0].sentAt <= h.envs[k].sentAt <= latest
  {
  }

  /**
   The endpoint remembers a time no earlier than any notification of the run, and no later than its last clock
   reading.
   */
  lemma {:induction false} RemembersLatest(w: World, hs: seq<Handled>, n: nat, k: nat, j: nat, latest: int)
    requires w.Shaped() && Fits(w, hs) && Clocked(w, hs) && n <= |hs| && j < |w.cfgs|
    requires SentBy(w, hs, n, latest)
    ensures Run(w, hs[..n]).ep.lastReminderSent <= latest
    ensures k < n && Notified(NoticeAt(w, hs, k, j)) ==> hs[k].envs[j].sentAt <= Run(w, hs[..n]).ep.lastReminderSent
    decreases n
  {
    if n == 0 {
      assert hs[..0] == [];
    } else {
      var before, h := Run(w, hs[..n - 1]), hs[n - 1];
      StepIsClocked(w, hs, n, h, latest);
      RemembersLatest(w, hs, n - 1, k, j, h.envs[0].sentAt);
      RunStep(w, hs, n - 1, j);
      StepKeepsLatest(before, h, j, latest);
    }
  }

  /**
   A reminder never comes sooner than its interval after any notification of an earlier step, whichever alert sent it.
   */
  lemma RemindersKeepTheirDistance(w: World, hs: seq<Handled>, k: nat, j: nat, k': nat, j': nat)
    requires w.Shaped() && Fits(w, hs) && Clocked(w, hs)
    requires k < k' < |hs| && j < |w.cfgs| && j' < |w.cfgs|
    requires Notified(NoticeAt(w, hs, k, j)) && NoticeAt(w, hs, k', j') == Reminder
    ensures hs[k'].envs[j'].checkedAt - hs[k].envs[j].sentAt >= w.cfgs[j'].minimumReminderInterval > 0
  {
    RunStep(w, hs, k', j');
    RemembersLatest(w, hs, k', k, j, hs[k'].envs[0].sentAt);
  }
}
