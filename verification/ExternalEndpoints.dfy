/**
 External endpoints, whose results are pushed (`config/endpoint/external_endpoint.go`, `api/external_endpoint.go`,
 `watchdog/external_endpoint.go`): for every result an endpoint is made of them and handed to alerting, and afterwards
 its counters are copied back. The alerts are shared; the time of the last reminder is not.
 */
module ExternalEndpoints {
  import opened Wrappers
  import opened Alerts
  import opened AlertLoops
  import opened AlertRuns

  datatype ExternalEndpoint = ExternalEndpoint(failures: int, successes: int, alerts: seq<AlertState>)

  function ToEndpoint(ee: ExternalEndpoint): EndpointState {
    EndpointState(ee.failures, ee.successes, ZERO_TIME, ee.alerts)
  }

  /** Copying the counters back; the alerts are the same objects. */
  function SyncedBack(ep: EndpointState): ExternalEndpoint {
    ExternalEndpoint(ep.failures, ep.successes, ep.alerts)
  }

  /** An external endpoint with its alerts, and the record store. */
  datatype ExternalWorld = ExternalWorld(ids: seq<RecordId>, cfgs: seq<Config>, ee: ExternalEndpoint, rows: Records)
  {
    function Converted(): World {
      World(ids, cfgs, ToEndpoint(ee), rows)
    }
  }

  ghost predicate Pushable(x: ExternalWorld, hs: seq<Handled>) {
    x.Converted().Shaped() && Fits(x.Converted(), hs)
  }

  /** One pushed result, or one missing heartbeat. */
  ghost function Pushed(x: ExternalWorld, h: Handled): (r: ExternalWorld)
    requires x.Converted().Shaped() && |h.envs| == |x.cfgs|
    ensures r.ids == x.ids && r.cfgs == x.cfgs && r.Converted().Shaped()
  {
    var w := After(x.Converted(), h);
    x.(ee := SyncedBack(w.ep), rows := w.rows)
  }

  ghost function AllPushed(x: ExternalWorld, hs: seq<Handled>): (r: ExternalWorld)
    requires Pushable(x, hs)
    ensures r.ids == x.ids && r.cfgs == x.cfgs && r.Converted().Shaped()
  {
    if hs == [] then x else Pushed(AllPushed(x, hs[..|hs| - 1]), hs[|hs| - 1])
  }

  /** What alert j announced at push k. */
  ghost function PushNotice(x: ExternalWorld, hs: seq<Handled>, k: nat, j: nat): Notice
    requires Pushable(x, hs) && k < |hs| && j < |x.cfgs|
  {
    var w := AllPushed(x, hs[..k]).Converted();
    NextAlone(w, hs[k], j);
    Next(w, hs[k]).notices[j]
  }

  /** Two worlds agree on everything but reminder times, resolve keys and rows. */
  ghost predicate Alike(w: World, w': World) {
    && w.Shaped() && w'.Shaped() && w.cfgs == w'.cfgs
    && w.ep.failures == w'.ep.failures && w.ep.successes == w'.ep.successes
    && forall j | 0 <= j < |w.cfgs| :: w.ep.alerts[j].triggered == w'.ep.alerts[j].triggered
  }

  lemma AlikeAfter(w: World, w': World, h: Handled)
    requires Alike(w, w') && |h.envs| == |w.cfgs|
    ensures Alike(After(w, h), After(w', h))
  {
    HandleActsAlone(w.ids, w.cfgs, w.ep, w.rows, h.success, h.envs);
    HandleActsAlone(w'.ids, w'.cfgs, w'.ep, w'.rows, h.success, h.envs);
  }

  /** But for reminders, pushing results to an external endpoint is handling them for a regular one. */
  lemma {:induction false} PushingIsHandling(x: ExternalWorld, hs: seq<Handled>)
    requires Pushable(x, hs)
    ensures Alike(AllPushed(x, hs).Converted(), Run(x.Converted(), hs))
    decreases |hs|
  {
    if hs != [] {
      var front, h := hs[..|hs| - 1], hs[|hs| - 1];
      var before := AllPushed(x, front).Converted();
      PushingIsHandling(x, front);
      AlikeAfter(before, Run(x.Converted(), front), h);
      assert Alike(AllPushed(x, hs).Converted(), After(before, h));
    }
  }

  /** The clock reads a time after 1970, and the interval of the alert is a time.Duration. */
  ghost predicate Dated(x: ExternalWorld, hs: seq<Handled>, j: nat)
    requires Pushable(x, hs) && j < |x.cfgs|
  {
    x.cfgs[j].minimumReminderInterval <= MAX_DURATION && forall k | 0 <= k < |hs| :: hs[k].envs[j].checkedAt >= 0
  }

  /**
   Push k is a failure at or beyond the threshold while an incident is ongoing, and its notification can be delivered.
   */
  ghost predicate FailsAgain(x: ExternalWorld, hs: seq<Handled>, k: nat, j: nat)
    requires Pushable(x, hs) && k < |hs| && j < |x.cfgs|
  {
    OngoingIncident(x.Converted(), hs[..k], j) && FiredAt(x.Converted(), hs, j, k + 1)
  }

  /**
   A push sends a reminder exactly when reminders are configured and it fails again: no time needs to have passed
   since the last notification.
   */
  lemma ReminderIff(x: ExternalWorld, hs: seq<Handled>, k: nat, j: nat)
    requires Pushable(x, hs) && x.Converted().Started() && k < |hs| && j < |x.cfgs| && Dated(x, hs, j)
    ensures PushNotice(x, hs, k, j) == Reminder <==>
            x.cfgs[j].IsEnabled() && x.cfgs[j].minimumReminderInterval > 0 && FailsAgain(x, hs, k, j)
  {
    var w, c := x.Converted(), x.cfgs[j];
    PushTurns(x, hs, k, j);
    if c.IsEnabled() {
      TriggeredIsDeclarative(w, hs[..k], j);
    }
  }

  /** Initial notifications are those of a regular endpoint. */
  lemma InitialPushIff(x: ExternalWorld, hs: seq<Handled>, k: nat, j: nat)
    requires Pushable(x, hs) && x.Converted().Started() && k < |hs| && j < |x.cfgs|
    ensures PushNotice(x, hs, k, j) == Initial <==> NoticeAt(x.Converted(), hs, k, j) == Initial
  {
    var w := x.Converted();
    PushTurns(x, hs, k, j);
    RunStep(w, hs, k, j);
  }

  lemma FailuresAtPush(x: ExternalWorld, hs: seq<Handled>, k: nat)
    requires Pushable(x, hs) && k < |hs|
    ensures FailuresAfter(AllPushed(x, hs[..k]).Converted().ep, hs[k].success) ==
            Run(x.Converted(), hs[..k + 1]).ep.failures
  {
    var upto := hs[..k + 1];
    PushingIsHandling(x, hs[..k]);
    assert upto[..k] == hs[..k];
    LastCounters(x.Converted(), upto);
  }

  lemma ReachedAtPush(x: ExternalWorld, hs: seq<Handled>, k: nat, n: int)
    requires Pushable(x, hs) && x.Converted().Started() && k < |hs| && n >= 1
    ensures !hs[k].success && AllPushed(x, hs[..k]).ee.failures + 1 >= n <==>
            Reached(x.ee.failures, hs, k + 1, n, false)
  {
    FailuresAtPush(x, hs, k);
    CountersAreTrailingRuns(x.Converted(), hs[..k + 1], n);
    ReachedInPrefix(x.ee.failures, hs, k + 1, k + 1, n, false);
  }

  /** What push k does to alert j, in terms of the regular run. */
  lemma PushTurns(x: ExternalWorld, hs: seq<Handled>, k: nat, j: nat)
    requires Pushable(x, hs) && x.Converted().Started() && k < |hs| && j < |x.cfgs|
    ensures var before := AllPushed(x, hs[..k]).Converted();
            && PushNotice(x, hs, k, j) ==
              Alone(x.cfgs[j], before.ep, before.ep.alerts[j], hs[k].success, hs[k].envs[j]).notice
            && before.ep.lastReminderSent == ZERO_TIME
            && Alike(before, Run(x.Converted(), hs[..k]))
            && (!hs[k].success && before.ep.failures + 1 >= x.cfgs[j].failureThreshold <==>
                  Reached(x.ee.failures, hs, k + 1, x.cfgs[j].failureThreshold, false))
  {
    assert x.cfgs[j].Valid();
    PushingIsHandling(x, hs[..k]);
    NextAlone(AllPushed(x, hs[..k]).Converted(), hs[k], j);
    ReachedAtPush(x, hs, k, x.cfgs[j].failureThreshold);
  }

  // ---------- the interval between notifications ----------

  /** Every reminder of alert j comes at least its interval after each earlier notification of the same alert. */
  ghost predicate IntervalKept(x: ExternalWorld, hs: seq<Handled>, j: nat)
    requires Pushable(x, hs) && j < |x.cfgs|
  {
    forall k, k' | 0 <= k < k' < |hs| && Notified(PushNotice(x, hs, k, j)) && PushNotice(x, hs, k', j) == Reminder ::
      hs[k'].envs[j].checkedAt - hs[k].envs[j].sentAt >= x.cfgs[j].minimumReminderInterval
  }

  /** Results that fail again are pushed at least the interval after each earlier one that was notified of. */
  ghost predicate FailuresAreSpaced(x: ExternalWorld, hs: seq<Handled>, j: nat)
    requires Pushable(x, hs) && j < |x.cfgs|
  {
    forall k, k' | 0 <= k < k' < |hs| && FiredAt(x.Converted(), hs, j, k + 1) && FailsAgain(x, hs, k', j) ::
      hs[k'].envs[j].checkedAt - hs[k].envs[j].sentAt >= x.cfgs[j].minimumReminderInterval
  }

  /**
   With reminders enabled, the interval is kept exactly when whoever pushes the results keeps it: nothing in the program
   holds a reminder back.
   */
  lemma IntervalKeptIff(x: ExternalWorld, hs: seq<Handled>, j: nat)
    requires Pushable(x, hs) && x.Converted().Started() && j < |x.cfgs| && Dated(x, hs, j)
    requires x.cfgs[j].IsEnabled() && x.cfgs[j].minimumReminderInterval > 0
    ensures IntervalKept(x, hs, j) <==> FailuresAreSpaced(x, hs, j)
  {
    forall k | 0 <= k < |hs|
      ensures Notified(PushNotice(x, hs, k, j)) <==> FiredAt(x.Converted(), hs, j, k + 1)
      ensures PushNotice(x, hs, k, j) == Reminder <==> FailsAgain(x, hs, k, j)
    {
      ReminderIff(x, hs, k, j);
      InitialPushIff(x, hs, k, j);
      InitialIff(x.Converted(), hs, k, j);
    }
  }

  const FIVE_MINUTES := 5 * MINUTE
  const ONE_SECOND := 1_000_000_000
  const REMINDING := Config("custom", None, 1, 2, FIVE_MINUTES, None, None)

  function FailureAt(t: int): Handled {
    Handled(false, [Env(t, true, true, "", t, true)])
  }

  /** Two failures a second apart: an initial notification, and a reminder although the interval is five minutes. */
  lemma TwoFailuresBreakTheInterval(key: string)
    ensures var x :=
            ExternalWorld(Ids(key, [REMINDING]), [REMINDING], ExternalEndpoint(0, 0, [AlertState(false, "")]), map[]);
            var hs := [FailureAt(0), FailureAt(ONE_SECOND)];
            && Pushable(x, hs) && x.Converted().Started()
            && PushNotice(x, hs, 0, 0) == Initial && PushNotice(x, hs, 1, 0) == Reminder && !IntervalKept(x, hs, 0)
  {
    var x := ExternalWorld(Ids(key, [REMINDING]), [REMINDING], ExternalEndpoint(0, 0, [AlertState(false, "")]), map[]);
    var hs := [FailureAt(0), FailureAt(ONE_SECOND)];
    PushTurns(x, hs, 0, 0);
    assert hs[..1][..0] == hs[..0] == [];
    assert hs[..1] == [hs[0]];
    NextAlone(x.Converted(), hs[0], 0);
    PushTurns(x, hs, 1, 0);
  }
}
