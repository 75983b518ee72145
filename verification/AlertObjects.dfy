/**
 The objects the watchdog mutates, and its methods proved against the loops of AlertLoops and AlertPersistence
 (`alerting/alert/alert.go`, `watchdog/alerting.go`, `main.go`).
 */
module AlertObjects {
  import opened Wrappers
  import opened Alerts
  import opened AlertLoops
  import P = AlertPersistence

  datatype AlertError = InvalidMinimumReminderInterval | InvalidDescription

  class Alert {
    const Type: string
    const Enabled: Option<bool>
    const MinimumReminderInterval: int
    const SendOnResolved: Option<bool>
    const Description: Option<string>
    var FailureThreshold: int
    var SuccessThreshold: int
    var ResolveKey: string
    var Triggered: bool

    /** A newly parsed alert. */
    constructor (c: Config)
      ensures Cfg() == c && State() == AlertState(false, "")
    {
      Type, Enabled, MinimumReminderInterval := c.kind, c.enabled, c.minimumReminderInterval;
      SendOnResolved, Description := c.sendOnResolved, c.description;
      FailureThreshold, SuccessThreshold := c.failureThreshold, c.successThreshold;
      ResolveKey, Triggered := "", false;
    }

    function Cfg(): Config
      reads this
    {
      Config(Type, Enabled, FailureThreshold, SuccessThreshold, MinimumReminderInterval, SendOnResolved, Description)
    }

    function State(): AlertState
      reads this
    {
      AlertState(Triggered, ResolveKey)
    }

    predicate IsEnabled() {
      Enabled.None? || Enabled.value
    }

    /**
     Thresholds that are missing or not positive become 3 failures and 2 successes, even when an error is reported.
     */
    method ValidateAndSetDefaults() returns (err: Option<AlertError>)
      modifies this`FailureThreshold, this`SuccessThreshold
      ensures FailureThreshold == (if old(FailureThreshold) >= 1 then old(FailureThreshold) else 3)
      ensures SuccessThreshold == (if old(SuccessThreshold) >= 1 then old(SuccessThreshold) else 2)
      ensures '_' !in Type ==> Cfg().Valid()
      ensures err == None <==>
              && (MinimumReminderInterval == 0 || MinimumReminderInterval >= 300_000_000_000)
              && '"' !in Cfg().Description() && '\\' !in Cfg().Description()
    {
      if FailureThreshold <= 0 {
        FailureThreshold := 3;
      }
      if SuccessThreshold <= 0 {
        SuccessThreshold := 2;
      }
      if MinimumReminderInterval != 0 && MinimumReminderInterval < 5 * MINUTE {
        return Some(InvalidMinimumReminderInterval);
      }
      var description := if Description.None? then "" else Description.value;
      if '"' in description || '\\' in description {
        return Some(InvalidDescription);
      }
      return None;
    }
  }

  class Endpoint {
    const Key: string
    const Alerts: seq<Alert>
    var NumberOfFailuresInARow: int
    var NumberOfSuccessesInARow: int
    var LastReminderSent: int

    constructor (key: string, alerts: seq<Alert>)
      ensures Key == key && Alerts == alerts
      ensures NumberOfFailuresInARow == NumberOfSuccessesInARow == 0 && LastReminderSent == ZERO_TIME
    {
      Key, Alerts := key, alerts;
      NumberOfFailuresInARow, NumberOfSuccessesInARow, LastReminderSent := 0, 0, ZERO_TIME;
    }

    /** Every entry of the list is an alert object of its own. */
    ghost predicate Valid() {
      forall i, j | 0 <= i < j < |Alerts| :: Alerts[i] != Alerts[j]
    }

    function Configs(): (cfgs: seq<Config>)
      reads Alerts
    {
      seq(|Alerts|, i requires 0 <= i < |Alerts| reads Alerts => Alerts[i].Cfg())
    }

    function States(): seq<AlertState>
      reads Alerts
    {
      seq(|Alerts|, i requires 0 <= i < |Alerts| reads Alerts => Alerts[i].State())
    }

    function State(): EndpointState
      reads this, Alerts
    {
      EndpointState(NumberOfFailuresInARow, NumberOfSuccessesInARow, LastReminderSent, States())
    }
  }

  /** The table of triggered alerts; a write that is not stored leaves it unchanged, and callers only log that. */
  class RecordStore {
    var rows: Records

    constructor ()
      ensures rows == map[]
    {
      rows := map[];
    }

    method UpsertTriggeredEndpointAlert(ep: Endpoint, alert: Alert, stored: bool)
      modifies this
      ensures rows == if stored
                      then Put(old(rows), RecordId(ep.Key, Checksum(alert.Cfg())), alert.State(),
                               ep.NumberOfSuccessesInARow)
                      else old(rows)
    {
      if stored {
        rows := rows[RecordId(ep.Key, Checksum(alert.Cfg())) := Record(alert.ResolveKey, ep.NumberOfSuccessesInARow)];
      }
    }

    /** A lookup that fails is reported as no row. */
    method GetTriggeredEndpointAlert(ep: Endpoint, alert: Alert, readable: bool) returns (found: bool, row: Record)
      ensures var id := RecordId(ep.Key, Checksum(alert.Cfg()));
              found == (readable && id in rows) && (found ==> row == rows[id])
    {
      var id := RecordId(ep.Key, Checksum(alert.Cfg()));
      found := readable && id in rows;
      row := if found then rows[id] else Record("", 0);
    }

    method DeleteAllTriggeredAlertsNotInChecksumsByEndpoint(ep: Endpoint, checksums: seq<string>, pruned: bool)
      modifies this
      ensures rows == if pruned then Prune(old(rows), ep.Key, checksums) else old(rows)
    {
      if pruned {
        rows := map id | id in rows && (id.endpointKey == ep.Key ==> id.checksum in checksums) :: rows[id];
      }
    }

    method DeleteTriggeredEndpointAlert(ep: Endpoint, alert: Alert, stored: bool)
      modifies this
      ensures rows == if stored then Drop(old(rows), RecordId(ep.Key, Checksum(alert.Cfg()))) else old(rows)
    {
      if stored {
        rows := rows - {RecordId(ep.Key, Checksum(alert.Cfg()))};
      }
    }
  }

  /** One turn of the loop of handleAlertsToTrigger. */
  method TriggerTurn(ep: Endpoint, alert: Alert, store: RecordStore, reference: int, env: Env) returns (notice: Notice)
    modifies ep`LastReminderSent, store, alert`Triggered, alert`ResolveKey
    ensures var o := old(TriggerOne(alert.Cfg(), alert.State(), ep.NumberOfFailuresInARow, reference, env));
            && alert.State() == o.state && notice == o.notice
            && ep.LastReminderSent ==
              (if notice == Initial || notice == Reminder then env.sentAt else old(ep.LastReminderSent))
            && store.rows ==
              Written(old(store.rows), RecordId(ep.Key, Checksum(alert.Cfg())), o, ep.NumberOfSuccessesInARow, env)
    ensures alert.Cfg() == old(alert.Cfg())
  {
    notice := Silent;
    if alert.IsEnabled() && alert.FailureThreshold <= ep.NumberOfFailuresInARow {
      var sendInitialAlert := !alert.Triggered;
      var sendReminder :=
        alert.Triggered && alert.MinimumReminderInterval > 0
        && env.checkedAt - reference >= alert.MinimumReminderInterval;
      if (sendInitialAlert || sendReminder) && env.provider {
        alert.ResolveKey := env.resolveKey;
        if env.sent {
          if sendInitialAlert {
            alert.Triggered := true;
          }
          ep.LastReminderSent := env.sentAt;
          store.UpsertTriggeredEndpointAlert(ep, alert, env.stored);
          notice := if sendInitialAlert then Initial else Reminder;
        }
      }
    }
  }

  /** One turn of the loop of handleAlertsToResolve. */
  method ResolveTurn(ep: Endpoint, alert: Alert, store: RecordStore, env: Env) returns (notice: Notice)
    modifies store, alert`Triggered, alert`ResolveKey
    ensures var o := old(ResolveOne(alert.Cfg(), alert.State(), ep.NumberOfSuccessesInARow, env));
            && alert.State() == o.state && notice == o.notice
            && store.rows ==
              Written(old(store.rows), RecordId(ep.Key, Checksum(alert.Cfg())), o, ep.NumberOfSuccessesInARow, env)
    ensures alert.Cfg() == old(alert.Cfg())
  {
    notice := Silent;
    var isStillBelowSuccessThreshold := alert.SuccessThreshold > ep.NumberOfSuccessesInARow;
    if isStillBelowSuccessThreshold && alert.IsEnabled() && alert.Triggered {
      store.UpsertTriggeredEndpointAlert(ep, alert, env.stored);
    }
    if alert.IsEnabled() && alert.Triggered && !isStillBelowSuccessThreshold {
      alert.Triggered := false;
      notice := Resolved;
      store.DeleteTriggeredEndpointAlert(ep, alert, env.stored);
      if alert.Cfg().IsSendingOnResolved() && env.provider {
        alert.ResolveKey := env.resolveKey;
      }
    }
  }

  /** What one turn does to the endpoint as a whole. */
  method TriggerAt(
    ep: Endpoint, i: nat, store: RecordStore, reference: int, env: Env, ghost notices: seq<Notice>,
    ghost ids: seq<RecordId>, ghost cfgs: seq<Config>)
    returns (notice: Notice)
    requires ep.Valid() && i < |ep.Alerts| && cfgs == ep.Configs() && ids == Ids(ep.Key, cfgs)
    modifies ep`LastReminderSent, store, ep.Alerts
    ensures ep.Configs() == cfgs
    ensures Progress(ep.State(), store.rows, notices + [notice]) ==
            Commit(ids, cfgs, Progress(old(ep.State()), old(store.rows), notices), i,
                   Turn(cfgs[i], old(ep.States())[i], false, ep.NumberOfFailuresInARow, reference, env), env)
  {
    ghost var states := ep.States();
    notice := TriggerTurn(ep, ep.Alerts[i], store, reference, env);
    ghost var o := TriggerOne(cfgs[i], states[i], ep.NumberOfFailuresInARow, reference, env);
    assert ep.States() == states[i := o.state];
    assert ep.Configs() == cfgs;
  }

  method ResolveAt(
    ep: Endpoint, i: nat, store: RecordStore, env: Env, ghost reference: int, ghost notices: seq<Notice>,
    ghost ids: seq<RecordId>, ghost cfgs: seq<Config>)
    returns (notice: Notice)
    requires ep.Valid() && i < |ep.Alerts| && cfgs == ep.Configs() && ids == Ids(ep.Key, cfgs)
    modifies store, ep.Alerts
    ensures ep.Configs() == cfgs
    ensures Progress(ep.State(), store.rows, notices + [notice]) ==
            Commit(ids, cfgs, Progress(old(ep.State()), old(store.rows), notices), i,
                   Turn(cfgs[i], old(ep.States())[i], true, ep.NumberOfSuccessesInARow, reference, env), env)
  {
    ghost var states := ep.States();
    notice := ResolveTurn(ep, ep.Alerts[i], store, env);
    ghost var o := ResolveOne(cfgs[i], states[i], ep.NumberOfSuccessesInARow, env);
    assert ep.States() == states[i := o.state];
    assert ep.Configs() == cfgs;
  }

  /** The loop of handleAlertsToTrigger, on counters that are already up to date. */
  method TriggerAlerts(
    ep: Endpoint, store: RecordStore, reference: int, envs: seq<Env>, ghost ids: seq<RecordId>, ghost cfgs: seq<Config>)
    returns (notices: seq<Notice>)
    requires ep.Valid() && |envs| == |ep.Alerts| && cfgs == ep.Configs() && ids == Ids(ep.Key, cfgs)
    modifies ep`LastReminderSent, store, ep.Alerts
    ensures ep.Configs() == cfgs
    ensures Progress(ep.State(), store.rows, notices) ==
            old(Loop(ids, cfgs, Progress(ep.State(), store.rows, []), false, reference, envs, 0))
  {
    notices := [];
    for i := 0 to |ep.Alerts|
      invariant ep.Configs() == cfgs
      invariant Loop(ids, cfgs, Progress(ep.State(), store.rows, notices), false, reference, envs, i) ==
                old(Loop(ids, cfgs, Progress(ep.State(), store.rows, []), false, reference, envs, 0))
    {
      var notice := TriggerAt(ep, i, store, reference, envs[i], notices, ids, cfgs);
      notices := notices + [notice];
    }
  }

  method HandleAlertsToTrigger(ep: Endpoint, store: RecordStore, envs: seq<Env>) returns (notices: seq<Notice>)
    requires ep.Valid() && |envs| == |ep.Alerts|
    modifies ep, store, ep.Alerts
    ensures ep.Configs() == old(ep.Configs())
    ensures Progress(ep.State(), store.rows, notices) ==
            old(Handle(Ids(ep.Key, ep.Configs()), ep.Configs(), ep.State(), store.rows, false, envs))
  {
    ghost var start, cfgs, ids := ep.State(), ep.Configs(), Ids(ep.Key, ep.Configs());
    ep.NumberOfSuccessesInARow := 0;
    ep.NumberOfFailuresInARow := ep.NumberOfFailuresInARow + 1;
    assert ep.Configs() == cfgs && ep.State() == Counted(start, false);
    var lastReminderSent := ep.LastReminderSent;
    notices := TriggerAlerts(ep, store, lastReminderSent, envs, ids, cfgs);
  }

  /** The loop of handleAlertsToResolve. */
  method ResolveAlerts(
    ep: Endpoint, store: RecordStore, envs: seq<Env>, ghost reference: int, ghost ids: seq<RecordId>,
    ghost cfgs: seq<Config>)
    returns (notices: seq<Notice>)
    requires ep.Valid() && |envs| == |ep.Alerts| && cfgs == ep.Configs() && ids == Ids(ep.Key, cfgs)
    modifies store, ep.Alerts
    ensures ep.Configs() == cfgs
    ensures Progress(ep.State(), store.rows, notices) ==
            old(Loop(ids, cfgs, Progress(ep.State(), store.rows, []), true, reference, envs, 0))
  {
    notices := [];
    for i := 0 to |ep.Alerts|
      invariant ep.Configs() == cfgs
      invariant Loop(ids, cfgs, Progress(ep.State(), store.rows, notices), true, reference, envs, i) ==
                old(Loop(ids, cfgs, Progress(ep.State(), store.rows, []), true, reference, envs, 0))
    {
      var notice := ResolveAt(ep, i, store, envs[i], reference, notices, ids, cfgs);
      notices := notices + [notice];
    }
  }

  method HandleAlertsToResolve(ep: Endpoint, store: RecordStore, envs: seq<Env>) returns (notices: seq<Notice>)
    requires ep.Valid() && |envs| == |ep.Alerts|
    modifies ep, store, ep.Alerts
    ensures ep.Configs() == old(ep.Configs())
    ensures Progress(ep.State(), store.rows, notices) ==
            old(Handle(Ids(ep.Key, ep.Configs()), ep.Configs(), ep.State(), store.rows, true, envs))
  {
    ghost var start, cfgs, ids := ep.State(), ep.Configs(), Ids(ep.Key, ep.Configs());
    ep.NumberOfSuccessesInARow := ep.NumberOfSuccessesInARow + 1;
    assert ep.Configs() == cfgs && ep.State() == Counted(start, true);
    notices := ResolveAlerts(ep, store, envs, start.lastReminderSent, ids, cfgs);
    ghost var looped := ep.State();
    ep.NumberOfFailuresInARow := 0;
    assert ep.Configs() == cfgs && ep.State() == looped.(failures := 0);
  }

  /** Without an alerting configuration nothing happens; otherwise the step is the one the theorems are about. */
  method HandleAlerting(ep: Endpoint, success: bool, alertingConfigured: bool, store: RecordStore, envs: seq<Env>)
    returns (notices: seq<Notice>)
    requires ep.Valid() && |envs| == |ep.Alerts|
    modifies ep, store, ep.Alerts
    ensures ep.Configs() == old(ep.Configs())
    ensures Progress(ep.State(), store.rows, notices) ==
            if alertingConfigured then
              old(Handle(Ids(ep.Key, ep.Configs()), ep.Configs(), ep.State(), store.rows, success, envs))
            else Progress(old(ep.State()), old(store.rows), [])
  {
    notices := [];
    if alertingConfigured {
      if success {
        notices := HandleAlertsToResolve(ep, store, envs);
      } else {
        notices := HandleAlertsToTrigger(ep, store, envs);
      }
    }
  }

  // ---------- restart ----------

  method CollectEnabledChecksums(ep: Endpoint) returns (checksums: seq<string>)
    ensures checksums == P.EnabledChecksums(ep.Configs())
  {
    ghost var cfgs, all := ep.Configs(), P.Checksums(ep.Configs());
    checksums := [];
    for i := 0 to |ep.Alerts|
      invariant checksums == P.Enabled(all[..i], cfgs[..i])
    {
      assert all[..i + 1][..i] == all[..i] && cfgs[..i + 1][..i] == cfgs[..i];
      if ep.Alerts[i].IsEnabled() {
        checksums := checksums + [Checksum(ep.Alerts[i].Cfg())];
      }
    }
    assert all[..|all|] == all && cfgs[..|cfgs|] == cfgs;
  }

  /** Loading one persisted alert. */
  method LoadAlert(
    ep: Endpoint, i: nat, store: RecordStore, readable: bool, ghost ids: seq<RecordId>, ghost cfgs: seq<Config>)
    requires ep.Valid() && i < |ep.Alerts| && cfgs == ep.Configs() && ids == Ids(ep.Key, cfgs)
    modifies ep`NumberOfFailuresInARow, ep`NumberOfSuccessesInARow, ep.Alerts
    ensures ep.Configs() == cfgs
    ensures ep.State() ==
            if readable && ids[i] in store.rows then
              old(ep.State()).(alerts := old(ep.States())[i := AlertState(true, store.rows[ids[i]].resolveKey)],
                               successes := store.rows[ids[i]].successes, failures := cfgs[i].failureThreshold)
            else old(ep.State())
  {
    ghost var states := ep.States();
    var alert := ep.Alerts[i];
    var found, row := store.GetTriggeredEndpointAlert(ep, alert, readable);
    if found {
      alert.Triggered, alert.ResolveKey := true, row.resolveKey;
      ep.NumberOfSuccessesInARow, ep.NumberOfFailuresInARow := row.successes, alert.FailureThreshold;
      assert ep.States() == states[i := AlertState(true, row.resolveKey)];
    }
    assert ep.Configs() == cfgs;
  }

  /** The loading loop of initializeStorage. */
  method LoadAlerts(
    ep: Endpoint, store: RecordStore, readable: seq<bool>, ghost ids: seq<RecordId>, ghost cfgs: seq<Config>)
    requires ep.Valid() && |readable| == |ep.Alerts| && cfgs == ep.Configs() && ids == Ids(ep.Key, cfgs)
    modifies ep`NumberOfFailuresInARow, ep`NumberOfSuccessesInARow, ep.Alerts
    ensures ep.Configs() == cfgs
    ensures ep.State() == old(P.Load(ids, cfgs, ep.State(), store.rows, readable, 0))
  {
    for i := 0 to |ep.Alerts|
      invariant ep.Configs() == cfgs
      invariant P.Load(ids, cfgs, ep.State(), store.rows, readable, i) ==
                old(P.Load(ids, cfgs, ep.State(), store.rows, readable, 0))
    {
      LoadAlert(ep, i, store, readable[i], ids, cfgs);
    }
  }

  /** What initializeStorage does for one newly configured endpoint: prune its rows, then load what is left. */
  method InitializeEndpoint(ep: Endpoint, store: RecordStore, answers: P.StoreAnswers)
    requires ep.Valid() && |answers.readable| == |ep.Alerts|
    requires ep.State() == P.Unloaded(|ep.Alerts|)
    modifies ep, store, ep.Alerts
    ensures ep.Configs() == old(ep.Configs())
    ensures var w := old(P.Restart(ep.Key, ep.Configs(), store.rows, answers));
            ep.State() == w.ep && store.rows == w.rows
    ensures forall id: RecordId | id.endpointKey != ep.Key :: SameRow(old(store.rows), store.rows, id)
  {
    var checksums := CollectEnabledChecksums(ep);
    store.DeleteAllTriggeredAlertsNotInChecksumsByEndpoint(ep, checksums, answers.pruned);
    LoadAlerts(ep, store, answers.readable, Ids(ep.Key, ep.Configs()), ep.Configs());
  }
}
