/**
 The keys with which providers recognise an incident they were notified of (`alerting/alert/alert.go`, ResolveKey): from
 Send to the row, and from the row to the alert after a restart (`watchdog/alerting.go`, `main.go`).
 */
module AlertKeys {
  import opened Wrappers
  import opened Alerts
  import opened AlertLoops
  import opened AlertRuns
  import opened AlertPersistence
  import opened AlertRestarts

  /** A failure hands the alert to its provider, which may change the key even if the notification fails. */
  ghost predicate Attempted(w: World, h: Handled, j: nat)
    requires w.Shaped() && |h.envs| == |w.cfgs| && j < |w.cfgs|
  {
    var c, e := w.cfgs[j], h.envs[j];
    && !h.success && c.enabled != Some(false) && c.failureThreshold <= w.ep.failures + 1 && e.provider
    && (w.ep.alerts[j].triggered ==>
          c.minimumReminderInterval > 0 && e.checkedAt - w.ep.lastReminderSent >= c.minimumReminderInterval)
  }

  /** After a result, an alert has the key its provider has just given it, or else the one it had. */
  lemma KeyAfter(w: World, h: Handled, j: nat)
    requires w.Shaped() && |h.envs| == |w.cfgs| && j < |w.cfgs|
    ensures |Next(w, h).notices| == |w.cfgs|
    ensures After(w, h).ep.alerts[j].resolveKey ==
            if || Attempted(w, h, j)
               || (Next(w, h).notices[j] == Resolved && w.cfgs[j].sendOnResolved == Some(true) && h.envs[j].provider)
            then h.envs[j].resolveKey
            else w.ep.alerts[j].resolveKey
  {
    NextAlone(w, h, j);
  }

  /** A triggered alert has its key in its row, or an attempt that failed has changed it since. */
  lemma KeyIsPersistedIff(w: World, h: Handled, j: nat)
    requires Agrees(w) && |h.envs| == |w.cfgs| && AllStored(h) && j < |w.cfgs|
    requires After(w, h).ep.alerts[j].triggered
    ensures var id, w' := w.ids[j], After(w, h);
            && id in w'.rows
            && (w'.rows[id].resolveKey == w'.ep.alerts[j].resolveKey <==>
                  || h.success || (Attempted(w, h, j) && h.envs[j].sent)
                  || (id in w.rows && w.rows[id].resolveKey ==
                      if Attempted(w, h, j) then h.envs[j].resolveKey else w.ep.alerts[j].resolveKey))
  {
    NextAlone(w, h, j);
    HandleWritesRow(w.ids, w.cfgs, w.ep, w.rows, h.success, h.envs, j);
    assert AlertConsistent(w, j);
    HandledAlertConsistent(w, h, j);
  }

  /** Every triggered alert has its key in its row. */
  ghost predicate KeysPersisted(w: World)
    requires w.Shaped()
  {
    forall j | 0 <= j < |w.cfgs| && w.ep.alerts[j].triggered ::
      w.ids[j] in w.rows && w.rows[w.ids[j]].resolveKey == w.ep.alerts[j].resolveKey
  }

  /** Attempts that fail leave the key as it was. */
  ghost predicate FailuresKeepKeys(w: World, h: Handled)
    requires w.Shaped() && |h.envs| == |w.cfgs|
  {
    forall j | 0 <= j < |w.cfgs| && Attempted(w, h, j) && !h.envs[j].sent ::
      h.envs[j].resolveKey == w.ep.alerts[j].resolveKey
  }

  lemma HandlingKeepsKeys(w: World, h: Handled)
    requires Agrees(w) && |h.envs| == |w.cfgs| && AllStored(h) && KeysPersisted(w) && FailuresKeepKeys(w, h)
    ensures KeysPersisted(After(w, h))
  {
    forall j | 0 <= j < |w.cfgs| && After(w, h).ep.alerts[j].triggered
      ensures var w' := After(w, h);
              w'.ids[j] in w'.rows && w'.rows[w'.ids[j]].resolveKey == w'.ep.alerts[j].resolveKey
    {
      KeyIsPersistedIff(w, h, j);
      NextAlone(w, h, j);
      assert AlertConsistent(w, j);
    }
  }

  /** A restart gives every alert the key in its row, and all others none. */
  lemma RestartLoadsKeys(key: string, w: World, cfgs: seq<Config>, answers: StoreAnswers, j: nat)
    requires CanRestart(key, w, cfgs, answers) && j < |cfgs|
    ensures var w', id := Restart(key, cfgs, w.rows, answers), Ids(key, cfgs)[j];
            w'.Shaped() && w'.ep.alerts[j].resolveKey == if id in w.rows then w.rows[id].resolveKey else ""
  {
    var ids, kept := Ids(key, cfgs), PrunedRows(key, cfgs, w.rows, answers);
    LoadAt(ids, cfgs, Unloaded(|cfgs|), kept, answers.readable, 0);
    FoundIffPersisted(key, w, cfgs, answers, j);
  }

  /** An incident keeps its key over a restart: an alert with the same checksum gets the key it had before. */
  lemma KeysSurviveRestarts(key: string, w: World, cfgs: seq<Config>, answers: StoreAnswers, i: nat, j: nat)
    requires CanRestart(key, w, cfgs, answers) && KeysPersisted(w)
    requires i < |w.cfgs| && j < |cfgs| && w.ep.alerts[i].triggered && Checksum(w.cfgs[i]) == Checksum(cfgs[j])
    ensures var w' := Restart(key, cfgs, w.rows, answers);
            w'.Shaped() && w'.ep.alerts[j] == w.ep.alerts[i]
  {
    RestartLoadsKeys(key, w, cfgs, answers, j);
    RestartCounters(key, w, cfgs, answers);
    assert Ids(key, cfgs)[j] == w.ids[i];
  }
}
