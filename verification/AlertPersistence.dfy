/**
 Triggered alerts across restarts: initializeStorage prunes the persisted rows of an endpoint and loads the rest
 into the newly configured alerts (`main.go`), while HandleAlerting keeps the rows up to date (`watchdog/alerting.go`).
 */
module AlertPersistence {
  import opened Wrappers
  import opened Alerts
  import opened AlertLoops
  import opened AlertRuns

  /** Those of the given checksums whose alert is enabled. */
  function Enabled(checksums: seq<string>, cfgs: seq<Config>): seq<string>
    requires |checksums| == |cfgs|
  {
    if cfgs == [] then []
    else
      var n := |cfgs| - 1;
      Enabled(checksums[..n], cfgs[..n]) + if cfgs[n].IsEnabled() then [checksums[n]] else []
  }

  function Checksums(cfgs: seq<Config>): seq<string> {
    seq(|cfgs|, i requires 0 <= i < |cfgs| => Checksum(cfgs[i]))
  }

  function EnabledChecksums(cfgs: seq<Config>): seq<string> {
    Enabled(Checksums(cfgs), cfgs)
  }

  /** What the store answers during a restart: whether pruning worked, and which lookups did. */
  datatype StoreAnswers = StoreAnswers(pruned: bool, readable: seq<bool>)

  /** Newly parsed alerts: none is triggered. */
  function Unloaded(n: nat): EndpointState {
    EndpointState(0, 0, ZERO_TIME, seq(n, _ => AlertState(false, "")))
  }

  /** The loading loop, from alert i on: every alert found also sets the counters of the endpoint. */
  function Load(
    ids: seq<RecordId>, cfgs: seq<Config>, ep: EndpointState, rows: Records, readable: seq<bool>, i: nat): EndpointState
    requires i <= |ids| == |cfgs| == |ep.alerts| == |readable|
    decreases |ids| - i
  {
    if i == |ids| then ep
    else if readable[i] && ids[i] in rows then
      var row := rows[ids[i]];
      Load(ids, cfgs,
           ep.(alerts := ep.alerts[i := AlertState(true, row.resolveKey)],
               successes := row.successes, failures := cfgs[i].failureThreshold),
           rows, readable, i + 1)
    else
      Load(ids, cfgs, ep, rows, readable, i + 1)
  }

  function PrunedRows(key: string, cfgs: seq<Config>, rows: Records, answers: StoreAnswers): Records {
    if answers.pruned then Prune(rows, key, EnabledChecksums(cfgs)) else rows
  }

  /** A restart, possibly with another configuration. */
  function Restart(key: string, cfgs: seq<Config>, rows: Records, answers: StoreAnswers): World
    requires |answers.readable| == |cfgs|
  {
    var kept := PrunedRows(key, cfgs, rows, answers);
    World(Ids(key, cfgs), cfgs, Load(Ids(key, cfgs), cfgs, Unloaded(|cfgs|), kept, answers.readable, 0), kept)
  }

  /** Some enabled alert among the first n has this checksum. */
  ghost predicate EnabledAmong(checksums: seq<string>, cfgs: seq<Config>, n: nat, checksum: string)
    requires n <= |checksums| == |cfgs|
  {
    exists j :: 0 <= j < n && cfgs[j].IsEnabled() && checksums[j] == checksum
  }

  lemma EnabledAmongPrefix(checksums: seq<string>, cfgs: seq<Config>, n: nat, checksum: string)
    requires n <= |checksums| == |cfgs|
    ensures EnabledAmong(checksums[..n], cfgs[..n], n, checksum) <==> EnabledAmong(checksums, cfgs, n, checksum)
  {
    if j :| 0 <= j < n && cfgs[j].IsEnabled() && checksums[j] == checksum {
      assert cfgs[..n][j].IsEnabled() && checksums[..n][j] == checksum;
    }
    if j :| 0 <= j < n && cfgs[..n][j].IsEnabled() && checksums[..n][j] == checksum {
      assert cfgs[j].IsEnabled() && checksums[j] == checksum;
    }
  }

  lemma {:induction false} EnabledAre(checksums: seq<string>, cfgs: seq<Config>, checksum: string)
    requires |checksums| == |cfgs|
    ensures checksum in Enabled(checksums, cfgs) <==> EnabledAmong(checksums, cfgs, |cfgs|, checksum)
    decreases |cfgs|
  {
    if cfgs != [] {
      var n := |cfgs| - 1;
      EnabledAre(checksums[..n], cfgs[..n], checksum);
      EnabledAmongPrefix(checksums, cfgs, n, checksum);
    }
  }

  lemma {:induction false} LoadAt(
    ids: seq<RecordId>, cfgs: seq<Config>, ep: EndpointState, rows: Records, readable: seq<bool>, i: nat)
    requires i <= |ids| == |cfgs| == |ep.alerts| == |readable|
    ensures var r := Load(ids, cfgs, ep, rows, readable, i);
            && |r.alerts| == |ids| && r.lastReminderSent == ep.lastReminderSent
            && (forall j | 0 <= j < i :: r.alerts[j] == ep.alerts[j])
            && (forall j | i <= j < |ids| ::
                  r.alerts[j] ==
                  if readable[j] && ids[j] in rows then AlertState(true, rows[ids[j]].resolveKey) else ep.alerts[j])
    decreases |ids| - i
  {
    if i < |ids| {
      if readable[i] && ids[i] in rows {
        var row := rows[ids[i]];
        LoadAt(ids, cfgs, ep.(alerts := ep.alerts[i := AlertState(true, row.resolveKey)], successes := row.successes,
                              failures := cfgs[i].failureThreshold), rows, readable, i + 1);
      } else {
        LoadAt(ids, cfgs, ep, rows, readable, i + 1);
      }
    }
  }

  /** A restart of one endpoint leaves the rows of all others alone, whatever the store answers. */
  lemma RestartLeavesOtherRows(key: string, cfgs: seq<Config>, rows: Records, answers: StoreAnswers, id: RecordId)
    requires |answers.readable| == |cfgs| && id.endpointKey != key
    ensures SameRow(rows, Restart(key, cfgs, rows, answers).rows, id)
  {
  }

  /** Alert j is found by the loading loop. */
  predicate Found(ids: seq<RecordId>, rows: Records, readable: seq<bool>, j: nat)
    requires j < |ids| == |readable|
  {
    readable[j] && ids[j] in rows
  }

  /** The last alert of the list, from alert i on, that the loading loop finds. */
  function LastFound(ids: seq<RecordId>, rows: Records, readable: seq<bool>, i: nat): (r: Option<nat>)
    requires i <= |ids| == |readable|
    ensures r.Some? ==> i <= r.value < |ids| && Found(ids, rows, readable, r.value)
    ensures forall j | i <= j < |ids| && Found(ids, rows, readable, j) :: r.Some? && j <= r.value
    decreases |ids| - i
  {
    if i == |ids| then None
    else
      var later := LastFound(ids, rows, readable, i + 1);
      if later.Some? then later else if Found(ids, rows, readable, i) then Some(i) else None
  }

  /** Each alert that is found overwrites the counters of the endpoint, so that the last one in the list decides. */
  lemma {:induction false} LoadCounters(
    ids: seq<RecordId>, cfgs: seq<Config>, ep: EndpointState, rows: Records, readable: seq<bool>, i: nat)
    requires i <= |ids| == |cfgs| == |ep.alerts| == |readable|
    ensures var r, last := Load(ids, cfgs, ep, rows, readable, i), LastFound(ids, rows, readable, i);
            && r.successes == (if last.Some? then rows[ids[last.value]].successes else ep.successes)
            && r.failures == (if last.Some? then cfgs[last.value].failureThreshold else ep.failures)
    decreases |ids| - i
  {
    if i < |ids| {
      if Found(ids, rows, readable, i) {
        var row := rows[ids[i]];
        LoadCounters(ids, cfgs, ep.(alerts := ep.alerts[i := AlertState(true, row.resolveKey)],
                                    successes := row.successes,
                                    failures := cfgs[i].failureThreshold), rows, readable, i + 1);
      } else {
        LoadCounters(ids, cfgs, ep, rows, readable, i + 1);
      }
    }
  }

  // ---------- rows and Triggered flags agree ----------

  /** A row exists for an alert exactly when it is triggered, with a success count that does not yet resolve it. */
  ghost predicate AlertConsistent(w: World, j: nat)
    requires w.Shaped() && j < |w.cfgs|
  {
    && (w.ids[j] in w.rows <==> w.ep.alerts[j].triggered)
    && (w.ids[j] in w.rows ==> 0 <= w.rows[w.ids[j]].successes < w.cfgs[j].successThreshold && w.cfgs[j].IsEnabled())
  }

  ghost predicate Agrees(w: World) {
    && w.Started() && Distinct(w.ids)
    && (forall j | 0 <= j < |w.cfgs| :: AlertConsistent(w, j))
  }

  /** The endpoint has no other rows than those of its alerts. */
  ghost predicate Consistent(key: string, w: World) {
    && Agrees(w) && w.ids == Ids(key, w.cfgs)
    && (forall id <- w.rows :: id.endpointKey == key ==> id in w.ids)
  }

  ghost predicate AllStored(h: Handled) {
    forall e <- h.envs :: e.stored
  }

  lemma HandledAlertConsistent(w: World, h: Handled, j: nat)
    requires w.Started() && |h.envs| == |w.cfgs| && j < |w.cfgs|
    requires Distinct(w.ids) && h.envs[j].stored && AlertConsistent(w, j)
    ensures AlertConsistent(After(w, h), j)
  {
    NextAlone(w, h, j);
    HandleWritesRow(w.ids, w.cfgs, w.ep, w.rows, h.success, h.envs, j);
    assert w.cfgs[j].Valid();
  }

  lemma HandlingKeepsAgreement(w: World, h: Handled)
    requires Agrees(w) && |h.envs| == |w.cfgs| && AllStored(h)
    ensures Agrees(After(w, h))
  {
    HandleActsAlone(w.ids, w.cfgs, w.ep, w.rows, h.success, h.envs);
    forall j | 0 <= j < |w.cfgs| ensures AlertConsistent(After(w, h), j) {
      HandledAlertConsistent(w, h, j);
    }
  }

  lemma HandlingAddsNoRow(w: World, h: Handled, id: RecordId)
    requires w.Shaped() && |h.envs| == |w.cfgs| && id !in w.ids
    ensures id in After(w, h).rows <==> id in w.rows
  {
    HandleLeavesRow(w.ids, w.cfgs, w.ep, w.rows, h.success, h.envs, id);
    assert SameRow(w.rows, After(w, h).rows, id);
  }

  lemma HandlingKeepsConsistency(key: string, w: World, h: Handled)
    requires Consistent(key, w) && |h.envs| == |w.cfgs| && AllStored(h)
    ensures Consistent(key, After(w, h))
  {
    HandlingKeepsAgreement(w, h);
    forall id <- After(w, h).rows | id.endpointKey == key ensures id in w.ids {
      if id !in w.ids {
        HandlingAddsNoRow(w, h, id);
      }
    }
  }

  /** Every store operation of the restart worked. */
  ghost predicate AllAnswered(answers: StoreAnswers, cfgs: seq<Config>) {
    answers.pruned && |answers.readable| == |cfgs| && forall b <- answers.readable :: b
  }

  lemma RestartLoads(key: string, cfgs: seq<Config>, rows: Records, answers: StoreAnswers, j: nat)
    requires AllAnswered(answers, cfgs) && j < |cfgs|
    ensures var w' := Restart(key, cfgs, rows, answers);
            && w'.ids == Ids(key, cfgs) && w'.cfgs == cfgs && w'.Shaped()
            && w'.rows == Prune(rows, key, EnabledChecksums(cfgs))
            && (w'.ep.alerts[j].triggered <==> w'.ids[j] in w'.rows)
  {
    AllLoaded(Ids(key, cfgs), cfgs, PrunedRows(key, cfgs, rows, answers), answers.readable, j);
  }

  lemma AllLoaded(ids: seq<RecordId>, cfgs: seq<Config>, rows: Records, readable: seq<bool>, j: nat)
    requires j < |ids| == |cfgs| == |readable| && forall b <- readable :: b
    ensures var ep := Load(ids, cfgs, Unloaded(|cfgs|), rows, readable, 0);
            |ep.alerts| == |ids| && (ep.alerts[j].triggered <==> ids[j] in rows)
  {
    LoadAt(ids, cfgs, Unloaded(|cfgs|), rows, readable, 0);
    assert readable[j] in readable;
  }

  lemma EnabledRowSurvives(key: string, cfgs: seq<Config>, rows: Records, j: nat)
    requires j < |cfgs|
    ensures var id := Ids(key, cfgs)[j];
            && (cfgs[j].IsEnabled() ==> SameRow(rows, Prune(rows, key, EnabledChecksums(cfgs)), id))
            && (id !in rows ==> id !in Prune(rows, key, EnabledChecksums(cfgs)))
  {
    EnabledAre(Checksums(cfgs), cfgs, Ids(key, cfgs)[j].checksum);
  }

  /** The row of an alert of the old configuration fits any new alert with the same checksum. */
  lemma RowFitsNewAlert(key: string, w: World, cfgs: seq<Config>, j: nat)
    requires Consistent(key, w) && j < |cfgs| && cfgs[j].Valid()
    requires Ids(key, cfgs)[j] in w.rows
    ensures cfgs[j].IsEnabled() && 0 <= w.rows[Ids(key, cfgs)[j]].successes < cfgs[j].successThreshold
  {
    var id := Ids(key, cfgs)[j];
    var i :| 0 <= i < |w.ids| && w.ids[i] == id;
    assert AlertConsistent(w, i);
    assert w.cfgs[i].Valid();
    ChecksumDeterminesConfig(w.cfgs[i], cfgs[j]);
  }

  lemma RowMeansTriggered(w: World, id: RecordId)
    requires Agrees(w) && id in w.ids
    ensures id in w.rows <==> exists i :: 0 <= i < |w.cfgs| && w.ids[i] == id && w.ep.alerts[i].triggered
  {
    var i :| 0 <= i < |w.ids| && w.ids[i] == id;
    assert AlertConsistent(w, i);
    assert forall k | 0 <= k < |w.ids| && w.ids[k] == id :: k == i;
  }

  /**
   After a restart an alert is triggered exactly when an alert of the old configuration with the same checksum was:
   an unchanged incident survives with its row, a changed or new alert starts over.
   */
  lemma RestartKeepsTriggered(key: string, w: World, cfgs: seq<Config>, answers: StoreAnswers, j: nat)
    requires Consistent(key, w) && AllAnswered(answers, cfgs) && j < |cfgs|
    requires forall c <- cfgs :: c.Valid()
    ensures var w' := Restart(key, cfgs, w.rows, answers);
            var id := w'.ids[j];
            && w'.Shaped()
            && (w'.ep.alerts[j].triggered <==>
              exists i :: 0 <= i < |w.cfgs| && w.ids[i] == id && w.ep.alerts[i].triggered)
            && SameRow(w.rows, w'.rows, id)
            && AlertConsistent(w', j)
  {
    var id := Ids(key, cfgs)[j];
    RestartLoads(key, cfgs, w.rows, answers, j);
    EnabledRowSurvives(key, cfgs, w.rows, j);
    if id in w.rows {
      RowFitsNewAlert(key, w, cfgs, j);
    }
    if id in w.ids {
      RowMeansTriggered(w, id);
    }
  }

  lemma RestartStarts(key: string, w: World, cfgs: seq<Config>, answers: StoreAnswers)
    requires Consistent(key, w) && AllAnswered(answers, cfgs) && forall c <- cfgs :: c.Valid()
    ensures Restart(key, cfgs, w.rows, answers).Started()
  {
    var ids, kept := Ids(key, cfgs), PrunedRows(key, cfgs, w.rows, answers);
    LoadAt(ids, cfgs, Unloaded(|cfgs|), kept, answers.readable, 0);
    LoadCounters(ids, cfgs, Unloaded(|cfgs|), kept, answers.readable, 0);
    var last := LastFound(ids, kept, answers.readable, 0);
    if last.Some? {
      RowFitsNewAlert(key, w, cfgs, last.value);
      assert cfgs[last.value].Valid();
    }
  }

  lemma RestartMakesConsistent(key: string, w: World, cfgs: seq<Config>, answers: StoreAnswers)
    requires Consistent(key, w) && AllAnswered(answers, cfgs)
    requires (forall c <- cfgs :: c.Valid()) && Distinct(Ids(key, cfgs))
    ensures Consistent(key, Restart(key, cfgs, w.rows, answers))
  {
    var w' := Restart(key, cfgs, w.rows, answers);
    LoadAt(Ids(key, cfgs), cfgs, Unloaded(|cfgs|), PrunedRows(key, cfgs, w.rows, answers), answers.readable, 0);
    RestartStarts(key, w, cfgs, answers);
    forall j | 0 <= j < |cfgs| ensures AlertConsistent(w', j) {
      RestartKeepsTriggered(key, w, cfgs, answers, j);
    }
    forall id <- w'.rows | id.endpointKey == key ensures id in w'.ids {
      EnabledAre(Checksums(cfgs), cfgs, id.checksum);
      var j :| 0 <= j < |cfgs| && cfgs[j].IsEnabled() && Checksums(cfgs)[j] == id.checksum;
      assert w'.ids[j] == id;
    }
  }

  // ---------- whole lifetimes ----------

  datatype Event = Result(h: Handled) | Restarted(cfgs: seq<Config>, answers: StoreAnswers)

  /** Before the first start there is neither a configuration nor a row. */
  function Unstarted(): World {
    World([], [], Unloaded(0), map[])
  }

  /** Store operations work, thresholds are validated, and no two alerts of the endpoint share a checksum. */
  ghost predicate Admissible(key: string, w: World, e: Event) {
    match e
    case Result(h) => w.Shaped() && |h.envs| == |w.cfgs| && AllStored(h)
    case Restarted(cfgs, answers) =>
      AllAnswered(answers, cfgs) && (forall c <- cfgs :: c.Valid()) && Distinct(Ids(key, cfgs))
  }

  ghost function Happens(key: string, w: World, e: Event): World
    requires Admissible(key, w, e)
  {
    match e
    case Result(h) => After(w, h)
    case Restarted(cfgs, answers) => Restart(key, cfgs, w.rows, answers)
  }

  /** The world after a history of results and restarts, unless some event was not admissible. */
  ghost function Lifetime(key: string, events: seq<Event>): Option<World> {
    if events == [] then Some(Unstarted())
    else
      var before := Lifetime(key, events[..|events| - 1]);
      var e := events[|events| - 1];
      if before.Some? && Admissible(key, before.value, e) then Some(Happens(key, before.value, e)) else None
  }

  /** In every reachable state, the rows of the endpoint and the Triggered flags of its alerts agree. */
  lemma {:induction false} RowsAndFlagsAlwaysAgree(key: string, events: seq<Event>)
    requires Lifetime(key, events).Some?
    ensures Consistent(key, Lifetime(key, events).value)
    decreases |events|
  {
    if events == [] {
      assert Ids(key, []) == [];
    } else {
      RowsAndFlagsAlwaysAgree(key, events[..|events| - 1]);
      var before := Lifetime(key, events[..|events| - 1]).value;
      match events[|events| - 1]
      case Result(h) => HandlingKeepsConsistency(key, before, h);
      case Restarted(cfgs, answers) => RestartMakesConsistent(key, before, cfgs, answers);
    }
  }

  // ---------- alternation across restarts ----------

  /**
   What the alert persisted under id announces while an event happens; alerts without that row announce nothing of it.
   */
  ghost function NoticeFor(id: RecordId, w: World, e: Event): Notice {
    if e.Result? && w.Shaped() && |e.h.envs| == |w.cfgs| && exists j :: 0 <= j < |w.ids| && w.ids[j] == id then
      var j :| 0 <= j < |w.ids| && w.ids[j] == id;
      NextAlone(w, e.h, j);
      Next(w, e.h).notices[j]
    else Silent
  }

  ghost function NoticesOver(key: string, id: RecordId, events: seq<Event>): seq<Notice>
    requires Lifetime(key, events).Some?
  {
    if events == [] then []
    else
      var front := events[..|events| - 1];
      NoticesOver(key, id, front) + [NoticeFor(id, Lifetime(key, front).value, events[|events| - 1])]
  }

  /** The alert persisted under id is configured and enabled after every restart. */
  ghost predicate StaysConfigured(key: string, id: RecordId, events: seq<Event>) {
    forall e <- events :: e.Restarted? ==>
      exists j :: 0 <= j < |e.cfgs| && e.cfgs[j].IsEnabled() && RecordId(key, Checksum(e.cfgs[j])) == id
  }

  lemma HandledNoticeMovesRow(id: RecordId, w: World, h: Handled)
    requires Agrees(w) && |h.envs| == |w.cfgs| && AllStored(h)
    ensures TakeTurns(id in w.rows, [NoticeFor(id, w, Result(h))]) == Some(id in After(w, h).rows)
  {
    if id in w.ids {
      var j :| 0 <= j < |w.ids| && w.ids[j] == id;
      NoticeForIs(w, h, j);
      NextAlone(w, h, j);
      assert AlertConsistent(w, j);
      HandledAlertConsistent(w, h, j);
    } else {
      HandlingAddsNoRow(w, h, id);
    }
    assert TakeTurns(id in w.rows, []) == Some(id in w.rows);
  }

  lemma NoticeForIs(w: World, h: Handled, j: nat)
    requires Agrees(w) && |h.envs| == |w.cfgs| && j < |w.ids|
    ensures |Next(w, h).notices| == |w.cfgs| && NoticeFor(w.ids[j], w, Result(h)) == Next(w, h).notices[j]
  {
    NextAlone(w, h, j);
    assert forall i | 0 <= i < |w.ids| && w.ids[i] == w.ids[j] :: i == j;
  }

  lemma RestartKeepsRow(key: string, id: RecordId, w: World, cfgs: seq<Config>, answers: StoreAnswers)
    requires Consistent(key, w) && AllAnswered(answers, cfgs) && (forall c <- cfgs :: c.Valid())
    requires exists j :: 0 <= j < |cfgs| && cfgs[j].IsEnabled() && RecordId(key, Checksum(cfgs[j])) == id
    ensures id in Restart(key, cfgs, w.rows, answers).rows <==> id in w.rows
  {
    var j :| 0 <= j < |cfgs| && cfgs[j].IsEnabled() && RecordId(key, Checksum(cfgs[j])) == id;
    RestartKeepsTriggered(key, w, cfgs, answers, j);
  }

  /**
   Alternation holds over the whole lifetime of an alert, restarts included: initial notifications and resolutions
   take turns, and the alert has a row exactly while it is between an initial notification and its resolution.
   */
  lemma {:induction false} NoticesAlternateAcrossRestarts(key: string, id: RecordId, events: seq<Event>)
    requires Lifetime(key, events).Some? && StaysConfigured(key, id, events)
    ensures TakeTurns(false, NoticesOver(key, id, events)) == Some(id in Lifetime(key, events).value.rows)
    decreases |events|
  {
    if events != [] {
      var front, e := events[..|events| - 1], events[|events| - 1];
      var before := Lifetime(key, front).value;
      NoticesAlternateAcrossRestarts(key, id, front);
      RowsAndFlagsAlwaysAgree(key, front);
      TakeTurnsOneMore(false, NoticesOver(key, id, front), NoticeFor(id, before, e));
      match e
      case Result(h) => HandledNoticeMovesRow(id, before, h);
      case Restarted(cfgs, answers) =>
        RestartKeepsRow(key, id, before, cfgs, answers);
        assert TakeTurns(id in before.rows, [Silent][..0]) == Some(id in before.rows);
    }
  }

  // ---------- the persisted success count ----------

  /** What makes a failure send a reminder of a triggered alert: its thresholds, the clock and the provider. */
  predicate ReminderGoesOut(c: Config, ep: EndpointState, e: Env) {
    && c.failureThreshold <= ep.failures + 1
    && c.minimumReminderInterval > 0 && e.checkedAt - ep.lastReminderSent >= c.minimumReminderInterval
    && e.provider && e.sent
  }

  /**
   The success count of a triggered alert is persisted after a success and after a delivered notification, but not
   after any other failure: then the row keeps the count of an interrupted run of successes.
   */
  lemma PersistedCountIsCurrentIff(w: World, h: Handled, j: nat)
    requires Agrees(w) && |h.envs| == |w.cfgs| && AllStored(h) && j < |w.cfgs|
    requires After(w, h).ep.alerts[j].triggered
    ensures var id, w' := w.ids[j], After(w, h);
            && id in w'.rows && (!h.success ==> w'.ep.successes == 0)
            && (w'.rows[id].successes == w'.ep.successes <==>
                  || h.success || id !in w.rows || w.rows[id].successes == 0
                  || ReminderGoesOut(w.cfgs[j], w.ep, h.envs[j]))
  {
    NextAlone(w, h, j);
    HandleWritesRow(w.ids, w.cfgs, w.ep, w.rows, h.success, h.envs, j);
    assert AlertConsistent(w, j);
    HandledAlertConsistent(w, h, j);
  }

  /** One alert alone on its endpoint, with thresholds 1 and 2. */
  const CUSTOM := Config("custom", None, 1, 2, 0, None, None)

  function Single(success: bool): Handled {
    Handled(success, [Env(0, true, true, "", 0, true)])
  }

  const BOOT := Restarted([CUSTOM], StoreAnswers(true, [true]))

  /** The triggered state of a single alert, its row, and the endpoint's success counter. */
  ghost predicate SingleIs(key: string, w: World, triggered: bool, row: int, successes: int) {
    && Consistent(key, w) && w.cfgs == [CUSTOM]
    && (w.ep.alerts[0].triggered <==> triggered)
    && (triggered ==> w.ids[0] in w.rows && w.rows[w.ids[0]].successes == row)
    && w.ep.successes == successes && w.ep.failures >= 0
  }

  lemma SingleHandled(key: string, w: World, success: bool, triggered: bool, row: int, successes: int)
    requires SingleIs(key, w, triggered, row, successes)
    requires !success || (triggered && successes == 0)
    ensures SingleIs(key, After(w, Single(success)), true,
                     if success then 1 else if triggered then row else 0, if success then 1 else 0)
  {
    var h := Single(success);
    assert AlertConsistent(w, 0);
    NextAlone(w, h, 0);
    HandlingKeepsConsistency(key, w, h);
    HandleWritesRow(w.ids, w.cfgs, w.ep, w.rows, h.success, h.envs, 0);
  }

  lemma LoadOne(id: RecordId, rows: Records)
    ensures Load([id], [CUSTOM], Unloaded(1), rows, [true], 0) ==
            if id in rows then
              EndpointState(1, rows[id].successes, ZERO_TIME, [AlertState(true, rows[id].resolveKey)])
            else Unloaded(1)
  {
    if id in rows {
      var ep := EndpointState(1, rows[id].successes, ZERO_TIME, [AlertState(true, rows[id].resolveKey)]);
      assert Load([id], [CUSTOM], Unloaded(1), rows, [true], 0) == Load([id], [CUSTOM], ep, rows, [true], 1);
    } else {
      assert Load([id], [CUSTOM], Unloaded(1), rows, [true], 0) == Load([id], [CUSTOM], Unloaded(1), rows, [true], 1);
    }
  }

  lemma SingleBooted(key: string, w: World, triggered: bool, row: int, successes: int)
    requires (w == Unstarted() && !triggered) || SingleIs(key, w, triggered, row, successes)
    ensures Admissible(key, w, BOOT)
    ensures SingleIs(key, Happens(key, w, BOOT), triggered, row, if triggered then row else 0)
  {
    assert Ids(key, []) == [];
    var w' := Restart(key, BOOT.cfgs, w.rows, BOOT.answers);
    var id := w'.ids[0];
    assert w'.ids == [id];
    LoadOne(id, w'.rows);
    assert CUSTOM.Valid();
    RestartMakesConsistent(key, w, BOOT.cfgs, BOOT.answers);
    RestartKeepsTriggered(key, w, BOOT.cfgs, BOOT.answers, 0);
    if w.cfgs == [CUSTOM] {
      assert w.ids == [id];
      assert AlertConsistent(w, 0);
    }
    assert AlertConsistent(w', 0);
  }

  lemma Reach(key: string, events: seq<Event>, w: World, e: Event)
    requires Lifetime(key, events) == Some(w) && Admissible(key, w, e)
    ensures Lifetime(key, events + [e]) == Some(Happens(key, w, e))
  {
    assert (events + [e])[..|events|] == events;
  }

  lemma ReachSingle(key: string, events: seq<Event>, w: World, success: bool, triggered: bool, row: int, successes: int)
    requires Lifetime(key, events) == Some(w) && SingleIs(key, w, triggered, row, successes)
    requires !success || (triggered && successes == 0)
    ensures Lifetime(key, events + [Result(Single(success))]) == Some(After(w, Single(success)))
    ensures SingleIs(key, After(w, Single(success)), true,
                     if success then 1 else if triggered then row else 0, if success then 1 else 0)
  {
    SingleHandled(key, w, success, triggered, row, successes);
    Reach(key, events, w, Result(Single(success)));
  }

  /** A failure, a success that is persisted, a failure that is not, and a restart. */
  function Interrupted(): seq<Event> {
    [] + [BOOT] + [Result(Single(false))] + [Result(Single(true))] + [Result(Single(false))] + [BOOT]
  }

  /**
   Across a restart "exactly SuccessThreshold successes in a row" fails: with a threshold of 2, the persisted count
   of an interrupted run lets a single success resolve an alert whose endpoint failed just before the restart.
   */
  lemma RestartCanResolveTooEarly(key: string)
    ensures var w := Lifetime(key, Interrupted());
            && CUSTOM.successThreshold == 2 && w.Some? && |w.value.ids| == 1
            && Admissible(key, w.value, Result(Single(true)))
            && NoticeFor(w.value.ids[0], w.value, Result(Single(true))) == Resolved
  {
    var w0 := Unstarted();
    SingleBooted(key, w0, false, 0, 0);
    Reach(key, [], w0, BOOT);
    var w1 := Happens(key, w0, BOOT);
    ReachSingle(key, [] + [BOOT], w1, false, false, 0, 0);
    var w2 := After(w1, Single(false));
    ReachSingle(key, [] + [BOOT] + [Result(Single(false))], w2, true, true, 0, 0);
    var w3 := After(w2, Single(true));
    var events := [] + [BOOT] + [Result(Single(false))] + [Result(Single(true))];
    ReachSingle(key, events, w3, false, true, 1, 1);
    var w4 := After(w3, Single(false));
    SingleBooted(key, w4, true, 1, 0);
    Reach(key, events + [Result(Single(false))], w4, BOOT);
    ResolvesAtOnce(key, Happens(key, w4, BOOT));
  }

  lemma ResolvesAtOnce(key: string, w: World)
    requires SingleIs(key, w, true, 1, 1)
    ensures Admissible(key, w, Result(Single(true))) && |w.ids| == 1
    ensures NoticeFor(w.ids[0], w, Result(Single(true))) == Resolved
  {
    NoticeForIs(w, Single(true), 0);
    NextAlone(w, Single(true), 0);
  }
}
