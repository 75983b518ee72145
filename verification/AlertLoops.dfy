/**
 HandleAlerting as the program runs it: one loop over the alerts of an endpoint, which overwrites the endpoint's
 LastReminderSent and the record store as it goes (`watchdog/alerting.go`). The lemmas show that the loop treats
 every alert as if it were alone.
 */
module AlertLoops {
  import opened Alerts

  datatype EndpointState = EndpointState(failures: int, successes: int, lastReminderSent: int, alerts: seq<AlertState>)

  /** An endpoint, the record store, and the notices of the alerts handled so far. */
  datatype Progress = Progress(ep: EndpointState, rows: Records, notices: seq<Notice>)

  /** The rows in which the alerts of an endpoint are persisted. */
  function Ids(key: string, cfgs: seq<Config>): seq<RecordId> {
    seq(|cfgs|, i requires 0 <= i < |cfgs| => RecordId(key, Checksum(cfgs[i])))
  }

  ghost predicate Distinct(ids: seq<RecordId>) {
    forall i, j | 0 <= i < j < |ids| :: ids[i] != ids[j]
  }

  function Written(rows: Records, id: RecordId, o: Outcome, successes: int, e: Env): Records {
    if !e.stored then rows
    else
      match o.write
      case Keep => rows
      case Upsert => Put(rows, id, o.state, successes)
      case Delete => Drop(rows, id)
  }

  /** Store the outcome of alert i. */
  function Commit(ids: seq<RecordId>, cfgs: seq<Config>, p: Progress, i: nat, o: Outcome, e: Env): Progress
    requires i < |ids| == |cfgs| == |p.ep.alerts|
  {
    Progress(
      p.ep.(alerts := p.ep.alerts[i := o.state],
            lastReminderSent :=
              if o.notice == Initial || o.notice == Reminder then e.sentAt else p.ep.lastReminderSent),
      Written(p.rows, ids[i], o, p.ep.successes, e),
      p.notices + [o.notice])
  }

  /** One turn of either loop, on the counters the enclosing function has already updated. */
  function Turn(c: Config, a: AlertState, success: bool, count: int, reference: int, e: Env): Outcome {
    if success then ResolveOne(c, a, count, e) else TriggerOne(c, a, count, reference, e)
  }

  /** The run length the loop compares with the thresholds. */
  function Count(ep: EndpointState, success: bool): int {
    if success then ep.successes else ep.failures
  }

  /** The rest of either loop, from alert i on. */
  function Loop(
    ids: seq<RecordId>, cfgs: seq<Config>, p: Progress, success: bool, reference: int, envs: seq<Env>, i: nat): Progress
    requires i <= |ids| == |cfgs| == |p.ep.alerts| == |envs|
    decreases |cfgs| - i
  {
    if i == |cfgs| then p
    else
      var o := Turn(cfgs[i], p.ep.alerts[i], success, Count(p.ep, success), reference, envs[i]);
      Loop(ids, cfgs, Commit(ids, cfgs, p, i, o, envs[i]), success, reference, envs, i + 1)
  }

  /** The state in which the loop starts. */
  function Counted(ep: EndpointState, success: bool): EndpointState {
    if success then ep.(successes := ep.successes + 1)
    else ep.(successes := 0, failures := ep.failures + 1)
  }

  /** HandleAlerting with an alerting configuration present. */
  function Handle(
    ids: seq<RecordId>, cfgs: seq<Config>, ep: EndpointState, rows: Records, success: bool, envs: seq<Env>): Progress
    requires |ids| == |cfgs| == |ep.alerts| == |envs|
  {
    var p := Loop(ids, cfgs, Progress(Counted(ep, success), rows, []), success, ep.lastReminderSent, envs, 0);
    if success then p.(ep := p.ep.(failures := 0)) else p
  }

  /** The same step seen from a single alert: only its own state and what was true before the loop matter. */
  function Alone(c: Config, ep: EndpointState, a: AlertState, success: bool, e: Env): Outcome {
    Turn(c, a, success, if success then ep.successes + 1 else ep.failures + 1, ep.lastReminderSent, e)
  }

  function SuccessesAfter(ep: EndpointState, success: bool): int {
    if success then ep.successes + 1 else 0
  }

  function FailuresAfter(ep: EndpointState, success: bool): int {
    if success then 0 else ep.failures + 1
  }

  // ---------- the loops act on each alert alone ----------

  lemma {:induction false} LoopShape(
    ids: seq<RecordId>, cfgs: seq<Config>, p: Progress, success: bool, reference: int, envs: seq<Env>, i: nat)
    requires i <= |ids| == |cfgs| == |p.ep.alerts| == |envs|
    ensures var q := Loop(ids, cfgs, p, success, reference, envs, i);
            && q.ep.failures == p.ep.failures && q.ep.successes == p.ep.successes
            && |q.ep.alerts| == |cfgs| && |q.notices| == |p.notices| + |cfgs| - i
    decreases |cfgs| - i
  {
    if i < |cfgs| {
      var o := Turn(cfgs[i], p.ep.alerts[i], success, Count(p.ep, success), reference, envs[i]);
      LoopShape(ids, cfgs, Commit(ids, cfgs, p, i, o, envs[i]), success, reference, envs, i + 1);
    }
  }

  lemma {:induction false} LoopAt(
    ids: seq<RecordId>, cfgs: seq<Config>, p: Progress, success: bool, reference: int, envs: seq<Env>, i: nat, j: nat)
    requires i <= |ids| == |cfgs| == |p.ep.alerts| == |envs| && j < |cfgs|
    requires |p.notices| == i
    ensures var q := Loop(ids, cfgs, p, success, reference, envs, i);
            && |q.ep.alerts| == |q.notices| == |cfgs|
            && (j < i ==> q.ep.alerts[j] == p.ep.alerts[j] && q.notices[j] == p.notices[j])
            && (i <= j ==>
                  var o := Turn(cfgs[j], p.ep.alerts[j], success, Count(p.ep, success), reference, envs[j]);
                  q.ep.alerts[j] == o.state && q.notices[j] == o.notice)
    decreases |cfgs| - i
  {
    if i < |cfgs| {
      var o := Turn(cfgs[i], p.ep.alerts[i], success, Count(p.ep, success), reference, envs[i]);
      LoopAt(ids, cfgs, Commit(ids, cfgs, p, i, o, envs[i]), success, reference, envs, i + 1, j);
    }
  }

  /** Alerts do not interfere: every alert and its notice come out as if it were the endpoint's only alert. */
  lemma HandleActsAlone(
    ids: seq<RecordId>, cfgs: seq<Config>, ep: EndpointState, rows: Records, success: bool, envs: seq<Env>)
    requires |ids| == |cfgs| == |ep.alerts| == |envs|
    ensures var q := Handle(ids, cfgs, ep, rows, success, envs);
            && q.ep.failures == FailuresAfter(ep, success) && q.ep.successes == SuccessesAfter(ep, success)
            && |q.ep.alerts| == |q.notices| == |cfgs|
            && (forall j | 0 <= j < |cfgs| ::
                  var o := Alone(cfgs[j], ep, ep.alerts[j], success, envs[j]);
                  q.ep.alerts[j] == o.state && q.notices[j] == o.notice)
  {
    var p := Progress(Counted(ep, success), rows, []);
    LoopShape(ids, cfgs, p, success, ep.lastReminderSent, envs, 0);
    forall j | 0 <= j < |cfgs|
      ensures var q := Handle(ids, cfgs, ep, rows, success, envs);
              var o := Alone(cfgs[j], ep, ep.alerts[j], success, envs[j]);
              q.ep.alerts[j] == o.state && q.notices[j] == o.notice
    {
      LoopAt(ids, cfgs, p, success, ep.lastReminderSent, envs, 0, j);
    }
  }

  // ---------- the record store ----------

  ghost predicate SameRow(rows: Records, rows': Records, id: RecordId) {
    (id in rows <==> id in rows') && (id in rows ==> rows[id] == rows'[id])
  }

  lemma {:induction false} LoopLeavesRow(
    ids: seq<RecordId>, cfgs: seq<Config>, p: Progress, success: bool, reference: int, envs: seq<Env>, i: nat,
    id: RecordId)
    requires i <= |ids| == |cfgs| == |p.ep.alerts| == |envs|
    requires forall j | i <= j < |cfgs| :: id != ids[j]
    ensures SameRow(p.rows, Loop(ids, cfgs, p, success, reference, envs, i).rows, id)
    decreases |cfgs| - i
  {
    if i < |cfgs| {
      var o := Turn(cfgs[i], p.ep.alerts[i], success, Count(p.ep, success), reference, envs[i]);
      LoopLeavesRow(ids, cfgs, Commit(ids, cfgs, p, i, o, envs[i]), success, reference, envs, i + 1, id);
    }
  }

  lemma {:induction false} LoopWritesRow(
    ids: seq<RecordId>, cfgs: seq<Config>, p: Progress, success: bool, reference: int, envs: seq<Env>, i: nat, j: nat)
    requires i <= j < |ids| == |cfgs| == |p.ep.alerts| == |envs|
    requires Distinct(ids)
    ensures var o := Turn(cfgs[j], p.ep.alerts[j], success, Count(p.ep, success), reference, envs[j]);
            var id := ids[j];
            SameRow(Written(p.rows, id, o, p.ep.successes, envs[j]),
                    Loop(ids, cfgs, p, success, reference, envs, i).rows, id)
    decreases |cfgs| - i
  {
    var o := Turn(cfgs[i], p.ep.alerts[i], success, Count(p.ep, success), reference, envs[i]);
    var p' := Commit(ids, cfgs, p, i, o, envs[i]);
    if i == j {
      LoopLeavesRow(ids, cfgs, p', success, reference, envs, i + 1, ids[i]);
    } else {
      var oj := Turn(cfgs[j], p.ep.alerts[j], success, Count(p.ep, success), reference, envs[j]);
      LoopWritesRow(ids, cfgs, p', success, reference, envs, i + 1, j);
      WritesAreApart(p.rows, ids[i], o, ids[j], oj, p.ep.successes, envs[i], envs[j]);
    }
  }

  lemma WritesAreApart(
    rows: Records, id: RecordId, o: Outcome, id': RecordId, o': Outcome, successes: int, e: Env, e': Env)
    requires id != id'
    ensures SameRow(Written(rows, id', o', successes, e'),
                    Written(Written(rows, id, o, successes, e), id', o', successes, e'), id')
  {
  }

  /** Rows of other endpoints, and of checksums no alert has, are left alone. */
  lemma HandleLeavesRow(
    ids: seq<RecordId>, cfgs: seq<Config>, ep: EndpointState, rows: Records, success: bool, envs: seq<Env>,
    id: RecordId)
    requires |ids| == |cfgs| == |ep.alerts| == |envs|
    requires forall j | 0 <= j < |cfgs| :: id != ids[j]
    ensures SameRow(rows, Handle(ids, cfgs, ep, rows, success, envs).rows, id)
  {
    LoopLeavesRow(ids, cfgs, Progress(Counted(ep, success), rows, []), success, ep.lastReminderSent, envs, 0, id);
  }

  /** With distinct checksums, the row of an alert is written by that alert alone. */
  lemma HandleWritesRow(
    ids: seq<RecordId>, cfgs: seq<Config>, ep: EndpointState, rows: Records, success: bool, envs: seq<Env>, j: nat)
    requires j < |ids| == |cfgs| == |ep.alerts| == |envs|
    requires Distinct(ids)
    ensures var o := Alone(cfgs[j], ep, ep.alerts[j], success, envs[j]);
            var id := ids[j];
            SameRow(Written(rows, id, o, SuccessesAfter(ep, success), envs[j]),
                    Handle(ids, cfgs, ep, rows, success, envs).rows, id)
  {
    LoopWritesRow(ids, cfgs, Progress(Counted(ep, success), rows, []), success, ep.lastReminderSent, envs, 0, j);
  }

  // ---------- order of the alerts ----------

  ghost predicate Permutation(perm: seq<nat>, n: nat) {
    && |perm| == n
    && (forall i | 0 <= i < n :: perm[i] < n)
    && (forall i, j | 0 <= i < j < n :: perm[i] != perm[j])
    && (forall k | 0 <= k < n :: k in perm)
  }

  function Permuted<T>(s: seq<T>, perm: seq<nat>): seq<T>
    requires forall i | 0 <= i < |perm| :: perm[i] < |s|
  {
    seq(|perm|, i requires 0 <= i < |perm| => s[perm[i]])
  }

  /**
   Listing the alerts in another order (each with its own surroundings) gives the same alerts, notices and
   counters in that order, and the very same record store.
   */
  lemma HandleCommutesWithPermutation(
    ids: seq<RecordId>, cfgs: seq<Config>, ep: EndpointState, rows: Records, success: bool, envs: seq<Env>,
    perm: seq<nat>)
    requires |ids| == |cfgs| == |ep.alerts| == |envs|
    requires Permutation(perm, |ids|) && Distinct(ids)
    ensures var q := Handle(ids, cfgs, ep, rows, success, envs);
            var ep' := ep.(alerts := Permuted(ep.alerts, perm));
            var q' := Handle(Permuted(ids, perm), Permuted(cfgs, perm), ep', rows, success, Permuted(envs, perm));
            && |q.ep.alerts| == |q.notices| == |perm|
            && q'.ep.alerts == Permuted(q.ep.alerts, perm)
            && q'.notices == Permuted(q.notices, perm)
            && q'.ep.failures == q.ep.failures && q'.ep.successes == q.ep.successes
            && q'.rows == q.rows
  {
    var ids', cfgs', ep', envs' :=
      Permuted(ids, perm), Permuted(cfgs, perm), ep.(alerts := Permuted(ep.alerts, perm)), Permuted(envs, perm);
    HandleActsAlone(ids, cfgs, ep, rows, success, envs);
    HandleActsAlone(ids', cfgs', ep', rows, success, envs');
    var q := Handle(ids, cfgs, ep, rows, success, envs);
    var q' := Handle(ids', cfgs', ep', rows, success, envs');
    forall id ensures SameRow(q.rows, q'.rows, id) {
      PermutedRow(ids, cfgs, ep, rows, success, envs, perm, id);
    }
    SameRowsAreEqual(q.rows, q'.rows);
  }

  lemma SameRowsAreEqual(rows: Records, rows': Records)
    requires forall id :: SameRow(rows, rows', id)
    ensures rows == rows'
  {
    assert forall id :: SameRow(rows, rows', id) ==> (id in rows <==> id in rows');
  }

  lemma PermutedRow(
    ids: seq<RecordId>, cfgs: seq<Config>, ep: EndpointState, rows: Records, success: bool, envs: seq<Env>,
    perm: seq<nat>, id: RecordId)
    requires |ids| == |cfgs| == |ep.alerts| == |envs|
    requires Permutation(perm, |ids|) && Distinct(ids)
    ensures SameRow(Handle(ids, cfgs, ep, rows, success, envs).rows,
                    Handle(Permuted(ids, perm), Permuted(cfgs, perm), ep.(alerts := Permuted(ep.alerts, perm)),
                           rows, success, Permuted(envs, perm)).rows, id)
  {
    var ids', cfgs', ep', envs' :=
      Permuted(ids, perm), Permuted(cfgs, perm), ep.(alerts := Permuted(ep.alerts, perm)), Permuted(envs, perm);
    forall i, j | 0 <= i < j < |ids'| ensures ids'[i] != ids'[j] {
      assert perm[i] != perm[j];
    }
    if k :| 0 <= k < |cfgs| && id == ids[k] {
      assert k in perm;
      var i :| 0 <= i < |perm| && perm[i] == k;
      HandleWritesRow(ids, cfgs, ep, rows, success, envs, k);
      HandleWritesRow(ids', cfgs', ep', rows, success, envs', i);
    } else {
      HandleLeavesRow(ids, cfgs, ep, rows, success, envs, id);
      HandleLeavesRow(ids', cfgs', ep', rows, success, envs', id);
    }
  }
}
