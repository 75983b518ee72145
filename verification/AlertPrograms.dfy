/**
 All endpoints of a program share one table of triggered alerts (`storage/store/store.go`, `main.go`). Whatever
 happens to the others, each endpoint is where its own results and restarts have brought it.
 */
module AlertPrograms {
  import opened Wrappers
  import opened Alerts
  import opened AlertLoops
  import opened AlertRuns
  import opened AlertPersistence

  /** The endpoints by key, and the table; the rows in the worlds of the endpoints are not looked at. */
  datatype Program = Program(worlds: map<string, World>, rows: Records)

  /** An endpoint as it sees itself: its alerts, and the shared table. */
  function Seen(p: Program, key: string): World {
    (if key in p.worlds then p.worlds[key] else Unstarted()).(rows := p.rows)
  }

  /** The program after results and restarts of any of its endpoints, in any order. */
  ghost function ProgramAfter(events: seq<(string, Event)>): Option<Program> {
    if events == [] then Some(Program(map[], map[]))
    else
      var before := ProgramAfter(events[..|events| - 1]);
      var (key, e) := events[|events| - 1];
      if before.Some? && Admissible(key, Seen(before.value, key), e) then
        var w := Happens(key, Seen(before.value, key), e);
        Some(Program(before.value.worlds[key := w], w.rows))
      else None
  }

  /** What happens to one endpoint. */
  function EventsOf(key: string, events: seq<(string, Event)>): seq<Event> {
    if events == [] then []
    else
      var (k, e) := events[|events| - 1];
      EventsOf(key, events[..|events| - 1]) + if k == key then [e] else []
  }

  /** The same endpoint with the same rows of its own, whatever other rows there are. */
  ghost predicate SameEndpoint(key: string, w: World, w': World) {
    && w.ids == w'.ids && w.cfgs == w'.cfgs && w.ep == w'.ep
    && forall id: RecordId | id.endpointKey == key :: SameRow(w.rows, w'.rows, id)
  }

  lemma SameEndpointIsConsistent(key: string, w: World, w': World)
    requires Consistent(key, w) && SameEndpoint(key, w, w')
    ensures Consistent(key, w')
  {
    forall j | 0 <= j < |w.cfgs| ensures AlertConsistent(w', j) {
      assert AlertConsistent(w, j) && w.ids[j].endpointKey == key;
      assert SameRow(w.rows, w'.rows, w.ids[j]);
    }
    forall id <- w'.rows | id.endpointKey == key ensures id in w'.ids {
      assert SameRow(w.rows, w'.rows, id);
    }
  }

  // ---------- what happens to an endpoint depends on its own rows only ----------

  lemma {:induction false} LoopIgnoresRows(
    ids: seq<RecordId>, cfgs: seq<Config>, p: Progress, rows: Records, success: bool, reference: int, envs: seq<Env>,
    i: nat)
    requires i <= |ids| == |cfgs| == |p.ep.alerts| == |envs|
    ensures Loop(ids, cfgs, p.(rows := rows), success, reference, envs, i).ep ==
            Loop(ids, cfgs, p, success, reference, envs, i).ep
    decreases |cfgs| - i
  {
    if i < |cfgs| {
      var o := Turn(cfgs[i], p.ep.alerts[i], success, Count(p.ep, success), reference, envs[i]);
      var q := Commit(ids, cfgs, p, i, o, envs[i]);
      var q' := Commit(ids, cfgs, p.(rows := rows), i, o, envs[i]);
      assert q' == q.(rows := q'.rows);
      LoopIgnoresRows(ids, cfgs, q, q'.rows, success, reference, envs, i + 1);
    }
  }

  lemma HandledAlike(key: string, w: World, w': World, h: Handled)
    requires Consistent(key, w) && SameEndpoint(key, w, w') && |h.envs| == |w.cfgs|
    ensures SameEndpoint(key, After(w, h), After(w', h))
  {
    var start := Progress(Counted(w.ep, h.success), w.rows, []);
    LoopIgnoresRows(w.ids, w.cfgs, start, w'.rows, h.success, w.ep.lastReminderSent, h.envs, 0);
    forall id: RecordId | id.endpointKey == key ensures SameRow(After(w, h).rows, After(w', h).rows, id) {
      HandledRowAlike(key, w, w', h, id);
    }
  }

  lemma WrittenAlike(rows: Records, rows': Records, id: RecordId, o: Outcome, successes: int, e: Env)
    requires SameRow(rows, rows', id)
    ensures SameRow(Written(rows, id, o, successes, e), Written(rows', id, o, successes, e), id)
  {
  }

  lemma SameRowTrans(rows: Records, rows': Records, rows'': Records, id: RecordId)
    requires SameRow(rows, rows', id) && SameRow(rows', rows'', id)
    ensures SameRow(rows, rows'', id) && SameRow(rows'', rows, id)
  {
  }

  lemma OwnRowAlike(w: World, w': World, h: Handled, j: nat)
    requires w.Shaped() && Distinct(w.ids) && |h.envs| == |w.cfgs| && j < |w.ids|
    requires w.ids == w'.ids && w.cfgs == w'.cfgs && w.ep == w'.ep && SameRow(w.rows, w'.rows, w.ids[j])
    ensures SameRow(After(w, h).rows, After(w', h).rows, w.ids[j])
  {
    var o, id, e := Alone(w.cfgs[j], w.ep, w.ep.alerts[j], h.success, h.envs[j]), w.ids[j], h.envs[j];
    var n := SuccessesAfter(w.ep, h.success);
    HandleWritesRow(w.ids, w.cfgs, w.ep, w.rows, h.success, h.envs, j);
    HandleWritesRow(w.ids, w.cfgs, w.ep, w'.rows, h.success, h.envs, j);
    WrittenAlike(w.rows, w'.rows, id, o, n, e);
    SameRowTrans(Written(w.rows, id, o, n, e), Written(w'.rows, id, o, n, e), After(w', h).rows, id);
    SameRowTrans(After(w', h).rows, Written(w.rows, id, o, n, e), After(w, h).rows, id);
  }

  lemma HandledRowAlike(key: string, w: World, w': World, h: Handled, id: RecordId)
    requires Consistent(key, w) && SameEndpoint(key, w, w') && |h.envs| == |w.cfgs| && id.endpointKey == key
    ensures SameRow(After(w, h).rows, After(w', h).rows, id)
  {
    assert SameRow(w.rows, w'.rows, id);
    if id in w.ids {
      var j :| 0 <= j < |w.ids| && w.ids[j] == id;
      OwnRowAlike(w, w', h, j);
    } else {
      HandleLeavesRow(w.ids, w.cfgs, w.ep, w.rows, h.success, h.envs, id);
      HandleLeavesRow(w.ids, w.cfgs, w.ep, w'.rows, h.success, h.envs, id);
    }
  }

  lemma {:induction false} LoadAlike(
    ids: seq<RecordId>, cfgs: seq<Config>, ep: EndpointState, rows: Records, rows': Records, readable: seq<bool>,
    i: nat)
    requires i <= |ids| == |cfgs| == |ep.alerts| == |readable|
    requires forall j | 0 <= j < |ids| :: SameRow(rows, rows', ids[j])
    ensures Load(ids, cfgs, ep, rows, readable, i) == Load(ids, cfgs, ep, rows', readable, i)
    decreases |ids| - i
  {
    if i < |ids| {
      assert SameRow(rows, rows', ids[i]);
      if readable[i] && ids[i] in rows {
        var row := rows[ids[i]];
        LoadAlike(ids, cfgs, ep.(alerts := ep.alerts[i := AlertState(true, row.resolveKey)],
                                 successes := row.successes, failures := cfgs[i].failureThreshold),
                  rows, rows', readable, i + 1);
      } else {
        LoadAlike(ids, cfgs, ep, rows, rows', readable, i + 1);
      }
    }
  }

  lemma RestartedAlike(key: string, w: World, w': World, cfgs: seq<Config>, answers: StoreAnswers)
    requires SameEndpoint(key, w, w') && |answers.readable| == |cfgs|
    ensures SameEndpoint(key, Restart(key, cfgs, w.rows, answers), Restart(key, cfgs, w'.rows, answers))
  {
    var kept, kept' := PrunedRows(key, cfgs, w.rows, answers), PrunedRows(key, cfgs, w'.rows, answers);
    forall id: RecordId | id.endpointKey == key ensures SameRow(kept, kept', id) {
      assert SameRow(w.rows, w'.rows, id);
    }
    LoadAlike(Ids(key, cfgs), cfgs, Unloaded(|cfgs|), kept, kept', answers.readable, 0);
  }

  lemma HappensAlike(key: string, w: World, w': World, e: Event)
    requires Consistent(key, w) && SameEndpoint(key, w, w') && Admissible(key, w, e)
    ensures Admissible(key, w', e) && SameEndpoint(key, Happens(key, w, e), Happens(key, w', e))
  {
    match e
    case Result(h) => HandledAlike(key, w, w', h);
    case Restarted(cfgs, answers) => RestartedAlike(key, w, w', cfgs, answers);
  }

  /** What happens to an endpoint leaves the rows of all others alone. */
  lemma HappensElsewhere(key: string, w: World, e: Event, id: RecordId)
    requires Consistent(key, w) && Admissible(key, w, e) && id.endpointKey != key
    ensures SameRow(w.rows, Happens(key, w, e).rows, id)
  {
    match e
    case Result(h) => HandleLeavesRow(w.ids, w.cfgs, w.ep, w.rows, h.success, h.envs, id);
    case Restarted(cfgs, answers) => RestartLeavesOtherRows(key, cfgs, w.rows, answers, id);
  }

  // ---------- independence ----------

  /**
   In every program, whatever happens in whichever order, an endpoint has the counters, alerts and rows that what
   happened to itself alone would have given it.
   */
  lemma {:induction false} EndpointsAreIndependent(key: string, events: seq<(string, Event)>)
    requires ProgramAfter(events).Some?
    ensures Lifetime(key, EventsOf(key, events)).Some?
    ensures SameEndpoint(key, Lifetime(key, EventsOf(key, events)).value, Seen(ProgramAfter(events).value, key))
    decreases |events|
  {
    if events != [] {
      var front := events[..|events| - 1];
      var (k, e) := events[|events| - 1];
      var before := ProgramAfter(front).value;
      EndpointsAreIndependent(key, front);
      var own := Lifetime(key, EventsOf(key, front)).value;
      RowsAndFlagsAlwaysAgree(key, EventsOf(key, front));
      if k == key {
        SameEndpointBack(key, own, Seen(before, key), e);
        HappensAlike(key, own, Seen(before, key), e);
        Reach(key, EventsOf(key, front), own, e);
      } else {
        EndpointsAreIndependent(k, front);
        OthersAreUntouchedBy(key, k, front, e);
        assert EventsOf(key, events) == EventsOf(key, front);
      }
    }
  }

  /** Being admissible does not depend on rows at all. */
  lemma SameEndpointBack(key: string, w: World, w': World, e: Event)
    requires SameEndpoint(key, w, w') && Admissible(key, w', e)
    ensures Admissible(key, w, e)
  {
  }

  lemma OthersAreUntouchedBy(key: string, other: string, events: seq<(string, Event)>, e: Event)
    requires key != other && ProgramAfter(events).Some?
    requires Lifetime(other, EventsOf(other, events)).Some?
    requires SameEndpoint(other, Lifetime(other, EventsOf(other, events)).value,
             Seen(ProgramAfter(events).value, other))
    requires Admissible(other, Seen(ProgramAfter(events).value, other), e)
    ensures ProgramAfter(events + [(other, e)]).Some?
    ensures SameEndpoint(key, Seen(ProgramAfter(events).value, key),
            Seen(ProgramAfter(events + [(other, e)]).value, key))
  {
    var before := ProgramAfter(events).value;
    assert (events + [(other, e)])[..|events|] == events;
    RowsAndFlagsAlwaysAgree(other, EventsOf(other, events));
    SameEndpointIsConsistent(other, Lifetime(other, EventsOf(other, events)).value, Seen(before, other));
    forall id: RecordId | id.endpointKey == key
      ensures SameRow(before.rows, Happens(other, Seen(before, other), e).rows, id)
    {
      HappensElsewhere(other, Seen(before, other), e, id);
    }
  }

  /** In every program, what happens to one endpoint changes neither counters nor alerts nor rows of another. */
  lemma OthersAreUntouched(key: string, other: string, events: seq<(string, Event)>, e: Event)
    requires key != other && ProgramAfter(events + [(other, e)]).Some?
    ensures ProgramAfter(events).Some?
    ensures SameEndpoint(key, Seen(ProgramAfter(events).value, key),
            Seen(ProgramAfter(events + [(other, e)]).value, key))
  {
    assert (events + [(other, e)])[..|events|] == events;
    EndpointsAreIndependent(other, events);
    OthersAreUntouchedBy(key, other, events, e);
  }
}
