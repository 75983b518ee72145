/**
 Running a suite: its endpoints in order, skipping after a failure all that are not marked always-run
 (`config/suite/suite.go`, `config/suite/result.go`), and handing the results to alerting (`watchdog/suite.go`).

 What evaluating an endpoint would yield, and whether the suite's timer has fired when it is looked at, are given for
 every endpoint; nothing is assumed about them, so they may depend on the context in any way.
 */
module Suite {
  import opened Wrappers
  import opened ContextTree
  import opened GoMemory
  import G = Gontext
  import opened SuiteStore

  datatype Endpoint = Endpoint(name: string, alwaysRun: bool, store: Option<map<string, string>>)

  /** An evaluation: its success, and the placeholders that can be resolved from it. */
  datatype Evaluation = Evaluation(success: bool, placeholders: map<string, int>)

  datatype EndpointResult = EndpointResult(name: string, success: bool, storeFailed: bool)

  // ---------- which endpoints run ----------

  /** An endpoint before position i ran and failed. */
  predicate FailedBefore(eps: seq<Endpoint>, evs: seq<Evaluation>, i: nat)
    requires i <= |eps| == |evs|
    decreases i, 0
  {
    i > 0 && (FailedBefore(eps, evs, i - 1) || (Runs(eps, evs, i - 1) && !evs[i - 1].success))
  }

  predicate Runs(eps: seq<Endpoint>, evs: seq<Evaluation>, i: nat)
    requires i < |eps| == |evs|
    decreases i, 1
  {
    eps[i].alwaysRun || !FailedBefore(eps, evs, i)
  }

  /** An endpoint is skipped exactly when it is not always-run and some endpoint before it ran and failed. */
  lemma {:induction false} FailedBeforeMeans(eps: seq<Endpoint>, evs: seq<Evaluation>, i: nat)
    requires i <= |eps| == |evs|
    ensures FailedBefore(eps, evs, i) <==> exists j: nat :: j < i && Runs(eps, evs, j) && !evs[j].success
  {
    if i > 0 {
      FailedBeforeMeans(eps, evs, i - 1);
    }
  }

  // ---------- results ----------

  function StoreFails(ep: Endpoint, ev: Evaluation): bool {
    ep.store.Some? && exists k :: k in ep.store.value && ep.store.value[k] !in ev.placeholders
  }

  /** The result of an executed endpoint; failing to store values is reported in it but does not fail it. */
  function ResultOf(ep: Endpoint, ev: Evaluation): EndpointResult {
    EndpointResult(ep.name, ev.success, StoreFails(ep, ev))
  }

  /** The positions of the first n endpoints that run. */
  function Executed(eps: seq<Endpoint>, evs: seq<Evaluation>, n: nat): (r: seq<nat>)
    requires n <= |eps| == |evs|
    ensures |r| <= n
    ensures forall m | 0 <= m < |r| :: r[m] < n && Runs(eps, evs, r[m])
    ensures forall i | 0 <= i < n && Runs(eps, evs, i) :: i in r
    ensures forall m, l | 0 <= m < l < |r| :: r[m] < r[l]
  {
    if n == 0 then [] else Executed(eps, evs, n - 1) + if Runs(eps, evs, n - 1) then [n - 1] else []
  }

  function Results(eps: seq<Endpoint>, evs: seq<Evaluation>, n: nat): (rs: seq<EndpointResult>)
    requires n <= |eps| == |evs|
    ensures var r := Executed(eps, evs, n);
            |rs| == |r| && forall m | 0 <= m < |r| :: rs[m] == ResultOf(eps[r[m]], evs[r[m]])
  {
    if n == 0 then []
    else Results(eps, evs, n - 1) + if Runs(eps, evs, n - 1) then [ResultOf(eps[n - 1], evs[n - 1])] else []
  }

  /** Each result is that of an endpoint that ran, and tells whether one of the values to be stored was not there. */
  lemma ResultIs(eps: seq<Endpoint>, evs: seq<Evaluation>, n: nat, m: nat) returns (i: nat)
    requires n <= |eps| == |evs| && m < |Results(eps, evs, n)|
    ensures i == Executed(eps, evs, n)[m] && i < n && Runs(eps, evs, i)
    ensures var r := Results(eps, evs, n)[m];
            && r.name == eps[i].name && r.success == evs[i].success
            && (r.storeFailed <==>
                  eps[i].store.Some? && !(eps[i].store.value.Values <= evs[i].placeholders.Keys))
  {
    i := Executed(eps, evs, n)[m];
    if eps[i].store.Some? {
      var mappings := eps[i].store.value;
      assert mappings.Values == set k | k in mappings :: mappings[k];
    }
  }

  /** The timer is looked at once for every endpoint that runs. */
  ghost predicate TimedOut(eps: seq<Endpoint>, evs: seq<Evaluation>, fired: seq<bool>, n: nat)
    requires n <= |eps| == |evs| == |fired|
  {
    exists i :: 0 <= i < n && Runs(eps, evs, i) && fired[i]
  }

  /** The order in which the values of an endpoint were stored. */
  ghost predicate OrderFor(ep: Endpoint, order: seq<string>) {
    ep.store.Some? ==> Enumerates(order, ep.store.value.Keys)
  }

  /** The context after the first n endpoints: values are stored for every endpoint that runs, even when it fails. */
  ghost function ContextAfter(t: Tree, eps: seq<Endpoint>, evs: seq<Evaluation>, orders: seq<seq<string>>, n: nat): Tree
    requires n <= |eps| == |evs| && n <= |orders| && forall i | 0 <= i < n :: OrderFor(eps[i], orders[i])
  {
    if n == 0 then t
    else
      var before := ContextAfter(t, eps, evs, orders, n - 1);
      if Runs(eps, evs, n - 1) then AfterEndpoint(before, eps[n - 1], evs[n - 1], orders[n - 1]) else before
  }

  ghost function AfterEndpoint(t: Tree, ep: Endpoint, ev: Evaluation, order: seq<string>): Tree
    requires OrderFor(ep, order)
  {
    if ep.store.Some? then StoreAll(t, order, Resolved(ep.store.value, ev.placeholders)) else t
  }

  // ---------- what is found in the context ----------

  /** Endpoint i runs and stores a value under k, which nothing else that it stores touches. */
  ghost predicate StoresAt(eps: seq<Endpoint>, evs: seq<Evaluation>, i: nat, k: string)
    requires i < |eps| == |evs|
  {
    Runs(eps, evs, i) && eps[i].store.Some? && ResolvesAlone(eps[i].store.value, evs[i].placeholders, k)
  }

  /** Endpoint i runs and stores something at the path, above it, or below it. */
  ghost predicate Touches(eps: seq<Endpoint>, evs: seq<Evaluation>, i: nat, q: seq<string>)
    requires i < |eps| == |evs|
  {
    Runs(eps, evs, i) && eps[i].store.Some? && !LeavesAlone(eps[i].store.value, evs[i].placeholders, q)
  }

  /** No endpoint from position i on, of the first n, touches the path. */
  ghost predicate Untouched(eps: seq<Endpoint>, evs: seq<Evaluation>, i: nat, n: nat, q: seq<string>)
    requires n <= |eps| == |evs|
  {
    forall j | i <= j < n :: !Touches(eps, evs, j, q)
  }

  lemma {:induction false} UntouchedStaysAsItWas(
    t: Tree, eps: seq<Endpoint>, evs: seq<Evaluation>, orders: seq<seq<string>>, i: nat, n: nat, q: seq<string>)
    requires i <= n <= |eps| == |evs| && n <= |orders| && forall j | 0 <= j < n :: OrderFor(eps[j], orders[j])
    requires Untouched(eps, evs, i, n, q)
    ensures Lookup(ContextAfter(t, eps, evs, orders, n), q) == Lookup(ContextAfter(t, eps, evs, orders, i), q)
    decreases n
  {
    if i < n {
      UntouchedStaysAsItWas(t, eps, evs, orders, i, n - 1, q);
      assert !Touches(eps, evs, n - 1, q);
      if Runs(eps, evs, n - 1) && eps[n - 1].store.Some? {
        var before := ContextAfter(t, eps, evs, orders, n - 1);
        WhatIsFound(before, orders[n - 1], eps[n - 1].store.value, evs[n - 1].placeholders, "", q);
      }
    }
  }

  /** The last endpoint that stores something there decides what is found under a key, even if it failed. */
  lemma LastStoreDecides(
    t: Tree, eps: seq<Endpoint>, evs: seq<Evaluation>, orders: seq<seq<string>>, n: nat, i: nat, k: string)
    requires i < n <= |eps| == |evs| && n <= |orders| && forall j | 0 <= j < n :: OrderFor(eps[j], orders[j])
    requires StoresAt(eps, evs, i, k) && Untouched(eps, evs, i + 1, n, SplitDots(k))
    ensures Lookup(ContextAfter(t, eps, evs, orders, n), SplitDots(k)) ==
            Some(Scalar(evs[i].placeholders[eps[i].store.value[k]]))
  {
    UntouchedStaysAsItWas(t, eps, evs, orders, i + 1, n, SplitDots(k));
    WhatIsFound(ContextAfter(t, eps, evs, orders, i), orders[i], eps[i].store.value, evs[i].placeholders, k, []);
  }

  /** What can be looked up after a suite: the values stored last, and where none was stored, what was there before. */
  ghost predicate Remembers(t: Tree, eps: seq<Endpoint>, evs: seq<Evaluation>, after: Tree)
    requires |eps| == |evs|
  {
    && (forall i: nat, k: string |
          i < |eps| && StoresAt(eps, evs, i, k) && Untouched(eps, evs, i + 1, |eps|, SplitDots(k)) ::
          Lookup(after, SplitDots(k)) == Some(Scalar(evs[i].placeholders[eps[i].store.value[k]])))
    && (forall q: seq<string> | Untouched(eps, evs, 0, |eps|, q) :: Lookup(after, q) == Lookup(t, q))
  }

  lemma ContextRemembers(t: Tree, eps: seq<Endpoint>, evs: seq<Evaluation>, orders: seq<seq<string>>)
    requires |eps| == |evs| == |orders| && forall j | 0 <= j < |eps| :: OrderFor(eps[j], orders[j])
    ensures Remembers(t, eps, evs, ContextAfter(t, eps, evs, orders, |eps|))
  {
    var after := ContextAfter(t, eps, evs, orders, |eps|);
    forall i: nat, k: string |
      i < |eps| && StoresAt(eps, evs, i, k) && Untouched(eps, evs, i + 1, |eps|, SplitDots(k))
      ensures Lookup(after, SplitDots(k)) == Some(Scalar(evs[i].placeholders[eps[i].store.value[k]]))
    {
      LastStoreDecides(t, eps, evs, orders, |eps|, i, k);
    }
    forall q: seq<string> | Untouched(eps, evs, 0, |eps|, q) ensures Lookup(after, q) == Lookup(t, q) {
      UntouchedStaysAsItWas(t, eps, evs, orders, 0, |eps|, q);
    }
  }

  class SuiteResult {
    var Success: bool
    var EndpointResults: seq<EndpointResult>
    var Errors: seq<string>
    var Context: nat

    constructor ()
      ensures Success && EndpointResults == [] && Errors == []
    {
      Success, EndpointResults, Errors, Context := true, [], [], 0;
    }

    method AddError(err: string)
      modifies this`Errors
      ensures Errors == old(Errors) + [err]
    {
      Errors := Errors + [err];
    }

    /** A suite succeeds when every executed endpoint did and no error was recorded. */
    method CalculateSuccess()
      modifies this`Success
      ensures Success <==> Errors == [] && forall r <- EndpointResults :: r.success
    {
      Success := true;
      var i := 0;
      while i < |EndpointResults|
        invariant 0 <= i <= |EndpointResults| && Success
        invariant forall m | 0 <= m < i :: EndpointResults[m].success
      {
        if !EndpointResults[i].success {
          Success := false;
          break;
        }
        i := i + 1;
      }
      if |Errors| > 0 {
        Success := false;
      }
    }
  }

  const TIMED_OUT := "suite execution timed out"

  // ---------- execution ----------

  /** An order of the keys of a map: one that is not looked at stands for an endpoint that stored nothing. */
  lemma SomeOrder(all: set<string>) returns (order: seq<string>)
    ensures Enumerates(order, all)
  {
    if all == {} {
      order := [];
    } else {
      var k :| k in all;
      var rest := SomeOrder(all - {k});
      OneMoreKey(rest, all - {k}, k);
      order := rest + [k];
      assert all - {k} + {k} == all;
    }
  }

  lemma SomeOrderFor(ep: Endpoint) returns (order: seq<string>)
    ensures OrderFor(ep, order)
  {
    order := [];
    if ep.store.Some? {
      order := SomeOrder(ep.store.value.Keys);
    }
  }

  /** The context holds the tree in cells that are newer than the given ones, all of which are as they were. */
  ghost predicate Separate(ctx: G.Gontext, t: Tree, before: Heap, next: nat)
    reads ctx, ctx.memory
  {
    && ctx.Valid() && ctx.tree == t && ctx.memory.next >= next
    && G.Grown(before, ctx.memory.cells) && (forall a | a in before :: a < next)
    && (forall a | a in ctx.Own() :: a >= next)
  }

  /** Storing the values of one result. */
  method StoreFor(ctx: G.Gontext, ep: Endpoint, ev: Evaluation, ghost t: Tree, ghost before: Heap, ghost next: nat)
    returns (storeFailed: bool, ghost order: seq<string>)
    requires Separate(ctx, t, before, next)
    modifies ctx.memory, ctx`tree
    ensures storeFailed == StoreFails(ep, ev) && OrderFor(ep, order)
    ensures Separate(ctx, AfterEndpoint(t, ep, ev, order), before, next)
  {
    storeFailed, order := false, [];
    if ep.store.Some? {
      var stored, failed;
      stored, failed, order := StoreResultValues(ctx, ep.store.value, ev.placeholders);
      storeFailed := failed;
      assert storeFailed == StoreFails(ep, ev) by {
        if k :| k in ep.store.value && ep.store.value[k] !in ev.placeholders {
          assert k in stored && stored[k] == Failed;
        }
      }
    }
  }

  /** The loop of Execute has dealt with the first i endpoints. */
  ghost predicate Reached(
    result: SuiteResult, eps: seq<Endpoint>, evs: seq<Evaluation>, fired: seq<bool>, i: nat, hasFailed: bool,
    received: bool)
    requires i <= |eps| == |evs| == |fired|
    reads result
  {
    && result.EndpointResults == Results(eps, evs, i) && hasFailed == FailedBefore(eps, evs, i)
    && received == TimedOut(eps, evs, fired, i) && result.Errors == if received then [TIMED_OUT] else []
  }

  lemma ReachedOneMore(eps: seq<Endpoint>, evs: seq<Evaluation>, fired: seq<bool>, i: nat)
    requires i < |eps| == |evs| == |fired|
    ensures TimedOut(eps, evs, fired, i + 1) <==> TimedOut(eps, evs, fired, i) || (Runs(eps, evs, i) && fired[i])
    ensures Results(eps, evs, i + 1) ==
            Results(eps, evs, i) + if Runs(eps, evs, i) then [ResultOf(eps[i], evs[i])] else []
  {
  }

  /** Record the result of an endpoint that ran, and before it the error of a timer that had fired. */
  method Record(result: SuiteResult, firedNow: bool, received: bool, r: EndpointResult) returns (received': bool)
    modifies result
    ensures received' == (received || firedNow)
    ensures result.Errors == old(result.Errors) + if firedNow && !received then [TIMED_OUT] else []
    ensures result.EndpointResults == old(result.EndpointResults) + [r]
  {
    received' := received;
    if firedNow && !received {
      received' := true;
      result.AddError(TIMED_OUT);
      result.Success := false;
    }
    result.EndpointResults := result.EndpointResults + [r];
    if !r.success {
      result.Success := false;
    }
  }

  /** The part of a turn of Execute's loop that concerns the suite's result. */
  method RecordTurn(
    result: SuiteResult, eps: seq<Endpoint>, evs: seq<Evaluation>, fired: seq<bool>, i: nat, runs: bool,
    r: EndpointResult, hasFailed: bool, received: bool)
    returns (hasFailed': bool, received': bool)
    requires i < |eps| == |evs| == |fired| && Reached(result, eps, evs, fired, i, hasFailed, received)
    requires runs == Runs(eps, evs, i) && (runs ==> r == ResultOf(eps[i], evs[i]))
    modifies result
    ensures Reached(result, eps, evs, fired, i + 1, hasFailed', received')
  {
    ReachedOneMore(eps, evs, fired, i);
    hasFailed', received' := hasFailed, received;
    if runs {
      received' := Record(result, fired[i], received, r);
      hasFailed' := hasFailed || !r.success;
    }
  }

  /** The endpoints have been dealt with, and the context holds what they stored. */
  ghost predicate Stored(
    ctx: G.Gontext, t: Tree, eps: seq<Endpoint>, evs: seq<Evaluation>, orders: seq<seq<string>>, i: nat, before: Heap,
    next: nat)
    requires i <= |eps| == |evs|
    reads ctx, ctx.memory
  {
    && |orders| == i && (forall k | 0 <= k < i :: OrderFor(eps[k], orders[k]))
    && Separate(ctx, ContextAfter(t, eps, evs, orders, i), before, next)
  }

  /** Evaluate endpoint i, if it runs, and store its values. */
  method Evaluate(ctx: G.Gontext, runs: bool, eps: seq<Endpoint>, evs: seq<Evaluation>, i: nat,
                  ghost t: Tree, ghost orders: seq<seq<string>>, ghost before: Heap, ghost next: nat)
    returns (r: EndpointResult, ghost orders': seq<seq<string>>)
    requires i < |eps| == |evs| && runs == Runs(eps, evs, i) && Stored(ctx, t, eps, evs, orders, i, before, next)
    modifies ctx.memory, ctx`tree
    ensures runs ==> r == ResultOf(eps[i], evs[i])
    ensures Stored(ctx, t, eps, evs, orders', i + 1, before, next)
  {
    ghost var order := SomeOrderFor(eps[i]);
    var storeFailed := false;
    if runs {
      storeFailed, order := StoreFor(ctx, eps[i], evs[i], ContextAfter(t, eps, evs, orders, i), before, next);
    }
    r := EndpointResult(eps[i].name, evs[i].success, storeFailed);
    orders' := orders + [order];
    assert orders'[..i] == orders;
    OrdersExtend(t, eps, evs, orders', i);
  }

  /** One turn of the loop of Execute. */
  method ExecuteOne(
    result: SuiteResult, eps: seq<Endpoint>, evs: seq<Evaluation>, fired: seq<bool>, ctx: G.Gontext, i: nat,
    hasFailed: bool, received: bool,
    ghost t: Tree, ghost orders: seq<seq<string>>, ghost before: Heap, ghost next: nat)
    returns (hasFailed': bool, received': bool, ghost orders': seq<seq<string>>)
    requires i < |eps| == |evs| == |fired| && Reached(result, eps, evs, fired, i, hasFailed, received)
    requires Stored(ctx, t, eps, evs, orders, i, before, next)
    modifies result, ctx.memory, ctx`tree
    ensures Reached(result, eps, evs, fired, i + 1, hasFailed', received')
    ensures Stored(ctx, t, eps, evs, orders', i + 1, before, next)
  {
    var runs := !(hasFailed && !eps[i].alwaysRun);
    assert runs == Runs(eps, evs, i);
    var r;
    r, orders' := Evaluate(ctx, runs, eps, evs, i, t, orders, before, next);
    assert Reached(result, eps, evs, fired, i, hasFailed, received);
    hasFailed', received' := RecordTurn(result, eps, evs, fired, i, runs, r, hasFailed, received);
  }

  /** The loop of Execute. */
  method ExecuteAll(result: SuiteResult, eps: seq<Endpoint>, evs: seq<Evaluation>, fired: seq<bool>, ctx: G.Gontext,
                    ghost t: Tree, ghost before: Heap, ghost next: nat)
    returns (ghost orders: seq<seq<string>>)
    requires |eps| == |evs| == |fired| && result.EndpointResults == [] && result.Errors == []
             && Separate(ctx, t, before, next)
    modifies result, ctx.memory, ctx`tree
    ensures result.EndpointResults == Results(eps, evs, |eps|)
    ensures result.Errors == if TimedOut(eps, evs, fired, |eps|) then [TIMED_OUT] else []
    ensures Stored(ctx, t, eps, evs, orders, |eps|, before, next)
  {
    orders := [];
    var suiteHasFailed, received := false, false;
    for i := 0 to |eps|
      invariant Stored(ctx, t, eps, evs, orders, i, before, next)
      invariant Reached(result, eps, evs, fired, i, suiteHasFailed, received)
    {
      suiteHasFailed, received, orders :=
        ExecuteOne(result, eps, evs, fired, ctx, i, suiteHasFailed, received, t, orders, before, next);
    }
  }

  method CopyContext(ctx: G.Gontext, result: SuiteResult, ghost t: Tree, ghost before: Heap, ghost next: nat)
    requires Separate(ctx, t, before, next)
    modifies ctx.memory, result`Context
    ensures Owns(ctx.memory.cells, Ref(result.Context), t) && G.Grown(before, ctx.memory.cells)
  {
    var all := ctx.GetAll();
    result.Context := all;
  }

  method Conclude(result: SuiteResult, eps: seq<Endpoint>, evs: seq<Evaluation>, fired: seq<bool>)
    requires |eps| == |evs| == |fired| && result.EndpointResults == Results(eps, evs, |eps|)
    requires result.Errors == if TimedOut(eps, evs, fired, |eps|) then [TIMED_OUT] else []
    modifies result`Success
    ensures result.Success <==>
            !TimedOut(eps, evs, fired, |eps|) && forall i | 0 <= i < |eps| && Runs(eps, evs, i) :: evs[i].success
  {
    result.CalculateSuccess();
    SuccessMeans(eps, evs, |eps|);
  }

  /**
   Execute: the results are exactly those of the endpoints that run, in order; the suite succeeds if and only if all of
   these succeeded and the timer had not fired when one of them was about to start; at most one error is recorded, for
   the timer can be received only once, and the suite goes on after it. The context is copied into the result.
   */
  method Execute(
    eps: seq<Endpoint>, evs: seq<Evaluation>, fired: seq<bool>, m: G.Memory, initial: Option<nat>, ghost t: Tree)
    returns (result: SuiteResult, ghost orders: seq<seq<string>>)
    requires |eps| == |evs| == |fired| && m.Valid() && t.Node?
    requires if initial.Some? then Reads(m.cells, Ref(initial.value), t) else t == EMPTY
    modifies m
    ensures fresh(result) && result.EndpointResults == Results(eps, evs, |eps|)
    ensures result.Success <==> forall i | 0 <= i < |eps| && Runs(eps, evs, i) :: evs[i].success && !fired[i]
    ensures result.Errors == if exists i :: 0 <= i < |eps| && Runs(eps, evs, i) && fired[i] then [TIMED_OUT] else []
    ensures |orders| == |eps| && forall i | 0 <= i < |eps| :: OrderFor(eps[i], orders[i])
    ensures var after := ContextAfter(t, eps, evs, orders, |eps|);
            Owns(m.cells, Ref(result.Context), after) && Remembers(t, eps, evs, after)
    ensures G.Grown(old(m.cells), m.cells)
  {
    ghost var before, next := m.cells, m.next;
    var ctx := G.New(m, initial, t);
    assert Separate(ctx, t, before, next);
    result := new SuiteResult();
    orders := ExecuteAll(result, eps, evs, fired, ctx, t, before, next);
    CopyContext(ctx, result, ContextAfter(t, eps, evs, orders, |eps|), before, next);
    Conclude(result, eps, evs, fired);
    ContextRemembers(t, eps, evs, orders);
  }

  lemma {:induction false} OrdersExtend(
    t: Tree, eps: seq<Endpoint>, evs: seq<Evaluation>, orders: seq<seq<string>>, n: nat)
    requires n <= |eps| == |evs| && n <= |orders| && forall i | 0 <= i < n :: OrderFor(eps[i], orders[i])
    ensures ContextAfter(t, eps, evs, orders, n) == ContextAfter(t, eps, evs, orders[..n], n)
    decreases n
  {
    if n > 0 {
      OrdersExtend(t, eps, evs, orders, n - 1);
      OrdersExtend(t, eps, evs, orders[..n], n - 1);
      assert orders[..n][..n - 1] == orders[..n - 1];
    }
  }

  lemma SuccessMeans(eps: seq<Endpoint>, evs: seq<Evaluation>, n: nat)
    requires n <= |eps| == |evs|
    ensures (forall r <- Results(eps, evs, n) :: r.success) <==>
            forall i | 0 <= i < n && Runs(eps, evs, i) :: evs[i].success
  {
    var r, rs := Executed(eps, evs, n), Results(eps, evs, n);
    if forall x <- rs :: x.success {
      forall i | 0 <= i < n && Runs(eps, evs, i) ensures evs[i].success {
        var m :| 0 <= m < |r| && r[m] == i;
        assert rs[m] in rs;
      }
    }
  }

  // ---------- pairing results with endpoints ----------

  ghost predicate DistinctNames(eps: seq<Endpoint>) {
    forall i, j | 0 <= i < j < |eps| :: eps[i].name != eps[j].name
  }

  /** Result i is taken for the result of endpoint i, for as many results as there are. */
  ghost predicate PairedRight(eps: seq<Endpoint>, rs: seq<EndpointResult>)
    requires |rs| <= |eps|
  {
    forall i | 0 <= i < |rs| :: rs[i].name == eps[i].name
  }

  /** No endpoint that is skipped comes before one that runs. */
  ghost predicate NoGap(eps: seq<Endpoint>, evs: seq<Evaluation>)
    requires |eps| == |evs|
  {
    forall i, j | 0 <= i < j < |eps| && Runs(eps, evs, j) :: Runs(eps, evs, i)
  }

  lemma {:induction false} AscendingIsAhead(r: seq<nat>, m: nat)
    requires m < |r| && forall k, l | 0 <= k < l < |r| :: r[k] < r[l]
    ensures r[m] >= m
    decreases m
  {
    if m > 0 {
      AscendingIsAhead(r, m - 1);
    }
  }

  /**
   Alerting sees every executed endpoint with its own result exactly when no skipped endpoint precedes an executed
   one.
   */
  lemma PairedRightIff(eps: seq<Endpoint>, evs: seq<Evaluation>)
    requires |eps| == |evs| && DistinctNames(eps)
    ensures PairedRight(eps, Results(eps, evs, |eps|)) <==> NoGap(eps, evs)
  {
    var r, rs := Executed(eps, evs, |eps|), Results(eps, evs, |eps|);
    if NoGap(eps, evs) {
      forall i | 0 <= i < |rs| ensures r[i] == i {
        NoGapNoShift(eps, evs, i);
      }
    }
    if PairedRight(eps, rs) {
      forall i, j | 0 <= i < j < |eps| && Runs(eps, evs, j) ensures Runs(eps, evs, i) {
        assert j in r;
        var m :| 0 <= m < |r| && r[m] == j;
        assert rs[m].name == eps[m].name == eps[j].name;
        assert m == j;
        AscendingIsAhead(r, i);
        assert rs[i].name == eps[i].name == eps[r[i]].name;
        assert r[i] == i;
      }
    }
  }

  lemma {:induction false} NoGapNoShift(eps: seq<Endpoint>, evs: seq<Evaluation>, m: nat)
    requires |eps| == |evs| && NoGap(eps, evs) && m < |Executed(eps, evs, |eps|)|
    ensures Executed(eps, evs, |eps|)[m] == m
    decreases m
  {
    var r := Executed(eps, evs, |eps|);
    AscendingIsAhead(r, m);
    if r[m] > m {
      assert Runs(eps, evs, m) && m in r;
      var l :| 0 <= l < |r| && r[l] == m;
      assert l < m;
      NoGapNoShift(eps, evs, l);
    }
  }

  /**
   But for the first endpoint, which is never skipped, those that always run come before those that may be skipped.
   */
  ghost predicate AlwaysRunFirst(eps: seq<Endpoint>) {
    forall i, j | 1 <= i < j < |eps| && eps[j].alwaysRun :: eps[i].alwaysRun
  }

  /** The outcomes in which the first endpoint fails and all others succeed. */
  function FirstFails(n: nat): (evs: seq<Evaluation>)
    ensures |evs| == n && forall i | 0 <= i < n :: evs[i].success == (i != 0)
  {
    seq(n, i => Evaluation(i != 0, map[]))
  }

  lemma GapFromFailure(eps: seq<Endpoint>, evs: seq<Evaluation>, i: nat, j: nat)
    requires |eps| == |evs| && i < j < |eps| && Runs(eps, evs, j) && !Runs(eps, evs, i)
    ensures i >= 1 && !eps[i].alwaysRun && eps[j].alwaysRun
  {
    FailedBeforeMeans(eps, evs, i);
    FailedBeforeMeans(eps, evs, j);
  }

  /**
   A suite is handled correctly whatever its endpoints' outcomes exactly when, but for its first endpoint, no endpoint
   that may be skipped is configured before one that always runs.
   */
  lemma PairedRightForAllOutcomesIff(eps: seq<Endpoint>)
    requires DistinctNames(eps)
    ensures (forall evs: seq<Evaluation> | |evs| == |eps| :: PairedRight(eps, Results(eps, evs, |eps|))) <==>
            AlwaysRunFirst(eps)
  {
    if AlwaysRunFirst(eps) {
      forall evs: seq<Evaluation> | |evs| == |eps| ensures PairedRight(eps, Results(eps, evs, |eps|)) {
        forall i, j | 0 <= i < j < |eps| && Runs(eps, evs, j) ensures Runs(eps, evs, i) {
          if !Runs(eps, evs, i) {
            GapFromFailure(eps, evs, i, j);
          }
        }
        PairedRightIff(eps, evs);
      }
    } else {
      var i, j :| 1 <= i < j < |eps| && eps[j].alwaysRun && !eps[i].alwaysRun;
      var evs := FirstFails(|eps|);
      FailedBeforeMeans(eps, evs, i);
      assert Runs(eps, evs, 0) && !evs[0].success;
      assert !Runs(eps, evs, i) && Runs(eps, evs, j);
      PairedRightIff(eps, evs);
    }
  }

  /** A cleanup endpoint that always runs after a failure is taken for the skipped endpoint before it. */
  lemma CleanupIsMispaired(create: string, use: string, cleanup: string)
    requires create != use && use != cleanup && create != cleanup
    ensures var eps := [Endpoint(create, false, None), Endpoint(use, false, None), Endpoint(cleanup, true, None)];
            var evs := [Evaluation(false, map[]), Evaluation(true, map[]), Evaluation(true, map[])];
            var rs := Results(eps, evs, 3);
            && |rs| == 2 && rs[1].name == cleanup && eps[1].name == use && !PairedRight(eps, rs)
  {
    var eps := [Endpoint(create, false, None), Endpoint(use, false, None), Endpoint(cleanup, true, None)];
    var evs := [Evaluation(false, map[]), Evaluation(true, map[]), Evaluation(true, map[])];
    assert !FailedBefore(eps, evs, 0) && FailedBefore(eps, evs, 1) && FailedBefore(eps, evs, 2);
    assert Results(eps, evs, 1) == Results(eps, evs, 0) + [ResultOf(eps[0], evs[0])];
    assert Results(eps, evs, 2) == Results(eps, evs, 1);
    assert Results(eps, evs, 3) == Results(eps, evs, 2) + [ResultOf(eps[2], evs[2])];
    assert Results(eps, evs, 3)[1] == ResultOf(eps[2], evs[2]);
  }

  /**
   The alerting loop of executeSuite: the endpoint names and results it handles. Positions in maintenance are
   suppressed; all others that have a result are handled once each, in order.
   */
  method ResultsForAlerting(eps: seq<Endpoint>, rs: seq<EndpointResult>, suppressed: seq<bool>)
    returns (handled: seq<(string, EndpointResult)>, ghost at: seq<nat>)
    requires |suppressed| == |eps| && |rs| <= |eps|
    ensures |handled| == |at| && forall m | 0 <= m < |at| :: at[m] < |rs| && handled[m] == (eps[at[m]].name, rs[at[m]])
    ensures forall m, l | 0 <= m < l < |at| :: at[m] < at[l]
    ensures forall i | 0 <= i < |rs| :: i in at <==> !suppressed[i]
    ensures PairedRight(eps, rs) ==> forall h <- handled :: h.0 == h.1.name
  {
    handled, at := [], [];
    for i := 0 to |eps|
      invariant |handled| == |at|
      invariant forall m | 0 <= m < |at| :: at[m] < i && at[m] < |rs| && handled[m] == (eps[at[m]].name, rs[at[m]])
      invariant forall m, l | 0 <= m < l < |at| :: at[m] < at[l]
      invariant forall k | 0 <= k < |rs| :: k in at <==> k < i && !suppressed[k]
    {
      if i < |rs| && !suppressed[i] {
        handled, at := handled + [(eps[i].name, rs[i])], at + [i];
      }
    }
  }
}
