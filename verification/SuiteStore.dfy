/** Storing values of an endpoint's result in the suite context (`config/suite/suite.go`, StoreResultValues). */
module SuiteStore {
  import opened Wrappers
  import opened ContextTree
  import opened GoMemory
  import G = Gontext

  /** What is reported for one context key: the value stored, or that its placeholder could not be resolved. */
  datatype Stored = Kept(value: int) | Failed

  function StoreOne(t: Tree, k: string, s: Stored): Tree {
    if s.Kept? then Store(t, SplitDots(k), Scalar(s.value)) else t
  }

  /** Store the resolved values of the given context keys, one after the other. */
  function StoreAll(t: Tree, keys: seq<string>, values: map<string, Stored>): Tree
    requires forall k <- keys :: k in values
  {
    if keys == [] then t
    else StoreOne(StoreAll(t, keys[..|keys| - 1], values), keys[|keys| - 1], values[keys[|keys| - 1]])
  }

  /** What each context key is to receive, given the placeholders that can be resolved. */
  function Resolved(mappings: map<string, string>, placeholders: map<string, int>): map<string, Stored> {
    map k | k in mappings :: if mappings[k] in placeholders then Kept(placeholders[mappings[k]]) else Failed
  }

  ghost predicate Enumerates(keys: seq<string>, all: set<string>) {
    && (forall k <- keys :: k in all) && (forall k <- all :: k in keys)
    && (forall i, j | 0 <= i < j < |keys| :: keys[i] != keys[j])
  }

  /** Memory and context before the loop. */
  datatype Start = Start(cells: Heap, next: nat, own: set<nat>)

  /** The context holds the tree, has only its old cells and new ones, and no other old cell has changed. */
  ghost predicate Holds(ctx: G.Gontext, t: Tree, start: Start)
    reads ctx, ctx.memory
  {
    && ctx.Valid() && ctx.tree == t
    && ctx.memory.next >= start.next && (forall a | a in start.cells :: a < start.next)
    && SameAt(start.cells, ctx.memory.cells, start.cells.Keys - start.own)
    && (forall a | a in ctx.Own() :: a in start.own || a >= start.next)
  }

  /** One turn of the loop. */
  method StoreValue(
    ctx: G.Gontext, contextKey: string, placeholder: string, placeholders: map<string, int>, ghost t: Tree,
    ghost start: Start)
    returns (s: Stored)
    requires Holds(ctx, t, start)
    modifies ctx.memory, ctx`tree
    ensures s == if placeholder in placeholders then Kept(placeholders[placeholder]) else Failed
    ensures Holds(ctx, StoreOne(t, contextKey, s), start)
  {
    if placeholder in placeholders {
      var v := placeholders[placeholder];
      ctx.Set(contextKey, Atom(v), Scalar(v));
      s := Kept(v);
    } else {
      s := Failed;
    }
  }

  lemma OneMoreKey(keys: seq<string>, all: set<string>, k: string)
    requires Enumerates(keys, all) && k !in all
    ensures Enumerates(keys + [k], all + {k})
  {
    assert forall l <- keys + [k] :: l in keys || l == k;
    forall l <- all + {k} ensures l in keys + [k] {
      if l == k { assert (keys + [k])[|keys|] == k; }
    }
    forall i, j | 0 <= i < j < |keys + [k]| ensures (keys + [k])[i] != (keys + [k])[j] {
      assert keys[i] in keys;
    }
  }

  // ---------- what is found in the context ----------

  /**
   Storing these keys cannot change what is found at a path: none that is resolved is a prefix or an extension of it.
   */
  ghost predicate Beside(keys: seq<string>, values: map<string, Stored>, q: seq<string>)
    requires forall k <- keys :: k in values
  {
    forall k <- keys :: values[k].Kept? ==> !Comparable(SplitDots(k), q)
  }

  lemma {:induction false} BesideStaysAsItWas(t: Tree, keys: seq<string>, values: map<string, Stored>, q: seq<string>)
    requires (forall k <- keys :: k in values) && Beside(keys, values, q)
    ensures Lookup(StoreAll(t, keys, values), q) == Lookup(t, q)
    decreases |keys|
  {
    if keys != [] {
      var front, k := keys[..|keys| - 1], keys[|keys| - 1];
      assert k in keys && forall l <- front :: l in keys;
      BesideStaysAsItWas(t, front, values, q);
      if values[k].Kept? {
        LookupElsewhere(StoreAll(t, front, values), SplitDots(k), Scalar(values[k].value), q);
      }
    }
  }

  /** A stored value is found, unless a key stored after it is a prefix or an extension of its own. */
  lemma {:induction false} StoredIsFound(t: Tree, keys: seq<string>, values: map<string, Stored>, i: nat)
    requires forall k <- keys :: k in values
    requires i < |keys| && values[keys[i]].Kept? && Beside(keys[i + 1..], values, SplitDots(keys[i]))
    ensures Lookup(StoreAll(t, keys, values), SplitDots(keys[i])) == Some(Scalar(values[keys[i]].value))
    decreases |keys|
  {
    var front, k := keys[..|keys| - 1], keys[|keys| - 1];
    assert forall l <- front :: l in keys;
    if i == |keys| - 1 {
      var p := SplitDots(k);
      LookupStored(StoreAll(t, front, values), p, Scalar(values[k].value), []);
      assert p + [] == p;
    } else {
      var rest, later := front[i + 1..], keys[i + 1..];
      assert later == rest + [k];
      assert k in later && forall l <- rest :: l in later;
      StoredIsFound(t, front, values, i);
      if values[k].Kept? {
        LookupElsewhere(StoreAll(t, front, values), SplitDots(k), Scalar(values[k].value), SplitDots(keys[i]));
      }
    }
  }

  /** The key is mapped to a placeholder that can be resolved. */
  ghost predicate Resolves(mappings: map<string, string>, placeholders: map<string, int>, k: string) {
    k in mappings && mappings[k] in placeholders
  }

  /** The key is resolved, and no other resolved key of the mappings is a prefix or an extension of it. */
  ghost predicate ResolvesAlone(mappings: map<string, string>, placeholders: map<string, int>, k: string) {
    && Resolves(mappings, placeholders, k)
    && forall l | Resolves(mappings, placeholders, l) && l != k :: !Comparable(SplitDots(l), SplitDots(k))
  }

  /** No resolved key of the mappings is a prefix or an extension of the path. */
  ghost predicate LeavesAlone(mappings: map<string, string>, placeholders: map<string, int>, q: seq<string>) {
    forall k | Resolves(mappings, placeholders, k) :: !Comparable(SplitDots(k), q)
  }

  /**
   In whatever order the mappings were visited: every resolved key that stands alone is found with its value, and every
   path that no resolved key touches answers as before.
   */
  lemma WhatIsFound(
    t: Tree, order: seq<string>, mappings: map<string, string>, placeholders: map<string, int>, k: string,
    q: seq<string>)
    requires Enumerates(order, mappings.Keys)
    ensures var after := StoreAll(t, order, Resolved(mappings, placeholders));
            && (ResolvesAlone(mappings, placeholders, k) ==>
                  Lookup(after, SplitDots(k)) == Some(Scalar(placeholders[mappings[k]])))
            && (LeavesAlone(mappings, placeholders, q) ==> Lookup(after, q) == Lookup(t, q))
  {
    var values := Resolved(mappings, placeholders);
    if ResolvesAlone(mappings, placeholders, k) {
      var i :| 0 <= i < |order| && order[i] == k;
      var later := order[i + 1..];
      forall l <- later | values[l].Kept? ensures !Comparable(SplitDots(l), SplitDots(k)) {
        assert Resolves(mappings, placeholders, l);
      }
      StoredIsFound(t, order, values, i);
    }
    if LeavesAlone(mappings, placeholders, q) {
      forall l <- order | values[l].Kept? ensures !Comparable(SplitDots(l), q) {
        assert Resolves(mappings, placeholders, l);
      }
      BesideStaysAsItWas(t, order, values, q);
    }
  }

  lemma StoredAsFound(t: Tree, order: seq<string>, mappings: map<string, string>, placeholders: map<string, int>)
    requires Enumerates(order, mappings.Keys)
    ensures var after := StoreAll(t, order, Resolved(mappings, placeholders));
            && (forall k | ResolvesAlone(mappings, placeholders, k) ::
                  Lookup(after, SplitDots(k)) == Some(Scalar(placeholders[mappings[k]])))
            && (forall q: seq<string> | LeavesAlone(mappings, placeholders, q) :: Lookup(after, q) == Lookup(t, q))
  {
    var after := StoreAll(t, order, Resolved(mappings, placeholders));
    forall k | ResolvesAlone(mappings, placeholders, k)
      ensures Lookup(after, SplitDots(k)) == Some(Scalar(placeholders[mappings[k]]))
    {
      WhatIsFound(t, order, mappings, placeholders, k, []);
    }
    forall q: seq<string> | LeavesAlone(mappings, placeholders, q) ensures Lookup(after, q) == Lookup(t, q) {
      WhatIsFound(t, order, mappings, placeholders, "", q);
    }
  }

  /**
   The loop over the mappings visits them in an order of its own. Every key is tried, whatever fails before it; the
   context receives exactly the values that could be resolved, in that order, and an error is reported if and only if
   some value could not be resolved.
   */
  method StoreResultValues(ctx: G.Gontext, mappings: map<string, string>, placeholders: map<string, int>)
    returns (stored: map<string, Stored>, failed: bool, ghost order: seq<string>)
    requires ctx.Valid()
    modifies ctx.memory, ctx`tree
    ensures stored == Resolved(mappings, placeholders) && (failed <==> AnyFailed(stored))
    ensures Enumerates(order, mappings.Keys)
    ensures Holds(ctx, StoreAll(old(ctx.tree), order, stored), old(Start(ctx.memory.cells, ctx.memory.next, ctx.Own())))
    ensures forall k | ResolvesAlone(mappings, placeholders, k) ::
              Lookup(ctx.tree, SplitDots(k)) == Some(Scalar(placeholders[mappings[k]]))
    ensures forall q: seq<string> | LeavesAlone(mappings, placeholders, q) ::
            Lookup(ctx.tree, q) == Lookup(old(ctx.tree), q)
  {
    stored, failed, order := map[], false, [];
    ghost var all := Resolved(mappings, placeholders);
    ghost var t0, t, start := ctx.tree, ctx.tree, Start(ctx.memory.cells, ctx.memory.next, ctx.Own());
    var keys := mappings.Keys;
    while keys != {}
      invariant Holds(ctx, t, start)
      invariant Bookkept(order, keys, all, stored, failed) && t == StoreAll(t0, order, all)
      decreases keys
    {
      var contextKey :| contextKey in keys;
      var s := StoreValue(ctx, contextKey, mappings[contextKey], placeholders, t, start);
      StoredOneMore(t0, order, keys, contextKey, all, stored, failed);
      t := StoreOne(t, contextKey, s);
      keys, order := keys - {contextKey}, order + [contextKey];
      stored := stored[contextKey := s];
      failed := failed || s == Failed;
    }
    assert stored == all;
    StoredAsFound(t0, order, mappings, placeholders);
  }

  ghost predicate AnyFailed(stored: map<string, Stored>) {
    exists k :: k in stored && stored[k] == Failed
  }

  /** The order, the outcomes and the failures of all keys but those that remain. */
  ghost predicate Bookkept(
    order: seq<string>, keys: set<string>, all: map<string, Stored>, stored: map<string, Stored>, failed: bool) {
    && keys <= all.Keys && Enumerates(order, all.Keys - keys) && stored.Keys == all.Keys - keys
    && (forall k | k in stored :: stored[k] == all[k]) && (failed <==> AnyFailed(stored))
  }

  lemma StoredOneMore(
    t: Tree, order: seq<string>, keys: set<string>, k: string, all: map<string, Stored>, stored: map<string, Stored>,
    failed: bool)
    requires k in keys && Bookkept(order, keys, all, stored, failed)
    ensures Bookkept(order + [k], keys - {k}, all, stored[k := all[k]], failed || all[k] == Failed)
    ensures StoreAll(t, order + [k], all) == StoreOne(StoreAll(t, order, all), k, all[k])
  {
    OneMoreKey(order, all.Keys - keys, k);
    assert all.Keys - keys + {k} == all.Keys - (keys - {k});
    assert (order + [k])[..|order|] == order;
    var more := stored[k := all[k]];
    if l :| l in stored && stored[l] == Failed {
      assert l in more && more[l] == Failed;
    }
    assert k in more && more[k] == all[k];
  }

  // ---------- the order does not matter ----------

  /** No context key is a prefix of another. */
  ghost predicate Incomparable(keys: set<string>) {
    forall k, l | k in keys && l in keys && k != l :: !Comparable(SplitDots(k), SplitDots(l))
  }

  lemma StoreOnesCommute(t: Tree, k: string, s: Stored, l: string, u: Stored)
    requires !Comparable(SplitDots(k), SplitDots(l))
    ensures StoreOne(StoreOne(t, k, s), l, u) == StoreOne(StoreOne(t, l, u), k, s)
  {
    if s.Kept? && u.Kept? {
      StoresCommute(t, SplitDots(k), Scalar(s.value), SplitDots(l), Scalar(u.value));
    }
  }

  /** A key stored in the middle may as well be stored last. */
  lemma {:induction false} StoredLast(t: Tree, a: seq<string>, k: string, b: seq<string>, values: map<string, Stored>)
    requires forall l <- a + [k] + b :: l in values
    requires forall l <- b :: !Comparable(SplitDots(k), SplitDots(l))
    ensures StoreAll(t, a + [k] + b, values) == StoreOne(StoreAll(t, a + b, values), k, values[k])
    decreases |b|
  {
    assert (a + [k] + b)[|a|] == k;
    if b == [] {
      assert a + [k] + b == a + [k] && a + b == a && (a + [k])[..|a|] == a;
    } else {
      var n := |b| - 1;
      assert (a + [k] + b)[..|a| + |b|] == a + [k] + b[..n] && (a + b)[..|a| + n] == a + b[..n];
      assert forall l <- a + [k] + b[..n] :: l in a + [k] + b;
      StoredLast(t, a, k, b[..n], values);
      assert b[n] in b;
      StoreOnesCommute(StoreAll(t, a + b[..n], values), k, values[k], b[n], values[b[n]]);
    }
  }

  /** When no key is a prefix of another, the map's iteration order has no influence on the context. */
  lemma {:induction false} OrderIsIrrelevant(
    t: Tree, keys: seq<string>, keys': seq<string>, all: set<string>, values: map<string, Stored>)
    requires Enumerates(keys, all) && Enumerates(keys', all) && Incomparable(all)
    requires forall k <- all :: k in values
    ensures StoreAll(t, keys, values) == StoreAll(t, keys', values)
    decreases |keys|
  {
    if keys == [] {
      assert !exists k :: k in keys';
      NonEmptyHasMember(keys');
    } else {
      var n := |keys| - 1;
      var k := keys[n];
      assert k in keys && k in keys';
      var i :| 0 <= i < |keys'| && keys'[i] == k;
      var a, b := keys'[..i], keys'[i + 1..];
      assert keys' == a + [k] + b;
      assert forall l <- b :: l in keys' && l != k;
      StoredLast(t, a, k, b, values);
      EnumeratesWithout(keys, n, all);
      EnumeratesWithout(keys', i, all);
      assert keys[..n] + keys[n + 1..] == keys[..n];
      OrderIsIrrelevant(t, keys[..n], a + b, all - {k}, values);
    }
  }

  lemma NonEmptyHasMember(keys: seq<string>)
    ensures keys != [] ==> exists k :: k in keys
  {
    if keys != [] {
      assert keys[0] in keys;
    }
  }

  lemma EnumeratesWithout(keys: seq<string>, i: nat, all: set<string>)
    requires Enumerates(keys, all) && i < |keys|
    ensures Enumerates(keys[..i] + keys[i + 1..], all - {keys[i]})
  {
    var rest := keys[..i] + keys[i + 1..];
    forall j | 0 <= j < |rest| ensures rest[j] == keys[if j < i then j else j + 1] && rest[j] in keys {
    }
    forall k <- all - {keys[i]} ensures k in rest {
      var j :| 0 <= j < |keys| && keys[j] == k;
      assert rest[if j < i then j else j - 1] == k;
    }
  }
}
