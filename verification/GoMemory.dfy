/**
 Nested Go maps and slices in memory: cells at addresses, values that are atoms or references to cells, and when a
 value represents a tree without sharing. All lemmas are about writes to memory and what they leave unchanged.
 */
module GoMemory {
  import opened Wrappers
  import opened ContextTree

  datatype Value = Atom(v: int) | Ref(at: nat)

  datatype Cell = MapCell(entries: map<string, Value>) | SliceCell(items: seq<Value>)

  type Heap = map<nat, Cell>

  /** The value reads as the tree; parts of it may be shared. */
  ghost predicate Reads(h: Heap, v: Value, t: Tree)
    decreases t
  {
    match t
    case Scalar(s) => v == Atom(s)
    case List(items) =>
      && v.Ref? && v.at in h && h[v.at].SliceCell? && |h[v.at].items| == |items|
      && forall i | 0 <= i < |items| :: Reads(h, h[v.at].items[i], items[i])
    case Node(entries) =>
      && v.Ref? && v.at in h && h[v.at].MapCell? && h[v.at].entries.Keys == entries.Keys
      && forall k | k in entries :: Reads(h, h[v.at].entries[k], entries[k])
  }

  /** The addresses of the cells a value consists of. */
  ghost function Cells(h: Heap, v: Value, t: Tree): set<nat>
    requires Reads(h, v, t)
    decreases t
  {
    match t
    case Scalar(_) => {}
    case List(items) => {v.at} + set i, a | 0 <= i < |items| && a in Cells(h, h[v.at].items[i], items[i]) :: a
    case Node(entries) => {v.at} + set k, a | k in entries && a in Cells(h, h[v.at].entries[k], entries[k]) :: a
  }

  /** The value reads as the tree, and no map or slice in it is reachable in two ways. */
  ghost predicate Owns(h: Heap, v: Value, t: Tree)
    decreases t
  {
    && Reads(h, v, t)
    && match t
       case Scalar(_) => true
       case List(items) =>
         var vs := h[v.at].items;
         && (forall i | 0 <= i < |items| :: Owns(h, vs[i], items[i]) && v.at !in Cells(h, vs[i], items[i]))
         && (forall i, j | 0 <= i < j < |items| :: Cells(h, vs[i], items[i]) !! Cells(h, vs[j], items[j]))
       case Node(entries) =>
         var vs := h[v.at].entries;
         && (forall k | k in entries :: Owns(h, vs[k], entries[k]) && v.at !in Cells(h, vs[k], entries[k]))
         && (forall k, l | k in entries && l in entries && k != l ::
           Cells(h, vs[k], entries[k]) !! Cells(h, vs[l], entries[l]))
  }

  /** The second heap has what the first has at the given addresses. */
  ghost predicate SameAt(h: Heap, h': Heap, addresses: set<nat>) {
    forall a | a in addresses && a in h :: a in h' && h'[a] == h[a]
  }

  // ---------- frames ----------

  lemma {:induction false} CellsExist(h: Heap, v: Value, t: Tree)
    requires Reads(h, v, t)
    ensures Cells(h, v, t) <= h.Keys
    decreases t
  {
    match t
    case Scalar(_) =>
    case List(items) =>
      forall i | 0 <= i < |items| ensures Cells(h, h[v.at].items[i], items[i]) <= h.Keys {
        CellsExist(h, h[v.at].items[i], items[i]);
      }
    case Node(entries) =>
      forall k | k in entries ensures Cells(h, h[v.at].entries[k], entries[k]) <= h.Keys {
        CellsExist(h, h[v.at].entries[k], entries[k]);
      }
  }

  /** A value reads and owns the same as long as its own cells are left alone. */
  lemma {:induction false} ReadsFrame(h: Heap, h': Heap, v: Value, t: Tree)
    requires Reads(h, v, t) && SameAt(h, h', Cells(h, v, t))
    ensures Reads(h', v, t) && Cells(h', v, t) == Cells(h, v, t)
    decreases t
  {
    match t
    case Scalar(_) =>
    case List(items) =>
      assert v.at in Cells(h, v, t);
      forall i | 0 <= i < |items|
        ensures Reads(h', h[v.at].items[i], items[i])
                && Cells(h', h[v.at].items[i], items[i]) == Cells(h, h[v.at].items[i], items[i])
      {
        assert Cells(h, h[v.at].items[i], items[i]) <= Cells(h, v, t);
        ReadsFrame(h, h', h[v.at].items[i], items[i]);
      }
    case Node(entries) =>
      assert v.at in Cells(h, v, t);
      forall k | k in entries
        ensures Reads(h', h[v.at].entries[k], entries[k])
                && Cells(h', h[v.at].entries[k], entries[k]) == Cells(h, h[v.at].entries[k], entries[k])
      {
        assert Cells(h, h[v.at].entries[k], entries[k]) <= Cells(h, v, t);
        ReadsFrame(h, h', h[v.at].entries[k], entries[k]);
      }
  }

  lemma {:induction false} OwnsFrame(h: Heap, h': Heap, v: Value, t: Tree)
    requires Owns(h, v, t) && SameAt(h, h', Cells(h, v, t))
    ensures Owns(h', v, t) && Cells(h', v, t) == Cells(h, v, t)
    decreases t
  {
    ReadsFrame(h, h', v, t);
    match t
    case Scalar(_) =>
    case List(items) =>
      assert v.at in Cells(h, v, t);
      forall i | 0 <= i < |items|
        ensures Owns(h', h[v.at].items[i], items[i])
                && Cells(h', h[v.at].items[i], items[i]) == Cells(h, h[v.at].items[i], items[i])
      {
        assert Cells(h, h[v.at].items[i], items[i]) <= Cells(h, v, t);
        OwnsFrame(h, h', h[v.at].items[i], items[i]);
      }
    case Node(entries) =>
      assert v.at in Cells(h, v, t);
      forall k | k in entries
        ensures Owns(h', h[v.at].entries[k], entries[k])
                && Cells(h', h[v.at].entries[k], entries[k]) == Cells(h, h[v.at].entries[k], entries[k])
      {
        assert Cells(h, h[v.at].entries[k], entries[k]) <= Cells(h, v, t);
        OwnsFrame(h, h', h[v.at].entries[k], entries[k]);
      }
  }

  /**
   Isolation: whatever is done to the cells of one value, and whatever is added to memory, a value that shares no
   cell with it stays the same.
   */
  lemma Isolated(h: Heap, h': Heap, v: Value, t: Tree, mutated: set<nat>)
    requires Owns(h, v, t) && Cells(h, v, t) !! mutated
    requires SameAt(h, h', h.Keys - mutated)
    ensures Owns(h', v, t)
  {
    CellsExist(h, v, t);
    OwnsFrame(h, h', v, t);
  }

  // ---------- following a path ----------

  function Resolve(h: Heap, v: Value, parts: seq<string>): Option<Value>
    decreases |parts|
  {
    if parts == [] then Some(v)
    else if v.Ref? && v.at in h && h[v.at].MapCell? && parts[0] in h[v.at].entries then
      Resolve(h, h[v.at].entries[parts[0]], parts[1..])
    else None
  }

  /** Following a path in memory finds what looking it up in the tree finds. */
  lemma {:induction false} ResolveIsLookup(h: Heap, v: Value, t: Tree, parts: seq<string>)
    requires Owns(h, v, t)
    ensures Resolve(h, v, parts).Some? <==> Lookup(t, parts).Some?
    ensures Lookup(t, parts).Some? ==>
              && Owns(h, Resolve(h, v, parts).value, Lookup(t, parts).value)
              && Cells(h, Resolve(h, v, parts).value, Lookup(t, parts).value) <= Cells(h, v, t)
    decreases |parts|
  {
    if parts != [] && t.Node? && parts[0] in t.entries {
      ResolveIsLookup(h, h[v.at].entries[parts[0]], t.entries[parts[0]], parts[1..]);
    }
  }

  lemma {:induction false} ResolveStep(h: Heap, v: Value, p: seq<string>, k: string)
    ensures Resolve(h, v, p + [k]) == if Resolve(h, v, p).Some? then Resolve(h, Resolve(h, v, p).value, [k]) else None
    decreases |p|
  {
    if p == [] {
      assert p + [k] == [k];
    } else {
      assert (p + [k])[1..] == p[1..] + [k];
      if v.Ref? && v.at in h && h[v.at].MapCell? && p[0] in h[v.at].entries {
        ResolveStep(h, h[v.at].entries[p[0]], p[1..], k);
      }
    }
  }

  // ---------- writing ----------

  /** The second heap differs from the first, among the given cells, only by the entry k of the map at an address. */
  ghost predicate WritesEntry(h: Heap, h': Heap, cells: set<nat>, at: nat, k: string, w: Value) {
    && at in h && h[at].MapCell? && at in h' && h'[at] == MapCell(h[at].entries[k := w])
    && SameAt(h, h', cells - {at})
  }

  /** A value in a cell: it owns its tree without that cell, within the given cells. */
  ghost predicate Inside(h: Heap, owner: nat, v: Value, t: Tree, all: set<nat>) {
    Owns(h, v, t) && owner !in Cells(h, v, t) && Cells(h, v, t) <= all
  }

  ghost predicate Apart(h: Heap, v: Value, t: Tree, w: Value, u: Tree) {
    Reads(h, v, t) && Reads(h, w, u) && Cells(h, v, t) !! Cells(h, w, u)
  }

  /** A map cell owns a tree when each of its entries does, apart from the others and from the cell. */
  lemma EntriesOwn(h: Heap, v: Value, entries: map<string, Tree>, all: set<nat>)
    requires v.Ref? && v.at in h && h[v.at].MapCell? && h[v.at].entries.Keys == entries.Keys && v.at in all
    requires forall k | k in entries :: Inside(h, v.at, h[v.at].entries[k], entries[k], all)
    requires forall k, l | k in entries && l in entries && k != l ::
             Apart(h, h[v.at].entries[k], entries[k], h[v.at].entries[l], entries[l])
    ensures Owns(h, v, Node(entries)) && Cells(h, v, Node(entries)) <= all
  {
    forall k | k in entries ensures Reads(h, h[v.at].entries[k], entries[k]) {
      assert Inside(h, v.at, h[v.at].entries[k], entries[k], all);
    }
    forall k, l | k in entries && l in entries && k != l
      ensures Cells(h, h[v.at].entries[k], entries[k]) !! Cells(h, h[v.at].entries[l], entries[l])
    {
      assert Apart(h, h[v.at].entries[k], entries[k], h[v.at].entries[l], entries[l]);
    }
    assert Reads(h, v, Node(entries));
    forall k | k in entries ensures Cells(h, h[v.at].entries[k], entries[k]) <= all {
      assert Inside(h, v.at, h[v.at].entries[k], entries[k], all);
    }
  }

  lemma EntryInside(h: Heap, v: Value, t: Tree, k: string)
    requires Owns(h, v, t) && t.Node? && k in t.entries
    ensures Inside(h, v.at, h[v.at].entries[k], t.entries[k], Cells(h, v, t)) && v.at in Cells(h, v, t)
  {
  }

  lemma EntriesApart(h: Heap, v: Value, t: Tree, k: string, l: string)
    requires Owns(h, v, t) && t.Node? && k in t.entries && l in t.entries && k != l
    ensures Apart(h, h[v.at].entries[k], t.entries[k], h[v.at].entries[l], t.entries[l])
  {
  }

  /** An entry that a write does not reach is as it was. */
  lemma EntryKept(h: Heap, h': Heap, v: Value, t: Tree, l: string, at: nat)
    requires Owns(h, v, t) && t.Node? && l in t.entries
    requires at !in Cells(h, h[v.at].entries[l], t.entries[l]) && SameAt(h, h', Cells(h, v, t) - {at})
    ensures Inside(h', v.at, h[v.at].entries[l], t.entries[l], Cells(h, v, t))
    ensures Cells(h', h[v.at].entries[l], t.entries[l]) == Cells(h, h[v.at].entries[l], t.entries[l])
  {
    EntryInside(h, v, t, l);
    OwnsFrame(h, h', h[v.at].entries[l], t.entries[l]);
  }

  /**
   One entry of a map becomes the value w; the write touches the cell at only, which is the map itself or lies inside
   that entry. Then the map owns the updated tree.
   */
  lemma EntryReplaced(h: Heap, h': Heap, v: Value, t: Tree, c: string, w: Value, tw: Tree, at: nat, extra: set<nat>)
    requires Owns(h, v, t) && t.Node? && SameAt(h, h', Cells(h, v, t) - {at})
    requires at == v.at || (c in t.entries && at in Cells(h, h[v.at].entries[c], t.entries[c]))
    requires v.at in h' && h'[v.at] == MapCell(h[v.at].entries[c := w])
    requires extra !! Cells(h, v, t)
    requires Inside(h', v.at, w, tw, extra + if c in t.entries then Cells(h, h[v.at].entries[c], t.entries[c]) else {})
    ensures Owns(h', v, Node(t.entries[c := tw])) && Cells(h', v, Node(t.entries[c := tw])) <= Cells(h, v, t) + extra
  {
    var vs, vs', all, entries := h[v.at].entries, h'[v.at].entries, Cells(h, v, t), t.entries[c := tw];
    assert v.at in all;
    if c in t.entries {
      EntryInside(h, v, t, c);
    }
    forall l | l in entries ensures Inside(h', v.at, vs'[l], entries[l], all + extra) {
      if l != c {
        OtherEntryKept(h, h', v, t, c, l, at);
      }
    }
    forall k, l | k in entries && l in entries && k != l ensures Apart(h', vs'[k], entries[k], vs'[l], entries[l]) {
      if k == c {
        OtherEntryKept(h, h', v, t, c, l, at);
      } else if l == c {
        OtherEntryKept(h, h', v, t, c, k, at);
      } else {
        OtherEntryKept(h, h', v, t, c, k, at);
        OtherEntryKept(h, h', v, t, c, l, at);
        EntriesApart(h, v, t, k, l);
      }
    }
    EntriesOwn(h', v, entries, all + extra);
  }

  lemma OtherEntryKept(h: Heap, h': Heap, v: Value, t: Tree, c: string, l: string, at: nat)
    requires Owns(h, v, t) && t.Node? && l in t.entries && l != c && SameAt(h, h', Cells(h, v, t) - {at})
    requires at == v.at || (c in t.entries && at in Cells(h, h[v.at].entries[c], t.entries[c]))
    ensures Inside(h', v.at, h[v.at].entries[l], t.entries[l], Cells(h, v, t))
    ensures Cells(h', h[v.at].entries[l], t.entries[l]) == Cells(h, h[v.at].entries[l], t.entries[l])
    ensures c in t.entries ==> Cells(h, h[v.at].entries[c], t.entries[c]) !! Cells(h, h[v.at].entries[l], t.entries[l])
  {
    EntryInside(h, v, t, l);
    if c in t.entries {
      EntriesApart(h, v, t, c, l);
    }
    EntryKept(h, h', v, t, l, at);
  }

  /** The map that a longer path leads to lies inside the entry under the path's first part. */
  lemma PathEntersChild(h: Heap, v: Value, t: Tree, p: seq<string>, at: nat)
    requires Owns(h, v, t) && p != []
    requires Resolve(h, v, p) == Some(Ref(at)) && Lookup(t, p).Some? && Lookup(t, p).value.Node?
    ensures t.Node? && p[0] in t.entries && t.entries[p[0]].Node?
    ensures var vc, tc := h[v.at].entries[p[0]], t.entries[p[0]];
            && Resolve(h, vc, p[1..]) == Some(Ref(at)) && Lookup(tc, p[1..]) == Lookup(t, p)
            && Inside(h, v.at, vc, tc, Cells(h, v, t)) && at in Cells(h, vc, tc) && at != v.at
  {
    EntryInside(h, v, t, p[0]);
    ResolveIsLookup(h, h[v.at].entries[p[0]], t.entries[p[0]], p[1..]);
  }

  lemma ChildReplaced(h: Heap, h': Heap, v: Value, t: Tree, c: string, tc': Tree, at: nat, extra: set<nat>)
    requires Owns(h, v, t) && t.Node? && c in t.entries && SameAt(h, h', Cells(h, v, t) - {at})
    requires at in Cells(h, h[v.at].entries[c], t.entries[c]) && extra !! Cells(h, v, t)
    requires Owns(h', h[v.at].entries[c], tc')
    requires Cells(h', h[v.at].entries[c], tc') <= Cells(h, h[v.at].entries[c], t.entries[c]) + extra
    ensures Owns(h', v, Node(t.entries[c := tc'])) && Cells(h', v, Node(t.entries[c := tc'])) <= Cells(h, v, t) + extra
    ensures v.at in h' && h'[v.at] == h[v.at]
  {
    EntryInside(h, v, t, c);
    var vc := h[v.at].entries[c];
    assert h[v.at].entries[c := vc] == h[v.at].entries;
    EntryReplaced(h, h', v, t, c, vc, tc', at, extra);
  }

  lemma StoreInChild(t: Tree, p: seq<string>, k: string, tw: Tree)
    requires p != [] && t.Node? && p[0] in t.entries && t.entries[p[0]].Node?
    ensures Store(t, p + [k], tw) == Node(t.entries[p[0] := Store(t.entries[p[0]], p[1..] + [k], tw)])
  {
    assert (p + [k])[1..] == p[1..] + [k];
  }

  lemma WriteHere(h: Heap, h': Heap, v: Value, t: Tree, k: string, w: Value, tw: Tree)
    requires Owns(h, v, t) && t.Node? && WritesEntry(h, h', Cells(h, v, t), v.at, k, w)
    requires Owns(h', w, tw) && Cells(h', w, tw) !! Cells(h, v, t)
    ensures Stored(h, h', v, t, [k], w, tw)
  {
    assert v.at in Cells(h, v, t);
    EntryReplaced(h, h', v, t, k, w, tw, v.at, Cells(h', w, tw));
    assert Store(t, [k], tw) == Node(t.entries[k := tw]);
  }

  lemma WriteBelow(h: Heap, h': Heap, v: Value, t: Tree, p: seq<string>, at: nat, k: string, w: Value, tw: Tree)
    requires Owns(h, v, t) && t.Node? && p != [] && p[0] in t.entries && t.entries[p[0]].Node?
    requires SameAt(h, h', Cells(h, v, t) - {at}) && at in Cells(h, h[v.at].entries[p[0]], t.entries[p[0]])
    requires Owns(h', w, tw) && Cells(h', w, tw) !! Cells(h, v, t)
    requires Stored(h, h', h[v.at].entries[p[0]], t.entries[p[0]], p[1..] + [k], w, tw)
    ensures Stored(h, h', v, t, p + [k], w, tw)
  {
    var inner, u := Store(t.entries[p[0]], p[1..] + [k], tw), Store(t, p + [k], tw);
    assert u == Node(t.entries[p[0] := inner]) by {
      StoreInChild(t, p, k, tw);
    }
    ChildReplaced(h, h', v, t, p[0], inner, at, Cells(h', w, tw));
    ResolveBelow(h', v, p, k);
  }

  lemma ResolveBelow(h: Heap, v: Value, p: seq<string>, k: string)
    requires p != [] && v.Ref? && v.at in h && h[v.at].MapCell? && p[0] in h[v.at].entries
    ensures Resolve(h, v, p + [k]) == Resolve(h, h[v.at].entries[p[0]], p[1..] + [k])
  {
    assert (p + [k])[1..] == p[1..] + [k];
  }

  /** After a write, the value owns the tree with tw stored at the path, and the path leads to w. */
  ghost predicate Stored(h: Heap, h': Heap, v: Value, t: Tree, path: seq<string>, w: Value, tw: Tree)
    requires path != [] && Reads(h, v, t) && Reads(h', w, tw)
  {
    && Owns(h', v, Store(t, path, tw))
    && Cells(h', v, Store(t, path, tw)) <= Cells(h, v, t) + Cells(h', w, tw)
    && Resolve(h', v, path) == Some(w)
  }

  /** Writing an entry of the map that a path leads to stores at that path, whatever map it is. */
  lemma {:induction false} WriteStores(
    h: Heap, h': Heap, v: Value, t: Tree, p: seq<string>, at: nat, k: string, w: Value, tw: Tree)
    requires Owns(h, v, t)
    requires Resolve(h, v, p) == Some(Ref(at)) && Lookup(t, p).Some? && Lookup(t, p).value.Node?
    requires WritesEntry(h, h', Cells(h, v, t), at, k, w)
    requires Owns(h', w, tw) && Cells(h', w, tw) !! Cells(h, v, t)
    ensures Stored(h, h', v, t, p + [k], w, tw)
    decreases |p|
  {
    if p == [] {
      assert p + [k] == [k];
      WriteHere(h, h', v, t, k, w, tw);
    } else {
      PathEntersChild(h, v, t, p, at);
      WriteStores(h, h', h[v.at].entries[p[0]], t.entries[p[0]], p[1..], at, k, w, tw);
      WriteBelow(h, h', v, t, p, at, k, w, tw);
    }
  }

  /** Creating an empty map first, where a store would create one anyway, changes nothing for that store. */
  lemma {:induction false} CreatingMapsOnTheWay(t: Tree, q: seq<string>, p: seq<string>, v: Tree)
    requires q != [] && |q| < |p| && Prefix(q, p)
    requires !(Lookup(t, q).Some? && Lookup(t, q).value.Node?)
    ensures Store(Store(t, q, EMPTY), p, v) == Store(t, p, v)
    decreases |q|
  {
    assert p[0] == q[0];
    BelowStored(t, q, EMPTY, q[0]);
    if |q| > 1 {
      ComparableTails(q, p);
      assert p[1..][..|q| - 1] == q[1..];
      LookupBelow(t, q[0], q[1..]);
      assert [q[0]] + q[1..] == q;
      CreatingMapsOnTheWay(Below(t, q[0]), q[1..], p[1..], v);
    } else {
      assert Lookup(t, q) == if t.Node? && q[0] in t.entries then Some(t.entries[q[0]]) else None;
    }
    assert Entries(t)[p[0] := Child(t, q, EMPTY)][p[0] := Child(t, p, v)] == Entries(t)[p[0] := Child(t, p, v)];
  }
}
