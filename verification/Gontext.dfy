/** The suite context (`config/gontext/gontext.go`): nested maps in memory, read and written through dotted paths. */
module Gontext {
  import opened Wrappers
  import opened ContextTree
  import opened GoMemory

  /** Memory shared by the program: nothing is ever freed, and next is the first address not yet used. */
  class Memory {
    var cells: Heap
    var next: nat

    ghost predicate Valid()
      reads this
    {
      forall a | a in cells :: a < next
    }

    constructor ()
      ensures Valid() && cells == map[]
    {
      cells, next := map[], 0;
    }

    method Alloc(c: Cell) returns (at: nat)
      requires Valid()
      modifies this
      ensures Valid() && at == old(next) && next == at + 1 && cells == old(cells)[at := c]
    {
      at := next;
      cells, next := cells[at := c], next + 1;
    }
  }

  /** Every address lies in the given range. */
  ghost predicate Between(addresses: set<nat>, lo: nat, hi: nat) {
    forall a | a in addresses :: lo <= a < hi
  }

  /** All old cells are as they were. */
  ghost predicate Grown(h: Heap, h': Heap) {
    SameAt(h, h', h.Keys)
  }

  lemma GrownKeeps(h: Heap, h': Heap, v: Value, t: Tree)
    requires Reads(h, v, t) && Grown(h, h')
    ensures Reads(h', v, t) && Cells(h', v, t) == Cells(h, v, t)
    ensures Owns(h, v, t) ==> Owns(h', v, t)
  {
    CellsExist(h, v, t);
    ReadsFrame(h, h', v, t);
    if Owns(h, v, t) {
      OwnsFrame(h, h', v, t);
    }
  }

  // ---------- copying ----------

  /** The part of a map whose keys have been dealt with. */
  ghost function Without(entries: map<string, Tree>, keys: set<string>): Tree {
    Node(map k | k in entries && k !in keys :: entries[k])
  }

  lemma OneMoreEntry(entries: map<string, Tree>, keys: set<string>, k: string)
    requires k in keys && k in entries
    ensures Store(Without(entries, keys), [k], entries[k]) == Without(entries, keys - {k})
  {
    assert Without(entries, keys).entries[k := entries[k]] == Without(entries, keys - {k}).entries;
  }

  /** Filling in one entry of a map that is being copied. */
  lemma EntryCopied(h: Heap, h': Heap, at: nat, entries: map<string, Tree>, keys: set<string>, k: string, c: Value)
    requires k in keys && k in entries
    requires Owns(h, Ref(at), Without(entries, keys)) && h' == h[at := MapCell(h[at].entries[k := c])]
    requires Owns(h, c, entries[k]) && Cells(h, c, entries[k]) !! Cells(h, Ref(at), Without(entries, keys))
    ensures Owns(h', Ref(at), Without(entries, keys - {k}))
    ensures Cells(h', Ref(at), Without(entries, keys - {k})) <= Cells(h, Ref(at), Without(entries, keys))
            + Cells(h, c, entries[k])
  {
    assert at in Cells(h, Ref(at), Without(entries, keys));
    OwnsFrame(h, h', c, entries[k]);
    WriteHere(h, h', Ref(at), Without(entries, keys), k, c, entries[k]);
    OneMoreEntry(entries, keys, k);
  }

  /** The cell at an address owns the tree, with cells of the given range only. */
  ghost predicate Built(h: Heap, at: nat, t: Tree, lo: nat, hi: nat) {
    Owns(h, Ref(at), t) && Between(Cells(h, Ref(at), t), lo, hi)
  }

  lemma BuiltKept(h: Heap, h': Heap, at: nat, t: Tree, lo: nat, hi: nat, hi': nat)
    requires Built(h, at, t, lo, hi) && Grown(h, h') && hi <= hi'
    ensures Built(h', at, t, lo, hi') && Cells(h', Ref(at), t) == Cells(h, Ref(at), t) && at in Cells(h, Ref(at), t)
  {
    GrownKeeps(h, h', Ref(at), t);
  }

  /** One turn of the copying loop: the value under key k. */
  method CopyEntry(
    m: Memory, newMap: nat, k: string, v: Value, ghost entries: map<string, Tree>, ghost keys: set<string>,
    ghost lo: nat)
    requires m.Valid() && k in keys && k in entries && Reads(m.cells, v, entries[k]) && lo <= m.next
    requires Built(m.cells, newMap, Without(entries, keys), lo, m.next)
    modifies m
    ensures m.Valid() && m.next >= old(m.next)
    ensures SameAt(old(m.cells), m.cells, old(m.cells).Keys - {newMap})
    ensures Built(m.cells, newMap, Without(entries, keys - {k}), lo, m.next)
    decreases entries[k], 2
  {
    ghost var h0, next0 := m.cells, m.next;
    var c := DeepCopyValue(m, v, entries[k]);
    ghost var h1 := m.cells;
    BuiltKept(h0, h1, newMap, Without(entries, keys), lo, next0, next0);
    m.cells := m.cells[newMap := MapCell(m.cells[newMap].entries[k := c])];
    EntryCopied(h1, m.cells, newMap, entries, keys, k, c);
  }

  /** The loop that New, GetAll and deepCopyValue share: a fresh map with a deep copy of every value. */
  method CopyMap(m: Memory, from: nat, ghost t: Tree) returns (newMap: nat)
    requires m.Valid() && t.Node? && Reads(m.cells, Ref(from), t)
    modifies m
    ensures m.Valid() && m.next >= old(m.next) && Grown(old(m.cells), m.cells)
    ensures Built(m.cells, newMap, t, old(m.next), m.next)
    decreases t, 0
  {
    var source := m.cells[from].entries;
    ghost var before := m.cells;
    newMap := m.Alloc(MapCell(map[]));
    var keys := source.Keys;
    assert Without(t.entries, keys) == EMPTY;
    while keys != {}
      invariant keys <= source.Keys
      invariant m.Valid() && Grown(before, m.cells) && newMap !in before && newMap <= m.next
      invariant Built(m.cells, newMap, Without(t.entries, keys), newMap, m.next)
      decreases keys
    {
      var k :| k in keys;
      GrownKeeps(before, m.cells, Ref(from), t);
      CopyEntry(m, newMap, k, source[k], t.entries, keys, newMap);
      keys := keys - {k};
    }
    assert Without(t.entries, keys) == t;
  }

  const NIL := Atom(0)

  /** A slice of which the first i values have been copied and the others are still nil. */
  ghost function Partly(items: seq<Tree>, i: nat): Tree
    requires i <= |items|
  {
    List(seq(|items|, j requires 0 <= j < |items| => if j < i then items[j] else Scalar(0)))
  }

  /** Filling in one item of a slice that is being copied. */
  lemma ItemCopied(h: Heap, h': Heap, at: nat, items: seq<Tree>, i: nat, c: Value)
    requires i < |items| && Owns(h, Ref(at), Partly(items, i))
    requires h' == h[at := SliceCell(h[at].items[i := c])]
    requires Owns(h, c, items[i]) && Cells(h, c, items[i]) !! Cells(h, Ref(at), Partly(items, i))
    ensures Owns(h', Ref(at), Partly(items, i + 1))
    ensures Cells(h', Ref(at), Partly(items, i + 1)) <= Cells(h, Ref(at), Partly(items, i)) + Cells(h, c, items[i])
  {
    var ts, us, vs, vs' := Partly(items, i).items, Partly(items, i + 1).items, h[at].items, h'[at].items;
    assert at in Cells(h, Ref(at), Partly(items, i));
    OwnsFrame(h, h', c, items[i]);
    forall j | 0 <= j < |items| && j != i
      ensures us[j] == ts[j] && vs'[j] == vs[j]
      ensures Owns(h', vs[j], us[j])
              && Cells(h', vs[j], us[j]) == Cells(h, vs[j], ts[j]) <= Cells(h, Ref(at), Partly(items, i))
    {
      assert Cells(h, vs[j], ts[j]) <= Cells(h, Ref(at), Partly(items, i));
      OwnsFrame(h, h', vs[j], ts[j]);
    }
  }

  lemma ItemStillReads(before: Heap, h: Heap, from: nat, t: Tree, i: nat)
    requires t.List? && i < |t.items| && Reads(before, Ref(from), t) && Grown(before, h)
    ensures i < |before[from].items| && Reads(h, before[from].items[i], t.items[i])
  {
    GrownKeeps(before, h, before[from].items[i], t.items[i]);
  }

  lemma AllCopied(items: seq<Tree>)
    ensures Partly(items, |items|) == List(items)
  {
    assert Partly(items, |items|).items == items;
  }

  lemma NothingCopied(h: Heap, at: nat, items: seq<Tree>)
    requires at in h && h[at].SliceCell? && |h[at].items| == |items| && forall v <- h[at].items :: v == NIL
    ensures Owns(h, Ref(at), Partly(items, 0)) && Cells(h, Ref(at), Partly(items, 0)) == {at}
  {
    var ts := Partly(items, 0).items;
    forall j | 0 <= j < |items| ensures ts[j] == Scalar(0) && h[at].items[j] == NIL && Owns(h, h[at].items[j], ts[j]) {
      assert h[at].items[j] in h[at].items;
    }
  }

  /** One turn of the copying loop: the value at index i. */
  method CopyItem(m: Memory, newSlice: nat, i: nat, v: Value, ghost items: seq<Tree>, ghost lo: nat)
    requires m.Valid() && i < |items| && Reads(m.cells, v, items[i]) && lo <= m.next
    requires Built(m.cells, newSlice, Partly(items, i), lo, m.next)
    modifies m
    ensures m.Valid() && m.next >= old(m.next)
    ensures SameAt(old(m.cells), m.cells, old(m.cells).Keys - {newSlice})
    ensures Built(m.cells, newSlice, Partly(items, i + 1), lo, m.next)
    decreases items[i], 2
  {
    ghost var h0, next0 := m.cells, m.next;
    var c := DeepCopyValue(m, v, items[i]);
    ghost var h1 := m.cells;
    BuiltKept(h0, h1, newSlice, Partly(items, i), lo, next0, next0);
    m.cells := m.cells[newSlice := SliceCell(m.cells[newSlice].items[i := c])];
    ItemCopied(h1, m.cells, newSlice, items, i, c);
  }

  /** A slice of nil items, which is what of a list none has been copied of. */
  method MakeSlice(m: Memory, n: nat, ghost items: seq<Tree>) returns (newSlice: nat)
    requires m.Valid() && n == |items|
    modifies m
    ensures m.Valid() && Grown(old(m.cells), m.cells) && newSlice !in old(m.cells) && old(m.next) <= newSlice < m.next
    ensures Built(m.cells, newSlice, Partly(items, 0), newSlice, m.next)
  {
    newSlice := m.Alloc(SliceCell(seq(n, _ => NIL)));
    NothingCopied(m.cells, newSlice, items);
  }

  method CopySlice(m: Memory, from: nat, ghost t: Tree) returns (newSlice: nat)
    requires m.Valid() && t.List? && Reads(m.cells, Ref(from), t)
    modifies m
    ensures m.Valid() && m.next >= old(m.next) && Grown(old(m.cells), m.cells)
    ensures Built(m.cells, newSlice, t, old(m.next), m.next)
    decreases t, 0
  {
    var source := m.cells[from].items;
    ghost var before := m.cells;
    newSlice := MakeSlice(m, |source|, t.items);
    for i := 0 to |source|
      invariant m.Valid() && Grown(before, m.cells) && newSlice !in before && newSlice <= m.next
      invariant Built(m.cells, newSlice, Partly(t.items, i), newSlice, m.next)
    {
      ItemStillReads(before, m.cells, from, t, i);
      CopyItem(m, newSlice, i, source[i], t.items, newSlice);
    }
    AllCopied(t.items);
  }

  /** The copy is structurally equal to its source, is made of new cells only, and shares nothing within itself. */
  method DeepCopyValue(m: Memory, v: Value, ghost t: Tree) returns (r: Value)
    requires m.Valid() && Reads(m.cells, v, t)
    modifies m
    ensures m.Valid() && m.next >= old(m.next) && Grown(old(m.cells), m.cells)
    ensures Owns(m.cells, r, t) && Between(Cells(m.cells, r, t), old(m.next), m.next)
    decreases t, 1
  {
    match v
    case Atom(_) => r := v;
    case Ref(at) =>
      match m.cells[at]
      case MapCell(_) =>
        var newMap := CopyMap(m, at, t);
        r := Ref(newMap);
      case SliceCell(_) =>
        var newSlice := CopySlice(m, at, t);
        r := Ref(newSlice);
  }

  // ---------- walking to the parent of a path ----------

  /** A cursor: the map at an address is where the first i parts lead. */
  ghost predicate Cursor(h: Heap, root: nat, t: Tree, parts: seq<string>, i: nat, current: nat)
    requires i <= |parts|
  {
    && Owns(h, Ref(root), t) && t.Node?
    && Resolve(h, Ref(root), parts[..i]) == Some(Ref(current))
    && Lookup(t, parts[..i]).Some? && Lookup(t, parts[..i]).value.Node?
  }

  lemma CursorIsMap(h: Heap, root: nat, t: Tree, parts: seq<string>, i: nat, current: nat)
    requires i <= |parts| && Cursor(h, root, t, parts, i, current)
    ensures current in h && h[current].MapCell? && current in Cells(h, Ref(root), t)
  {
    ResolveIsLookup(h, Ref(root), t, parts[..i]);
  }

  /** The next map is under the next part, or there is none in the tree either. */
  lemma CursorNext(h: Heap, root: nat, t: Tree, parts: seq<string>, i: nat, current: nat)
    requires i < |parts| && Cursor(h, root, t, parts, i, current)
    requires current in h && h[current].MapCell?
    ensures var es := h[current].entries;
            if parts[i] in es && es[parts[i]].Ref? && es[parts[i]].at in h && h[es[parts[i]].at].MapCell?
            then Cursor(h, root, t, parts, i + 1, es[parts[i]].at)
            else !(Lookup(t, parts[..i + 1]).Some? && Lookup(t, parts[..i + 1]).value.Node?)
  {
    assert parts[..i + 1] == parts[..i] + [parts[i]];
    ResolveStep(h, Ref(root), parts[..i], parts[i]);
    ResolveIsLookup(h, Ref(root), t, parts[..i + 1]);
  }

  /** Creating an empty map under the next part moves the cursor there. */
  lemma CursorCreates(h: Heap, h': Heap, root: nat, t: Tree, parts: seq<string>, i: nat, current: nat, newMap: nat)
    requires i < |parts| && Cursor(h, root, t, parts, i, current) && newMap !in h
    requires current in h && h[current].MapCell?
    requires h' == h[newMap := MapCell(map[])][current := MapCell(h[current].entries[parts[i] := Ref(newMap)])]
    ensures Cursor(h', root, Store(t, parts[..i + 1], EMPTY), parts, i + 1, newMap)
    ensures Cells(h', Ref(root), Store(t, parts[..i + 1], EMPTY)) <= Cells(h, Ref(root), t) + {newMap}
  {
    CursorIsMap(h, root, t, parts, i, current);
    CellsExist(h, Ref(root), t);
    assert parts[..i + 1] == parts[..i] + [parts[i]];
    EmptyMapOwns(h', newMap);
    WriteStores(h, h', Ref(root), t, parts[..i], current, parts[i], Ref(newMap), EMPTY);
    LookupStored(t, parts[..i + 1], EMPTY, []);
    assert parts[..i + 1] + [] == parts[..i + 1];
  }

  lemma EmptyMapOwns(h: Heap, at: nat)
    requires at in h && h[at] == MapCell(map[])
    ensures Owns(h, Ref(at), EMPTY) && Cells(h, Ref(at), EMPTY) == {at}
  {
  }

  /** A Set in progress: the context's root, what is stored where, and memory and context as they were at the start. */
  datatype Job = Job(
    root: nat, parts: seq<string>, value: Value, tv: Tree, before: Heap, next: nat, tree: Tree, own: set<nat>,
    cells: set<nat>)

  /** The context now owns t, the cursor is at part i, and storing from here gives what storing from the start would. */
  ghost predicate Midway(j: Job, h: Heap, t: Tree, i: nat, current: nat)
    requires i <= |j.parts| && j.parts != []
  {
    && Cursor(h, j.root, t, j.parts, i, current)
    && Store(t, j.parts, j.tv) == Store(j.tree, j.parts, j.tv)
    && Owns(h, j.value, j.tv) && Cells(h, j.value, j.tv) == j.cells
    && (forall a | a in j.cells :: a < j.next && a !in j.own)
    && (forall a | a in Cells(h, Ref(j.root), t) :: a in j.own || a >= j.next)
    && SameAt(j.before, h, j.before.Keys - j.own)
    && (forall a | a in j.before :: a < j.next)
  }

  lemma StartsMidway(j: Job)
    requires j.parts != [] && j.tree.Node? && Owns(j.before, Ref(j.root), j.tree) && Owns(j.before, j.value, j.tv)
    requires j.own == Cells(j.before, Ref(j.root), j.tree) && j.cells == Cells(j.before, j.value, j.tv)
             && j.own !! j.cells
    requires forall a | a in j.before :: a < j.next
    ensures Midway(j, j.before, j.tree, 0, j.root)
  {
    CellsExist(j.before, j.value, j.tv);
  }

  lemma RestKept(j: Job, h: Heap, h': Heap, t: Tree, i: nat, current: nat)
    requires i <= |j.parts| && j.parts != [] && Midway(j, h, t, i, current)
    requires current in Cells(h, Ref(j.root), t) && SameAt(h, h', h.Keys - {current})
    ensures Owns(h', j.value, j.tv) && Cells(h', j.value, j.tv) == j.cells
    ensures SameAt(j.before, h', j.before.Keys - j.own)
    ensures j.cells !! Cells(h, Ref(j.root), t)
  {
    CellsExist(h, j.value, j.tv);
    OwnsFrame(h, h', j.value, j.tv);
  }

  lemma MidwayCreates(j: Job, h: Heap, h': Heap, t: Tree, i: nat, current: nat, newMap: nat)
    requires i < |j.parts| - 1 && Midway(j, h, t, i, current)
    requires current in h && h[current].MapCell? && newMap !in h && newMap >= j.next
    requires !(Lookup(t, j.parts[..i + 1]).Some? && Lookup(t, j.parts[..i + 1]).value.Node?)
    requires h' == h[newMap := MapCell(map[])][current := MapCell(h[current].entries[j.parts[i] := Ref(newMap)])]
    ensures Midway(j, h', Store(t, j.parts[..i + 1], EMPTY), i + 1, newMap)
  {
    CursorIsMap(h, j.root, t, j.parts, i, current);
    RestKept(j, h, h', t, i, current);
    CursorCreates(h, h', j.root, t, j.parts, i, current, newMap);
    CreatingMapsOnTheWay(t, j.parts[..i + 1], j.parts, j.tv);
  }

  /** What a finished Set has achieved. */
  ghost predicate Finished(j: Job, h: Heap)
    requires j.parts != []
  {
    var t := Store(j.tree, j.parts, j.tv);
    && Owns(h, Ref(j.root), t)
    && (forall a | a in Cells(h, Ref(j.root), t) :: a in j.own || a in j.cells || a >= j.next)
    && SameAt(j.before, h, j.before.Keys - j.own)
  }

  lemma MidwayFinishes(j: Job, h: Heap, h': Heap, t: Tree, current: nat)
    requires j.parts != [] && Midway(j, h, t, |j.parts| - 1, current)
    requires current in h && h[current].MapCell?
    requires h' == h[current := MapCell(h[current].entries[j.parts[|j.parts| - 1] := j.value])]
    ensures Finished(j, h')
  {
    var last := |j.parts| - 1;
    CursorIsMap(h, j.root, t, j.parts, last, current);
    RestKept(j, h, h', t, last, current);
    WriteStores(h, h', Ref(j.root), t, j.parts[..last], current, j.parts[last], j.value, j.tv);
    assert j.parts[..last] + [j.parts[last]] == j.parts;
  }

  /** One turn of Set's loop: step into the map under the next part, creating it when there is none. */
  method Descend(m: Memory, ghost j: Job, ghost t: Tree, ghost i: nat, part: string, current: nat)
    returns (next: nat, ghost t': Tree)
    requires m.Valid() && m.next >= j.next && i < |j.parts| - 1 && part == j.parts[i]
             && Midway(j, m.cells, t, i, current)
    modifies m
    ensures m.Valid() && m.next >= j.next && Midway(j, m.cells, t', i + 1, next)
  {
    ghost var h := m.cells;
    CursorIsMap(h, j.root, t, j.parts, i, current);
    CursorNext(h, j.root, t, j.parts, i, current);
    var entries := m.cells[current].entries;
    if part in entries && entries[part].Ref? && entries[part].at in m.cells && m.cells[entries[part].at].MapCell? {
      next, t' := entries[part].at, t;
    } else {
      next := m.Alloc(MapCell(map[]));
      m.cells := m.cells[current := MapCell(entries[part := Ref(next)])];
      MidwayCreates(j, h, m.cells, t, i, current, next);
      t' := Store(t, j.parts[..i + 1], EMPTY);
    }
  }

  /** The last step of Set. */
  method Assign(m: Memory, ghost j: Job, ghost t: Tree, part: string, value: Value, current: nat)
    requires m.Valid() && j.parts != [] && part == j.parts[|j.parts| - 1] && value == j.value
    requires Midway(j, m.cells, t, |j.parts| - 1, current)
    modifies m`cells
    ensures m.Valid() && Finished(j, m.cells)
  {
    ghost var h := m.cells;
    CursorIsMap(h, j.root, t, j.parts, |j.parts| - 1, current);
    m.cells := m.cells[current := MapCell(m.cells[current].entries[part := value])];
    MidwayFinishes(j, h, m.cells, t, current);
  }

  // ---------- the context ----------

  class Gontext {
    const memory: Memory
    const values: nat
    /** What the context holds, as a tree. */
    ghost var tree: Tree

    ghost predicate Valid()
      reads this, memory
    {
      memory.Valid() && tree.Node? && Owns(memory.cells, Ref(values), tree)
    }

    /** The cells the context consists of. */
    ghost function Own(): set<nat>
      requires Valid()
      reads this, memory
    {
      Cells(memory.cells, Ref(values), tree)
    }

    /** New wraps a map that it has just copied. */
    constructor Wrap(m: Memory, at: nat, ghost t: Tree)
      requires m.Valid() && t.Node? && Owns(m.cells, Ref(at), t)
      ensures Valid() && memory == m && values == at && tree == t
    {
      memory, values, tree := m, at, t;
    }

    /** The value at a path is found, as the value the tree has there, or the path is not found. */
    method Get(path: string) returns (r: Option<Value>)
      requires Valid()
      ensures var found := Lookup(tree, SplitDots(path));
              && (r.Some? <==> found.Some?)
              && (r.Some? ==>
                Owns(memory.cells, r.value, found.value) && Cells(memory.cells, r.value, found.value) <= Own())
    {
      var parts := SplitDots(path);
      var current := Ref(values);
      ResolveIsLookup(memory.cells, Ref(values), tree, parts);
      for i := 0 to |parts|
        invariant Resolve(memory.cells, Ref(values), parts) == Resolve(memory.cells, current, parts[i..])
      {
        assert parts[i..][0] == parts[i] && parts[i..][1..] == parts[i + 1..];
        if !(current.Ref? && current.at in memory.cells && memory.cells[current.at].MapCell?) {
          return None;
        }
        var v := memory.cells[current.at].entries;
        if parts[i] !in v {
          return None;
        }
        current := v[parts[i]];
      }
      return Some(current);
    }

    /**
     Store a value that shares nothing with the context: afterwards the context holds the tree with that value stored
     at the path, and no cell outside the context has changed.
     */
    method Set(path: string, value: Value, ghost tv: Tree)
      requires Valid() && Owns(memory.cells, value, tv) && Cells(memory.cells, value, tv) !! Own()
      modifies memory, this`tree
      ensures Valid() && tree == Store(old(tree), SplitDots(path), tv) && memory.next >= old(memory.next)
      ensures SameAt(old(memory.cells), memory.cells, old(memory.cells).Keys - old(Own()))
      ensures forall a | a in Own() :: a in old(Own() + Cells(memory.cells, value, tv)) || a >= old(memory.next)
    {
      var parts := SplitDots(path);
      ghost var j :=
        Job(values, parts, value, tv, memory.cells, memory.next, tree, Own(), Cells(memory.cells, value, tv));
      StartsMidway(j);
      ghost var t := tree;
      var current := values;
      for i := 0 to |parts| - 1
        invariant memory.Valid() && memory.next >= j.next && tree == j.tree
        invariant Midway(j, memory.cells, t, i, current)
      {
        current, t := Descend(memory, j, t, i, parts[i], current);
      }
      Assign(memory, j, t, parts[|parts| - 1], value, current);
      tree := Store(j.tree, parts, tv);
    }

    /** A copy of everything: equal to the context, and made of cells that did not exist before. */
    method GetAll() returns (result: nat)
      requires Valid()
      modifies memory
      ensures Valid() && memory.next >= old(memory.next) && Grown(old(memory.cells), memory.cells)
      ensures Owns(memory.cells, Ref(result), tree)
      ensures Cells(memory.cells, Ref(result), tree) !! old(memory.cells).Keys
      ensures Own() == old(Own()) && Cells(memory.cells, Ref(result), tree) !! Own()
    {
      ghost var before := memory.cells;
      CellsExist(before, Ref(values), tree);
      result := CopyMap(memory, values, tree);
      GrownKeeps(before, memory.cells, Ref(values), tree);
    }
  }

  /** A context with a deep copy of the initial values, or an empty one when there are none. */
  method New(m: Memory, initial: Option<nat>, ghost t: Tree) returns (g: Gontext)
    requires m.Valid() && t.Node?
    requires if initial.Some? then Reads(m.cells, Ref(initial.value), t) else t == EMPTY
    modifies m
    ensures fresh(g) && g.Valid() && g.memory == m && g.tree == t
    ensures Grown(old(m.cells), m.cells) && m.next >= old(m.next) && forall a | a in g.Own() :: a >= old(m.next)
  {
    var at: nat;
    if initial.None? {
      var empty := m.Alloc(MapCell(map[]));
      at := CopyMap(m, empty, t);
    } else {
      at := CopyMap(m, initial.value, t);
    }
    g := new Gontext.Wrap(m, at, t);
  }
}
