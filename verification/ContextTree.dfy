/**
 The values of a suite context as trees, and the laws of looking up and storing at a dotted path
 (`config/gontext/gontext.go`). Gontext connects these trees to the nested maps in memory.
 */
module ContextTree {
  import opened Wrappers

  /** Scalar stands for every value that is neither a map[string]interface{} nor a []interface{}. */
  datatype Tree = Scalar(value: int) | List(items: seq<Tree>) | Node(entries: map<string, Tree>)

  const EMPTY := Node(map[])

  function Lookup(t: Tree, parts: seq<string>): Option<Tree> {
    if parts == [] then Some(t)
    else if t.Node? && parts[0] in t.entries then Lookup(t.entries[parts[0]], parts[1..])
    else None
  }

  /** What storing walks into: the map under a key, or a new one when there is none, whatever else is there. */
  function Below(t: Tree, part: string): (r: Tree)
    ensures r.Node?
  {
    if t.Node? && part in t.entries && t.entries[part].Node? then t.entries[part] else EMPTY
  }

  function Entries(t: Tree): map<string, Tree> {
    if t.Node? then t.entries else map[]
  }

  function Store(t: Tree, parts: seq<string>, v: Tree): (r: Tree)
    requires parts != []
    ensures r.Node?
    decreases |parts|, 1
  {
    Node(Entries(t)[parts[0] := Child(t, parts, v)])
  }

  /** What ends up under the first part. */
  function Child(t: Tree, parts: seq<string>, v: Tree): Tree
    requires parts != []
    decreases |parts|, 0
  {
    if |parts| == 1 then v else Store(Below(t, parts[0]), parts[1..], v)
  }

  // ---------- dotted paths ----------

  /** strings.Split(path, "."). */
  function SplitDots(path: string): (parts: seq<string>)
    ensures parts != []
    ensures forall part <- parts :: '.' !in part
  {
    if path == "" then [""]
    else
      var rest := SplitDots(path[1..]);
      if path[0] == '.' then [""] + rest else [[path[0]] + rest[0]] + rest[1..]
  }

  function JoinDots(parts: seq<string>): string
    requires parts != []
  {
    if |parts| == 1 then parts[0] else parts[0] + "." + JoinDots(parts[1..])
  }

  /** A path is determined by its parts. */
  lemma {:induction false} JoinOfSplit(path: string)
    ensures JoinDots(SplitDots(path)) == path
    decreases |path|
  {
    if path != "" {
      var rest := SplitDots(path[1..]);
      JoinOfSplit(path[1..]);
      if path[0] == '.' {
        assert ([""] + rest)[1..] == rest;
      } else {
        var parts := [[path[0]] + rest[0]] + rest[1..];
        assert parts[1..] == rest[1..];
        assert path == [path[0]] + path[1..];
      }
    }
  }

  // ---------- laws ----------

  ghost predicate Prefix(p: seq<string>, q: seq<string>) {
    |p| <= |q| && q[..|p|] == p
  }

  ghost predicate Comparable(p: seq<string>, q: seq<string>) {
    Prefix(p, q) || Prefix(q, p)
  }

  lemma ComparableTails(p: seq<string>, q: seq<string>)
    requires p != [] && q != [] && p[0] == q[0]
    ensures Comparable(p[1..], q[1..]) <==> Comparable(p, q)
  {
    forall a: seq<string>, b: seq<string> | a != [] && b != [] && a[0] == b[0]
      ensures Prefix(a[1..], b[1..]) <==> Prefix(a, b)
    {
      if |a| <= |b| {
        assert b[..|a|] == [b[0]] + b[1..][..|a| - 1] && a == [a[0]] + a[1..];
      }
    }
  }

  lemma IncomparableTails(p: seq<string>, q: seq<string>)
    requires p != [] && q != [] && p[0] == q[0] && !Comparable(p, q)
    ensures |p| > 1 && |q| > 1 && !Comparable(p[1..], q[1..])
  {
    ComparableTails(p, q);
  }

  /** What was stored is found, and below it what was stored with it. */
  lemma {:induction false} LookupStored(t: Tree, p: seq<string>, v: Tree, q: seq<string>)
    requires p != []
    ensures Lookup(Store(t, p, v), p + q) == Lookup(v, q)
    decreases |p|
  {
    assert (p + q)[1..] == p[1..] + q;
    if |p| > 1 {
      LookupStored(Below(t, p[0]), p[1..], v, q);
    } else {
      assert p[1..] + q == q;
    }
  }

  lemma LookupBelow(t: Tree, part: string, q: seq<string>)
    requires q != []
    ensures Lookup(Below(t, part), q) == Lookup(t, [part] + q)
  {
    assert ([part] + q)[1..] == q;
  }

  /** Every path that is neither a prefix nor an extension gives the same answer as before, found or not. */
  lemma {:induction false} LookupElsewhere(t: Tree, p: seq<string>, v: Tree, q: seq<string>)
    requires p != [] && !Comparable(p, q)
    ensures Lookup(Store(t, p, v), q) == Lookup(t, q)
    decreases |p|
  {
    assert q != [];
    if p[0] == q[0] {
      IncomparableTails(p, q);
      LookupElsewhere(Below(t, p[0]), p[1..], v, q[1..]);
      LookupBelow(t, p[0], q[1..]);
      assert [q[0]] + q[1..] == q;
    }
  }

  /** Every strict prefix leads to a map, even where something else had to be overwritten. */
  lemma {:induction false} PrefixesAreMaps(t: Tree, p: seq<string>, v: Tree, n: nat)
    requires n < |p|
    ensures var r := Lookup(Store(t, p, v), p[..n]); r.Some? && r.value.Node?
    decreases |p|
  {
    if n > 0 {
      PrefixesAreMaps(Below(t, p[0]), p[1..], v, n - 1);
      assert p[..n][1..] == p[1..][..n - 1];
    }
  }

  /** A second value at the same path replaces the first. */
  lemma {:induction false} StoreTwice(t: Tree, p: seq<string>, v: Tree, w: Tree)
    requires p != []
    ensures Store(Store(t, p, v), p, w) == Store(t, p, w)
    decreases |p|
  {
    if |p| > 1 {
      StoreTwice(Below(t, p[0]), p[1..], v, w);
      assert Below(Store(t, p, v), p[0]) == Store(Below(t, p[0]), p[1..], v);
    }
    assert Entries(t)[p[0] := w] == Entries(t)[p[0] := v][p[0] := w];
  }

  lemma BelowStored(t: Tree, p: seq<string>, v: Tree, part: string)
    requires p != []
    ensures Below(Store(t, p, v), part) ==
            if part != p[0] then Below(t, part)
            else if |p| > 1 then Store(Below(t, part), p[1..], v)
            else if v.Node? then v else EMPTY
  {
  }

  lemma StoresCommuteApart(t: Tree, p: seq<string>, v: Tree, q: seq<string>, w: Tree)
    requires p != [] && q != [] && p[0] != q[0]
    ensures Store(Store(t, p, v), q, w) == Store(Store(t, q, w), p, v)
  {
    BelowStored(t, p, v, q[0]);
    BelowStored(t, q, w, p[0]);
    var x, y := Child(t, p, v), Child(t, q, w);
    assert Child(Store(t, p, v), q, w) == y && Child(Store(t, q, w), p, v) == x;
    assert Entries(t)[p[0] := x][q[0] := y] == Entries(t)[q[0] := y][p[0] := x];
  }

  lemma StoreUnder(t: Tree, p: seq<string>, v: Tree, q: seq<string>, w: Tree)
    requires |p| > 1 && |q| > 1 && p[0] == q[0]
    ensures Store(Store(t, p, v), q, w) == Node(Entries(t)[p[0] := Store(Store(Below(t, p[0]), p[1..], v), q[1..], w)])
  {
    BelowStored(t, p, v, q[0]);
    var inner := Store(Below(t, p[0]), p[1..], v);
    assert Store(t, p, v).entries == Entries(t)[p[0] := inner];
    assert Entries(t)[p[0] := inner][p[0] := Store(inner, q[1..], w)] == Entries(t)[p[0] := Store(inner, q[1..], w)];
  }

  /** Storing at two paths, neither a prefix of the other, can be done in either order. */
  lemma {:induction false} StoresCommute(t: Tree, p: seq<string>, v: Tree, q: seq<string>, w: Tree)
    requires p != [] && q != [] && !Comparable(p, q)
    ensures Store(Store(t, p, v), q, w) == Store(Store(t, q, w), p, v)
    decreases |p|
  {
    if p[0] == q[0] {
      IncomparableTails(p, q);
      StoresCommute(Below(t, p[0]), p[1..], v, q[1..], w);
      StoreUnder(t, p, v, q, w);
      StoreUnder(t, q, w, p, v);
    } else {
      StoresCommuteApart(t, p, v, q, w);
    }
  }
}
