/**
 What paths mean: a path written as names and indexes is navigated name by name and index by index, and the walker
 panics in exactly one situation (`jsonpath/jsonpath.go`).
 */
module JsonPathMeaning {
  import opened Wrappers
  import opened Strconv
  import opened JsonPath

  // ---------- keys without an index ----------

  /** A key that does not end in ']', or has no '[', selects the member of that name; a list or a scalar stays whole. */
  lemma KeysWithoutIndex(key: string, value: Json)
    requires key == "" || key[|key| - 1] != ']' || '[' !in key
    ensures value.Obj? && key in value.fields ==> Extract(key, value) == Value(value.fields[key])
    ensures value.Obj? && key !in value.fields ==> Extract(key, value) == Value(Null)
    ensures !value.Obj? ==> Extract(key, value) == Value(value)
  {
  }

  // ---------- panics ----------

  /** A key like name[3]: something before its first index, which is a number. */
  predicate IndexesAField(key: string) {
    CutKey(key).Cut? && CutKey(key).name != ""
  }

  lemma LaterIndexesAreNotFields(key: string)
    requires key != "" && key[0] == '['
    ensures !IndexesAField(key)
  {
    assert IndexOf(key, '[', 0) == 0;
  }

  lemma {:induction false} ExtractPanicsIff(key: string, value: Json)
    ensures Extract(key, value) == Panic <==> IndexesAField(key) && !value.Obj? && !value.Null?
    decreases |key|
  {
    var c := CutKey(key);
    if c.Cut? && Indexed(c.name, value).Value? {
      var base := Indexed(c.name, value).v;
      if c.index < |Items(base)| && c.rest != "" && c.rest[0] == '[' {
        ExtractPanicsIff(c.rest, Items(base)[c.index]);
        LaterIndexesAreNotFields(c.rest);
      }
    }
  }

  /**
   The unchecked type assertions fail exactly when the first key indexes a field and the document is neither an
   object nor null: data[0] on the document [1,2] stops the program, and no later key ever does.
   */
  lemma {:induction false} WalkPanicsIff(path: string, value: Json)
    ensures Follow(Split(path), value) == Panicked <==> IndexesAField(Split(path)[0]) && !value.Obj? && !value.Null?
  {
    FollowPanicsIff(Split(path), value);
  }

  lemma {:induction false} FollowPanicsIff(keys: seq<string>, value: Json)
    requires |keys| > 0
    ensures Follow(keys, value) == Panicked <==> IndexesAField(keys[0]) && !value.Obj? && !value.Null?
    decreases |keys|
  {
    ExtractPanicsIff(keys[0], value);
    var x := Extract(keys[0], value);
    if x.Value? && x.v.Obj? && |keys| > 1 {
      FollowPanicsIff(keys[1..], x.v);
    }
  }

  lemma DataOfAListPanics()
    ensures Follow(Split("data[0]"), Arr([Number(1.0), Number(2.0)])) == Panicked
  {
    var key := "data[0]";
    assert IndexOf(key, '[', 0) == 4 && IndexOf(key, ']', 5) == 6;
    assert key[5..6] == Itoa(0);
    AtoiOfItoa(0);
    FirstKeyOnly(key);
    WalkPanicsIff(key, Arr([Number(1.0), Number(2.0)]));
  }

  lemma FirstKeyOnly(path: string)
    requires '.' !in path
    ensures Split(path) == [path]
  {
    NoDotNoSplit(path, 0, 0, |path|, 0);
  }

  // ---------- paths as names and indexes ----------

  /** Text without dots and brackets. */
  predicate Plain(text: string) {
    '.' !in text && '[' !in text && ']' !in text
  }

  /** One key of a path: a name, followed by the texts of its indexes. */
  datatype Segment = Segment(name: string, indexes: seq<string>)
  {
    predicate Valid() {
      Plain(name) && forall text <- indexes :: Plain(text)
    }
  }

  function Indexes(indexes: seq<string>): string {
    if indexes == [] then "" else "[" + (indexes[0] + ("]" + Indexes(indexes[1..])))
  }

  function Render(s: Segment): string {
    s.name + Indexes(s.indexes)
  }

  function RenderPath(segments: seq<Segment>): string
    requires |segments| > 0
  {
    if |segments| == 1 then Render(segments[0]) else Render(segments[0]) + "." + RenderPath(segments[1..])
  }

  /** The element of a list at an index, and null for every index that is not one. */
  function At(value: Json, index: string): Json {
    match ParseIndex(index)
    case None => Null
    case Some(i) => if i < |Items(value)| then Items(value)[i] else Null
  }

  /** The element of nested lists at a list of indexes. */
  function Dig(value: Json, indexes: seq<string>): Json
    decreases |indexes|
  {
    if indexes == [] then value else Dig(At(value, indexes[0]), indexes[1..])
  }

  /**
   A name selects a field of an object and leaves any other value as it is; indexes then dig into lists. Only an
   index that is a number asks for the field of something that has none.
   */
  function Select(s: Segment, value: Json): Extraction {
    if s.indexes == [] then Value(if value.Obj? then Field(value.fields, s.name) else value)
    else if ParseIndex(s.indexes[0]).None? then Value(Null)
    else
      match Indexed(s.name, value)
      case Panic => Panic
      case Value(base) => Value(Dig(base, s.indexes))
  }

  function Navigate(segments: seq<Segment>, value: Json): Outcome
    requires |segments| > 0
  {
    var x := Select(segments[0], value);
    if x.Panic? then Panicked
    else if x.v.Obj? && |segments| > 1 then Navigate(segments[1..], x.v)
    else Report(x.v, Render(segments[0]), if |segments| > 1 then Some(Render(segments[1])) else None)
  }

  /** Every index that fits the platform's int can be written in decimal, and means itself. */
  lemma DecimalIndexesWork(i: nat)
    requires i <= MAX_INT64
    ensures Plain(Itoa(i)) && ParseIndex(Itoa(i)) == Some(i)
  {
    ItoaCharacters(i);
    AtoiOfItoa(i);
  }

  /** Of the numbers that can be written, the indexes are those from 0 that fit an int. */
  lemma DecimalIndexIff(n: int)
    ensures ParseIndex(Itoa(n)) == if 0 <= n <= 0x7fff_ffff_ffff_ffff then Some(n) else None
  {
    AtoiOfItoaIff(n);
  }

  // ---------- one key ----------

  lemma {:induction false} IndexesEndInBracket(indexes: seq<string>)
    requires indexes != []
    ensures var s := Indexes(indexes); s != "" && s[0] == '[' && s[|s| - 1] == ']'
    decreases |indexes|
  {
    if |indexes| > 1 {
      IndexesEndInBracket(indexes[1..]);
    }
  }

  /** The key consists of a name, an index in brackets, and a rest. */
  ghost predicate Consists(key: string, name: string, index: string, rest: string) {
    var close := |name| + 1 + |index|;
    && close < |key| && key[|name|] == '[' && key[close] == ']'
    && key[..|name|] == name && key[|name| + 1..close] == index && key[close + 1..] == rest
  }

  lemma TextOfKey(key: string, name: string, index: string, rest: string)
    requires key == name + ("[" + (index + ("]" + rest)))
    ensures Consists(key, name, index, rest)
  {
  }

  lemma BracketsAt(key: string, open: nat, close: nat)
    requires open < close < |key| && key[open] == '[' && key[close] == ']'
    requires '[' !in key[..open] && '[' !in key[open + 1..close] && ']' !in key[open + 1..close]
    ensures FirstBrackets(key) == Some((open, close))
  {
    forall k | 0 <= k < open ensures key[k] != '[' { assert key[k] == key[..open][k]; }
    forall k | open < k < close ensures key[k] != '[' && key[k] != ']' {
      assert key[k] == key[open + 1..close][k - open - 1];
    }
    assert IndexOf(key, '[', 0) == open;
    assert IndexOf(key, ']', open + 1) == close;
    assert IndexOf(key, '[', open + 1) > close;
  }

  lemma EndsIndexed(name: string, tail: string)
    requires tail != "" && tail[0] == '[' && tail[|tail| - 1] == ']'
    ensures IsIndexed(name + tail)
  {
    var key := name + tail;
    assert key[|name|] == '[' && key[|key| - 1] == ']';
  }

  /** A written key is taken apart where it was written. */
  lemma CutWritten(key: string, name: string, index: string, rest: string)
    requires Consists(key, name, index, rest)
    requires Plain(name) && Plain(index) && IsIndexed(key)
    ensures CutKey(key) == if ParseIndex(index).None? then Broken else Cut(name, ParseIndex(index).value, rest)
  {
    BracketsAt(key, |name|, |name| + 1 + |index|);
  }

  lemma {:induction false} DiggingNothing(indexes: seq<string>)
    ensures Dig(Null, indexes) == Null
    decreases |indexes|
  {
    if indexes != [] {
      DiggingNothing(indexes[1..]);
    }
  }

  lemma {:induction false} ExtractKey(name: string, indexes: seq<string>, value: Json)
    requires Segment(name, indexes).Valid() && indexes != []
    ensures Extract(name + Indexes(indexes), value) == Select(Segment(name, indexes), value)
    decreases |indexes|, 1
  {
    IndexesEndInBracket(indexes);
    EndsIndexed(name, Indexes(indexes));
    assert indexes[0] in indexes;
    TextOfKey(name + Indexes(indexes), name, indexes[0], Indexes(indexes[1..]));
    CutWritten(name + Indexes(indexes), name, indexes[0], Indexes(indexes[1..]));
    ContinueSelects(name, indexes, value);
  }

  lemma {:induction false} ContinueSelects(name: string, indexes: seq<string>, value: Json)
    requires Segment(name, indexes).Valid() && indexes != []
    ensures ParseIndex(indexes[0]).Some? ==>
              Continue(name, ParseIndex(indexes[0]).value, Indexes(indexes[1..]), value) ==
              Select(Segment(name, indexes), value)
    decreases |indexes|, 0
  {
    var rest := indexes[1..];
    DiggingNothing(rest);
    if Indexed(name, value).Value? {
      var base := Indexed(name, value).v;
      var item := At(base, indexes[0]);
      assert Dig(base, indexes) == Dig(item, rest);
      if rest != [] {
        RestSelects(rest, item);
      } else {
        assert Indexes(rest) == "";
      }
    }
  }

  /** The indexes after the first one are a key of their own, without a name. */
  lemma {:induction false} RestSelects(rest: seq<string>, item: Json)
    requires Segment("", rest).Valid() && rest != []
    ensures Indexes(rest) != "" && Indexes(rest)[0] == '[' && Extract(Indexes(rest), item) == Value(Dig(item, rest))
    decreases |rest|, 2
  {
    assert "" + Indexes(rest) == Indexes(rest);
    ExtractKey("", rest, item);
    SelectWithoutName(rest, item);
  }

  lemma SelectWithoutName(indexes: seq<string>, value: Json)
    requires indexes != []
    ensures Select(Segment("", indexes), value) == Value(Dig(value, indexes))
  {
    DiggingNothing(indexes[1..]);
  }

  /** Extracting a rendered key selects what the key means. */
  lemma ExtractRendered(s: Segment, value: Json)
    requires s.Valid()
    ensures Extract(Render(s), value) == Select(s, value)
  {
    if s.indexes == [] {
      assert Render(s) == s.name;
    } else {
      assert s == Segment(s.name, s.indexes);
      ExtractKey(s.name, s.indexes, value);
    }
  }

  // ---------- whole paths ----------

  lemma {:induction false} NoDotNoSplit(path: string, start: nat, i: nat, j: nat, depth: int)
    requires start <= i <= j <= |path|
    requires forall k | i <= k < j :: path[k] != '.'
    ensures SplitFrom(path, start, i, depth) == SplitFrom(path, start, j, DepthAfter(path[i..j], depth))
    decreases j - i
  {
    if i < j {
      NoDotNoSplit(path, start, i + 1, j, Depth(depth, path[i]));
      assert path[i..j][1..] == path[i + 1..j];
    } else {
      assert path[i..j] == "";
    }
  }

  function DepthAfter(s: string, depth: int): int {
    if s == "" then depth else DepthAfter(s[1..], Depth(depth, s[0]))
  }

  lemma {:induction false} DepthAfterConcat(s: string, t: string, depth: int)
    ensures DepthAfter(s + t, depth) == DepthAfter(t, DepthAfter(s, depth))
    decreases |s|
  {
    if s == "" {
      assert s + t == t;
    } else {
      assert (s + t)[1..] == s[1..] + t;
      DepthAfterConcat(s[1..], t, Depth(depth, s[0]));
    }
  }

  lemma {:induction false} NoBracketsNoDepth(s: string, depth: int)
    requires '[' !in s && ']' !in s
    ensures DepthAfter(s, depth) == depth
    decreases |s|
  {
    if s != "" {
      NoBracketsNoDepth(s[1..], depth);
    }
  }

  lemma {:induction false} IndexesAreBalanced(indexes: seq<string>)
    requires forall text <- indexes :: Plain(text)
    ensures DepthAfter(Indexes(indexes), 0) == 0 && '.' !in Indexes(indexes)
    decreases |indexes|
  {
    if indexes != [] {
      var text, rest := indexes[0], Indexes(indexes[1..]);
      assert text in indexes;
      IndexesAreBalanced(indexes[1..]);
      NoBracketsNoDepth(text, 1);
      DepthAfterConcat("[", text + ("]" + rest), 0);
      DepthAfterConcat(text, "]" + rest, 1);
      DepthAfterConcat("]", rest, 1);
      assert DepthAfter("[", 0) == DepthAfter("", 1) && DepthAfter("]", 1) == DepthAfter("", 0);
    }
  }

  lemma RenderedIsBalanced(s: Segment)
    requires s.Valid()
    ensures DepthAfter(Render(s), 0) == 0 && '.' !in Render(s)
  {
    IndexesAreBalanced(s.indexes);
    NoBracketsNoDepth(s.name, 0);
    DepthAfterConcat(s.name, Indexes(s.indexes), 0);
  }

  lemma SplitRenderedHead(s: Segment, rest: string)
    requires s.Valid()
    ensures Split(Render(s)) == [Render(s)]
    ensures Split(Render(s) + "." + rest) == [Render(s)] + Split(rest)
  {
    var key := Render(s);
    var path := key + "." + rest;
    RenderedIsBalanced(s);
    assert key[0..|key|] == key && path[0..|key|] == key;
    NoDotNoSplit(key, 0, 0, |key|, 0);
    NoDotNoSplit(path, 0, 0, |key|, 0);
    SplitFromSuffix(path, |key| + 1, |key| + 1, |key| + 1, 0);
    assert path[|key| + 1..] == rest;
  }

  lemma SplitRendered(segments: seq<Segment>)
    requires |segments| > 0 && segments[0].Valid()
    ensures Split(RenderPath(segments)) ==
            [Render(segments[0])] + if |segments| == 1 then [] else Split(RenderPath(segments[1..]))
  {
    SplitRenderedHead(segments[0], if |segments| == 1 then "" else RenderPath(segments[1..]));
  }

  /**
   A path means what its names and indexes say: for every document, walking the written path is navigating the
   document segment by segment.
   */
  lemma {:induction false} WalkNavigates(segments: seq<Segment>, value: Json)
    requires |segments| > 0 && forall s <- segments :: s.Valid()
    ensures Follow(Split(RenderPath(segments)), value) == Navigate(segments, value)
    decreases |segments|
  {
    ExtractRendered(segments[0], value);
    SplitRendered(segments);
    if |segments| > 1 {
      var rest, x := segments[1..], Select(segments[0], value);
      var keys := Split(RenderPath(rest));
      SplitRendered(rest);
      assert ([Render(segments[0])] + keys)[1..] == keys;
      if x.Value? && x.v.Obj? {
        WalkNavigates(rest, x.v);
      }
    }
  }
}
