/**
 The JSON path walker (`jsonpath/jsonpath.go`), from an already parsed value on. Walk and ExtractValue follow the
 code: Walk re-splits the path at every level and deletes the leading key by text replacement. Their meaning is a
 path split once, whose keys are followed from left to right.
 */
module JsonPath {
  import opened Wrappers
  import opened Strconv

  datatype Json =
    | Null
    | Bool(b: bool)
    | Number(x: real)
    | Str(s: string)
    | Arr(items: seq<Json>)
    | Obj(fields: map<string, Json>)

  /** A value, or the failed type assertion that stops the program. */
  datatype Extraction = Value(v: Json) | Panic

  /**
   What a walk reports. Text and List come with the length of the text and of the list; the texts of Minified
   (json.Marshal), List and Scalar (fmt.Sprintf) are not modelled.
   */
  datatype Outcome =
    | Text(text: string, length: nat)
    | Minified(fields: map<string, Json>)
    | List(items: seq<Json>, length: nat)
    | Scalar(v: Json)
    | StringInTheWay(next: string, key: string)
    | NothingThere(key: string)
    | Panicked

  // ---------- text ----------

  /** Position of the first c in s at or after from, or |s|. */
  function IndexOf(s: string, c: char, from: nat): (i: nat)
    requires from <= |s|
    ensures from <= i <= |s|
    ensures forall k | from <= k < i :: s[k] != c
    ensures i < |s| ==> s[i] == c
    decreases |s| - from
  {
    if from == |s| || s[from] == c then from else IndexOf(s, c, from + 1)
  }

  predicate Occurs(s: string, part: string, k: nat) {
    k + |part| <= |s| && s[k..k + |part|] == part
  }

  /** Position of the first occurrence of part in s at or after from, or None. */
  function Find(s: string, part: string, from: nat): (r: Option<nat>)
    requires from <= |s|
    ensures r.Some? ==> from <= r.value && Occurs(s, part, r.value)
    ensures forall k: nat | from <= k && Occurs(s, part, k) :: r.Some? && r.value <= k
    decreases |s| - from
  {
    if Occurs(s, part, from) then Some(from)
    else if from == |s| then None
    else Find(s, part, from + 1)
  }

  /** strings.Replace(s, part, "", 1) for a part that is not empty. */
  function DeleteFirst(s: string, part: string): (r: string)
    requires part != ""
    ensures Find(s, part, 0).None? ==> r == s
    ensures r != s ==> |r| < |s|
  {
    var at := Find(s, part, 0);
    if at.None? then s else s[..at.value] + s[at.value + |part|..]
  }

  // ---------- splitting a path ----------

  function Depth(depth: int, c: char): int {
    if c == '[' then depth + 1 else if c == ']' then depth - 1 else depth
  }

  /** The keys of path[start..], given the bracket depth at position i inside the first of them. */
  function SplitFrom(path: string, start: nat, i: nat, depth: int): (keys: seq<string>)
    requires start <= i <= |path|
    ensures |keys| > 0
    decreases |path| - i
  {
    if i == |path| then [path[start..]]
    else if path[i] == '.' && depth == 0 then [path[start..i]] + SplitFrom(path, i + 1, i + 1, 0)
    else SplitFrom(path, start, i + 1, Depth(depth, path[i]))
  }

  /** A path split once, at the dots outside brackets. */
  function Split(path: string): (keys: seq<string>)
    ensures |keys| > 0
  {
    SplitFrom(path, 0, 0, 0)
  }

  lemma {:induction false} SplitFromSuffix(path: string, cut: nat, start: nat, i: nat, depth: int)
    requires cut <= start <= i <= |path|
    ensures SplitFrom(path, start, i, depth) == SplitFrom(path[cut..], start - cut, i - cut, depth)
    decreases |path| - i
  {
    if i == |path| {
      assert path[start..] == path[cut..][start - cut..];
    } else if path[i] == '.' && depth == 0 {
      assert path[start..i] == path[cut..][start - cut..i - cut];
      SplitFromSuffix(path, cut, i + 1, i + 1, 0);
    } else {
      SplitFromSuffix(path, cut, start, i + 1, Depth(depth, path[i]));
    }
  }

  lemma {:induction false} FirstKeyFrom(path: string, i: nat, depth: int)
    requires i <= |path|
    ensures var keys := SplitFrom(path, 0, i, depth);
            if |keys| == 1 then keys[0] == path
            else
              && |keys[0]| < |path| && path[..|keys[0]|] == keys[0] && path[|keys[0]|] == '.'
              && keys[1..] == Split(path[|keys[0]| + 1..])
    decreases |path| - i
  {
    if i < |path| {
      if path[i] == '.' && depth == 0 {
        SplitFromSuffix(path, i + 1, i + 1, i + 1, 0);
      } else {
        FirstKeyFrom(path, i + 1, Depth(depth, path[i]));
      }
    }
  }

  /**
   Deleting the first "key." from a path removes exactly its leading key, and leaves the path unchanged exactly
   when that key is the last one; splitting what remains gives the remaining keys.
   */
  lemma DeletingTheFirstKey(path: string)
    ensures var keys := Split(path);
            var rest := DeleteFirst(path, keys[0] + ".");
            && (rest == path <==> |keys| == 1)
            && (|keys| > 1 ==> rest == path[|keys[0]| + 1..] && Split(rest) == keys[1..])
  {
    var keys := Split(path);
    FirstKeyFrom(path, 0, 0);
    var part := keys[0] + ".";
    if |keys| > 1 {
      assert Occurs(path, part, 0);
      assert DeleteFirst(path, part) == path[|part|..];
    }
  }

  // ---------- one key ----------

  predicate IsIndexed(key: string) {
    key != "" && key[|key| - 1] == ']' && '[' in key
  }

  /** The first "[...]" of a key: its brackets enclose no other bracket. */
  function FirstBrackets(key: string): (r: Option<(nat, nat)>)
    ensures r.Some? ==> r.value.0 < r.value.1 < |key| && key[r.value.0] == '[' && key[r.value.1] == ']'
  {
    var open := IndexOf(key, '[', 0);
    if open == |key| then None
    else
      var close := IndexOf(key, ']', open + 1);
      if close < |key| && close < IndexOf(key, '[', open + 1) then Some((open, close)) else None
  }

  /** strconv.Atoi, refusing negative numbers. */
  function ParseIndex(text: string): (r: Option<nat>)
    ensures text == "" ==> r == None
  {
    var n := Atoi(text);
    if n.None? || n.value < 0 then None else Some(n.value)
  }

  function Items(v: Json): seq<Json> {
    if v.Arr? then v.items else []
  }

  function Field(fields: map<string, Json>, name: string): Json {
    if name in fields then fields[name] else Null
  }

  /**
   The list an index applies to: the value itself, or one of its fields; asking a field of anything but an object or
   null panics.
   */
  function Indexed(name: string, value: Json): Extraction {
    if name == "" || value.Null? then Value(value)
    else if value.Obj? then Value(Field(value.fields, name))
    else Panic
  }

  /** A key taken apart at its first index; Broken when that index is not a number. */
  datatype Cut = Unindexed | Broken | Cut(name: string, index: nat, rest: string)

  function CutKey(key: string): (c: Cut)
    ensures c.Cut? ==> |c.rest| < |key|
  {
    if !IsIndexed(key) then Unindexed
    else if FirstBrackets(key).None? then Broken
    else
      var (open, close) := FirstBrackets(key).value;
      var index := ParseIndex(key[open + 1..close]);
      if index.None? then Broken else Cut(key[..open], index.value, key[close + 1..])
  }

  /** What a key selects from a value. */
  function Extract(key: string, value: Json): Extraction
    decreases |key|, 0
  {
    match CutKey(key)
    case Unindexed => Value(if value.Obj? then Field(value.fields, key) else value)
    case Broken => Value(Null)
    case Cut(name, index, rest) => Continue(name, index, rest, value)
  }

  /**
   The element at the first index of a key; when another index follows at once, the rest of the key is applied to it.
   */
  function Continue(name: string, index: nat, rest: string, value: Json): Extraction
    decreases |rest|, 1
  {
    var base := Indexed(name, value);
    if base.Panic? then Panic
    else if index >= |Items(base.v)| then Value(Null)
    else if rest != "" && rest[0] == '[' then Extract(rest, Items(base.v)[index])
    else Value(Items(base.v)[index])
  }

  /** What is reported for a value at which the walk ends, given the key after the current one. */
  function Report(v: Json, key: string, next: Option<string>): Outcome {
    match v
    case Obj(fields) => Minified(fields)
    case Str(s) => if next.Some? then StringInTheWay(next.value, key) else Text(s, |s|)
    case Arr(items) => List(items, |items|)
    case Null => NothingThere(key)
    case _ => Scalar(v)
  }

  /** Follow the keys from left to right: only an object is walked into, anything else ends the walk. */
  function Follow(keys: seq<string>, value: Json): Outcome
    requires |keys| > 0
  {
    var x := Extract(keys[0], value);
    if x.Panic? then Panicked
    else if x.v.Obj? && |keys| > 1 then Follow(keys[1..], x.v)
    else Report(x.v, keys[0], if |keys| > 1 then Some(keys[1]) else None)
  }

  // ---------- the code ----------

  /** The scan of extractValue: the position and text of the first index, and whether another index follows it. */
  method ScanBrackets(key: string) returns (start: nat, end: nat, index: string, nested: bool)
    requires IsIndexed(key)
    ensures var r := FirstBrackets(key);
            if r.Some? then
              r.value == (start, end) && index == key[start + 1..end]
                && nested == (end + 1 < |key| && key[end + 1] == '[')
            else index == ""
  {
    start, end, index, nested := 0, 0, "", false;
    var bracketDepth, i := 0, 0;
    ghost var open := IndexOf(key, '[', 0);
    assert open < |key|;
    ghost var nextOpen, nextClose := IndexOf(key, '[', open + 1), IndexOf(key, ']', open + 1);
    assert nextClose < |key|;
    while i < |key|
      invariant 0 <= i <= |key| && bracketDepth >= 0
      invariant if i <= open then start == 0 && bracketDepth == 0 else bracketDepth >= 1
      invariant i > open && bracketDepth == 1 ==> start == open && nextOpen >= i && nextClose >= i
      invariant bracketDepth > 1 ==> nextOpen < nextClose
      invariant index == "" && !nested
    {
      if key[i] == '[' {
        start := i;
        bracketDepth := bracketDepth + 1;
      } else if key[i] == ']' && bracketDepth == 1 {
        bracketDepth := bracketDepth - 1;
        end := i;
        index := key[start + 1..i];
        if |key| > i + 1 && key[i + 1] == '[' {
          nested := true;
        }
        break;
      }
      i := i + 1;
    }
  }

  method ExtractValue(currentKey: string, value: Json) returns (r: Extraction)
    ensures r == Extract(currentKey, value)
    decreases |currentKey|, 0
  {
    if IsIndexed(currentKey) {
      var startOfBracket, endOfBracket, index, isNestedArray := ScanBrackets(currentKey);
      var arrayIndex := ParseIndex(index);
      if arrayIndex.None? {
        r := Value(Null);
      } else {
        r := ExtractIndexed(currentKey[..startOfBracket], arrayIndex.value, currentKey[endOfBracket + 1..],
          isNestedArray, value);
      }
    } else if value.Obj? {
      r := Value(Field(value.fields, currentKey));
    } else {
      r := Value(value);
    }
  }

  /** The part of extractValue that has found an index. */
  method ExtractIndexed(currentKeyWithoutIndex: string, arrayIndex: nat, rest: string, isNestedArray: bool, value: Json)
    returns (r: Extraction)
    requires isNestedArray == (rest != "" && rest[0] == '[')
    ensures r == Continue(currentKeyWithoutIndex, arrayIndex, rest, value)
    decreases |rest|, 1
  {
    var base := Indexed(currentKeyWithoutIndex, value);
    if base.Panic? {
      return Panic;
    }
    var list := Items(base.v);
    if |list| <= arrayIndex {
      return Value(Null);
    }
    if isNestedArray {
      r := ExtractValue(rest, list[arrayIndex]);
    } else {
      r := Value(list[arrayIndex]);
    }
  }

  /** The splitting loop of walk. */
  method SplitKeys(path: string) returns (keys: seq<string>)
    ensures keys == Split(path)
  {
    keys := [];
    var startOfCurrentKey, bracketDepth := 0, 0;
    for i := 0 to |path|
      invariant 0 <= startOfCurrentKey <= i
      invariant keys + SplitFrom(path, startOfCurrentKey, i, bracketDepth) == Split(path)
    {
      if path[i] == '[' {
        bracketDepth := bracketDepth + 1;
      } else if path[i] == ']' {
        bracketDepth := bracketDepth - 1;
      }
      if path[i] == '.' && bracketDepth == 0 {
        keys := keys + [path[startOfCurrentKey..i]];
        startOfCurrentKey := i + 1;
      }
    }
    if startOfCurrentKey <= |path| {
      keys := keys + [path[startOfCurrentKey..]];
    }
  }

  /** walk: split the path, take the first key, and go on with the path from which that key was deleted. */
  method Walk(path: string, value: Json) returns (r: Outcome)
    ensures r == Follow(Split(path), value)
    decreases |path|
  {
    var keys := SplitKeys(path);
    var currentKey := keys[0];
    DeletingTheFirstKey(path);
    var extracted := ExtractValue(currentKey, value);
    match extracted
    case Panic => r := Panicked;
    case Value(Obj(fields)) =>
      var newPath := DeleteFirst(path, currentKey + ".");
      if path == newPath {
        r := Minified(fields);
      } else {
        r := Walk(newPath, Obj(fields));
      }
    case Value(Str(s)) =>
      r := if |keys| > 1 then StringInTheWay(keys[1], currentKey) else Text(s, |s|);
    case Value(Arr(items)) => r := List(items, |items|);
    case Value(Null) => r := NothingThere(currentKey);
    case Value(v) => r := Scalar(v);
  }
}
