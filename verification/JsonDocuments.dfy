/**
 What a path reports about a document, in terms of the document alone: the fields of its objects and the items of its
 lists (`jsonpath/jsonpath.go`).
 */
module JsonDocuments {
  import opened Wrappers
  import opened Strconv
  import opened JsonPath
  import opened JsonPathMeaning

  /** The positions fit an int. */
  predicate Fit(indexes: seq<nat>) {
    forall i | 0 <= i < |indexes| :: indexes[i] <= 0x7fff_ffff_ffff_ffff
  }

  /** One key of a path: a name, and positions in nested lists. */
  datatype Step = Step(name: string, indexes: seq<nat>)
  {
    predicate Valid() {
      Plain(name) && Fit(indexes)
    }
  }

  predicate AllValid(steps: seq<Step>) {
    forall i | 0 <= i < |steps| :: steps[i].Valid()
  }

  function Texts(indexes: seq<nat>): (texts: seq<string>)
    ensures |texts| == |indexes| && forall i | 0 <= i < |indexes| :: texts[i] == Itoa(indexes[i])
  {
    if indexes == [] then [] else [Itoa(indexes[0])] + Texts(indexes[1..])
  }

  function Written(s: Step): Segment {
    Segment(s.name, Texts(s.indexes))
  }

  function Segments(steps: seq<Step>): (segments: seq<Segment>)
    ensures |segments| == |steps| && forall i | 0 <= i < |steps| :: segments[i] == Written(steps[i])
  {
    if steps == [] then [] else [Written(steps[0])] + Segments(steps[1..])
  }

  /** The text of a key, and of a path. */
  function KeyText(s: Step): string {
    Render(Written(s))
  }

  function PathText(steps: seq<Step>): string
    requires |steps| > 0
  {
    RenderPath(Segments(steps))
  }

  // ---------- where a path leads ----------

  /** Nested lists hold a value at these positions. */
  ghost predicate HoldsAt(v: Json, indexes: seq<nat>, to: Json)
    decreases |indexes|
  {
    if indexes == [] then v == to
    else v.Arr? && indexes[0] < |v.items| && HoldsAt(v.items[indexes[0]], indexes[1..], to)
  }

  /** One key leads from a value to another: into a field, and from there into lists; positions alone need no field. */
  ghost predicate StepLeads(v: Json, s: Step, to: Json) {
    if s.name == "" && s.indexes != [] then HoldsAt(v, s.indexes, to)
    else v.Obj? && s.name in v.fields && HoldsAt(v.fields[s.name], s.indexes, to)
  }

  /** A path leads from a value to another, through objects. */
  ghost predicate Leads(v: Json, steps: seq<Step>, to: Json)
    requires |steps| > 0
    decreases |steps|
  {
    if |steps| == 1 then StepLeads(v, steps[0], to)
    else exists fields: map<string, Json> :: StepLeads(v, steps[0], Obj(fields)) && Leads(Obj(fields), steps[1..], to)
  }

  lemma {:induction false} DigsWhereItHolds(v: Json, indexes: seq<nat>, to: Json)
    requires HoldsAt(v, indexes, to) && Fit(indexes)
    ensures Dig(v, Texts(indexes)) == to
    decreases |indexes|
  {
    if indexes != [] {
      DecimalIndexesWork(indexes[0]);
      DigsWhereItHolds(v.items[indexes[0]], indexes[1..], to);
      assert Texts(indexes)[1..] == Texts(indexes[1..]);
    }
  }

  lemma FirstTextParses(s: Step)
    requires s.Valid() && s.indexes != []
    ensures ParseIndex(Texts(s.indexes)[0]) == Some(s.indexes[0])
  {
    DecimalIndexesWork(s.indexes[0]);
  }

  lemma SelectsWhereItLeads(v: Json, s: Step, to: Json)
    requires s.Valid() && StepLeads(v, s, to)
    ensures Select(Written(s), v) == Value(to)
  {
    if s.indexes != [] {
      FirstTextParses(s);
    }
    DigsWhereItHolds(if s.name == "" && s.indexes != [] then v else v.fields[s.name], s.indexes, to);
  }

  lemma StepIsDetermined(v: Json, s: Step, to: Json, to': Json)
    requires s.Valid() && StepLeads(v, s, to) && StepLeads(v, s, to')
    ensures to == to'
  {
    SelectsWhereItLeads(v, s, to);
    SelectsWhereItLeads(v, s, to');
  }

  /** Navigating these steps from here ends as navigating the others from there. */
  ghost predicate EndsAs(steps: seq<Step>, v: Json, steps': seq<Step>, v': Json) {
    |steps| > 0 && |steps'| > 0 && Navigate(Segments(steps), v) == Navigate(Segments(steps'), v')
  }

  lemma EndsAsTrans(a: seq<Step>, u: Json, b: seq<Step>, v: Json, c: seq<Step>, w: Json)
    requires EndsAs(a, u, b, v) && EndsAs(b, v, c, w)
    ensures EndsAs(a, u, c, w)
  {
  }

  lemma NavigatesOneStep(steps: seq<Step>, doc: Json, fields: map<string, Json>)
    requires |steps| > 1 && steps[0].Valid() && StepLeads(doc, steps[0], Obj(fields))
    ensures EndsAs(steps, doc, steps[1..], Obj(fields))
  {
    SelectsWhereItLeads(doc, steps[0], Obj(fields));
    assert Segments(steps)[1..] == Segments(steps[1..]);
  }

  lemma FirstOfMany(v: Json, steps: seq<Step>, to: Json) returns (fields: map<string, Json>)
    requires |steps| > 1 && Leads(v, steps, to)
    ensures StepLeads(v, steps[0], Obj(fields)) && Leads(Obj(fields), steps[1..], to)
  {
    fields :| StepLeads(v, steps[0], Obj(fields)) && Leads(Obj(fields), steps[1..], to);
  }

  lemma SliceOfRest(steps: seq<Step>, k: nat)
    requires 0 < k <= |steps|
    ensures steps[..k][1..] == steps[1..][..k - 1] && steps[1..][k - 1..] == steps[k..] && steps[..k][0] == steps[0]
  {
  }

  /** Navigating a path whose first steps lead to an object is navigating the rest from there. */
  lemma {:induction false} NavigatesFrom(steps: seq<Step>, doc: Json, k: nat, fields: map<string, Json>)
    requires 0 < k < |steps| && AllValid(steps) && Leads(doc, steps[..k], Obj(fields))
    ensures EndsAs(steps, doc, steps[k..], Obj(fields))
    decreases k
  {
    SliceOfRest(steps, k);
    if k == 1 {
      NavigatesOneStep(steps, doc, fields);
    } else {
      var next := FirstOfMany(doc, steps[..k], Obj(fields));
      NavigatesOneStep(steps, doc, next);
      NavigatesFrom(steps[1..], Obj(next), k - 1, fields);
      EndsAsTrans(steps, doc, steps[1..], Obj(next), steps[1..][k - 1..], Obj(fields));
    }
  }

  /** The steps before the last one lead to an object, or there are none. */
  lemma {:induction false} LeadsThroughObject(steps: seq<Step>, doc: Json, to: Json) returns (v: Json)
    requires |steps| > 0 && Leads(doc, steps, to)
    ensures StepLeads(v, steps[|steps| - 1], to)
    ensures if |steps| == 1 then v == doc else v.Obj? && Leads(doc, steps[..|steps| - 1], v)
    decreases |steps|
  {
    if |steps| == 1 {
      v := doc;
    } else {
      var next := FirstOfMany(doc, steps, to);
      v := LeadsThroughObject(steps[1..], Obj(next), to);
      var front := steps[..|steps| - 1];
      assert front[1..] == steps[1..][..|steps| - 2];
      if |steps| == 2 {
        assert front == [steps[0]];
      }
    }
  }

  // ---------- what is reported ----------

  /** The key after key k of the path, if there is one. */
  function NextKey(steps: seq<Step>, k: nat): Option<string> {
    if k + 1 < |steps| then Some(KeyText(steps[k + 1])) else None
  }

  /**
   The path, or its keys up to one that leads to something that is not an object, leads to a value. Then this is what
   the walk reports: a text with its length, unless there are keys left; a list with its length; an object; nothing;
   or another scalar.
   */
  lemma WalkReports(steps: seq<Step>, doc: Json, k: nat, to: Json)
    requires k < |steps| && AllValid(steps)
    requires Leads(doc, steps[..k + 1], to) && (k + 1 == |steps| || !to.Obj?)
    ensures Follow(Split(PathText(steps)), doc) ==
            match to
            case Str(s) => if k + 1 < |steps| then StringInTheWay(KeyText(steps[k + 1]), KeyText(steps[k]))
              else Text(s, |s|)
            case Arr(items) => List(items, |items|)
            case Obj(fields) => Minified(fields)
            case Null => NothingThere(KeyText(steps[k]))
            case Bool(_) => Scalar(to)
            case Number(_) => Scalar(to)
  {
    assert steps[..k + 1][k] == steps[k] && steps[..k + 1][..k] == steps[..k];
    var v := LeadsThroughObject(steps[..k + 1], doc, to);
    SelectsWhereItLeads(v, steps[k], to);
    WalkSelects(steps, doc, k, v);
  }

  lemma WalkIsNavigating(steps: seq<Step>, doc: Json)
    requires |steps| > 0 && AllValid(steps)
    ensures Follow(Split(PathText(steps)), doc) == Navigate(Segments(steps), doc)
  {
    forall s <- Segments(steps) ensures s.Valid() {
      var i :| 0 <= i < |steps| && Segments(steps)[i] == s;
      TextsArePlain(steps[i]);
    }
    WalkNavigates(Segments(steps), doc);
  }

  /** Navigating ends at the first key that does not lead to an object to go on from. */
  lemma NavigatingEnds(steps: seq<Step>, v: Json)
    requires |steps| > 0
    requires var x := Select(Written(steps[0]), v); x.Value? && (|steps| == 1 || !x.v.Obj?)
    ensures Navigate(Segments(steps), v) == Report(Select(Written(steps[0]), v).v, KeyText(steps[0]), NextKey(steps, 0))
  {
    if |steps| > 1 {
      assert Segments(steps)[1] == Written(steps[1]);
    }
  }

  /** The walk reports what key k selects from the value it is applied to, if that is where it ends. */
  lemma WalkSelects(steps: seq<Step>, doc: Json, k: nat, v: Json)
    requires k < |steps| && AllValid(steps)
    requires if k == 0 then v == doc else v.Obj? && Leads(doc, steps[..k], v)
    requires var x := Select(Written(steps[k]), v); x.Value? && (k + 1 == |steps| || !x.v.Obj?)
    ensures Follow(Split(PathText(steps)), doc) ==
            Report(Select(Written(steps[k]), v).v, KeyText(steps[k]), NextKey(steps, k))
  {
    WalkIsNavigating(steps, doc);
    if k > 0 {
      NavigatesFrom(steps, doc, k, v.fields);
    } else {
      assert steps[0..] == steps;
    }
    NavigatingEnds(steps[k..], v);
    assert NextKey(steps[k..], 0) == NextKey(steps, k);
  }

  lemma TextsArePlain(s: Step)
    requires s.Valid()
    ensures Written(s).Valid()
  {
    forall text <- Texts(s.indexes) ensures Plain(text) {
      var i :| 0 <= i < |s.indexes| && Texts(s.indexes)[i] == text;
      DecimalIndexesWork(s.indexes[i]);
    }
  }

  // ---------- what is not there ----------

  lemma {:induction false} DigsNothing(v: Json, indexes: seq<nat>)
    requires (forall to: Json :: !HoldsAt(v, indexes, to)) && Fit(indexes)
    ensures indexes != [] && Dig(v, Texts(indexes)) == Null
    decreases |indexes|
  {
    if indexes == [] {
      assert HoldsAt(v, indexes, v);
    } else {
      var i, rest := indexes[0], indexes[1..];
      assert Texts(indexes)[1..] == Texts(rest);
      DecimalIndexesWork(i);
      if v.Arr? && i < |v.items| {
        forall to: Json ensures !HoldsAt(v.items[i], rest, to) {
          assert !HoldsAt(v, indexes, to);
        }
        DigsNothing(v.items[i], rest);
      } else {
        DiggingNothing(Texts(rest));
      }
    }
  }

  /**
   A key that leads nowhere, for its name is absent or a position is not in a list, ends the walk with nothing, whatever
   keys follow. It may be applied to an object or null, or to any document if it has no name.
   */
  lemma WalkFindsNothing(steps: seq<Step>, doc: Json, k: nat, v: Json)
    requires k < |steps| && AllValid(steps)
    requires if k == 0 then v == doc else v.Obj? && Leads(doc, steps[..k], v)
    requires v.Obj? || v.Null? || (steps[k].name == "" && steps[k].indexes != [])
    requires forall to: Json :: !StepLeads(v, steps[k], to)
    ensures Follow(Split(PathText(steps)), doc) == NothingThere(KeyText(steps[k]))
  {
    SelectsNothing(v, steps[k]);
    WalkSelects(steps, doc, k, v);
  }

  lemma SelectsNothing(v: Json, s: Step)
    requires s.Valid() && (v.Obj? || v.Null? || (s.name == "" && s.indexes != []))
    requires forall to: Json :: !StepLeads(v, s, to)
    ensures Select(Written(s), v) == Value(Null)
  {
    if s.indexes != [] {
      FirstTextParses(s);
    }
    DiggingNothing(Texts(s.indexes));
    if s.name == "" && s.indexes != [] {
      forall to: Json ensures !HoldsAt(v, s.indexes, to) {
        assert !StepLeads(v, s, to);
      }
      DigsNothing(v, s.indexes);
    } else if v.Obj? && s.name in v.fields {
      forall to: Json ensures !HoldsAt(v.fields[s.name], s.indexes, to) {
        assert !StepLeads(v, s, to);
      }
      DigsNothing(v.fields[s.name], s.indexes);
    }
  }

  /** A document that is not an object is reported itself, whatever name is asked for. */
  lemma WalkOfOtherDocuments(steps: seq<Step>, doc: Json)
    requires |steps| > 0 && AllValid(steps) && !doc.Obj? && steps[0].indexes == []
    ensures Follow(Split(PathText(steps)), doc) ==
            match doc
            case Str(s) => if |steps| > 1 then StringInTheWay(KeyText(steps[1]), KeyText(steps[0])) else Text(s, |s|)
            case Arr(items) => List(items, |items|)
            case Obj(_) => Panicked
            case Null => NothingThere(KeyText(steps[0]))
            case Bool(_) => Scalar(doc)
            case Number(_) => Scalar(doc)
  {
    WalkSelects(steps, doc, 0, doc);
  }

  const USER_NAME := [Step("users", [1]), Step("name", [])]

  lemma UserNameText()
    ensures AllValid(USER_NAME) && PathText(USER_NAME) == "users[1].name"
  {
    assert Segments(USER_NAME) == [Segment("users", ["1"]), Segment("name", [])] by {
      assert Texts([1]) == ["1"] && Texts([]) == [];
    }
    UserNameRendered([Segment("users", ["1"]), Segment("name", [])]);
  }

  lemma UserNameRendered(segments: seq<Segment>)
    requires segments == [Segment("users", ["1"]), Segment("name", [])]
    ensures RenderPath(segments) == "users[1].name"
  {
    assert Indexes(["1"]) == "[1]" && Indexes([]) == "";
    assert segments[1..] == [Segment("name", [])] && RenderPath(segments[1..]) == "name";
  }

  lemma UserNameLeads(doc: Json, user: map<string, Json>)
    requires "name" in user && doc.Obj? && "users" in doc.fields && doc.fields["users"] == Arr([Null, Obj(user)])
    ensures Leads(doc, USER_NAME, user["name"])
  {
    assert HoldsAt(doc.fields["users"], [1], Obj(user));
    assert StepLeads(doc, USER_NAME[0], Obj(user)) && Leads(Obj(user), USER_NAME[1..], user["name"]);
  }

  /** For example, users[1].name in {"users":[null,{"name":"x"}]}. */
  lemma UserName()
    ensures Follow(Split("users[1].name"), Obj(map["users" := Arr([Null, Obj(map["name" := Str("x")])])])) ==
            Text("x", 1)
  {
    var user := map["name" := Str("x")];
    var doc := Obj(map["users" := Arr([Null, Obj(user)])]);
    UserNameText();
    UserNameLeads(doc, user);
    assert USER_NAME[..2] == USER_NAME;
    WalkReports(USER_NAME, doc, 1, Str("x"));
  }
}
