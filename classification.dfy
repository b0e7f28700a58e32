/** The classification task: its annotation checker, which accepts exactly the
    configured label strings, and the `meta.json` document a new classification
    project starts from. */
module Classification {

  import opened Wrappers
  import opened Values
  import StringOrder

  /** `ClassificationAnnotationChecker`: the label list as given and the set built
      from it. Being a value, the checker shares nothing with the caller's list. */
  datatype Checker = Checker(labels: seq<Value>, labelSet: set<Value>)

  function Chars(s: string): (r: seq<Value>)
    ensures |r| == |s| && forall i :: 0 <= i < |s| ==> r[i] == Str([s[i]])
  {
    seq(|s|, i requires 0 <= i < |s| => Str([s[i]]))
  }

  function StrValues(names: seq<string>): (r: seq<Value>)
    ensures |r| == |names| && forall i :: 0 <= i < |names| ==> r[i] == Str(names[i])
  {
    seq(|names|, i requires 0 <= i < |names| => Str(names[i]))
  }

  /** `list(v)` on a JSON value: a list gives its items, a string its characters, a
      dict its keys (in sorted order here); anything else is not iterable. */
  function Iterate(v: Value): (r: Result<seq<Value>>)
    ensures r.Err? <==> !(v.List? || v.Str? || v.Obj?)
    ensures r.Err? ==> r.error.TypeError?
    ensures v.List? ==> r == Ok(v.items)
  {
    match v
    case List(items) => Ok(items)
    case Str(s) => Ok(Chars(s))
    case Obj(fields) => Ok(StrValues(StringOrder.Sorted(fields.Keys)))
    case _ => Err(TypeError("object is not iterable"))
  }

  /** `__init__(labels)`: `list(labels)` and `set(labels)`; the set refuses
      unhashable labels. */
  function NewChecker(labels: Value): (r: Result<Checker>)
    ensures r.Ok? <==> Iterate(labels).Ok? && forall i :: 0 <= i < |Iterate(labels).value| ==> Hashable(Iterate(labels).value[i])
    ensures r.Err? ==> r.error.TypeError?
    ensures r.Ok? ==> r.value.labels == Iterate(labels).value
    ensures r.Ok? ==> forall x :: x in r.value.labelSet <==> x in r.value.labels
  {
    var items :- Iterate(labels);
    if forall i :: 0 <= i < |items| ==> Hashable(items[i]) then
      Ok(Checker(items, set x | x in items))
    else
      Err(TypeError("unhashable type"))
  }

  /** `check(annotation)`: passes exactly for a string that is one of the labels; any
      other value raises ValueError. Nothing in the checker changes, so the outcome
      depends on the annotation alone. */
  function Check(checker: Checker, annotation: Value): (r: Outcome)
    ensures r.Pass? <==> annotation.Str? && annotation in checker.labelSet
    ensures r.Fail? ==> r.error.ValueError?
  {
    if annotation.Str? && annotation in checker.labelSet then Pass
    else Fail(ValueError("Invalid annotation"))
  }

  /** `parse_from_meta(meta_info)`: the checker of `meta_info['labels']`. A missing
      key raises KeyError; a document that is not a dict cannot be subscripted. */
  function ParseFromMeta(meta: Value): (r: Result<Checker>)
    ensures !meta.Obj? ==> r.Err? && r.error.TypeError?
    ensures meta.Obj? && "labels" !in meta.fields ==> r == Err(KeyError("labels"))
    ensures meta.Obj? && "labels" in meta.fields ==> r == NewChecker(meta.fields["labels"])
  {
    if !meta.Obj? then Err(TypeError("object is not subscriptable"))
    else if "labels" !in meta.fields then Err(KeyError("labels"))
    else NewChecker(meta.fields["labels"])
  }

  /** The `meta.json` document `init_project_for_classification` writes. */
  function InitMeta(taskName: string, labels: seq<string>, readmeMetadata: map<string, Value>): (meta: Value)
    ensures meta.Obj? && meta.fields.Keys == {"name", "labels", "readme_metadata", "task"}
    ensures meta.fields["task"] == Str("classification")
  {
    Obj(map[
      "name" := Str(taskName),
      "labels" := List(StrValues(labels)),
      "readme_metadata" := Obj(readmeMetadata),
      "task" := Str("classification")])
  }

  /** A project initialised with some labels yields a checker that accepts exactly
      those labels and nothing else. */
  lemma InitThenParseAcceptsExactlyLabels(taskName: string, labels: seq<string>, readmeMetadata: map<string, Value>, annotation: Value)
    ensures ParseFromMeta(InitMeta(taskName, labels, readmeMetadata)).Ok?
    ensures var checker := ParseFromMeta(InitMeta(taskName, labels, readmeMetadata)).value;
      Check(checker, annotation).Pass? <==> annotation.Str? && annotation.s in labels
  {
    var items := StrValues(labels);
    assert forall i :: 0 <= i < |items| ==> Hashable(items[i]);
    var checker := ParseFromMeta(InitMeta(taskName, labels, readmeMetadata)).value;
    if annotation.Str? && annotation.s in labels {
      var k :| 0 <= k < |labels| && labels[k] == annotation.s;
      assert items[k] == annotation;
    }
    if annotation in checker.labelSet {
      var k :| 0 <= k < |items| && items[k] == annotation;
      assert labels[k] == annotation.s;
    }
  }

  /** A checker accepts only what it was given: never a non-string, whatever the
      labels are. */
  lemma CheckRejectsNonStrings(checker: Checker, annotation: Value)
    requires !annotation.Str?
    ensures Check(checker, annotation) == Fail(ValueError("Invalid annotation"))
  {
  }

  /** A string label list is taken character by character, as Python iterates it. */
  lemma StringLabelsAreCharacters()
    ensures NewChecker(Str("ab")).Ok?
    ensures Check(NewChecker(Str("ab")).value, Str("a")).Pass?
    ensures Check(NewChecker(Str("ab")).value, Str("ab")).Fail?
  {
    var items := Chars("ab");
    assert items == [Str("a"), Str("b")];
  }
}
