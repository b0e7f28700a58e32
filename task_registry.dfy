/** The task-type registry: a dictionary from task name to the registration that
    handles it, filled at import time with the classification task and consulted by
    every operation that depends on a repository's task. */
module TaskRegistry {

  import opened Wrappers
  import opened Values
  import Classification

  /** The handlers behind a registration; classification is the only task type the
      repository defines. */
  datatype Family = ClassificationFamily

  /** A registration class: the `__task__` name it declares and its handlers. */
  datatype Registration = Registration(task: Option<string>, family: Family)

  const ClassificationRegistration: Registration := Registration(Some("classification"), ClassificationFamily)

  class Registry {
    var known: map<string, Registration>

    /** The registry as importing the module leaves it: classification registered. */
    constructor ()
      ensures known == map["classification" := ClassificationRegistration]
    {
      known := map["classification" := ClassificationRegistration];
    }

    /** `register_task_type(reg)`: asserts a truthy task name, then adds or replaces
        that entry and no other. */
    method Register(reg: Registration) returns (r: Outcome)
      modifies this
      ensures TruthyName(reg.task) ==> r == Pass && known == old(known)[reg.task.value := reg]
      ensures !TruthyName(reg.task) ==> r.Fail? && r.error.AssertionError? && known == old(known)
    {
      if !TruthyName(reg.task) {
        return Fail(AssertionError("Task type should not be empty"));
      }
      known := known[reg.task.value := reg];
      r := Pass;
    }

    /** `_KNOWN_TASK_TYPES[meta_info['task']]`. */
    function LookupByMeta(meta: Value): (r: Result<Registration>)
      reads this
      ensures r.Ok? <==>
        (meta.Obj? && "task" in meta.fields && meta.fields["task"].Str? && meta.fields["task"].s in known)
      ensures r.Ok? ==> r.value == known[meta.fields["task"].s]
      ensures meta.Obj? && "task" !in meta.fields ==> r == Err(KeyError("task"))
    {
      if !meta.Obj? then Err(TypeError("object is not subscriptable"))
      else if "task" !in meta.fields then Err(KeyError("task"))
      else
        var task := meta.fields["task"];
        if !Hashable(task) then Err(TypeError("unhashable type"))
        else if !task.Str? then Err(KeyError("non-string task"))
        else if task.s !in known then Err(KeyError(task.s))
        else Ok(known[task.s])
    }

    /** `parse_annotation_checker_from_meta(meta_info)`: the checker of the task the
        document names. */
    function ParseCheckerFromMeta(meta: Value): (r: Result<Classification.Checker>)
      reads this
      ensures LookupByMeta(meta).Err? ==> r == Err(LookupByMeta(meta).error)
      ensures LookupByMeta(meta).Ok? && LookupByMeta(meta).value.family == ClassificationFamily ==>
        r == Classification.ParseFromMeta(meta)
    {
      var reg :- LookupByMeta(meta);
      match reg.family
      case ClassificationFamily => Classification.ParseFromMeta(meta)
    }

    /** `create_readme(...)`: picks the readme builder by the document's own task. */
    function ReadmeFamily(meta: Value): (r: Result<Family>)
      reads this
      ensures r.Ok? <==> LookupByMeta(meta).Ok?
      ensures r.Ok? ==> r.value == LookupByMeta(meta).value.family
    {
      var reg :- LookupByMeta(meta);
      Ok(reg.family)
    }

    /** `init_project(task_type, ...)`: dispatches on the task type passed in, not on
        anything in the metadata; the classification handler needs `labels` and
        returns the `meta.json` document it writes. */
    function InitProject(taskType: string, taskName: string, readmeMetadata: map<string, Value>,
                         labels: Option<seq<string>>): (r: Result<Value>)
      reads this
      ensures taskType !in known ==> r == Err(KeyError(taskType))
      ensures taskType in known && known[taskType].family == ClassificationFamily ==>
        (r.Ok? <==> labels.Some?) &&
        (r.Ok? ==> r.value == Classification.InitMeta(taskName, labels.value, readmeMetadata))
    {
      if taskType !in known then Err(KeyError(taskType))
      else
        match known[taskType].family
        case ClassificationFamily =>
          if labels.None? then Err(TypeError("missing argument: labels"))
          else Ok(Classification.InitMeta(taskName, labels.value, readmeMetadata))
    }

    /** A project initialised through the registry is read back by the registry: its
        document names the classification task and parses into the checker for the
        labels given. */
    lemma InitThenParse(taskName: string, labels: seq<string>, readmeMetadata: map<string, Value>)
      requires known == map["classification" := ClassificationRegistration]
      ensures InitProject("classification", taskName, readmeMetadata, Some(labels)).Ok?
      ensures var meta := InitProject("classification", taskName, readmeMetadata, Some(labels)).value;
        && ParseCheckerFromMeta(meta).Ok?
        && ParseCheckerFromMeta(meta) == Classification.ParseFromMeta(meta)
    {
      var meta := Classification.InitMeta(taskName, labels, readmeMetadata);
      Classification.InitThenParseAcceptsExactlyLabels(taskName, labels, readmeMetadata, Null);
      assert LookupByMeta(meta).Ok?;
    }
  }
}
