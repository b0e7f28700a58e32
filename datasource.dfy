/** `BaseDataSource`: the life cycle every data source shares (idle, initialised,
    closed) and the loop of `__iter__`, which normalises what a concrete source
    yields into image items, gives id-less items a fresh id and skips the items whose
    id the repository already holds. */
module DataSource {

  import opened Wrappers
  import opened Values

  datatype Status = Idle | Initialized | Closed

  /** What a concrete `_iter` yields: a tuple of values, or a bare value. */
  datatype Yielded = Tuple(elems: seq<Value>) | Single(v: Value)

  /** `ImageItem(id, image, annotation)`. */
  datatype Item = Item(id: Value, image: Value, annotation: Value)

  /** The items yielded before the loop stopped, and the error that stopped it, if
      one did. */
  datatype Drain = Drain(items: seq<Item>, error: Option<Error>)

  /** The unpacking at the top of the loop: `(v,)`, `(id, v)` and `(id, v, annotate)`
      give id, image and annotation, with None (Null) for what is missing; a bare
      value has neither id nor annotation; a tuple of any other length fails to
      unpack. */
  function Unpack(y: Yielded): (r: Result<(Value, Value, Value)>)
    ensures r.Err? <==> y.Tuple? && (|y.elems| == 0 || |y.elems| > 3)
    ensures r.Err? ==> r.error.ValueError?
    ensures r.Ok? && y.Single? ==> r.value == (Null, y.v, Null)
    ensures r.Ok? && y.Tuple? ==> r.value.1 == y.elems[if |y.elems| == 1 then 0 else 1]
    ensures r.Ok? && y.Tuple? && |y.elems| < 3 ==> r.value.2 == Null
    ensures r.Ok? && y.Tuple? && |y.elems| == 1 ==> r.value.0 == Null
  {
    match y
    case Single(v) => Ok((Null, v, Null))
    case Tuple(elems) =>
      if |elems| == 1 then Ok((Null, elems[0], Null))
      else if |elems| == 2 then Ok((elems[0], elems[1], Null))
      else if |elems| == 3 then Ok((elems[0], elems[1], elems[2]))
      else if |elems| == 0 then Err(ValueError("not enough values to unpack"))
      else Err(ValueError("too many values to unpack"))
  }

  /** Unpacking a full triple gives back exactly what was packed, and a pair is a
      triple without annotation. */
  lemma UnpackRoundTrip(id: Value, image: Value, annotation: Value)
    ensures Unpack(Tuple([id, image, annotation])) == Ok((id, image, annotation))
    ensures Unpack(Tuple([id, image])) == Unpack(Tuple([id, image, Null]))
    ensures Unpack(Tuple([image])) == Unpack(Single(image))
  {
  }

  /** `id_ or random_sha1_with_timestamp()`: a falsy id is replaced by the fresh one. */
  function Identify(id: Value, randomId: string): (r: Value)
    ensures Truthy(id) ==> r == id
    ensures !Truthy(id) ==> r == Str(randomId)
  {
    if Truthy(id) then id else Str(randomId)
  }

  /** The items the loop yields, `randomIds[i]` being the random id drawn if the `i`-th
      yielded value needs one, and `contained` the ids the containment predicate
      reports. A value that cannot be unpacked stops the loop with its error. */
  function Stream(ys: seq<Yielded>, randomIds: seq<string>, contained: set<Value>): Drain
    requires |randomIds| == |ys|
  {
    if ys == [] then Drain([], None)
    else
      match Unpack(ys[0])
      case Err(e) => Drain([], Some(e))
      case Ok(t) =>
        var item := Item(Identify(t.0, randomIds[0]), t.1, t.2);
        var rest := Stream(ys[1..], randomIds[1..], contained);
        if item.id in contained then rest else Drain([item] + rest.items, rest.error)
  }

  /** Every item that comes out has a truthy id that the predicate does not report,
      provided the fresh ids are non-empty. */
  lemma {:induction false} StreamItemsAreNew(ys: seq<Yielded>, randomIds: seq<string>, contained: set<Value>)
    requires |randomIds| == |ys|
    requires forall i :: 0 <= i < |randomIds| ==> randomIds[i] != ""
    ensures forall item :: item in Stream(ys, randomIds, contained).items ==>
      Truthy(item.id) && item.id !in contained
  {
    if ys != [] {
      StreamItemsAreNew(ys[1..], randomIds[1..], contained);
    }
  }

  /** Without an unpacking error nothing stops the loop, and with nothing contained
      every yielded value comes out, in source order. */
  lemma {:induction false} StreamKeepsAll(ys: seq<Yielded>, randomIds: seq<string>)
    requires |randomIds| == |ys|
    requires forall i :: 0 <= i < |ys| ==> Unpack(ys[i]).Ok?
    ensures Stream(ys, randomIds, {}).error.None?
    ensures |Stream(ys, randomIds, {}).items| == |ys|
    ensures forall i :: 0 <= i < |ys| ==> Stream(ys, randomIds, {}).items[i].image == Unpack(ys[i]).value.1
  {
    if ys != [] {
      assert forall i :: 0 <= i < |ys[1..]| ==> ys[1..][i] == ys[i + 1];
      StreamKeepsAll(ys[1..], randomIds[1..]);
    }
  }

  /** Splitting the yielded values splits the stream: the first part's items come
      first, and an error in the first part ends everything. */
  lemma {:induction false} StreamAppend(a: seq<Yielded>, fa: seq<string>, b: seq<Yielded>, fb: seq<string>, contained: set<Value>)
    requires |fa| == |a| && |fb| == |b|
    ensures var first := Stream(a, fa, contained);
      var second := Stream(b, fb, contained);
      Stream(a + b, fa + fb, contained) ==
        if first.error.Some? then first else Drain(first.items + second.items, second.error)
  {
    if a == [] {
      assert a + b == b && fa + fb == fb;
    } else {
      assert (a + b)[0] == a[0] && (a + b)[1..] == a[1..] + b;
      assert (fa + fb)[0] == fa[0] && (fa + fb)[1..] == fa[1..] + fb;
      StreamAppend(a[1..], fa[1..], b, fb, contained);
    }
  }

  /** A triple the base loop takes as it is: full, with a truthy id that is not
      contained and no annotation. */
  predicate FreshTriple(y: Yielded, contained: set<Value>) {
    && y.Tuple? && |y.elems| == 3 && y.elems[2] == Null
    && Truthy(y.elems[0]) && y.elems[0] !in contained
  }

  /** The base loop passes full triples with new, truthy ids through unchanged and
      in order: no random id is drawn and nothing is skipped. */
  lemma {:induction false} PassThrough(ys: seq<Yielded>, randomIds: seq<string>, contained: set<Value>)
    requires |randomIds| == |ys|
    requires forall y :: y in ys ==> FreshTriple(y, contained)
    ensures var d := Stream(ys, randomIds, contained);
      && d.error.None?
      && |d.items| == |ys|
      && forall i :: 0 <= i < |ys| ==>
           (d.items[i].annotation == Null && ys[i] == Tuple([d.items[i].id, d.items[i].image, Null]))
  {
    if ys != [] {
      assert ys[0] in ys;
      assert forall y :: y in ys[1..] ==> y in ys;
      PassThrough(ys[1..], randomIds[1..], contained);
      var d := Stream(ys, randomIds, contained);
      assert ys[0] == Tuple([ys[0].elems[0], ys[0].elems[1], ys[0].elems[2]]);
      forall i | 0 <= i < |ys|
        ensures d.items[i].annotation == Null && ys[i] == Tuple([d.items[i].id, d.items[i].image, Null])
      {
        if i > 0 {
          assert ys[1..][i - 1] == ys[i];
        }
      }
    }
  }

  /** A data source. `initCalls` and `closeCalls` count the runs of the `_init` and
      `_close` hooks; `contained` is what the containment predicate reports. */
  class Source {
    var status: Status
    var initCalls: nat
    var closeCalls: nat
    var contained: set<Value>

    /** `__init__(fn_contains_id)`: idle, and without a predicate nothing is
        contained. */
    constructor (containsId: Option<set<Value>>)
      ensures status == Idle && initCalls == 0 && closeCalls == 0
      ensures contained == (if containsId.Some? then containsId.value else {})
    {
      status := Idle;
      initCalls := 0;
      closeCalls := 0;
      contained := if containsId.Some? then containsId.value else {};
    }

    /** `set_fn_contains_id`: replaces the predicate, with the same default. */
    method SetContainsId(containsId: Option<set<Value>>)
      modifies this
      ensures contained == (if containsId.Some? then containsId.value else {})
      ensures status == old(status) && initCalls == old(initCalls) && closeCalls == old(closeCalls)
    {
      contained := if containsId.Some? then containsId.value else {};
    }

    /** `__init_func` (run by `__enter__` and at the start of iteration): an idle
        source runs `_init` once and becomes initialised; an initialised one is left
        alone; a closed one cannot be initialised again. */
    method Init() returns (r: Outcome)
      modifies this
      ensures old(status) == Idle ==> r == Pass && status == Initialized && initCalls == old(initCalls) + 1
      ensures old(status) == Initialized ==> r == Pass && status == Initialized && initCalls == old(initCalls)
      ensures old(status) == Closed ==> r.Fail? && r.error.RuntimeError? && status == Closed && initCalls == old(initCalls)
      ensures closeCalls == old(closeCalls) && contained == old(contained)
    {
      if status == Idle {
        initCalls := initCalls + 1;
        status := Initialized;
        r := Pass;
      } else if status == Closed {
        r := Fail(RuntimeError("already closed, cannot be initialized again"));
      } else {
        r := Pass;
      }
    }

    /** `__close_func` (run by `close` and `__exit__`): an idle source cannot be
        closed; an initialised one runs `_close`. The status is never changed, so a
        second close runs `_close` again. */
    method Close() returns (r: Outcome)
      modifies this
      ensures old(status) == Idle ==> r.Fail? && r.error.RuntimeError? && closeCalls == old(closeCalls)
      ensures old(status) == Initialized ==> r == Pass && closeCalls == old(closeCalls) + 1
      ensures old(status) == Closed ==> r == Pass && closeCalls == old(closeCalls)
      ensures status == old(status) && initCalls == old(initCalls) && contained == old(contained)
    {
      if status == Idle {
        r := Fail(RuntimeError("not initialized, cannot be closed"));
      } else if status == Initialized {
        closeCalls := closeCalls + 1;
        r := Pass;
      } else {
        r := Pass;
      }
    }

    /** `__iter__` over the values `ys` that `_iter` yields: initialises first, then
        yields the normalised, fresh items in order. */
    method Iterate(ys: seq<Yielded>, randomIds: seq<string>) returns (d: Drain)
      requires |randomIds| == |ys|
      modifies this
      ensures old(status) == Closed ==> d.items == [] && d.error.Some? && d.error.value.RuntimeError?
      ensures old(status) != Closed ==> d == Stream(ys, randomIds, contained) && status == Initialized
      ensures old(status) == Idle ==> initCalls == old(initCalls) + 1
      ensures old(status) != Idle ==> initCalls == old(initCalls)
      ensures closeCalls == old(closeCalls) && contained == old(contained)
    {
      var started := Init();
      if started.Fail? {
        return Drain([], Some(started.error));
      }
      var items: seq<Item> := [];
      var i := 0;
      while i < |ys|
        invariant 0 <= i <= |ys|
        invariant Stream(ys, randomIds, contained) ==
          var rest := Stream(ys[i..], randomIds[i..], contained);
          Drain(items + rest.items, rest.error)
      {
        assert ys[i..][1..] == ys[i + 1..] && randomIds[i..][1..] == randomIds[i + 1..];
        var unpacked := Unpack(ys[i]);
        if unpacked.Err? {
          return Drain(items, Some(unpacked.error));
        }
        var (id, image, annotation) := unpacked.value;
        var item := Item(Identify(id, randomIds[i]), image, annotation);
        if item.id !in contained {
          items := items + [item];
        }
        i := i + 1;
      }
      d := Drain(items, None);
    }
  }
}
