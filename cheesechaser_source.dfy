/** `CheeseChaserDataSource`: images fetched from a cheesechaser data pool or pipe.
    Each content id (cid) the id generator produces is mapped to an image id
    `cheesechaser__{source_id}__{cid}` (or `cheesechaser__{cid}` without a source
    id); cids whose image id is already contained are never requested. */
module CheeseChaserSource {

  import opened Wrappers
  import opened Values
  import Text
  import DataSource
  import LocalSource
  import Sorting

  /** The `source` argument: a data pool, carrying the default source id derived from
      its class name; a pipe; or anything else. */
  datatype SourceArg = DataPoolArg(defaultId: string) | PipeArg | OtherArg

  /** A content id as the generator produces it. */
  datatype Cid = IntCid(n: int) | StrCid(s: string)

  /** `f'{cid}'`. */
  function CidText(cid: Cid): string {
    match cid
    case IntCid(n) => Text.IntToString(n)
    case StrCid(s) => s
  }

  /** The dispatch of `__init__`: the source id it keeps (`source_id or
      default_source_id`), or the TypeError for a source of unknown type. */
  function ResolveSourceId(source: SourceArg, given: Option<string>): (r: Result<Option<string>>)
    ensures r.Err? <==> source.OtherArg?
    ensures r.Err? ==> r.error.TypeError?
    ensures r.Ok? && TruthyName(given) ==> r.value == given
    ensures r.Ok? && !TruthyName(given) && source.PipeArg? ==> r.value.None?
    ensures r.Ok? && !TruthyName(given) && source.DataPoolArg? ==> r.value == Some(source.defaultId)
  {
    match source
    case OtherArg => Err(TypeError("Unknown source type"))
    case DataPoolArg(defaultId) => Ok(if TruthyName(given) then given else Some(defaultId))
    case PipeArg => Ok(if TruthyName(given) then given else None)
  }

  /** `_cid_to_id`. */
  function CidToId(sourceId: Option<string>, cid: Cid): (id: string)
    ensures |id| >= 14 && id[..14] == "cheesechaser__"
  {
    if TruthyName(sourceId) then "cheesechaser__" + sourceId.value + "__" + CidText(cid)
    else "cheesechaser__" + CidText(cid)
  }

  /** Within one source, different cid texts give different image ids. */
  lemma CidToIdInjective(sourceId: Option<string>, a: Cid, b: Cid)
    requires CidToId(sourceId, a) == CidToId(sourceId, b)
    ensures CidText(a) == CidText(b)
  {
    var x := CidToId(sourceId, a);
    var n := if TruthyName(sourceId) then 16 + |sourceId.value| else 14;
    assert CidText(a) == x[n..] == CidText(b);
  }

  /** Across sources ids can coincide: a source id containing a cid-like tail is
      indistinguishable from a source without id. */
  lemma SourceIdsCanCollide()
    ensures CidToId(Some("pool"), StrCid("7")) == CidToId(None, StrCid("pool__7"))
  {
  }

  /** A cheesechaser image id is never a local-directory image id. */
  lemma NeverALocalId(sourceId: Option<string>, cid: Cid, localSource: string, fileToken: string)
    ensures CidToId(sourceId, cid) != LocalSource.LocalId(localSource, fileToken)
  {
    assert CidToId(sourceId, cid)[0] == 'c';
    assert LocalSource.LocalId(localSource, fileToken)[0] == 'l';
  }

  /** The cids `_iter_cids` passes on: those whose image id is not contained, in
      generator order. */
  function FreshCids(sourceId: Option<string>, cids: seq<Cid>, contained: set<Value>): seq<Cid> {
    if cids == [] then []
    else
      var rest := FreshCids(sourceId, cids[1..], contained);
      if Str(CidToId(sourceId, cids[0])) in contained then rest else [cids[0]] + rest
  }

  /** A cid is passed on exactly when the generator produced it and its image id is
      not contained; order is kept and nothing is repeated that was not repeated. */
  lemma {:induction false} FreshCidsMembers(sourceId: Option<string>, cids: seq<Cid>, contained: set<Value>)
    ensures forall c :: c in FreshCids(sourceId, cids, contained) <==>
      (c in cids && Str(CidToId(sourceId, c)) !in contained)
    ensures |FreshCids(sourceId, cids, contained)| <= |cids|
  {
    if cids != [] {
      FreshCidsMembers(sourceId, cids[1..], contained);
      assert forall c :: c in cids <==> c == cids[0] || c in cids[1..];
    }
  }

  /** One step of `_iter_cids`. */
  lemma FreshCidsUnfold(sourceId: Option<string>, cids: seq<Cid>, contained: set<Value>, i: nat)
    requires i < |cids|
    ensures var rest := FreshCids(sourceId, cids[i + 1..], contained);
      FreshCids(sourceId, cids[i..], contained) ==
        if Str(CidToId(sourceId, cids[i])) in contained then rest else [cids[i]] + rest
  {
    assert cids[i..][1..] == cids[i + 1..];
  }

  /** `_iter_cids` over the generator's cids. */
  method IterCids(sourceId: Option<string>, cids: seq<Cid>, contained: set<Value>) returns (out: seq<Cid>)
    ensures out == FreshCids(sourceId, cids, contained)
  {
    out := [];
    var i := 0;
    while i < |cids|
      invariant 0 <= i <= |cids|
      invariant FreshCids(sourceId, cids, contained) == out + FreshCids(sourceId, cids[i..], contained)
    {
      FreshCidsUnfold(sourceId, cids, contained, i);
      var cid := cids[i];
      if Str(CidToId(sourceId, cid)) !in contained {
        Sorting.ConcatAssoc(out, [cid], FreshCids(sourceId, cids[i + 1..], contained));
        out := out + [cid];
      }
      i := i + 1;
    }
  }

  /** What `_iter` yields for an item the pipe retrieved: its image id, its data and
      no annotation. */
  function Triple(sourceId: Option<string>, item: (Cid, Value)): (y: DataSource.Yielded)
    ensures y.Tuple? && |y.elems| == 3 && y.elems[2] == Null && Truthy(y.elems[0])
  {
    DataSource.Tuple([Str(CidToId(sourceId, item.0)), item.1, Null])
  }

  /** `_iter` over the items the pipe's session retrieved, in the order it retrieved
      them. */
  method Iter(sourceId: Option<string>, retrieved: seq<(Cid, Value)>) returns (ys: seq<DataSource.Yielded>)
    ensures |ys| == |retrieved|
    ensures forall i :: 0 <= i < |ys| ==> ys[i] == Triple(sourceId, retrieved[i])
  {
    ys := [];
    for i := 0 to |retrieved|
      invariant |ys| == i
      invariant forall k :: 0 <= k < i ==> ys[k] == Triple(sourceId, retrieved[k])
    {
      var (cid, data) := retrieved[i];
      ys := ys + [DataSource.Tuple([Str(CidToId(sourceId, cid)), data, Null])];
    }
  }

  /** When the pipe retrieves only cids that `_iter_cids` passed on, the base loop
      yields one item per retrieved image, in order, under its image id, with its
      data and no annotation. */
  lemma BaseLoopKeepsRetrieved(sourceId: Option<string>, cids: seq<Cid>, contained: set<Value>,
                               retrieved: seq<(Cid, Value)>, ys: seq<DataSource.Yielded>, randomIds: seq<string>)
    requires forall i :: 0 <= i < |retrieved| ==> retrieved[i].0 in FreshCids(sourceId, cids, contained)
    requires |ys| == |retrieved| && forall i :: 0 <= i < |ys| ==> ys[i] == Triple(sourceId, retrieved[i])
    requires |randomIds| == |ys|
    ensures var d := DataSource.Stream(ys, randomIds, contained);
      && d.error.None? && |d.items| == |retrieved|
      && forall i :: 0 <= i < |retrieved| ==>
           d.items[i] == DataSource.Item(Str(CidToId(sourceId, retrieved[i].0)), retrieved[i].1, Null)
  {
    RetrievedAreFresh(sourceId, cids, contained, retrieved, ys);
    DataSource.PassThrough(ys, randomIds, contained);
    var d := DataSource.Stream(ys, randomIds, contained);
    forall i | 0 <= i < |retrieved|
      ensures d.items[i] == DataSource.Item(Str(CidToId(sourceId, retrieved[i].0)), retrieved[i].1, Null)
    {
      ItemOfTriple(sourceId, retrieved[i], ys[i], d.items[i]);
    }
  }

  /** An item the base loop made from the triple of a retrieved image carries that
      image's id and data. */
  lemma ItemOfTriple(sourceId: Option<string>, r: (Cid, Value), y: DataSource.Yielded, item: DataSource.Item)
    requires y == Triple(sourceId, r)
    requires item.annotation == Null && y == DataSource.Tuple([item.id, item.image, Null])
    ensures item == DataSource.Item(Str(CidToId(sourceId, r.0)), r.1, Null)
  {
    assert y.elems[0] == item.id && y.elems[1] == item.image;
  }

  /** Triples of cids that `_iter_cids` passed on are taken by the base loop as
      they are. */
  lemma RetrievedAreFresh(sourceId: Option<string>, cids: seq<Cid>, contained: set<Value>,
                          retrieved: seq<(Cid, Value)>, ys: seq<DataSource.Yielded>)
    requires forall i :: 0 <= i < |retrieved| ==> retrieved[i].0 in FreshCids(sourceId, cids, contained)
    requires |ys| == |retrieved| && forall i :: 0 <= i < |ys| ==> ys[i] == Triple(sourceId, retrieved[i])
    ensures forall y :: y in ys ==> DataSource.FreshTriple(y, contained)
  {
    FreshCidsMembers(sourceId, cids, contained);
    forall y | y in ys ensures DataSource.FreshTriple(y, contained) {
      var i :| 0 <= i < |ys| && ys[i] == y;
      assert retrieved[i].0 in FreshCids(sourceId, cids, contained);
      assert y.elems[0] == Str(CidToId(sourceId, retrieved[i].0));
    }
  }
}
