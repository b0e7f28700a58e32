/** `LocalRepository`: the backend that keeps a dataset repository in a local
    directory. A saved session becomes a pack, its index and a fragment; a squash folds
    every fragment into the canonical table and deletes the fragments. */
module LocalBackend {

  import opened Wrappers
  import opened Values
  import opened Rows
  import opened Storage

  /** `_write(tar_file, data_file, token)`: copies the pack and writes its index under
      `images/{token[:8]}/`, then writes the session's rows, each stamped with the
      path of the pack, as `unarchived/{token}.parquet`. */
  function Write(store: Store, members: seq<string>, rows: seq<Row>, token: string): (r: Store)
    ensures r.packs == store.packs[PackPath(token) := members]
    ensures r.indexes == store.indexes[IndexPath(token) := members]
    ensures r.fragments == store.fragments[FragmentPath(token) := Stamp(rows, PackPath(token))]
    ensures r.meta == store.meta && r.table == store.table && r.others == store.others
    ensures forall i :: 0 <= i < |rows| ==>
      r.fragments[FragmentPath(token)][i].archiveFile == Some(PackPath(token)) && PackPath(token) in r.packs
    ensures r.log == store.log + [FileWritten(PackPath(token)), FileWritten(IndexPath(token)), FileWritten(FragmentPath(token))]
    ensures Read(r) == Read(store)
    ensures '/' !in token ==> FragmentPath(token) in ListedFragments(r)
  {
    FragmentListedIff(token);
    store.(
      packs := store.packs[PackPath(token) := members],
      indexes := store.indexes[IndexPath(token) := members],
      fragments := store.fragments[FragmentPath(token) := Stamp(rows, PackPath(token))],
      log := store.log + [FileWritten(PackPath(token)), FileWritten(IndexPath(token)), FileWritten(FragmentPath(token))])
  }

  /** The merged records a squash computes from the canonical table and the listed
      fragments, in listing order. */
  function Merged(store: Store, listing: seq<string>): map<string, Row>
  {
    MergeAll(TableRecords(store.table), FragmentTables(store, listing))
  }

  /** The merge holds every id of the canonical table and of the fragments read. */
  lemma MergedKeys(store: Store, listing: seq<string>)
    ensures Merged(store, listing).Keys == ExistIds(store) + IdsOfAll(FragmentTables(store, listing))
  {
    MergeAllKeys(TableRecords(store.table), FragmentTables(store, listing));
  }

  /** The two loading loops of `_squash`: the canonical table, then every listed
      fragment in listing order. */
  method LoadListed(store: Store, listing: seq<string>)
    returns (records: map<string, Row>, order: seq<string>)
    requires Enumerates(listing, ListedFragments(store))
    ensures records == Merged(store, listing)
    ensures KeyedById(records) && Enumerates(order, records.Keys)
  {
    var tables := FragmentTables(store, listing);
    records, order := map[], [];
    if store.table.Some? {
      records, order := LoadRows(records, order, store.table.value);
    }
    var i := 0;
    while i < |listing|
      invariant 0 <= i <= |listing|
      invariant records == MergeAll(TableRecords(store.table), tables[..i])
      invariant KeyedById(records) && Enumerates(order, records.Keys)
    {
      records, order := LoadRows(records, order, tables[i]);
      MergeAllStep(TableRecords(store.table), tables, i);
      i := i + 1;
    }
    assert tables[..i] == tables;
  }

  /** The fragments of `listing[..j]` are removed from `store`, and logged. */
  ghost predicate RemovedUpTo(store: Store, listing: seq<string>, j: nat, r: Store)
    requires j <= |listing|
  {
    && (forall p :: p in r.fragments <==> p in store.fragments && p !in listing[..j])
    && (forall p :: p in r.fragments ==> r.fragments[p] == store.fragments[p])
    && r == store.(fragments := r.fragments, log := store.log + Removals(listing[..j]))
  }

  /** Removing the next fragment keeps the loop's invariant. */
  lemma RemoveStep(store: Store, listing: seq<string>, j: nat, r: Store)
    requires j < |listing| && RemovedUpTo(store, listing, j, r)
    ensures RemovedUpTo(store, listing, j + 1,
      r.(fragments := r.fragments - {listing[j]}, log := r.log + [FileRemoved(listing[j])]))
  {
    assert listing[..j + 1] == listing[..j] + [listing[j]];
    assert Removals(listing[..j + 1]) == Removals(listing[..j]) + [FileRemoved(listing[j])];
  }

  /** The deletion loop: every fragment read is removed, in reading order. */
  method RemoveFragments(store: Store, listing: seq<string>) returns (r: Store)
    requires Enumerates(listing, ListedFragments(store))
    ensures r == store.(fragments := store.fragments - ListedFragments(store), log := store.log + Removals(listing))
  {
    r := store;
    assert listing[..0] == [];
    for j := 0 to |listing|
      invariant RemovedUpTo(store, listing, j, r)
    {
      RemoveStep(store, listing, j, r);
      r := r.(fragments := r.fragments - {listing[j]}, log := r.log + [FileRemoved(listing[j])]);
    }
    assert listing[..|listing|] == listing;
    assert r.fragments == store.fragments - ListedFragments(store);
  }

  /** The glob sees only the fragments. */
  lemma ListedIgnoresTable(store: Store, written: Store)
    requires written.fragments == store.fragments
    ensures ListedFragments(written) == ListedFragments(store)
  {
  }

  /** What the write of the canonical table and the deletion of the fragments
      leave behind. */
  lemma SquashOutcome(store: Store, listing: seq<string>, table: seq<Row>, dropped: Store)
    requires Enumerates(listing, ListedFragments(store))
    requires IsCanonicalTable(table, Merged(store, listing)) && Ids(table) == Merged(store, listing).Keys
    requires var written := store.(table := Some(table), log := store.log + [FileWritten(TablePath)]);
      dropped == written.(fragments := written.fragments - ListedFragments(written), log := written.log + Removals(listing))
    ensures dropped.table == Some(table)
    ensures Ids(table) == ExistIds(store) + IdsOfAll(FragmentTables(store, listing))
    ensures dropped.fragments == store.fragments - ListedFragments(store)
    ensures dropped.log == store.log + [FileWritten(TablePath)] + Removals(listing)
    ensures dropped.meta == store.meta && dropped.packs == store.packs
    ensures dropped.indexes == store.indexes && dropped.others == store.others
  {
    MergedKeys(store, listing);
  }

  /** `_squash`, with `listing` the order in which `glob` reports the fragments.
      Without any row at all the warning is followed by a failing sort (the empty
      frame has no `updated_at` column) and nothing is written or deleted. Otherwise
      the canonical table of the merge is written first, then every fragment read is
      deleted, then the readme files are written: `generated` lists `README.md` and
      the sample images under `samples/` in the order they are written. */
  method Squash(store: Store, listing: seq<string>, generated: seq<string>) returns (r: Result<Store>)
    requires Enumerates(listing, ListedFragments(store))
    ensures r.Err? <==> Merged(store, listing) == map[]
    ensures r.Err? ==> r.error == KeyError("updated_at")
    ensures r.Ok? ==>
      && r.value.table.Some?
      && IsCanonicalTable(r.value.table.value, Merged(store, listing))
      && Ids(r.value.table.value) == ExistIds(store) + IdsOfAll(FragmentTables(store, listing))
      && r.value.fragments == store.fragments - ListedFragments(store)
      && r.value.log == store.log + [FileWritten(TablePath)] + Removals(listing) + Writes(generated)
      && r.value.meta == store.meta && r.value.packs == store.packs
      && r.value.indexes == store.indexes
      && r.value.others == store.others + (set p | p in generated)
  {
    var records, order := LoadListed(store, listing);
    if |records| == 0 {
      return Err(KeyError("updated_at"));
    }
    var table := CanonicalOf(records, order);
    var written := store.(table := Some(table), log := store.log + [FileWritten(TablePath)]);
    ListedIgnoresTable(store, written);
    var dropped := RemoveFragments(written, listing);
    SquashOutcome(store, listing, table, dropped);
    r := Ok(dropped.(others := dropped.others + (set p | p in generated), log := dropped.log + Writes(generated)));
  }
}
