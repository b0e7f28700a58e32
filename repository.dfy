/** The repository front end: `DatasetRepository`, which keeps a snapshot of a
    backend (its `meta.json`, the ids of its canonical table and the annotation
    checker) and hands out writer sessions; and `WriterSession`, which stages
    annotated images in memory and in a staging directory and saves them to the
    backend as one package. */
module Repository {

  import opened Wrappers
  import opened Values
  import opened Rows
  import opened Storage
  import StringOrder
  import Text
  import Classification
  import TaskRegistry
  import LocalBackend
  import HubBackend
  import NaturalOrder
  import Sorting

  datatype Kind = LocalKind | HubKind

  /** The session token: the random timestamped hash, followed by `__` and the author
      when the author is truthy. */
  function SessionToken(random: string, author: Option<string>): (token: string)
    ensures |random| <= |token| && token[..|random|] == random
    ensures TruthyName(author) <==> |token| > |random|
    ensures TruthyName(author) ==> token[|random|..] == "__" + author.value
  {
    if TruthyName(author) then random + "__" + author.value else random
  }

  /** The author changes neither the shard of the pack nor anything before it: a token is
      placed by its random part whenever that part has the eight date characters. */
  lemma TokenShardIgnoresAuthor(random: string, author: Option<string>)
    requires |random| >= 8
    ensures Shard(SessionToken(random, author)) == Shard(random)
  {
  }

  /** Tokens of different authors never coincide for the same random part. */
  lemma TokenDeterminesAuthor(random: string, a: Option<string>, b: Option<string>)
    requires TruthyName(a) && TruthyName(b)
    requires SessionToken(random, a) == SessionToken(random, b)
    ensures a == b
  {
    var t := SessionToken(random, a);
    assert "__" + a.value == t[|random|..] == "__" + b.value;
    assert a.value == ("__" + a.value)[2..];
    assert b.value == ("__" + b.value)[2..];
  }

  /** What the backend of a repository does with a saved package. */
  function BackendWrite(kind: Kind, store: Store, members: seq<string>, rows: seq<Row>, token: string): Store {
    match kind
    case LocalKind => LocalBackend.Write(store, members, rows, token)
    case HubKind => HubBackend.Write(store, members, rows, token)
  }

  /** The records a save packs, taken in the order of `keys`: those whose annotation
      is not None. */
  function AnnotatedIn(records: map<string, Row>, keys: seq<string>): seq<Row>
    requires forall i :: 0 <= i < |keys| ==> keys[i] in records
  {
    if keys == [] then []
    else
      var item := records[keys[0]];
      (if item.annotation != Null then [item] else []) + AnnotatedIn(records, keys[1..])
  }

  lemma {:induction false} AnnotatedInAppend(records: map<string, Row>, a: seq<string>, b: seq<string>)
    requires forall i :: 0 <= i < |a| ==> a[i] in records
    requires forall i :: 0 <= i < |b| ==> b[i] in records
    ensures AnnotatedIn(records, a + b) == AnnotatedIn(records, a) + AnnotatedIn(records, b)
  {
    if a == [] {
      assert a + b == b;
    } else {
      AnnotatedInAppend(records, a[1..], b);
      var item := records[a[0]];
      var head := if item.annotation != Null then [item] else [];
      assert (a + b)[0] == a[0];
      assert (a + b)[1..] == a[1..] + b;
      assert AnnotatedIn(records, a + b) == head + AnnotatedIn(records, a[1..] + b);
      assert AnnotatedIn(records, a) == head + AnnotatedIn(records, a[1..]);
      Sorting.ConcatAssoc(head, AnnotatedIn(records, a[1..]), AnnotatedIn(records, b));
    }
  }

  /** One more key adds its record when that record is annotated. */
  lemma AnnotatedInStep(records: map<string, Row>, keys: seq<string>, i: nat)
    requires forall k :: 0 <= k < |keys| ==> keys[k] in records
    requires i < |keys|
    ensures var item := records[keys[i]];
      AnnotatedIn(records, keys[..i + 1]) ==
        AnnotatedIn(records, keys[..i]) + (if item.annotation != Null then [item] else [])
  {
    AnnotatedInAppend(records, keys[..i], [keys[i]]);
    assert keys[..i + 1] == keys[..i] + [keys[i]];
  }

  /** The record of an annotated key sits right after the rows of the keys before it. */
  lemma AnnotatedInAt(records: map<string, Row>, keys: seq<string>, i: nat)
    requires forall k :: 0 <= k < |keys| ==> keys[k] in records
    requires i < |keys| && records[keys[i]].annotation != Null
    ensures var n := |AnnotatedIn(records, keys[..i])|;
      n < |AnnotatedIn(records, keys)| && AnnotatedIn(records, keys)[n] == records[keys[i]]
  {
    AnnotatedInStep(records, keys, i);
    AnnotatedInAppend(records, keys[..i + 1], keys[i + 1..]);
    assert keys[..i + 1] + keys[i + 1..] == keys;
  }

  /** The rows `_save` hands to the backend: the annotated records in ascending id
      order. */
  function Annotated(records: map<string, Row>): seq<Row> {
    AnnotatedIn(records, SortedKeys(records))
  }

  /** The ids of some records in ascending order. */
  function SortedKeys(records: map<string, Row>): (keys: seq<string>)
    ensures forall i :: 0 <= i < |keys| ==> keys[i] in records
  {
    var keys := StringOrder.Sorted(records.Keys);
    assert forall i :: 0 <= i < |keys| ==> keys[i] in StringOrder.Elements(keys);
    keys
  }

  lemma {:induction false} AnnotatedInMembers(records: map<string, Row>, keys: seq<string>)
    requires forall i :: 0 <= i < |keys| ==> keys[i] in records
    ensures forall r :: r in AnnotatedIn(records, keys) <==>
      exists i :: 0 <= i < |keys| && r == records[keys[i]] && r.annotation != Null
  {
    if keys != [] {
      AnnotatedInMembers(records, keys[1..]);
      forall r ensures r in AnnotatedIn(records, keys) <==>
        exists i :: 0 <= i < |keys| && r == records[keys[i]] && r.annotation != Null
      {
        if r in AnnotatedIn(records, keys[1..]) {
          var i :| 0 <= i < |keys[1..]| && r == records[keys[1..][i]] && r.annotation != Null;
          assert r == records[keys[i + 1]];
        }
        if exists i :: 0 <= i < |keys| && r == records[keys[i]] && r.annotation != Null {
          var i :| 0 <= i < |keys| && r == records[keys[i]] && r.annotation != Null;
          if i > 0 {
            assert r == records[keys[1..][i - 1]];
          }
        }
      }
    }
  }

  /** Ids strictly ascending, so each id appears once. */
  predicate IdsAscending(rows: seq<Row>) {
    forall i, j :: 0 <= i < j < |rows| ==> StringOrder.Less(rows[i].id, rows[j].id)
  }

  lemma ConsAscending(item: Row, rest: seq<Row>)
    requires IdsAscending(rest)
    requires forall j :: 0 <= j < |rest| ==> StringOrder.Less(item.id, rest[j].id)
    ensures IdsAscending([item] + rest)
  {
    var rows := [item] + rest;
    forall i, j | 0 <= i < j < |rows| ensures StringOrder.Less(rows[i].id, rows[j].id) {
      assert rows[j] == rest[j - 1];
      if i > 0 {
        assert rows[i] == rest[i - 1];
      }
    }
  }

  lemma {:induction false} AnnotatedInOrdered(records: map<string, Row>, keys: seq<string>)
    requires forall i :: 0 <= i < |keys| ==> keys[i] in records
    requires KeyedById(records) && StringOrder.StrictlySorted(keys)
    ensures IdsAscending(AnnotatedIn(records, keys))
  {
    if keys != [] {
      var tail := keys[1..];
      forall i, j | 0 <= i < j < |tail| ensures StringOrder.Less(tail[i], tail[j]) {
        assert tail[i] == keys[i + 1] && tail[j] == keys[j + 1];
      }
      AnnotatedInOrdered(records, tail);
      AnnotatedInMembers(records, tail);
      var rest := AnnotatedIn(records, tail);
      var item := records[keys[0]];
      forall j | 0 <= j < |rest| ensures StringOrder.Less(item.id, rest[j].id) {
        assert rest[j] in rest;
        var k :| 0 <= k < |tail| && rest[j] == records[tail[k]] && rest[j].annotation != Null;
        assert tail[k] == keys[k + 1];
      }
      if item.annotation != Null {
        ConsAscending(item, rest);
      }
    }
  }

  /** The rows a save packs are exactly the annotated records. */
  lemma AnnotatedMembers(records: map<string, Row>)
    requires KeyedById(records)
    ensures forall r :: r in Annotated(records) <==> r.id in records && records[r.id] == r && r.annotation != Null
  {
    var keys := StringOrder.Sorted(records.Keys);
    assert forall i :: 0 <= i < |keys| ==> keys[i] in StringOrder.Elements(keys);
    AnnotatedInMembers(records, keys);
    forall r: Row ensures r in Annotated(records) <==> r.id in records && records[r.id] == r && r.annotation != Null {
      if r in Annotated(records) {
        var i :| 0 <= i < |keys| && r == records[keys[i]] && r.annotation != Null;
        assert keys[i] in records;
      }
      if r.id in records && records[r.id] == r && r.annotation != Null {
        assert r.id in StringOrder.Elements(keys);
        var i :| 0 <= i < |keys| && keys[i] == r.id;
      }
    }
  }

  /** What a save packs: exactly the annotated records, once each, ascending by id. */
  lemma AnnotatedIsSortedSelection(records: map<string, Row>)
    requires KeyedById(records)
    ensures IdsAscending(Annotated(records))
    ensures var rows := Annotated(records);
      (forall r :: r in rows <==> r.id in records && records[r.id] == r && r.annotation != Null)
  {
    var keys := StringOrder.Sorted(records.Keys);
    assert forall i :: 0 <= i < |keys| ==> keys[i] in StringOrder.Elements(keys);
    assert Annotated(records) == AnnotatedIn(records, keys);
    AnnotatedInOrdered(records, keys);
    AnnotatedMembers(records);
  }

  function Filenames(rows: seq<Row>): (names: seq<string>)
    ensures |names| == |rows| && forall i :: 0 <= i < |rows| ==> names[i] == rows[i].filename
  {
    seq(|rows|, i requires 0 <= i < |rows| => rows[i].filename)
  }

  /** The packing loop of `_save`: walks the records in `keys` order (ascending, as
      `_save` calls it) and collects the staged file of every annotated one, raising
      at the first whose file is missing from the staging directory. */
  method Pack(records: map<string, Row>, keys: seq<string>, staged: set<string>, stagingDir: string)
    returns (r: Result<(seq<string>, seq<Row>)>)
    requires forall i :: 0 <= i < |keys| ==> keys[i] in records
    ensures var rows := AnnotatedIn(records, keys);
      && (r.Ok? <==> forall i :: 0 <= i < |rows| ==> rows[i].filename in staged)
      && (r.Err? ==> r.error.FileNotFound?)
      && (r.Ok? ==> r.value == (Filenames(rows), rows))
  {
    var members: seq<string> := [];
    var rows: seq<Row> := [];
    for i := 0 to |keys|
      invariant rows == AnnotatedIn(records, keys[..i])
      invariant members == Filenames(rows)
      invariant forall k :: 0 <= k < |rows| ==> rows[k].filename in staged
    {
      var item := records[keys[i]];
      AnnotatedInStep(records, keys, i);
      if item.annotation != Null {
        if item.filename !in staged {
          AnnotatedInAt(records, keys, i);
          return Err(FileNotFound(Text.Join(stagingDir, item.filename)));
        }
        members := members + [item.filename];
        rows := rows + [item];
      }
    }
    assert keys[..|keys|] == keys;
    r := Ok((members, rows));
  }

  class DatasetRepository {
    const kind: Kind
    const registry: TaskRegistry.Registry
    var store: Store
    var metaInfo: Option<Value>
    var existIds: set<string>
    var checker: Option<Classification.Checker>

    /** `__init__` up to the first `_sync`: nothing is known yet. */
    constructor (kind: Kind, registry: TaskRegistry.Registry, store: Store)
      ensures this.kind == kind && this.registry == registry && this.store == store
      ensures metaInfo.None? && existIds == {} && checker.None?
    {
      this.kind := kind;
      this.registry := registry;
      this.store := store;
      metaInfo := None;
      existIds := {};
      checker := None;
    }

    /** `__init__`: a repository whose first `_sync` succeeded, or the error it raised. */
    static method Open(kind: Kind, registry: TaskRegistry.Registry, store: Store)
      returns (r: Result<DatasetRepository>)
      ensures r.Ok? ==> fresh(r.value) && r.value.kind == kind && r.value.registry == registry
      ensures r.Ok? ==> r.value.store == store && r.value.checker.Some?
      ensures r.Ok? ==> (Read(store).Ok? && r.value.metaInfo == Some(Read(store).value.0)
        && r.value.existIds == Read(store).value.1)
      ensures r.Err? <==> Read(store).Err? || registry.ParseCheckerFromMeta(Read(store).value.0).Err?
    {
      var repo := new DatasetRepository(kind, registry, store);
      var outcome := repo.Sync();
      if outcome.Fail? {
        return Err(outcome.error);
      }
      r := Ok(repo);
    }

    /** `_sync`: re-reads the snapshot. `meta_info` and `_exist_ids` are assigned
        together before the checker is parsed, so a failing parse leaves the new
        snapshot beside the old checker. */
    method Sync() returns (r: Outcome)
      modifies this
      ensures store == old(store)
      ensures Read(store).Err? ==> (r == Fail(Read(store).error)
        && metaInfo == old(metaInfo) && existIds == old(existIds) && checker == old(checker))
      ensures Read(store).Ok? ==> metaInfo == Some(Read(store).value.0) && existIds == Read(store).value.1
      ensures Read(store).Ok? ==>
        var parsed := registry.ParseCheckerFromMeta(Read(store).value.0);
        (parsed.Ok? ==> r == Pass && checker == Some(parsed.value))
        && (parsed.Err? ==> r == Fail(parsed.error) && checker == old(checker))
    {
      var read := Read(store);
      if read.Err? {
        return Fail(read.error);
      }
      metaInfo, existIds := Some(read.value.0), read.value.1;
      var parsed := registry.ParseCheckerFromMeta(read.value.0);
      if parsed.Err? {
        return Fail(parsed.error);
      }
      checker := Some(parsed.value);
      r := Pass;
    }

    /** `contains_id`: membership in the last snapshot, not in the live store. */
    method ContainsId(id: string) returns (b: bool)
      ensures b <==> id in existIds
    {
      b := id in existIds;
    }

    /** `_write`, as handed to a session: the backend stores the package. */
    method Write(members: seq<string>, rows: seq<Row>, token: string)
      modifies this
      ensures store == BackendWrite(kind, old(store), members, rows, token)
      ensures metaInfo == old(metaInfo) && existIds == old(existIds) && checker == old(checker)
    {
      store := BackendWrite(kind, store, members, rows, token);
    }

    /** `squash` on a local repository, `listing` being the glob's order: sync, fold
        the fragments into the canonical table, sync again. The squash goes through
        exactly when the first sync reads and parses the meta and the merge holds a
        row; otherwise the files are left as they were. Afterwards every id of a
        merged fragment is known to the snapshot. `generated` lists the readme files
        the squash writes. */
    method SquashLocal(listing: seq<string>, generated: seq<string>) returns (r: Outcome)
      requires kind == LocalKind
      requires Enumerates(listing, ListedFragments(store))
      modifies this
      ensures var ok := Read(old(store)).Ok?
          && registry.ParseCheckerFromMeta(Read(old(store)).value.0).Ok?
          && LocalBackend.Merged(old(store), listing) != map[];
        && (r.Pass? <==> ok)
        && (!ok ==> store == old(store))
        && (ok ==>
          && store.table.Some?
          && IsCanonicalTable(store.table.value, LocalBackend.Merged(old(store), listing))
          && store.fragments == old(store).fragments - ListedFragments(old(store))
          && store.log == old(store).log + [FileWritten(TablePath)] + Removals(listing) + Writes(generated)
          && store.meta == old(store).meta && store.packs == old(store).packs
          && store.indexes == old(store).indexes
          && store.others == old(store).others + (set p | p in generated)
          && existIds == ExistIds(old(store)) + IdsOfAll(FragmentTables(old(store), listing)))
    {
      var first := Sync();
      if first.Fail? {
        return first;
      }
      var squashed := LocalBackend.Squash(store, listing, generated);
      if squashed.Err? {
        return Fail(squashed.error);
      }
      store := squashed.value;
      r := Sync();
    }

    /** `squash` on a Hub repository: `glob` is the Hub's listing of the fragments and
        `walk` the staged files of the squash commit. The squash goes through exactly
        when the first sync reads and parses the meta; an empty merge then commits
        nothing. */
    method SquashHub(glob: seq<string>, walk: seq<string>) returns (r: Outcome)
      requires kind == HubKind
      requires Enumerates(glob, ListedFragments(store))
      requires Sorting.Distinct(walk) && TablePath in walk
      modifies this
      ensures var ok := Read(old(store)).Ok?
          && registry.ParseCheckerFromMeta(Read(old(store)).value.0).Ok?;
        var merged := MergeAll(TableRecords(old(store).table),
          FragmentTables(old(store), NaturalOrder.NatSorted(glob)));
        && (r.Pass? <==> ok)
        && (!ok || merged == map[] ==> store == old(store))
        && (ok && merged != map[] ==>
          && store.table.Some? && IsCanonicalTable(store.table.value, merged)
          && store.fragments == old(store).fragments - ListedFragments(old(store))
          && store.others == old(store).others + (set p | p in walk && p != TablePath)
          && store.log == old(store).log + [Commit(
               HubBackend.SquashMessage(|glob|, |merged|,
                 HubBackend.FragmentAuthors(FragmentTables(old(store), NaturalOrder.NatSorted(glob)))),
               HubBackend.Adds(walk) + HubBackend.Deletes(NaturalOrder.NatSorted(glob)))]
          && store.meta == old(store).meta && store.packs == old(store).packs
          && store.indexes == old(store).indexes
          && existIds == merged.Keys)
    {
      var first := Sync();
      if first.Fail? {
        return first;
      }
      store := HubBackend.Squash(store, glob, walk);
      r := Sync();
    }

    /** `write(author)`: a session that saves through this repository's backend and
        screens ids against this repository's snapshot as it is at each call. */
    method NewSession(author: Option<string>, randomToken: string, stagingDir: string)
      returns (s: WriterSession)
      requires checker.Some?
      ensures fresh(s) && s.repo == this && s.checker == checker.value && s.author == author
      ensures s.token == SessionToken(randomToken, author) && s.stagingDir == stagingDir
      ensures s.records == map[] && s.staged == {} && !s.closed && s.Valid()
    {
      s := new WriterSession(author, checker.value, randomToken, stagingDir, this);
    }
  }

  /** A writer session. `staged` is the set of file names present in the staging
      directory; `closed` records that the directory has been removed. */
  class WriterSession {
    const author: Option<string>
    const checker: Classification.Checker
    const token: string
    const stagingDir: string
    const repo: DatasetRepository
    var records: map<string, Row>
    var staged: set<string>
    var closed: bool

    /** Every record is stored under its own id, carries the session author and has
        not been archived; a removed staging directory holds nothing. */
    predicate Valid()
      reads this
    {
      && KeyedById(records)
      && (forall id :: id in records ==> records[id].author == author && records[id].archiveFile.None?)
      && (closed ==> staged == {})
    }

    constructor (author: Option<string>, checker: Classification.Checker, randomToken: string,
                 stagingDir: string, repo: DatasetRepository)
      ensures this.author == author && this.checker == checker && this.repo == repo
      ensures token == SessionToken(randomToken, author) && this.stagingDir == stagingDir
      ensures records == map[] && staged == {} && !closed && Valid()
    {
      this.author := author;
      this.checker := checker;
      this.token := SessionToken(randomToken, author);
      this.stagingDir := stagingDir;
      this.repo := repo;
      records := map[];
      staged := {};
      closed := false;
    }

    /** `is_id_duplicated`: the id is staged here or known to the repository as it
        is now. */
    method IsIdDuplicated(id: string) returns (b: bool)
      ensures b <==> id in records || id in repo.existIds
    {
      b := id in records || id in repo.existIds;
    }

    /** `add(id, image_file, annotation)`: checks a non-None annotation first, copies
        the image into the staging directory as the id plus the image's extension,
        and stores a fresh record, replacing any record with the same id. */
    method Add(id: string, imageFile: string, annotation: Value, now: int) returns (r: Outcome)
      requires Valid()
      modifies this
      ensures Valid()
      ensures annotation != Null && Classification.Check(checker, annotation).Fail? ==>
        r == Classification.Check(checker, annotation) && records == old(records) && staged == old(staged)
      ensures (annotation == Null || Classification.Check(checker, annotation).Pass?) && closed ==>
        r.Fail? && r.error.FileNotFound? && records == old(records) && staged == old(staged)
      ensures r.Pass? <==> (annotation == Null || Classification.Check(checker, annotation).Pass?) && !closed
      ensures r.Pass? ==>
        var filename := id + Text.Extension(Text.Basename(imageFile));
        && records == old(records)[id := Row(id, filename, annotation, now, author, None)]
        && staged == old(staged) + {filename}
      ensures closed == old(closed)
    {
      if annotation != Null {
        var checked := Classification.Check(checker, annotation);
        if checked.Fail? {
          return checked;
        }
      }
      var filename := id + Text.Extension(Text.Basename(imageFile));
      if closed {
        return Fail(FileNotFound(Text.Join(stagingDir, filename)));
      }
      staged := staged + {filename};
      records := records[id := Row(id, filename, annotation, now, author, None)];
      r := Pass;
    }

    /** `get_image_path(id)`: the record's file in the staging directory; a file name
      without a slash is found there under its own name. */
    method GetImagePath(id: string) returns (r: Result<string>)
      ensures id !in records ==> r == Err(KeyError(id))
      ensures id in records ==> r == Ok(Text.Join(stagingDir, records[id].filename))
      ensures r.Ok? && (forall i :: 0 <= i < |records[id].filename| ==> records[id].filename[i] != '/') ==>
        Text.Basename(r.value) == records[id].filename
    {
      if id !in records {
        return Err(KeyError(id));
      }
      if forall i :: 0 <= i < |records[id].filename| ==> records[id].filename[i] != '/' {
        Text.JoinBasename(stagingDir, records[id].filename);
      }
      r := Ok(Text.Join(stagingDir, records[id].filename));
    }

    /** `self[id]`: the stored annotation. */
    method Get(id: string) returns (r: Result<Value>)
      ensures id !in records ==> r == Err(KeyError(id))
      ensures id in records ==> r == Ok(records[id].annotation)
    {
      if id !in records {
        return Err(KeyError(id));
      }
      r := Ok(records[id].annotation);
    }

    /** `self[id] = annotation`: checks a non-None annotation before looking the id
        up, then changes the annotation and the timestamp of that record only. */
    method Set(id: string, annotation: Value, now: int) returns (r: Outcome)
      requires Valid()
      modifies this
      ensures Valid() && staged == old(staged) && closed == old(closed)
      ensures annotation != Null && Classification.Check(checker, annotation).Fail? ==>
        r == Classification.Check(checker, annotation) && records == old(records)
      ensures (annotation == Null || Classification.Check(checker, annotation).Pass?) && id !in old(records) ==>
        r == Fail(KeyError(id)) && records == old(records)
      ensures r.Pass? <==> (annotation == Null || Classification.Check(checker, annotation).Pass?) && id in old(records)
      ensures r.Pass? ==>
        records == old(records)[id := old(records)[id].(annotation := annotation, updatedAt := now)]
    {
      if annotation != Null {
        var checked := Classification.Check(checker, annotation);
        if checked.Fail? {
          return checked;
        }
      }
      if id !in records {
        return Fail(KeyError(id));
      }
      records := records[id := records[id].(annotation := annotation, updatedAt := now)];
      r := Pass;
    }

    /** `del self[id]`: drops the record, then removes its staged file; when that
        file is already gone the record stays dropped and the removal raises. */
    method Delete(id: string) returns (r: Outcome)
      requires Valid()
      modifies this
      ensures Valid() && closed == old(closed)
      ensures id !in old(records) ==> r == Fail(KeyError(id)) && records == old(records) && staged == old(staged)
      ensures id in old(records) ==> records == old(records) - {id} && |records| == |old(records)| - 1
      ensures id in old(records) ==>
        var filename := old(records)[id].filename;
        && (filename in old(staged) ==> r == Pass && staged == old(staged) - {filename})
        && (filename !in old(staged) ==> r.Fail? && r.error.FileNotFound? && staged == old(staged))
    {
      if id !in records {
        return Fail(KeyError(id));
      }
      var filename := records[id].filename;
      records := records - {id};
      if filename !in staged {
        return Fail(FileNotFound(Text.Join(stagingDir, filename)));
      }
      staged := staged - {filename};
      r := Pass;
    }

    /** `len(session)`. */
    method Len() returns (n: nat)
      ensures n == |records|
    {
      n := |records|;
    }

    /** `id in session`. */
    method Contains(id: string) returns (b: bool)
      ensures b <==> id in records
    {
      b := id in records;
    }

    /** `_save`: packs the staged file of every annotated record, in ascending id
        order, and hands the package, those records and the token to the repository's
        backend. A record whose file is missing from the staging directory makes the
        packing raise before anything reaches the backend. The session itself is left
        as it was. */
    method Save() returns (r: Outcome)
      requires Valid()
      modifies repo
      ensures var rows := Annotated(records);
        && (r.Pass? <==> forall i :: 0 <= i < |rows| ==> rows[i].filename in staged)
        && (r.Fail? ==> r.error.FileNotFound? && repo.store == old(repo.store))
        && (r.Pass? ==> repo.store == BackendWrite(repo.kind, old(repo.store), Filenames(rows), rows, token))
      ensures repo.metaInfo == old(repo.metaInfo) && repo.existIds == old(repo.existIds)
      ensures repo.checker == old(repo.checker)
    {
      var keys := SortedKeys(records);
      var packed := Pack(records, keys, staged, stagingDir);
      assert Annotated(records) == AnnotatedIn(records, keys);
      if packed.Err? {
        return Fail(packed.error);
      }
      var (members, rows) := packed.value;
      repo.Write(members, rows, token);
      r := Pass;
    }

    /** `close`: removes the staging directory and everything staged in it. */
    method Close()
      requires Valid()
      modifies this
      ensures Valid() && closed && staged == {} && records == old(records)
    {
      closed := true;
      staged := {};
    }

    /** `__exit__`: saves, then closes; a failing save propagates and leaves the
        session open. */
    method Exit() returns (r: Outcome)
      requires Valid()
      modifies this, repo
      ensures Valid() && records == old(records)
      ensures var rows := Annotated(records);
        && (r.Pass? <==> forall i :: 0 <= i < |rows| ==> rows[i].filename in old(staged))
        && (r.Pass? ==> (closed && staged == {}
              && repo.store == BackendWrite(repo.kind, old(repo.store), Filenames(rows), rows, token)))
        && (r.Fail? ==> closed == old(closed) && staged == old(staged) && repo.store == old(repo.store))
    {
      r := Save();
      if r.Fail? {
        return;
      }
      Close();
    }
  }
}
