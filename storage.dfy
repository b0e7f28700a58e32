/** The dataset repository as both backends lay it out: `meta.json`, the canonical
    table `data.parquet`, one fragment `unarchived/{token}.parquet` per saved session,
    and the session's image pack `images/{token[:8]}/{token}.tar` with its index
    `.json` beside it. File contents are abstract: a table is its rows, a pack is the
    list of its member names. */
module Storage {

  import opened Wrappers
  import opened Values
  import opened Rows
  import Text

  /** One change to a Hugging Face dataset repository inside a commit. */
  datatype CommitOp = AddOp(path: string) | DeleteOp(path: string)

  /** What a backend did to the repository, in order. */
  datatype Event =
    | FileWritten(path: string)
    | FileRemoved(path: string)
    | Commit(message: string, ops: seq<CommitOp>)

  datatype Store = Store(
    meta: Option<Value>,
    table: Option<seq<Row>>,
    fragments: map<string, seq<Row>>,
    packs: map<string, seq<string>>,
    indexes: map<string, seq<string>>,
    others: set<string>,
    log: seq<Event>)

  const MetaPath: string := "meta.json"
  const TablePath: string := "data.parquet"
  const FragmentDir: string := "unarchived/"
  const FragmentSuffix: string := ".parquet"

  /** `token[:8]`: the date part of a session token, which names the directory of the pack. */
  function Shard(token: string): (s: string)
    ensures |s| == if |token| < 8 then |token| else 8
    ensures token[..|s|] == s
  {
    if |token| <= 8 then token else token[..8]
  }

  /** `images/{token[:8]}/`: the directory of a session's pack and its index. */
  function PackDir(token: string): string {
    "images/" + Shard(token) + "/"
  }

  function PackPath(token: string): string {
    PackDir(token) + token + ".tar"
  }

  function IndexPath(token: string): string {
    PackDir(token) + token + ".json"
  }

  function FragmentPath(token: string): string {
    FragmentDir + token + FragmentSuffix
  }

  /** Whether `unarchived/` + star + `.parquet` matches a path: the star stands for any run of
      characters without a slash. */
  predicate IsListedFragment(path: string) {
    && |path| >= |FragmentDir| + |FragmentSuffix|
    && path[..|FragmentDir|] == FragmentDir
    && path[|path| - |FragmentSuffix|..] == FragmentSuffix
    && forall i :: |FragmentDir| <= i < |path| - |FragmentSuffix| ==> path[i] != '/'
  }

  /** The fragment paths a glob of `unarchived/` + star + `.parquet` reports. */
  function ListedFragments(store: Store): set<string> {
    set p | p in store.fragments && IsListedFragment(p)
  }

  /** A fragment is found by the glob exactly when its token has no slash; a token
      carrying an author with a slash lands in a sub-directory that no squash lists. */
  lemma FragmentListedIff(token: string)
    ensures IsListedFragment(FragmentPath(token)) <==> '/' !in token
  {
    var p := FragmentPath(token);
    assert p[..|FragmentDir|] == FragmentDir;
    assert p[|p| - |FragmentSuffix|..] == FragmentSuffix;
    forall i | 0 <= i < |token| ensures p[|FragmentDir| + i] == token[i] {
    }
    if '/' in token {
      var i :| 0 <= i < |token| && token[i] == '/';
      assert p[|FragmentDir| + i] == '/';
    }
  }

  /** Different sessions write different fragments. */
  lemma FragmentPathInjective(t: string, u: string)
    requires FragmentPath(t) == FragmentPath(u)
    ensures t == u
  {
    var p := FragmentPath(t);
    assert t == p[|FragmentDir|..|p| - |FragmentSuffix|];
    assert u == p[|FragmentDir|..|p| - |FragmentSuffix|];
  }

  /** `os.path.basename` of the pack path is `{token}.tar` for a token without a
      slash. */
  lemma PackBasename(token: string)
    requires '/' !in token
    ensures Text.Basename(PackPath(token)) == token + ".tar"
  {
    var p := PackPath(token);
    var d := PackDir(token);
    assert p[|d| - 1] == '/';
    forall i | |d| <= i < |p| ensures p[i] != '/' {
      if i < |d| + |token| {
        assert p[i] == token[i - |d|];
      }
    }
    var k := Text.LastIndexOf(p, '/');
    assert k == |d| - 1;
    assert p[|d|..] == token + ".tar";
  }

  /** `{**item, 'archive_file': archive}` for every row. */
  function Stamp(rows: seq<Row>, archive: string): (r: seq<Row>)
    ensures |r| == |rows|
    ensures forall i :: 0 <= i < |rows| ==> r[i] == rows[i].(archiveFile := Some(archive))
  {
    if rows == [] then [] else [rows[0].(archiveFile := Some(archive))] + Stamp(rows[1..], archive)
  }

  /** The rows a session saves carry no archive; dropping the stamp again recovers them. */
  function Unstamp(rows: seq<Row>): (r: seq<Row>)
    ensures |r| == |rows|
    ensures forall i :: 0 <= i < |rows| ==> r[i] == rows[i].(archiveFile := None)
  {
    if rows == [] then [] else [rows[0].(archiveFile := None)] + Unstamp(rows[1..])
  }

  predicate Unstamped(rows: seq<Row>) {
    forall i :: 0 <= i < |rows| ==> rows[i].archiveFile.None?
  }

  lemma StampRoundTrip(rows: seq<Row>, archive: string)
    requires Unstamped(rows)
    ensures Unstamp(Stamp(rows, archive)) == rows
  {
  }

  /** Stamping changes no id, so a fragment covers exactly the ids saved. */
  lemma StampKeepsIds(rows: seq<Row>, archive: string)
    ensures Ids(Stamp(rows, archive)) == Ids(rows)
  {
    var r := Stamp(rows, archive);
    forall id ensures id in Ids(r) <==> id in Ids(rows) {
      if id in Ids(r) {
        var k :| 0 <= k < |r| && r[k].id == id;
        assert rows[k].id == id;
      }
      if id in Ids(rows) {
        var k :| 0 <= k < |rows| && rows[k].id == id;
        assert r[k].id == id;
      }
    }
  }

  /** The records dictionary `{item['id']: item for item in rows}` of a table,
      absent tables giving the empty dictionary. */
  function TableRecords(table: Option<seq<Row>>): (m: map<string, Row>)
    ensures KeyedById(m)
    ensures table.Some? ==> m.Keys == Ids(table.value)
    ensures table.None? ==> m == map[]
  {
    if table.Some? then Overlay(map[], table.value) else map[]
  }

  /** The rows of the listed fragments, in listing order (a path with no fragment
      contributes no rows). */
  function FragmentTables(store: Store, listing: seq<string>): (tables: seq<seq<Row>>)
    ensures |tables| == |listing|
    ensures forall i :: 0 <= i < |listing| && listing[i] in store.fragments ==>
      tables[i] == store.fragments[listing[i]]
  {
    seq(|listing|, i requires 0 <= i < |listing| =>
      if listing[i] in store.fragments then store.fragments[listing[i]] else [])
  }

  /** `listing` enumerates the paths in `paths`, each once. */
  predicate Enumerates(listing: seq<string>, paths: set<string>) {
    && (forall i, j :: 0 <= i < j < |listing| ==> listing[i] != listing[j])
    && (forall i :: 0 <= i < |listing| ==> listing[i] in paths)
    && (forall p :: p in paths ==> p in listing)
  }

  function Removals(paths: seq<string>): (events: seq<Event>)
    ensures |events| == |paths|
    ensures forall i :: 0 <= i < |paths| ==> events[i] == FileRemoved(paths[i])
  {
    seq(|paths|, i requires 0 <= i < |paths| => FileRemoved(paths[i]))
  }

  function Writes(paths: seq<string>): (events: seq<Event>)
    ensures |events| == |paths|
    ensures forall i :: 0 <= i < |paths| ==> events[i] == FileWritten(paths[i])
  {
    seq(|paths|, i requires 0 <= i < |paths| => FileWritten(paths[i]))
  }

  /** The record values of a dictionary, listed in its insertion order. */
  function ValuesInOrder(records: map<string, Row>, order: seq<string>): (rows: seq<Row>)
    requires forall i :: 0 <= i < |order| ==> order[i] in records
    ensures |rows| == |order|
    ensures forall i :: 0 <= i < |order| ==> rows[i] == records[order[i]]
  {
    seq(|order|, i requires 0 <= i < |order| => records[order[i]])
  }

  /** Listing every record once, in any order, gives a valid input for the canonical
      sort. */
  lemma ValuesInOrderFacts(records: map<string, Row>, order: seq<string>)
    requires KeyedById(records) && Enumerates(order, records.Keys)
    ensures var rows := ValuesInOrder(records, order);
      && DistinctIds(rows) && Ids(rows) == records.Keys
      && forall i :: 0 <= i < |rows| ==> rows[i].id in records && records[rows[i].id] == rows[i]
  {
    var rows := ValuesInOrder(records, order);
    forall id | id in records ensures id in Ids(rows) {
      var k :| 0 <= k < |order| && order[k] == id;
      assert rows[k].id == id;
    }
  }

  /** `pd.DataFrame(list(records.values())).sort_values(...)`: the canonical table
      of a records dictionary, whose values are listed in insertion order. */
  function CanonicalOf(records: map<string, Row>, order: seq<string>): (t: seq<Row>)
    requires KeyedById(records) && Enumerates(order, records.Keys)
    ensures IsCanonicalTable(t, records)
    ensures Ids(t) == records.Keys && |t| == |records|
  {
    var rows := ValuesInOrder(records, order);
    ValuesInOrderFacts(records, order);
    SortedValuesAreCanonical(rows, records);
    CanonicalTableSize(SortRows(rows), records);
    SortRows(rows)
  }

  /** The ids `_read` reports: those of `data.parquet`, or none without it. */
  function ExistIds(store: Store): set<string> {
    if store.table.Some? then Ids(store.table.value) else {}
  }

  /** `_read` (`_read_meta` on the Hub): the parsed `meta.json` and the ids of the
      canonical table. A missing
      `meta.json` raises; fragments are never consulted. */
  function Read(store: Store): (r: Result<(Value, set<string>)>)
    ensures r.Err? <==> store.meta.None?
    ensures r.Err? ==> r.error == FileNotFound(MetaPath)
    ensures r.Ok? ==> r.value == (store.meta.value, ExistIds(store))
  {
    if store.meta.None? then Err(FileNotFound(MetaPath))
    else Ok((store.meta.value, ExistIds(store)))
  }

  /** Adding or removing fragments does not change what `_read` reports. */
  lemma ReadIgnoresFragments(store: Store, fragments: map<string, seq<Row>>)
    ensures Read(store.(fragments := fragments)) == Read(store)
  {
  }

  /** Inserting a key extends the insertion order only when the key is new. */
  lemma EnumeratesInsert(order: seq<string>, keys: set<string>, id: string)
    requires Enumerates(order, keys)
    ensures id !in keys ==> Enumerates(order + [id], keys + {id})
    ensures id in keys ==> Enumerates(order, keys + {id})
  {
    if id !in keys {
      var o := order + [id];
      forall p | p in keys + {id} ensures p in o {
        if p != id {
          assert p in order;
        } else {
          assert o[|order|] == id;
        }
      }
    }
  }

  lemma OverlayStep(records: map<string, Row>, rows: seq<Row>, i: nat)
    requires i < |rows|
    ensures Overlay(records, rows[..i + 1]) == Overlay(records, rows[..i])[rows[i].id := rows[i]]
  {
    assert rows[..i + 1][..i] == rows[..i];
  }

  /** The first `i` rows are loaded into `cur`, whose insertion order `curOrder`
      extends `order`. */
  predicate LoadedTo(records: map<string, Row>, order: seq<string>, rows: seq<Row>, i: nat,
                     cur: map<string, Row>, curOrder: seq<string>)
    requires i <= |rows|
  {
    && cur == Overlay(records, rows[..i])
    && KeyedById(cur) && Enumerates(curOrder, cur.Keys)
    && |order| <= |curOrder| && curOrder[..|order|] == order
  }

  /** Loading one more row keeps the loop's invariant. */
  lemma LoadStep(records: map<string, Row>, order: seq<string>, rows: seq<Row>, i: nat,
                 cur: map<string, Row>, curOrder: seq<string>)
    requires i < |rows| && LoadedTo(records, order, rows, i, cur, curOrder)
    ensures var item := rows[i];
      LoadedTo(records, order, rows, i + 1, cur[item.id := item],
        if item.id in cur then curOrder else curOrder + [item.id])
  {
    var item := rows[i];
    OverlayStep(records, rows, i);
    InsertionOrderStep(order, cur, curOrder, item);
  }

  /** The insertion order after storing one more row. */
  lemma InsertionOrderStep(order: seq<string>, cur: map<string, Row>, curOrder: seq<string>, item: Row)
    requires Enumerates(curOrder, cur.Keys) && |order| <= |curOrder| && curOrder[..|order|] == order
    ensures var o := if item.id in cur then curOrder else curOrder + [item.id];
      Enumerates(o, cur[item.id := item].Keys) && |order| <= |o| && o[..|order|] == order
  {
    EnumeratesInsert(curOrder, cur.Keys, item.id);
    if item.id !in cur {
      assert (curOrder + [item.id])[..|order|] == curOrder[..|order|];
    }
  }

  /** The body of both squash loops: `for item in rows: records[item['id']] = item`,
      with `order` tracking the dictionary's insertion order. */
  method LoadRows(records: map<string, Row>, order: seq<string>, rows: seq<Row>)
    returns (records': map<string, Row>, order': seq<string>)
    requires KeyedById(records) && Enumerates(order, records.Keys)
    ensures records' == Overlay(records, rows)
    ensures KeyedById(records') && Enumerates(order', records'.Keys)
    ensures |order| <= |order'| && order'[..|order|] == order
  {
    records', order' := records, order;
    var i := 0;
    assert rows[..0] == [];
    while i < |rows|
      invariant 0 <= i <= |rows|
      invariant LoadedTo(records, order, rows, i, records', order')
    {
      var item := rows[i];
      LoadStep(records, order, rows, i, records', order');
      if item.id !in records' {
        order' := order' + [item.id];
      }
      records' := records'[item.id := item];
      i := i + 1;
    }
    assert rows[..i] == rows;
  }
}
