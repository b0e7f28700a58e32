/** `HfOnlineRepository`: the backend that keeps a dataset repository on the Hugging
    Face Hub. Every change is one commit; a saved session is uploaded as one commit of
    three added files, a squash as one commit that adds the new canonical table and the
    generated readme files and deletes every fragment it merged. Fragments are listed
    in natural order. */
module HubBackend {

  import opened Wrappers
  import opened Values
  import opened Rows
  import opened Storage
  import StringOrder
  import Sorting
  import NaturalOrder
  import Text

  /** `@a, @b, ...`: the names credited in a commit message. */
  function Mentions(names: seq<string>): string {
    if names == [] then ""
    else if |names| == 1 then "@" + names[0]
    else "@" + names[0] + ", " + Mentions(names[1..])
  }

  /** The distinct truthy authors of some rows, in order of first appearance. */
  function NamedAuthors(rows: seq<Row>): (names: seq<string>)
    ensures Sorting.Distinct(names)
    ensures forall n :: n in names <==>
      exists i :: 0 <= i < |rows| && TruthyName(rows[i].author) && rows[i].author.value == n
  {
    if rows == [] then []
    else
      var init := rows[..|rows| - 1];
      var last := rows[|rows| - 1];
      var names := NamedAuthors(init);
      assert forall i :: 0 <= i < |init| ==> init[i] == rows[i];
      if TruthyName(last.author) && last.author.value !in names then names + [last.author.value] else names
  }

  function WritePrefix(count: nat): string {
    "Add package with " + Text.PluralWord(count, "sample")
  }

  lemma {:induction false} NoNamedAuthors(rows: seq<Row>)
    requires forall i :: 0 <= i < |rows| ==> !TruthyName(rows[i].author)
    ensures NamedAuthors(rows) == []
  {
    if rows != [] {
      NoNamedAuthors(rows[..|rows| - 1]);
    }
  }

  /** The message of the commit `_write` makes: the sample count, the distinct truthy
      authors when there is one, and the file name of the pack. */
  function WriteMessage(rows: seq<Row>, token: string): string {
    var authors := NamedAuthors(rows);
    var packName := Text.Basename(PackPath(token));
    if authors != [] then
      WritePrefix(|rows|) + " contributed by " + Mentions(authors) + " - " + packName
    else
      WritePrefix(|rows|) + " - " + packName
  }

  /** The message credits authors exactly when some row has a truthy author. */
  lemma WriteMessageCreditsIff(rows: seq<Row>, token: string)
    ensures var credit := WritePrefix(|rows|) + " contributed by ";
      (|credit| <= |WriteMessage(rows, token)| && WriteMessage(rows, token)[..|credit|] == credit)
      <==> exists i :: 0 <= i < |rows| && TruthyName(rows[i].author)
  {
    if exists i :: 0 <= i < |rows| && TruthyName(rows[i].author) {
      var i :| 0 <= i < |rows| && TruthyName(rows[i].author);
      CreditedWhenNamed(rows, token, i);
    } else {
      NoNamedAuthors(rows);
      UncreditedWhenUnnamed(rows, token);
    }
  }

  lemma CreditedWhenNamed(rows: seq<Row>, token: string, i: nat)
    requires i < |rows| && TruthyName(rows[i].author)
    ensures var credit := WritePrefix(|rows|) + " contributed by ";
      |credit| <= |WriteMessage(rows, token)| && WriteMessage(rows, token)[..|credit|] == credit
  {
    assert rows[i].author.value in NamedAuthors(rows);
    CreditPrefix(WritePrefix(|rows|) + " contributed by ", Mentions(NamedAuthors(rows)), Text.Basename(PackPath(token)));
  }

  lemma UncreditedWhenUnnamed(rows: seq<Row>, token: string)
    requires NamedAuthors(rows) == []
    ensures var credit := WritePrefix(|rows|) + " contributed by ";
      !(|credit| <= |WriteMessage(rows, token)| && WriteMessage(rows, token)[..|credit|] == credit)
  {
    NoCreditPrefix(WritePrefix(|rows|), Text.Basename(PackPath(token)));
  }

  lemma CreditPrefix(credit: string, mentions: string, packName: string)
    ensures var msg := credit + mentions + " - " + packName;
      |credit| <= |msg| && msg[..|credit|] == credit
  {
    var msg := credit + mentions + " - " + packName;
    assert msg == credit + (mentions + " - " + packName);
  }

  lemma NoCreditPrefix(prefix: string, packName: string)
    ensures var credit := prefix + " contributed by ";
      var msg := prefix + " - " + packName;
      !(|credit| <= |msg| && msg[..|credit|] == credit)
  {
    var credit := prefix + " contributed by ";
    var msg := prefix + " - " + packName;
    assert msg[|prefix| + 1] == '-';
    assert credit[|prefix| + 1] == 'c';
  }

  /** `_write(tar_file, data_file, token)`: one commit adding the pack, its index and
      the stamped fragment. */
  function Write(store: Store, members: seq<string>, rows: seq<Row>, token: string): (r: Store)
    ensures r.packs == store.packs[PackPath(token) := members]
    ensures r.indexes == store.indexes[IndexPath(token) := members]
    ensures r.fragments == store.fragments[FragmentPath(token) := Stamp(rows, PackPath(token))]
    ensures r.meta == store.meta && r.table == store.table && r.others == store.others
    ensures r.log == store.log + [Commit(WriteMessage(rows, token),
      [AddOp(PackPath(token)), AddOp(IndexPath(token)), AddOp(FragmentPath(token))])]
    ensures Read(r) == Read(store)
    ensures '/' !in token ==> FragmentPath(token) in ListedFragments(r)
  {
    FragmentListedIff(token);
    store.(
      packs := store.packs[PackPath(token) := members],
      indexes := store.indexes[IndexPath(token) := members],
      fragments := store.fragments[FragmentPath(token) := Stamp(rows, PackPath(token))],
      log := store.log + [Commit(WriteMessage(rows, token),
        [AddOp(PackPath(token)), AddOp(IndexPath(token)), AddOp(FragmentPath(token))])])
  }

  /** `_list_unarchived_table_files`: the fragments, as the glob reports them, taken
      in natural order and each downloaded; `download` gives the local file the Hub
      client returns for a repository path. */
  method ListUnarchivedTableFiles(store: Store, glob: seq<string>, download: string -> string)
    returns (files: seq<string>)
    requires Enumerates(glob, ListedFragments(store))
    ensures |files| == |glob|
    ensures forall i :: 0 <= i < |files| ==> files[i] == download(NaturalOrder.NatSorted(glob)[i])
    ensures forall p :: p in ListedFragments(store) ==> download(p) in files
  {
    var listing := NaturalOrder.NatSorted(glob);
    files := [];
    for i := 0 to |listing|
      invariant |files| == i
      invariant forall k :: 0 <= k < i ==> files[k] == download(listing[k])
    {
      files := files + [download(listing[i])];
    }
    DownloadsCover(store, glob, download, files);
  }

  /** Downloading every path of the natural-sorted listing downloads every listed
      fragment. */
  lemma DownloadsCover(store: Store, glob: seq<string>, download: string -> string, files: seq<string>)
    requires Enumerates(glob, ListedFragments(store))
    requires |files| == |glob|
    requires forall k :: 0 <= k < |files| ==> files[k] == download(NaturalOrder.NatSorted(glob)[k])
    ensures forall p :: p in ListedFragments(store) ==> download(p) in files
  {
    var listing := NaturalOrder.NatSorted(glob);
    NatSortedListing(store, glob);
    forall p | p in ListedFragments(store) ensures download(p) in files {
      var k :| 0 <= k < |listing| && listing[k] == p;
      assert files[k] == download(p);
    }
  }

  /** The truthy authors of the rows of some fragments. */
  function FragmentAuthors(tables: seq<seq<Row>>): set<string> {
    set t, r | t in tables && r in t && TruthyName(r.author) :: r.author.value
  }

  /** The truthy authors of some rows. */
  function RowAuthors(rows: seq<Row>): set<string> {
    set r | r in rows && TruthyName(r.author) :: r.author.value
  }

  /** The inner loop of `_squash` over one fragment's rows. */
  method CollectAuthors(rows: seq<Row>) returns (found: set<string>)
    ensures found == RowAuthors(rows)
  {
    found := {};
    var j := 0;
    while j < |rows|
      invariant 0 <= j <= |rows|
      invariant found == RowAuthors(rows[..j])
    {
      if TruthyName(rows[j].author) {
        found := found + {rows[j].author.value};
      }
      assert rows[..j + 1] == rows[..j] + [rows[j]];
      j := j + 1;
    }
    assert rows[..j] == rows;
  }

  lemma FragmentAuthorsStep(tables: seq<seq<Row>>, i: nat)
    requires i < |tables|
    ensures FragmentAuthors(tables[..i + 1]) == FragmentAuthors(tables[..i]) + RowAuthors(tables[i])
  {
    assert tables[..i + 1] == tables[..i] + [tables[i]];
  }

  function SquashMessage(packages: nat, samples: nat, authors: set<string>): string {
    var head := "Squash " + Text.PluralWord(packages, "package") + ", now this dataset contains "
      + Text.PluralWord(samples, "sample");
    if authors != {} then head + ", contributed by " + Mentions(StringOrder.Sorted(authors)) else head
  }

  /** Credited squash authors are listed once each, in ascending order. */
  lemma SquashCreditOrder(authors: set<string>)
    ensures StringOrder.StrictlySorted(StringOrder.Sorted(authors))
    ensures forall a :: a in authors <==> a in StringOrder.Sorted(authors)
  {
    var s := StringOrder.Sorted(authors);
    assert StringOrder.Elements(s) == authors;
  }

  function Adds(paths: seq<string>): (ops: seq<CommitOp>)
    ensures |ops| == |paths| && forall i :: 0 <= i < |paths| ==> ops[i] == AddOp(paths[i])
  {
    seq(|paths|, i requires 0 <= i < |paths| => AddOp(paths[i]))
  }

  function Deletes(paths: seq<string>): (ops: seq<CommitOp>)
    ensures |ops| == |paths| && forall i :: 0 <= i < |paths| ==> ops[i] == DeleteOp(paths[i])
  {
    seq(|paths|, i requires 0 <= i < |paths| => DeleteOp(paths[i]))
  }

  /** The two loading loops of `_squash`: the canonical table, then the fragments in
      `listing` order, collecting the truthy authors of fragment rows on the way. */
  method LoadFragments(store: Store, listing: seq<string>)
    returns (records: map<string, Row>, order: seq<string>, authors: set<string>)
    requires forall i :: 0 <= i < |listing| ==> listing[i] in store.fragments
    ensures records == MergeAll(TableRecords(store.table), FragmentTables(store, listing))
    ensures KeyedById(records) && Enumerates(order, records.Keys)
    ensures authors == FragmentAuthors(FragmentTables(store, listing))
  {
    var tables := FragmentTables(store, listing);
    records, order := map[], [];
    if store.table.Some? {
      records, order := LoadRows(records, order, store.table.value);
    }
    authors := {};
    var i := 0;
    while i < |listing|
      invariant 0 <= i <= |listing|
      invariant records == MergeAll(TableRecords(store.table), tables[..i])
      invariant KeyedById(records) && Enumerates(order, records.Keys)
      invariant authors == FragmentAuthors(tables[..i])
    {
      var rows := tables[i];
      records, order := LoadRows(records, order, rows);
      MergeAllStep(TableRecords(store.table), tables, i);
      var found := CollectAuthors(rows);
      FragmentAuthorsStep(tables, i);
      authors := authors + found;
      i := i + 1;
    }
    assert tables[..i] == tables;
  }

  /** Natural sorting reorders the glob's listing without losing or repeating a path. */
  lemma NatSortedListing(store: Store, glob: seq<string>)
    requires Enumerates(glob, ListedFragments(store))
    ensures Enumerates(NaturalOrder.NatSorted(glob), ListedFragments(store))
  {
    var listing := NaturalOrder.NatSorted(glob);
    Sorting.PermutationKeepsDistinct(glob, listing);
    forall i | 0 <= i < |listing| ensures listing[i] in ListedFragments(store) {
      assert listing[i] in multiset(glob);
    }
    forall p | p in ListedFragments(store) ensures p in listing {
      assert p in multiset(glob);
    }
  }

  /** `_squash`, with `glob` the fragment paths as the Hub lists them and `walk` the
      files of the staging directory (the new `data.parquet` and the generated readme
      files) as `os.walk` reports them. Without any row the squash only warns and
      commits nothing. Otherwise one commit adds every staged file and deletes every
      fragment merged; its message counts packages and samples and credits the
      fragments' authors in sorted order. */
  method Squash(store: Store, glob: seq<string>, walk: seq<string>) returns (r: Store)
    requires Enumerates(glob, ListedFragments(store))
    requires Sorting.Distinct(walk) && TablePath in walk
    ensures var listing := NaturalOrder.NatSorted(glob);
      var merged := MergeAll(TableRecords(store.table), FragmentTables(store, listing));
      && (merged == map[] ==> r == store)
      && (merged != map[] ==>
        && r.table.Some? && IsCanonicalTable(r.table.value, merged)
        && r.fragments == store.fragments - ListedFragments(store)
        && r.others == store.others + (set p | p in walk && p != TablePath)
        && r.log == store.log + [Commit(
             SquashMessage(|listing|, |merged|, FragmentAuthors(FragmentTables(store, listing))),
             Adds(walk) + Deletes(listing))]
        && r.meta == store.meta && r.packs == store.packs && r.indexes == store.indexes)
  {
    var listing := NaturalOrder.NatSorted(glob);
    NatSortedListing(store, glob);
    var records, order, newAuthors := LoadFragments(store, listing);
    var filesToDrop := listing;
    if |records| == 0 {
      return store;
    }
    var table := CanonicalOf(records, order);
    var operations := Adds(walk) + Deletes(filesToDrop);
    var message := SquashMessage(|filesToDrop|, |records|, newAuthors);
    r := store.(
      table := Some(table),
      fragments := store.fragments - ListedFragments(store),
      others := store.others + (set p | p in walk && p != TablePath),
      log := store.log + [Commit(message, operations)]);
  }
}
