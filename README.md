# felinewhisker, modelled in Dafny

felinewhisker is a dataset-annotation tool for image classification. Annotators open a
**writer session** on a **dataset repository**, which is either a local directory or a
Hugging Face dataset repository. They add images with labels, and saving the session
writes three things: a pack of images, its index, and an "unarchived" parquet fragment of
rows. A later **squash** merges every fragment into the canonical `data.parquet` table,
keeping one row per id (the last row read for an id wins), and sorts the table by
`updated_at` descending, then by `id`. It then deletes the fragments it read. On the hub
the squash is a single commit whose message credits the contributing authors.

Images come from **data sources**. A data source moves through three states, normalises
the tuples that concrete sources yield into image items, and skips ids the repository
already holds. There are two concrete sources:

- the local-directory source, which derives `localdir__…` ids with a sanitiser;
- the cheesechaser source, which derives `cheesechaser__…` ids from content ids.

Other modelled parts:

- the classification annotation checker;
- the task-type registry;
- the terminal validators for repository names, string lengths and comma-separated
  label lists;
- the licence prompt's membership check;
- the `dict_merge` utility.

The model is organised as follows:

- One Dafny module per source file or shared concept.
- **Pure code** is written as functions over datatypes: the sanitiser, id schemes, commit
  messages, checker, validators and natural sort.
- **State-changing code** is written as methods:
  - `WriterSession`, `DatasetRepository`, the data-source status machine and the registry
    are classes whose methods have `modifies` clauses.
  - The loops of `_save`, `_squash`, `_list_unarchived_table_files`, `_iter`, `_iter_cids`,
    the multi-string validator and `dict_merge` are `while` loops with invariants. Each is
    proved equal to a specification function.
- **Files** are a `Store` value: the meta document, the canonical table, fragments, packs,
  indexes, other files, and an event log of writes, removals and hub commits. Backends map
  one store to the next.

Where the code and its documentation disagree, the model follows the code:

- The local squash does not stop after warning about an empty merge. Sorting the
  column-less frame then raises KeyError for `updated_at`, so the model gives that error
  and leaves the store unchanged.
- `add` overwrites an existing id instead of rejecting it.
- `close` on a data source never changes its status, so a second `close` runs `_close`
  again.

## Model

| member | source | states |
|---|---|---|
| Repository.SessionToken | felinewhisker/repository/base.py:21-23 | the token starts with the random part and is longer exactly when the author is truthy, the extra part being `__` followed by the author |
| Repository.TokenShardIgnoresAuthor | felinewhisker/repository/base.py:21-23 | for a random part of at least 8 characters, the pack shard of the token is the shard of the random part, whatever the author |
| Repository.TokenDeterminesAuthor | felinewhisker/repository/base.py:21-23 | two truthy authors that give the same token with the same random part are equal |
| Repository.AnnotatedInMembers | felinewhisker/repository/base.py:83-92 | a row is saved exactly when some listed key maps to it and its annotation is not None |
| Repository.AnnotatedInOrdered | felinewhisker/repository/base.py:83-92 | over strictly ascending keys, the saved rows have strictly ascending ids |
| Repository.AnnotatedMembers | felinewhisker/repository/base.py:78-94 | the rows `_save` passes on are exactly the records whose annotation is not None |
| Repository.AnnotatedIsSortedSelection | felinewhisker/repository/base.py:78-94 | the rows `_save` passes on are the annotated records, in ascending id order |
| Repository.Pack | felinewhisker/repository/base.py:78-94 | packing succeeds exactly when every annotated row's image file is staged, and otherwise fails with FileNotFound; on success it gives the filenames and the rows in key order |
| Repository.DatasetRepository.constructor | felinewhisker/repository/base.py:119-124 | a new repository has read nothing yet: no meta, no known ids, no checker |
| Repository.DatasetRepository.Open | felinewhisker/repository/base.py:119-124 | opening a repository succeeds exactly when the first sync reads the meta and parses its checker, and then holds the read meta, the existing ids and a checker |
| Repository.DatasetRepository.Sync | felinewhisker/repository/base.py:135-137 | a failed read changes nothing and reports its error; a good read installs the meta and the existing ids, and replaces the checker exactly when the meta parses |
| Repository.DatasetRepository.ContainsId | felinewhisker/repository/base.py:158-160 | true exactly for the ids of the last sync |
| Repository.DatasetRepository.Write | felinewhisker/repository/base.py:126-127 | the store becomes the backend's write of the pack and rows; the meta, ids and checker are unchanged |
| Repository.DatasetRepository.SquashLocal | felinewhisker/repository/base.py:139-143 | the squash passes exactly when the first sync reads and parses the meta and the merge holds a row; otherwise the store is left as it was. On success the canonical table of the merge is written, the listed fragments are removed, the generated readme files are written and added to the other files, meta, packs and indexes are kept, and the ids are resynced to the canonical plus fragment ids |
| Repository.DatasetRepository.SquashHub | felinewhisker/repository/base.py:139-143 | the squash passes exactly when the first sync reads and parses the meta; a failed sync or an empty merge leaves the store as it was. Otherwise one commit, with the package/sample/author message, leaves the canonical table of the merge, no listed fragments, the staged files added, meta, packs and indexes kept, and the merged ids as the known ids |
| Repository.DatasetRepository.NewSession | felinewhisker/repository/base.py:149-156 | a fresh session on this repository, with the checker, the author and the author-suffixed token, holding no records and no staged files |
| Repository.WriterSession.constructor | felinewhisker/repository/base.py:17-28 | the token is the session token of the random part and the author; the records and the staging area start empty |
| Repository.WriterSession.IsIdDuplicated | felinewhisker/repository/base.py:30-32 | true exactly when the id is a session record or a repository id |
| Repository.WriterSession.Add | felinewhisker/repository/base.py:34-47 | a rejected annotation changes nothing and the checker's error is returned; otherwise the record for the id is set to id + extension of the file's basename, the annotation, the time and the author, overwriting an existing one; other ids keep their records |
| Repository.WriterSession.GetImagePath | felinewhisker/repository/base.py:49-51 | the record's file joined to the staging directory as `os.path.join` does, or KeyError for an unknown id; a file name without a slash is the base name of that path |
| Repository.WriterSession.Get | felinewhisker/repository/base.py:53-55 | the record's annotation, or KeyError for an unknown id |
| Repository.WriterSession.Set | felinewhisker/repository/base.py:57-62 | a rejected annotation or an unknown id changes nothing; otherwise only the annotation and the update time of that record change |
| Repository.WriterSession.Delete | felinewhisker/repository/base.py:64-68 | removes exactly that id, so the count drops by one, and unstages its file; an unknown id raises KeyError |
| Repository.WriterSession.Len | felinewhisker/repository/base.py:70-72 | the number of records |
| Repository.WriterSession.Contains | felinewhisker/repository/base.py:74-76 | membership of the id among the records |
| Repository.WriterSession.Save | felinewhisker/repository/base.py:78-98 | the repository's store becomes the backend write of exactly the annotated records in ascending id order with the session token; the records are unchanged, and a missing staged file leaves the store unchanged |
| Repository.WriterSession.Close | felinewhisker/repository/base.py:100-105 | the session is closed and its staging area is empty; the records are kept |
| Repository.WriterSession.Exit | felinewhisker/repository/base.py:113-115 | saves and then closes; a failed save leaves the session open and the store unchanged |
| Storage.Shard | felinewhisker/repository/local.py:27-29 | the shard is the first eight characters of the token, or all of it when shorter |
| Storage.FragmentListedIff | felinewhisker/repository/local.py:63 | a fragment written for a token is found by the `unarchived/*.parquet` listing exactly when the token has no `/` |
| Storage.FragmentPathInjective | felinewhisker/repository/local.py:35 | distinct tokens write distinct fragment files |
| Storage.PackBasename | felinewhisker/repository/huggingface.py:62 | for a token without `/`, the pack name the commit message shows is `{token}.tar` |
| Storage.Stamp | felinewhisker/repository/local.py:37-43 | same row count; each row equals its input row with `archive_file` set to the pack path |
| Storage.StampRoundTrip | felinewhisker/repository/local.py:37-43 | clearing `archive_file` from stamped rows gives back the rows of the session |
| Storage.StampKeepsIds | felinewhisker/repository/local.py:37-43 | stamping keeps the set of ids |
| Storage.TableRecords | felinewhisker/repository/local.py:55-60 | the records of the canonical table are keyed by id and hold exactly its ids; no table gives no records |
| Storage.Read | felinewhisker/repository/local.py:45-52 | a missing meta file raises FileNotFound; otherwise gives the meta and the ids of the canonical table (none if it is absent); the hub's `_read_meta` at huggingface.py lines 77-104 behaves the same, and stands in for the hub's `_read` (see "## Left out") |
| Storage.ReadIgnoresFragments | felinewhisker/repository/local.py:45-52 | fragments never change what a read reports |
| Storage.ValuesInOrderFacts | felinewhisker/repository/local.py:67 | the values of the merged dict in insertion order have distinct ids, exactly the merged ids, and each is its id's record |
| Storage.CanonicalOf | felinewhisker/repository/local.py:67-70 | the frame sorted by `updated_at` descending and `id` ascending is the canonical table of the records, one row per id |
| Storage.LoadRows | felinewhisker/repository/local.py:64-65 | loading rows into the records gives their overlay, keeps them keyed by id, and extends the insertion order with the new ids only |
| Rows.Overlay | felinewhisker/repository/local.py:64-65 | the keys are the old keys plus the ids of the rows, and the records stay keyed by id |
| Rows.OverlayValue | felinewhisker/repository/local.py:64-65 | each id holds the last row with that id, or its old record if no row has it |
| Rows.MergeAllKeys | felinewhisker/repository/local.py:55-67 | the merged ids are exactly the canonical ids plus the fragment ids |
| Rows.MergeAllKeyedById | felinewhisker/repository/local.py:55-67 | every merged record is stored under its own id |
| Rows.LaterFragmentWins | felinewhisker/repository/huggingface.py:179-195 | an id holds the last row for it in the last fragment that has it |
| Rows.UntouchedIdKeepsCanonicalRow | felinewhisker/repository/local.py:55-66 | an id that no fragment has keeps its canonical row |
| Rows.RowLeTotalPreorder | felinewhisker/repository/local.py:70 | the order of newest first, then id ascending, is total and transitive |
| Rows.RowLeTieSameId | felinewhisker/repository/local.py:70 | two rows tie in that order only when they have the same id |
| Rows.SortRows | felinewhisker/repository/local.py:70 | the result is sorted by that order and is a permutation of its input |
| Rows.SortedValuesAreCanonical | felinewhisker/repository/local.py:67-70 | sorting the merged values gives a canonical table of the records |
| Rows.CanonicalTableUnique | felinewhisker/repository/local.py:70 | two canonical tables of the same records are equal, so the written table does not depend on the order the fragments were read |
| Rows.CanonicalTableSize | felinewhisker/repository/local.py:55-67 | a canonical table has exactly one row per merged id |
| Sorting.Sort | felinewhisker/repository/local.py:70 | the result is sorted by the order and is a permutation of its input |
| Sorting.SortedUnique | felinewhisker/repository/local.py:70 | two sorted permutations of the same rows are equal when the order has no ties between distinct rows |
| Sorting.PermutationKeepsDistinct | felinewhisker/repository/local.py:70 | a permutation of distinct elements is distinct |
| StringOrder.LessEqTotalOrder | felinewhisker/repository/base.py:83 | code-point order on strings is a total order |
| StringOrder.Sorted | felinewhisker/repository/base.py:83 | `sorted` of a set of keys is strictly ascending and holds exactly the set |
| StringOrder.StrictlySortedUnique | felinewhisker/repository/base.py:83 | two strictly ascending lists of the same keys are equal |
| StringOrder.StrictlySortedIsSorted | felinewhisker/repository/base.py:83 | a strictly ascending list is the sorted list of its elements |
| LocalBackend.Write | felinewhisker/repository/local.py:26-43 | writes the pack and index under `images/{shard}/` and the stamped fragment under `unarchived/`, keeps the meta, the canonical table and the other files, and leaves what a read reports unchanged; the fragment is listed when the token has no `/` |
| LocalBackend.MergedKeys | felinewhisker/repository/local.py:55-67 | the merged ids are the canonical ids plus the ids of the listed fragments |
| LocalBackend.LoadListed | felinewhisker/repository/local.py:55-66 | loading the table and then each listed fragment gives the merge, keyed by id, with an insertion order of its keys |
| LocalBackend.RemoveFragments | felinewhisker/repository/local.py:72-73 | exactly the listed fragment files are removed, one removal event each, in listing order |
| LocalBackend.Squash | felinewhisker/repository/local.py:54-73 | an empty merge raises KeyError for `updated_at`; otherwise the table is the canonical table of the merge, every listed fragment is removed after the table write, then `README.md` and the sample images are written and join the other files; meta, packs and indexes are unchanged |
| HubBackend.NamedAuthors | felinewhisker/repository/huggingface.py:58-67 | the credited names are distinct and are exactly the truthy authors of the rows |
| HubBackend.WriteMessageCreditsIff | felinewhisker/repository/huggingface.py:58-67 | the write commit message has the "contributed by" form exactly when some row has a truthy author |
| HubBackend.Write | felinewhisker/repository/huggingface.py:38-75 | one commit that adds the pack, index and stamped fragment under the sharded paths with that message; the meta, the canonical table and the other files are kept, and a read reports the same afterwards |
| HubBackend.ListUnarchivedTableFiles | felinewhisker/repository/huggingface.py:125-144 | one downloaded file per listed fragment, the i-th being the download of the i-th fragment in natural-sort order; every listed fragment's download is among them |
| HubBackend.NatSortedListing | felinewhisker/repository/huggingface.py:130 | natural-sorting a listing keeps it a listing of the same fragments |
| HubBackend.CollectAuthors | felinewhisker/repository/huggingface.py:188-194 | the authors collected from a fragment are exactly its truthy author values |
| HubBackend.LoadFragments | felinewhisker/repository/huggingface.py:161-195 | the records are the merge of the canonical table and the fragments in listing order; the authors come from the fragment rows only |
| HubBackend.SquashCreditOrder | felinewhisker/repository/huggingface.py:238-242 | the squash message lists each author once, in ascending order |
| HubBackend.Adds | felinewhisker/repository/huggingface.py:227-233 | one add operation per generated file, in order |
| HubBackend.Deletes | felinewhisker/repository/huggingface.py:235-236 | one delete operation per fragment read, in order |
| HubBackend.Squash | felinewhisker/repository/huggingface.py:156-250 | an empty merge returns with no commit; otherwise one commit adds every generated file and deletes every fragment read, its message counting packages and samples and crediting the sorted authors; the table is the canonical table of the merge |
| NaturalOrder.NatLeTotalPreorder | felinewhisker/repository/huggingface.py:130 | natural order is total and transitive |
| NaturalOrder.NatSorted | felinewhisker/repository/huggingface.py:179 | `natsorted` gives a permutation of its input in natural order |
| NaturalOrder.NaturalBeforeLexicographic | felinewhisker/repository/huggingface.py:179 | natural order puts `9` before `10`, while code-point order puts `10` first |
| Text.NatToString | felinewhisker/repository/huggingface.py:238-239 | a decimal numeral: non-empty, all digits, and no leading zero |
| Text.NatToStringRoundTrip | felinewhisker/repository/huggingface.py:238-239 | the numeral reads back as the number |
| Text.NatToStringInjective | felinewhisker/repository/huggingface.py:238-239 | distinct counts give distinct numerals |
| Text.Basename | felinewhisker/repository/base.py:38 | the basename is the suffix of the path after its last `/` |
| Text.Join | felinewhisker/repository/base.py:49-51 | `os.path.join(dir, name)`: the joined path always ends with the name |
| Text.JoinKeepsDir | felinewhisker/repository/base.py:49-51 | a relative name joined to a directory keeps the directory as its prefix |
| Text.JoinAbsolute | felinewhisker/repository/base.py:49-51 | an absolute name replaces the directory |
| Text.JoinBasename | felinewhisker/repository/base.py:49-51 | the base name of a directory joined with a slash-free name is that name |
| Text.Extension | felinewhisker/repository/base.py:38 | the extension is empty or a suffix that starts with its only dot |
| Text.ExtensionOfStemAndSuffix | felinewhisker/repository/base.py:38-39 | `stem.suffix` has the extension `.suffix` |
| Text.ExtensionOfDotless | felinewhisker/repository/base.py:38-39 | a name whose only dots are leading has no extension |
| Classification.NewChecker | felinewhisker/tasks/classification/annotation.py:9-11 | the labels are copied from an iterable of hashable values, and the label set holds exactly them; anything else raises TypeError |
| Classification.Check | felinewhisker/tasks/classification/annotation.py:13-17 | passes exactly for a string in the label set; anything else raises ValueError |
| Classification.CheckRejectsNonStrings | felinewhisker/tasks/classification/annotation.py:13-17 | a value that is not a string is rejected with ValueError |
| Classification.ParseFromMeta | felinewhisker/tasks/classification/annotation.py:22-24 | builds the checker from `labels`; a missing `labels` key raises KeyError |
| Classification.StringLabelsAreCharacters | felinewhisker/tasks/classification/annotation.py:9-11 | a string given as labels gives a checker of its characters |
| Classification.InitMeta | felinewhisker/tasks/classification.py:85-93 | the meta has exactly the keys name, labels, readme_metadata and task, with task `classification` |
| Classification.InitThenParseAcceptsExactlyLabels | felinewhisker/tasks/classification.py:19-34 | the checker parsed from a freshly initialised meta accepts exactly the strings among the labels |
| TaskRegistry.Registry.constructor | felinewhisker/tasks/dispatch.py:10-18 | at import time the registry holds `classification` only |
| TaskRegistry.Registry.Register | felinewhisker/tasks/dispatch.py:13-15 | a truthy task name is registered, replacing an earlier entry; an empty or missing one fails the assertion and leaves the registry unchanged |
| TaskRegistry.Registry.LookupByMeta | felinewhisker/tasks/dispatch.py:21-24 | succeeds exactly for a meta whose `task` is a registered name; a missing `task` raises KeyError |
| TaskRegistry.Registry.ParseCheckerFromMeta | felinewhisker/tasks/dispatch.py:21-24 | a failed lookup is reported; a classification task parses the classification checker |
| TaskRegistry.Registry.ReadmeFamily | felinewhisker/tasks/dispatch.py:27-34 | README generation dispatches on the meta's own `task` |
| TaskRegistry.Registry.InitProject | felinewhisker/tasks/dispatch.py:37-43 | dispatches on the explicit task type; an unregistered one raises KeyError, and a classification project needs labels |
| TaskRegistry.Registry.InitThenParse | felinewhisker/tasks/dispatch.py:21-43 | a freshly initialised classification project parses its checker again |
| DataSource.Unpack | felinewhisker/datasource/base.py:101-113 | a 1-, 2- or 3-tuple or a bare value gives id, image and annotation, with None where missing; an empty or longer tuple fails to unpack |
| DataSource.UnpackRoundTrip | felinewhisker/datasource/base.py:101-113 | a triple unpacks to itself; a pair is the triple with annotation None; a 1-tuple is the bare value |
| DataSource.Identify | felinewhisker/datasource/base.py:115 | a truthy id is kept; a falsy one is replaced by the random id |
| DataSource.StreamItemsAreNew | felinewhisker/datasource/base.py:115-117 | every yielded item has a truthy id that the predicate does not report as contained |
| DataSource.StreamKeepsAll | felinewhisker/datasource/base.py:100-117 | with nothing contained, every well-formed value is yielded, in order, with its image |
| DataSource.StreamAppend | felinewhisker/datasource/base.py:100-117 | iterating two runs in a row yields the first run's items and then the second's, unless the first stopped on an error |
| DataSource.PassThrough | felinewhisker/datasource/base.py:100-117 | triples with new truthy ids and annotation None pass through unchanged, in order |
| DataSource.Source.constructor | felinewhisker/datasource/base.py:59-61 | a new source is idle, and without a predicate nothing is contained |
| DataSource.Source.SetContainsId | felinewhisker/datasource/base.py:63-64 | replaces the predicate, with the same default |
| DataSource.Source.Init | felinewhisker/datasource/base.py:75-80 | from idle it initialises once; initialised does nothing; closed raises RuntimeError |
| DataSource.Source.Close | felinewhisker/datasource/base.py:82-89 | idle raises RuntimeError; initialised calls `_close` each time; the status never changes |
| DataSource.Source.Iterate | felinewhisker/datasource/base.py:98-117 | runs the init transition first, then yields the normalised, filtered stream; a closed source yields nothing and raises RuntimeError |
| LocalSource.StripLeading | felinewhisker/datasource/local.py:16 | removes exactly the leading run of `_` |
| LocalSource.StripTrailing | felinewhisker/datasource/local.py:16 | removes exactly the trailing run of `_` |
| LocalSource.CollapseIsClean | felinewhisker/datasource/local.py:16 | after replacing each run of non-word characters with `_`, the text has only word characters and no `__` |
| LocalSource.CollapseLast | felinewhisker/datasource/local.py:16 | the replaced text ends in `_` exactly when the input ends in a non-word character |
| LocalSource.SanitizeIsSanitized | felinewhisker/datasource/local.py:16 | a sanitised string has only word characters, no `__`, and no leading or trailing `_` |
| LocalSource.SanitizeKeepsAlnums | felinewhisker/datasource/local.py:16 | sanitising keeps every letter and digit, in order |
| LocalSource.SanitizeFixesSanitized | felinewhisker/datasource/local.py:16 | sanitising leaves a sanitised string as it is |
| LocalSource.SanitizeIdempotent | felinewhisker/datasource/local.py:16 | sanitising twice is sanitising once |
| LocalSource.SeparatorsCollide | felinewhisker/datasource/local.py:24 | paths differing only in a separator character give the same file token |
| LocalSource.SourceId | felinewhisker/datasource/local.py:12-16 | a truthy given id is kept; otherwise the id is the sanitised directory path |
| LocalSource.LocalIdInjective | felinewhisker/datasource/local.py:24-25 | a `localdir__` id determines its sanitised source id and its file token |
| LocalSource.ImageTuple | felinewhisker/datasource/local.py:24-27 | an image file yields a triple of a truthy string id, the path and None |
| LocalSource.ImagesAreFreshTriples | felinewhisker/datasource/local.py:18-27 | everything yielded is a fresh triple built from an image file of the walk |
| LocalSource.BaseLoopKeepsImages | felinewhisker/datasource/local.py:26-27 | the base loop passes every yielded triple through unchanged, in order |
| LocalSource.IterFiles | felinewhisker/datasource/local.py:18-27 | the loop over the walk yields exactly the specified images and stops on a file without a mimetype |
| CheeseChaserSource.ResolveSourceId | felinewhisker/datasource/cheesechaser.py:11-21 | an unknown source type raises TypeError; a truthy given id wins; otherwise a data pool's default, and none for a pipe |
| CheeseChaserSource.CidToId | felinewhisker/datasource/cheesechaser.py:25-29 | every id starts with `cheesechaser__` |
| CheeseChaserSource.CidToIdInjective | felinewhisker/datasource/cheesechaser.py:25-29 | with the same source id, equal ids come from content ids with the same text |
| CheeseChaserSource.SourceIdsCanCollide | felinewhisker/datasource/cheesechaser.py:25-29 | a source id and a content id containing `__` can give the same id as another pair |
| CheeseChaserSource.NeverALocalId | felinewhisker/datasource/cheesechaser.py:25-29 | a cheesechaser id is never a local-directory id |
| CheeseChaserSource.FreshCidsMembers | felinewhisker/datasource/cheesechaser.py:31-34 | a content id is passed on exactly when the generator gave it and its id is not contained |
| CheeseChaserSource.IterCids | felinewhisker/datasource/cheesechaser.py:31-34 | the loop passes on the generator's content ids in order, skipping exactly the contained ones |
| CheeseChaserSource.Triple | felinewhisker/datasource/cheesechaser.py:36-40 | a retrieved item gives a triple of a truthy id, the data and None |
| CheeseChaserSource.Iter | felinewhisker/datasource/cheesechaser.py:36-40 | one triple per retrieved item, in order |
| CheeseChaserSource.RetrievedAreFresh | felinewhisker/datasource/cheesechaser.py:31-40 | items retrieved for passed-on content ids are fresh triples |
| CheeseChaserSource.BaseLoopKeepsRetrieved | felinewhisker/datasource/cheesechaser.py:36-40 | the base loop yields one item per retrieved item, with its mapped id, its data and no annotation |
| TuiValidators.FullMatchIff | felinewhisker/utils/tui_validators.py:9 | the matcher accepts exactly `owner/name`: an owner of `[a-z0-9][a-z0-9_-]*`, and a name of 1 to 96 characters of `[a-z0-9_-]` that starts and ends with `[a-z0-9]` |
| TuiValidators.ValidateRepoName | felinewhisker/utils/tui_validators.py:14-16 | passes exactly for names of that grammar and fails with the format message otherwise |
| TuiValidators.NameLengthBound | felinewhisker/utils/tui_validators.py:9 | an otherwise well-formed name is accepted exactly when it has at most 96 characters |
| TuiValidators.StripLeft | felinewhisker/utils/tui_validators.py:25 | removes exactly the leading whitespace |
| TuiValidators.StripRight | felinewhisker/utils/tui_validators.py:25 | removes exactly the trailing whitespace |
| TuiValidators.StripPadding | felinewhisker/utils/tui_validators.py:25 | whitespace around a text does not change its strip |
| TuiValidators.StripIdempotent | felinewhisker/utils/tui_validators.py:25 | a strip neither starts nor ends with whitespace, and stripping twice is stripping once |
| TuiValidators.ValidateLength | felinewhisker/utils/tui_validators.py:24-32 | passes exactly when the stripped length is within the bounds, the maximum only when set; reports too short first, then too long |
| TuiValidators.ValidateLengthIgnoresPadding | felinewhisker/utils/tui_validators.py:24-32 | surrounding whitespace never changes the verdict |
| TuiValidators.Split | felinewhisker/utils/tui_validators.py:48 | splitting always gives at least one piece |
| TuiValidators.SplitJoin | felinewhisker/utils/tui_validators.py:48 | joining the pieces with the separator gives the text back |
| TuiValidators.SplitPiecesFree | felinewhisker/utils/tui_validators.py:48 | no piece contains the separator |
| TuiValidators.StripAll | felinewhisker/utils/tui_validators.py:53 | each piece is stripped, and their number is kept |
| TuiValidators.Labels | felinewhisker/utils/tui_validators.py:46-53 | a splitter of unknown type raises TypeError, and an empty separator ValueError; otherwise at least one label, each already stripped |
| TuiValidators.LabelsArePieces | felinewhisker/utils/tui_validators.py:46-53 | the labels are the stripped pieces of a split that joins back to the text |
| TuiValidators.ItemFailureNone | felinewhisker/utils/tui_validators.py:69-85 | no item fails exactly when every item is within the length bounds and, unless duplicates are allowed, no item repeats |
| TuiValidators.ItemsVerdictPass | felinewhisker/utils/tui_validators.py:58-85 | the items pass exactly when the count bounds and the item checks hold |
| TuiValidators.FirstLengthFailureReported | felinewhisker/utils/tui_validators.py:70-80 | the first item outside the length bounds is the one reported |
| TuiValidators.CountCheckedFirst | felinewhisker/utils/tui_validators.py:58-67 | a count outside the bounds is reported before any item is looked at |
| TuiValidators.MultiCheckAccepts | felinewhisker/utils/tui_validators.py:55-85 | the validator passes exactly when the labels split, their count is within bounds, each is within the length bounds, and they are distinct unless duplicates are allowed |
| TuiValidators.ValidateMulti | felinewhisker/utils/tui_validators.py:55-85 | the validator's loops give the specified verdict |
| TuiValidators.CheckItems | felinewhisker/utils/tui_validators.py:69-85 | the item loop, with its set of items seen, reports the specified first failure |
| TuiPrompts.Ids | felinewhisker/utils/tui_prompts.py:83 | the valid licences are the first components of the table, in table order |
| TuiPrompts.ValidateLicence | felinewhisker/utils/tui_prompts.py:88-94 | returns True exactly for a licence id of the table; otherwise a ValidationError whose cursor is at the end of the text |
| TuiPrompts.MitAccepted | felinewhisker/utils/tui_prompts.py:9-10 | `mit` is an id of the table and is accepted |
| TuiPrompts.DescriptionsRejected | felinewhisker/utils/tui_prompts.py:88-93 | descriptions such as `MIT` are rejected: the check is on ids and is case-sensitive |
| TuiPrompts.PaddedRejected | felinewhisker/utils/tui_prompts.py:88-93 | padded ids are rejected: nothing is stripped |
| DictMerge.MergeAsWritten | felinewhisker/utils/dict.py:1-14 | as written: two dicts sharing a key exhaust the recursion limit; two dicts without one give None; anything else gives `b` |
| DictMerge.AsWrittenDiverges | felinewhisker/utils/dict.py:3-12 | as written, two empty dicts give None instead of `{}`, and the tests' flat dicts raise instead of merging |
| DictMerge.DictMerge | felinewhisker/utils/dict.py:1-14 | intended: two dicts merge to the union of their keys; anything else gives `b` |
| DictMerge.Merge | felinewhisker/utils/dict.py:1-14 | the loop over the sorted key union gives the intended merge |
| DictMerge.MergeEntries | test/utils/test_dict.py:29-37 | `b` wins on its keys unless both values are dicts, which merge; keys only `a` has keep `a`'s value |
| DictMerge.MergeEmpty | test/utils/test_dict.py:19-27 | the empty dict is neutral on the left for every value and on the right for dicts |
| DictMerge.MergeIdempotent | felinewhisker/utils/dict.py:1-14 | merging a value with itself gives it back |
| DictMerge.TestNonEmptyDicts | test/utils/test_dict.py:29-32 | the flat dicts of the tests merge as the tests expect |
| DictMerge.TestNestedDicts | test/utils/test_dict.py:34-37 | the nested dicts of the tests merge recursively as the tests expect |
| DictMerge.TestEdgeCases | test/utils/test_dict.py:19-43 | the empty-dict and non-dict cases of the tests |

## Left out

- All parquet, tar, JSON, filesystem and hub I/O are left out. Files are a `Store` value and an event log.
  - The pack is a list of member names.
  - Index hashes and the byte formats are foreign to the model.
- The locks of the session and the repository are left out. Every method is modelled as atomic.
- The clock and `random_sha1_with_timestamp` become parameters: the `now` of `Add` and `Set`, and the random part of the token. The random ids of a data source are also a parameter.
- The temporary staging directory is a set of staged filenames. Copying the source image in `Add` is not modelled: a missing source image would raise there, but here it is accepted.
- The hub's `_get_table_file` and its downloads are left out; the canonical table is a field of the store. The download of each fragment in `_list_unarchived_table_files` is a `download` parameter mapping a repository path to the local file.
- The contents of the generated README, the sample images, `create_readme`'s body and the readme half of `init_project_for_classification` are left out. They are file and image output. The files a squash generates are a parameter: `walk` on the hub, `generated` for a local repository.
- The order of `os.walk`, `glob.glob` and the hub glob becomes a parameter: the listing or walk given to each operation.
  - `glob`'s skipping of hidden files is not modelled.
- The iteration order of the hub's `named_authors` set is modelled as the order of first appearance. Python's set order is not specified.
- Mimetype guessing in the local source becomes a field of each file entry.
- LocalSource.Collapse: `\W` is Unicode-aware in Python; the model treats ASCII letters and digits as the word characters.
- The path normalisation of the local directory (`abspath`, `normpath`, `expanduser`, `normcase`) and `relpath` are inputs, not modelled.
- The cheesechaser data-pool default id (class name with `DataPool` removed, then underscored) is a parameter of the source argument.
- Pipe retrieval is modelled as its list of retrieved items.
- TuiValidators.Labels: a regular-expression splitter is not modelled. Only a literal separator splits; any other splitter gives the TypeError of the source's last branch.
- prompt_toolkit's message texts are modelled as structured failure values, and the fuzzy completer of the licence prompt is left out.
- `ImageItem.make_pil`, `make_file` and `utils/align.py` are image processing and are left out.
- The UI, CLI, `utils/directory.py`, the emoji download, `config/meta.py` and the package `__init__` files are left out.
- The abstract checker interface of `tasks/base.py` has a single implementation here, the classification checker. There is no interface type.
- The duplicate copy of the checker in `tasks/classification.py` is the same code as `tasks/classification/annotation.py`, so it is modelled once.
- DataSource.Stream: the "already contained" check is a set fixed for one iteration. The program calls its predicate once per item; the application passes the live `is_id_duplicated` of a session and adds every item it pulls, so there a second item with an already pulled id (say `a-b.png` after `a_b.png`) is skipped, while the model yields both.
- NaturalOrder.IsDigit: only the ASCII digits `0`-`9` form numbers. natsort treats every Unicode decimal digit as one.
- Text.PluralWord: hbutils' `plural_word` is a foreign library. The model assumes it gives the singular only for a count of 1 (so "0 samples"). Zero counts are reachable: the `Add package with 0 …` message of a session with no annotated record, and the `Squash 0 …` message when there are no fragments but the canonical table has rows.
- A data source's `__exit__` is the same transition as `close`, and `__enter__` is the same as the init transition; they are not separate members.
- Storage.Read: the hub repository defines only `_read_meta` (huggingface.py:77), while `DatasetRepository.__init__` calls `_sync`, which calls the base `_read` (base.py:124, 129-130, 136). As written, constructing a hub repository raises NotImplementedError. The model reads a hub repository through `_read_meta` instead, as evidently intended.
- Classification.Iterate: `list()` of a JSON object iterates its keys in insertion order in Python; the model uses ascending key order. Only the checker's label list (used by `__repr__`) differs; its label set is the same.
- Repository.WriterSession.Add: an id starting with `/` makes `os.path.join` ignore the staging directory, so the program copies the image outside it. The model keeps the staged file set by file name and does not model where the copy lands; `GetImagePath` gives the joined path, as the program does.

## Findings

| source | as written | input that shows it | evidently intended | confidence | as-written member | corrected member |
|---|---|---|---|---|---|---|
| felinewhisker/utils/dict.py:3-12 | the dict branch calls itself on the same two dicts for a shared key and never returns `retval` | `{'key1': 'value1', 'key2': 'value2'}` and `{'key2': 'new_value2', 'key3': 'value3'}` share `key2`, so the recursion never ends; two empty dicts return None | a shared key merges `a[key]` with `b[key]`, and the union of keys is returned, as the tests expect | not executed | DictMerge.MergeAsWritten | DictMerge.Merge |
