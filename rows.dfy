/** Metadata rows and the squash merge: the canonical table and every pending fragment
    are lists of rows; squashing loads them into one `id -> row` dictionary in reading
    order (a later row replaces an earlier one with the same id) and writes the result
    sorted by `updated_at` descending, then `id` ascending. */
module Rows {

  import opened Wrappers
  import opened Values
  import StringOrder
  import Sorting

  /** One row of `data.parquet` or of a fragment. `archiveFile` is absent on the rows a
      writer session stages and set on every row a backend writes. `updatedAt` is the
      `time.time()` stamp, used only as a sort key. */
  datatype Row = Row(
    id: string,
    filename: string,
    annotation: Value,
    updatedAt: int,
    author: Option<string>,
    archiveFile: Option<string>)

  function Ids(rows: seq<Row>): set<string> {
    set r | r in rows :: r.id
  }

  /** The ids of some rows are those of all but the last, and the last one's. */
  lemma IdsSnoc(rows: seq<Row>)
    requires rows != []
    ensures Ids(rows) == Ids(rows[..|rows| - 1]) + {rows[|rows| - 1].id}
  {
    assert rows == rows[..|rows| - 1] + [rows[|rows| - 1]];
  }

  /** Index of the last row with this id, or -1. */
  function LastIndexWith(rows: seq<Row>, id: string): (k: int)
    ensures -1 <= k < |rows|
    ensures k >= 0 ==> rows[k].id == id
    ensures forall j :: k < j < |rows| ==> rows[j].id != id
    ensures k == -1 <==> id !in Ids(rows)
  {
    if rows == [] then -1
    else if rows[|rows| - 1].id == id then |rows| - 1
    else
      IdsSnoc(rows);
      LastIndexWith(rows[..|rows| - 1], id)
  }

  /** Every key of a records dictionary is the id of the row stored under it. */
  predicate KeyedById(records: map<string, Row>) {
    forall id :: id in records ==> records[id].id == id
  }

  /** The row an id ends up with: the last row carrying it, or the record it had. */
  function OverlaidValue(records: map<string, Row>, rows: seq<Row>, id: string): Row
    requires id in records || id in Ids(rows)
  {
    var k := LastIndexWith(rows, id);
    if k >= 0 then rows[k] else records[id]
  }

  /** `for item in rows: records[item['id']] = item`. */
  function Overlay(records: map<string, Row>, rows: seq<Row>): (r: map<string, Row>)
    ensures r.Keys == records.Keys + Ids(rows)
    ensures KeyedById(records) ==> KeyedById(r)
  {
    if rows == [] then records
    else
      IdsSnoc(rows);
      Overlay(records, rows[..|rows| - 1])[rows[|rows| - 1].id := rows[|rows| - 1]]
  }

  /** Each id holds the last row carrying it, or else the record it had. */
  lemma {:induction false} OverlayValue(records: map<string, Row>, rows: seq<Row>, id: string)
    requires id in records || id in Ids(rows)
    ensures id in Overlay(records, rows) && Overlay(records, rows)[id] == OverlaidValue(records, rows, id)
    decreases |rows|
  {
    if rows != [] {
      IdsSnoc(rows);
      if rows[|rows| - 1].id != id {
        OverlayValue(records, rows[..|rows| - 1], id);
      }
    }
  }

  /** The squash merge: the canonical rows, then each fragment in reading order. */
  function MergeAll(base: map<string, Row>, fragments: seq<seq<Row>>): map<string, Row>
  {
    if fragments == [] then base
    else Overlay(MergeAll(base, fragments[..|fragments| - 1]), fragments[|fragments| - 1])
  }

  lemma MergeAllStep(base: map<string, Row>, fragments: seq<seq<Row>>, i: nat)
    requires i < |fragments|
    ensures MergeAll(base, fragments[..i + 1]) == Overlay(MergeAll(base, fragments[..i]), fragments[i])
  {
    assert fragments[..i + 1][..i] == fragments[..i];
  }

  function IdsOfAll(fragments: seq<seq<Row>>): set<string> {
    set f, r | f in fragments && r in f :: r.id
  }

  /** The merged table has one entry per id seen anywhere: in the canonical table or
      in any fragment. */
  lemma {:induction false} MergeAllKeys(base: map<string, Row>, fragments: seq<seq<Row>>)
    ensures MergeAll(base, fragments).Keys == base.Keys + IdsOfAll(fragments)
  {
    if fragments != [] {
      var init := fragments[..|fragments| - 1];
      var last := fragments[|fragments| - 1];
      MergeAllKeys(base, init);
      assert fragments == init + [last];
      assert IdsOfAll(fragments) == IdsOfAll(init) + Ids(last);
    }
  }

  lemma {:induction false} MergeAllKeyedById(base: map<string, Row>, fragments: seq<seq<Row>>)
    requires KeyedById(base)
    ensures KeyedById(MergeAll(base, fragments))
  {
    if fragments != [] {
      MergeAllKeyedById(base, fragments[..|fragments| - 1]);
    }
  }

  /** The last fragment read that holds an id decides that id's row, whatever the
      `updated_at` values say. */
  lemma {:induction false} LaterFragmentWins(base: map<string, Row>, fragments: seq<seq<Row>>, i: nat, id: string)
    requires i < |fragments| && id in Ids(fragments[i])
    requires forall j :: i < j < |fragments| ==> id !in Ids(fragments[j])
    ensures id in MergeAll(base, fragments)
    ensures MergeAll(base, fragments)[id] == fragments[i][LastIndexWith(fragments[i], id)]
    decreases |fragments|
  {
    var init := MergeAll(base, fragments[..|fragments| - 1]);
    var last := fragments[|fragments| - 1];
    if i < |fragments| - 1 {
      LaterFragmentWins(base, fragments[..|fragments| - 1], i, id);
    }
    OverlayValue(init, last, id);
  }

  /** An id no fragment holds keeps its canonical row. */
  lemma {:induction false} UntouchedIdKeepsCanonicalRow(base: map<string, Row>, fragments: seq<seq<Row>>, id: string)
    requires id in base
    requires forall j :: 0 <= j < |fragments| ==> id !in Ids(fragments[j])
    ensures id in MergeAll(base, fragments) && MergeAll(base, fragments)[id] == base[id]
  {
    if fragments != [] {
      UntouchedIdKeepsCanonicalRow(base, fragments[..|fragments| - 1], id);
      OverlayValue(MergeAll(base, fragments[..|fragments| - 1]), fragments[|fragments| - 1], id);
    }
  }

  /** The canonical order: `updated_at` descending, then `id` ascending. */
  predicate RowLe(a: Row, b: Row) {
    a.updatedAt > b.updatedAt || (a.updatedAt == b.updatedAt && StringOrder.LessEq(a.id, b.id))
  }

  lemma RowLeTotalPreorder()
    ensures Sorting.TotalPreorder(RowLe)
  {
    StringOrder.LessEqTotalOrder();
  }

  /** Rows that tie under the canonical order have the same id. */
  lemma RowLeTieSameId(a: Row, b: Row)
    requires RowLe(a, b) && RowLe(b, a)
    ensures a.id == b.id
  {
    StringOrder.LessEqTotalOrder();
  }

  /** `df.sort_values(by=['updated_at', 'id'], ascending=[False, True])`. */
  function SortRows(rows: seq<Row>): (t: seq<Row>)
    ensures Sorting.SortedBy(t, RowLe)
    ensures multiset(t) == multiset(rows)
  {
    RowLeTotalPreorder();
    Sorting.Sort(rows, RowLe)
  }

  predicate DistinctIds(t: seq<Row>) {
    forall i, j :: 0 <= i < j < |t| ==> t[i].id != t[j].id
  }

  /** What `data.parquet` holds after a squash of `records`: each record once, in the
      canonical order. */
  predicate IsCanonicalTable(t: seq<Row>, records: map<string, Row>) {
    && Sorting.SortedBy(t, RowLe)
    && DistinctIds(t)
    && Ids(t) == records.Keys
    && (forall i :: 0 <= i < |t| ==> t[i].id in records && records[t[i].id] == t[i])
  }

  lemma {:induction false} DistinctIdsMultiplicity(s: seq<Row>, x: Row)
    requires DistinctIds(s)
    ensures multiset(s)[x] <= 1
  {
    if s != [] {
      DistinctIdsMultiplicity(s[1..], x);
      assert s == [s[0]] + s[1..];
      if s[0] == x {
        forall k | 0 <= k < |s[1..]| ensures s[1..][k] != x {
          assert s[1..][k] == s[k + 1];
        }
      }
    }
  }

  lemma RepeatedMultiplicity(s: seq<Row>, i: nat, j: nat)
    requires i < j < |s| && s[i] == s[j]
    ensures multiset(s)[s[i]] >= 2
  {
    assert s == s[..j] + s[j..];
    assert s[i] in s[..j];
    assert s[j] in s[j..];
  }

  /** Sorting the rows of a records dictionary, listed once each, gives its
      canonical table. */
  lemma SortedValuesAreCanonical(rows: seq<Row>, records: map<string, Row>)
    requires DistinctIds(rows) && Ids(rows) == records.Keys
    requires forall i :: 0 <= i < |rows| ==> rows[i].id in records && records[rows[i].id] == rows[i]
    ensures IsCanonicalTable(SortRows(rows), records)
  {
    var t := SortRows(rows);
    PermutationKeepsRecords(rows, t, records);
    PermutationKeepsDistinct(rows, t, records);
    forall id | id in records ensures id in Ids(t) {
      var k :| 0 <= k < |rows| && rows[k].id == id;
      assert rows[k] in multiset(t);
    }
  }

  lemma PermutationKeepsRecords(rows: seq<Row>, t: seq<Row>, records: map<string, Row>)
    requires multiset(t) == multiset(rows)
    requires forall i :: 0 <= i < |rows| ==> rows[i].id in records && records[rows[i].id] == rows[i]
    ensures forall i :: 0 <= i < |t| ==> t[i].id in records && records[t[i].id] == t[i]
  {
    forall i | 0 <= i < |t| ensures t[i].id in records && records[t[i].id] == t[i] {
      assert t[i] in multiset(rows);
    }
  }

  lemma PermutationKeepsDistinct(rows: seq<Row>, t: seq<Row>, records: map<string, Row>)
    requires multiset(t) == multiset(rows) && DistinctIds(rows)
    requires forall i :: 0 <= i < |t| ==> t[i].id in records && records[t[i].id] == t[i]
    ensures DistinctIds(t)
  {
    forall i, j | 0 <= i < j < |t| ensures t[i].id != t[j].id {
      if t[i].id == t[j].id {
        RepeatedMultiplicity(t, i, j);
        DistinctIdsMultiplicity(rows, t[i]);
        assert false;
      }
    }
  }

  lemma CanonicalHeadsAgree(t1: seq<Row>, t2: seq<Row>, records: map<string, Row>)
    requires IsCanonicalTable(t1, records) && IsCanonicalTable(t2, records)
    requires t1 != [] && t2 != []
    ensures t1[0] == t2[0]
  {
    assert t1[0].id in Ids(t2);
    var i :| 0 <= i < |t2| && t2[i].id == t1[0].id;
    assert t2[0].id in Ids(t1);
    var j :| 0 <= j < |t1| && t1[j].id == t2[0].id;
    if i != 0 {
      assert t2[i] == t1[0] && t1[j] == t2[0];
      assert RowLe(t2[0], t1[0]);
      assert j != 0;
      assert RowLe(t1[0], t2[0]);
      RowLeTieSameId(t1[0], t2[0]);
    }
  }

  /** Two canonical tables of the same records are the same table: the order leaves
      no ties between distinct ids. */
  lemma {:induction false} CanonicalTableUnique(t1: seq<Row>, t2: seq<Row>, records: map<string, Row>)
    requires IsCanonicalTable(t1, records) && IsCanonicalTable(t2, records)
    ensures t1 == t2
    decreases |t1|
  {
    CanonicalTableSize(t1, records);
    CanonicalTableSize(t2, records);
    if t1 != [] {
      CanonicalHeadsAgree(t1, t2, records);
      CanonicalTail(t1, records);
      CanonicalTail(t2, records);
      CanonicalTableUnique(t1[1..], t2[1..], records - {t1[0].id});
      SameHeadSameTail(t1, t2);
    }
  }

  lemma SameHeadSameTail<T>(a: seq<T>, b: seq<T>)
    requires a != [] && b != [] && a[0] == b[0] && a[1..] == b[1..]
    ensures a == b
  {
    assert a == [a[0]] + a[1..] && b == [b[0]] + b[1..];
  }

  lemma CanonicalTail(t: seq<Row>, records: map<string, Row>)
    requires IsCanonicalTable(t, records) && t != []
    ensures IsCanonicalTable(t[1..], records - {t[0].id})
  {
    var tail := t[1..];
    var rest := records - {t[0].id};
    assert Sorting.SortedBy(tail, RowLe) && DistinctIds(tail) by {
      forall i | 0 <= i < |tail| ensures tail[i] == t[i + 1] { }
    }
    CanonicalTailIds(t, records);
    forall i | 0 <= i < |tail| ensures tail[i].id in rest && rest[tail[i].id] == tail[i] {
      assert tail[i] == t[i + 1];
    }
  }

  lemma CanonicalTailIds(t: seq<Row>, records: map<string, Row>)
    requires IsCanonicalTable(t, records) && t != []
    ensures Ids(t[1..]) == (records - {t[0].id}).Keys
  {
    var tail := t[1..];
    forall id ensures id in Ids(tail) <==> id in (records - {t[0].id}).Keys {
      if id in Ids(tail) {
        var k :| 0 <= k < |tail| && tail[k].id == id;
        assert t[k + 1].id == id;
      }
      if id in (records - {t[0].id}).Keys {
        assert id in Ids(t);
        var k :| 0 <= k < |t| && t[k].id == id;
        assert k != 0;
        assert tail[k - 1].id == id;
      }
    }
  }

  /** The canonical table has exactly one row per record. */
  lemma {:induction false} CanonicalTableSize(t: seq<Row>, records: map<string, Row>)
    requires IsCanonicalTable(t, records)
    ensures |t| == |records|
    decreases |t|
  {
    if t != [] {
      CanonicalTail(t, records);
      CanonicalTableSize(t[1..], records - {t[0].id});
    } else {
      assert records.Keys == {};
    }
  }
}
