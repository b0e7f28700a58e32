/** `LocalDataSource`: images found under a local directory. Its source id and each
    file's token are sanitised by replacing every run of non-word characters and
    underscores with a single underscore and stripping underscores from both ends;
    an image's id is `localdir__{source_id}__{file_token}`. */
module LocalSource {

  import opened Wrappers
  import opened Values
  import DataSource
  import Sorting

  /** A word character other than the underscore. */
  predicate IsAlnum(c: char) {
    ('a' <= c <= 'z') || ('A' <= c <= 'Z') || ('0' <= c <= '9')
  }

  /** Drops the run of separator characters at the front. */
  function DropSeparators(s: string): (r: string)
    ensures |r| <= |s| && r == s[|s| - |r|..]
    ensures r == [] || IsAlnum(r[0])
    ensures forall i :: 0 <= i < |s| - |r| ==> !IsAlnum(s[i])
  {
    if s == [] || IsAlnum(s[0]) then s else DropSeparators(s[1..])
  }

  /** Only word characters and single underscores between them. */
  predicate Clean(t: string) {
    && (forall i :: 0 <= i < |t| ==> IsAlnum(t[i]) || t[i] == '_')
    && (forall i :: 0 <= i < |t| ==> !DoubleAt(t, i))
  }

  /** Two underscores start at position `k`. */
  predicate DoubleAt(x: string, k: nat) {
    k + 1 < |x| && x[k] == '_' && x[k + 1] == '_'
  }

  /** What a sanitised string looks like: clean, and no underscore at either end. */
  predicate Sanitized(t: string) {
    Clean(t) && (t != [] ==> t[0] != '_' && t[|t| - 1] != '_')
  }

  /** A word character, or an underscore not followed by another, in front of a
      clean string keeps it clean. */
  lemma CleanCons(c: char, t: string)
    requires Clean(t) && (IsAlnum(c) || (c == '_' && (t == [] || t[0] != '_')))
    ensures Clean([c] + t)
  {
    var u := [c] + t;
    forall i | 0 <= i < |u| ensures (IsAlnum(u[i]) || u[i] == '_') && !DoubleAt(u, i) {
      if i > 0 {
        assert u[i] == t[i - 1];
        if i + 1 < |u| {
          assert u[i + 1] == t[i];
          assert !DoubleAt(t, i - 1);
        }
      }
    }
  }

  /** The substitution: every maximal run of separators becomes one underscore. */
  function Collapse(s: string): (r: string)
    ensures r != [] <==> s != []
    ensures r != [] ==> (r[0] == '_' <==> !IsAlnum(s[0]))
    decreases |s|
  {
    if s == [] then []
    else if IsAlnum(s[0]) then [s[0]] + Collapse(s[1..])
    else "_" + Collapse(DropSeparators(s[1..]))
  }

  /** The substitution leaves only word characters and single underscores. */
  lemma {:induction false} CollapseIsClean(s: string)
    ensures Clean(Collapse(s))
    decreases |s|
  {
    if s != [] {
      if IsAlnum(s[0]) {
        CollapseIsClean(s[1..]);
        CleanCons(s[0], Collapse(s[1..]));
      } else {
        var tail := DropSeparators(s[1..]);
        CollapseIsClean(tail);
        CleanCons('_', Collapse(tail));
      }
    }
  }

  /** The substitution ends with an underscore exactly when the text ends with a
      separator. */
  lemma {:induction false} CollapseLast(s: string)
    requires s != []
    ensures var r := Collapse(s); r[|r| - 1] == '_' <==> !IsAlnum(s[|s| - 1])
    decreases |s|
  {
    var r := Collapse(s);
    if IsAlnum(s[0]) {
      var rest := Collapse(s[1..]);
      if rest != [] {
        CollapseLast(s[1..]);
        assert r[|r| - 1] == rest[|rest| - 1];
        assert s[|s| - 1] == s[1..][|s[1..]| - 1];
      }
    } else {
      var tail := DropSeparators(s[1..]);
      var rest := Collapse(tail);
      if rest != [] {
        CollapseLast(tail);
        assert r[|r| - 1] == rest[|rest| - 1];
        assert s[|s| - 1] == tail[|tail| - 1];
      }
    }
  }

  /** `str.lstrip('_')`. */
  function StripLeading(s: string): (r: string)
    ensures |r| <= |s| && r == s[|s| - |r|..]
    ensures r == [] || r[0] != '_'
    ensures forall i :: 0 <= i < |s| - |r| ==> s[i] == '_'
  {
    if s != [] && s[0] == '_' then StripLeading(s[1..]) else s
  }

  /** `str.rstrip('_')`. */
  function StripTrailing(s: string): (r: string)
    ensures |r| <= |s| && r == s[..|r|]
    ensures r == [] || r[|r| - 1] != '_'
    ensures forall i :: |r| <= i < |s| ==> s[i] == '_'
  {
    if s != [] && s[|s| - 1] == '_' then StripTrailing(s[..|s| - 1]) else s
  }

  /** `re.sub(r'[\W_]+', '_', s).strip('_')`. */
  function Sanitize(s: string): string {
    StripTrailing(StripLeading(Collapse(s)))
  }

  lemma CleanSlice(t: string, i: nat, j: nat)
    requires Clean(t) && i <= j <= |t|
    ensures Clean(t[i..j])
  {
    var u := t[i..j];
    forall k | 0 <= k < |u| ensures (IsAlnum(u[k]) || u[k] == '_') && !DoubleAt(u, k) {
      assert u[k] == t[i + k];
      if k + 1 < |u| {
        assert u[k + 1] == t[i + k + 1];
        assert !DoubleAt(t, i + k);
      }
    }
  }

  /** A sanitised string has only word characters, never two underscores in a row,
      and no underscore at either end. */
  lemma SanitizeIsSanitized(s: string)
    ensures Sanitized(Sanitize(s))
  {
    CollapseIsClean(s);
    StripKeepsClean(Collapse(s));
  }

  /** Stripping the underscores from both ends of a clean string sanitises it. */
  lemma StripKeepsClean(t: string)
    requires Clean(t)
    ensures Sanitized(StripTrailing(StripLeading(t)))
  {
    var l := StripLeading(t);
    StripLeadingClean(t);
    var r := StripTrailing(l);
    StripTrailingClean(l);
    if r != [] {
      assert r[0] == l[0];
    }
  }

  lemma StripLeadingClean(t: string)
    requires Clean(t)
    ensures Clean(StripLeading(t))
  {
    var l := StripLeading(t);
    assert t[|t| - |l|..|t|] == l;
    CleanSlice(t, |t| - |l|, |t|);
  }

  lemma StripTrailingClean(t: string)
    requires Clean(t)
    ensures Clean(StripTrailing(t))
  {
    var r := StripTrailing(t);
    assert t[0..|r|] == r;
    CleanSlice(t, 0, |r|);
  }

  /** The alphanumeric characters of a string, in order. */
  function Alnums(s: string): (r: string)
    ensures forall i :: 0 <= i < |r| ==> IsAlnum(r[i])
  {
    if s == [] then [] else (if IsAlnum(s[0]) then [s[0]] else []) + Alnums(s[1..])
  }

  lemma {:induction false} AlnumsDropSeparators(s: string)
    ensures Alnums(DropSeparators(s)) == Alnums(s)
  {
    if s != [] && !IsAlnum(s[0]) {
      AlnumsDropSeparators(s[1..]);
    }
  }

  lemma {:induction false} AlnumsCollapse(s: string)
    ensures Alnums(Collapse(s)) == Alnums(s)
    decreases |s|
  {
    if s != [] {
      if IsAlnum(s[0]) {
        AlnumsCollapse(s[1..]);
        assert ([s[0]] + Collapse(s[1..]))[1..] == Collapse(s[1..]);
      } else {
        var tail := DropSeparators(s[1..]);
        AlnumsCollapse(tail);
        AlnumsDropSeparators(s[1..]);
        assert ("_" + Collapse(tail))[1..] == Collapse(tail);
      }
    }
  }

  lemma {:induction false} AlnumsStripLeading(s: string)
    ensures Alnums(StripLeading(s)) == Alnums(s)
  {
    if s != [] && s[0] == '_' {
      AlnumsStripLeading(s[1..]);
    }
  }

  lemma {:induction false} AlnumsAppend(a: string, b: string)
    ensures Alnums(a + b) == Alnums(a) + Alnums(b)
  {
    if a != [] {
      AlnumsAppend(a[1..], b);
      assert (a + b)[1..] == a[1..] + b;
    } else {
      assert a + b == b;
    }
  }

  lemma AlnumsStripTrailing(s: string)
    ensures Alnums(StripTrailing(s)) == Alnums(s)
  {
    var r := StripTrailing(s);
    var dropped := s[|r|..];
    assert s == r + dropped;
    AlnumsAppend(r, dropped);
    NoAlnums(dropped);
  }

  lemma {:induction false} NoAlnums(s: string)
    requires forall i :: 0 <= i < |s| ==> s[i] == '_'
    ensures Alnums(s) == []
  {
    if s != [] {
      NoAlnums(s[1..]);
    }
  }

  /** Sanitising keeps every letter and digit, in order, and only those: the words of
      a path survive, only their separators change. */
  lemma SanitizeKeepsAlnums(s: string)
    ensures Alnums(Sanitize(s)) == Alnums(s)
  {
    AlnumsCollapse(s);
    AlnumsStripLeading(Collapse(s));
    AlnumsStripTrailing(StripLeading(Collapse(s)));
  }

  lemma {:induction false} CollapseClean(t: string)
    requires Clean(t) && (t != [] ==> t[0] != '_')
    ensures Collapse(t) == t
    decreases |t|
  {
    if t != [] {
      var tail := t[1..];
      assert IsAlnum(t[0]);
      CleanTail(t);
      if tail == [] || tail[0] != '_' {
        CollapseClean(tail);
      } else {
        assert !DoubleAt(t, 1);
        CleanTail(tail);
        CollapseClean(tail[1..]);
        SingleUnderscore(tail);
        assert Collapse(tail) == tail;
      }
      assert Collapse(t) == [t[0]] + Collapse(tail);
    }
  }

  lemma CleanTail(t: string)
    requires Clean(t) && t != []
    ensures Clean(t[1..])
  {
    CleanSlice(t, 1, |t|);
    assert t[1..|t|] == t[1..];
  }

  /** A clean string starting with a single underscore collapses to that underscore
      and the collapse of the rest. */
  lemma SingleUnderscore(t: string)
    requires Clean(t) && t != [] && t[0] == '_' && (|t| > 1 ==> t[1] != '_')
    ensures Collapse(t) == "_" + Collapse(t[1..])
  {
    var after := t[1..];
    if after != [] {
      assert after[0] == t[1];
      assert IsAlnum(t[1]);
    }
    assert DropSeparators(after) == after;
  }

  /** A sanitised string is left as it is, so sanitising twice is sanitising once. */
  lemma SanitizeFixesSanitized(t: string)
    requires Sanitized(t)
    ensures Sanitize(t) == t
  {
    CollapseClean(t);
  }

  lemma SanitizeIdempotent(s: string)
    ensures Sanitize(Sanitize(s)) == Sanitize(s)
  {
    SanitizeIsSanitized(s);
    SanitizeFixesSanitized(Sanitize(s));
  }

  /** Different paths can share a token: any separator between two word characters
      (a space, a dash, an underscore) becomes the same underscore. */
  lemma SeparatorsCollide(x: char, c: char, y: char)
    requires IsAlnum(x) && !IsAlnum(c) && IsAlnum(y)
    ensures Sanitize([x, c, y]) == Sanitize([x, '_', y]) == [x, '_', y]
  {
    assert Collapse([y]) == [y] by {
      assert [y][1..] == [];
    }
    assert [c, y][1..] == [y] && DropSeparators([y]) == [y];
    assert Collapse([c, y]) == ['_', y];
    assert ['_', y][1..] == [y];
    assert Collapse(['_', y]) == ['_', y];
    assert [x, c, y][1..] == [c, y] && [x, '_', y][1..] == ['_', y];
    assert Collapse([x, c, y]) == [x, '_', y];
    assert Collapse([x, '_', y]) == [x, '_', y];
  }

  /** The source id: the one given when it is truthy, else the sanitised (absolute,
      normalised) directory path. */
  function SourceId(given: Option<string>, localDir: string): (id: string)
    ensures TruthyName(given) ==> id == given.value
    ensures !TruthyName(given) ==> Sanitized(id) && id == Sanitize(localDir)
  {
    SanitizeIsSanitized(localDir);
    if TruthyName(given) then given.value else Sanitize(localDir)
  }

  function LocalId(sourceId: string, fileToken: string): string {
    "localdir__" + sourceId + "__" + fileToken
  }

  /** In an image id, the first double underscore after the prefix is the one right
      after a sanitised source id. */
  lemma SeparatorFirst(sourceId: string, fileToken: string)
    requires Sanitized(sourceId)
    ensures var x := LocalId(sourceId, fileToken);
      && DoubleAt(x, 10 + |sourceId|)
      && forall k :: 10 <= k < 10 + |sourceId| ==> !DoubleAt(x, k)
  {
    var x := LocalId(sourceId, fileToken);
    forall j | 10 <= j < 10 + |sourceId| ensures !DoubleAt(x, j) {
      var k := j - 10;
      assert x[10 + k] == sourceId[k];
      if k + 1 < |sourceId| {
        assert x[11 + k] == sourceId[k + 1];
        assert !DoubleAt(sourceId, k);
      }
    }
  }

  /** With sanitised source ids, an image id names its source and its file token:
      neither can end or start inside the double underscore between them. */
  lemma LocalIdInjective(s1: string, t1: string, s2: string, t2: string)
    requires Sanitized(s1) && Sanitized(s2)
    requires LocalId(s1, t1) == LocalId(s2, t2)
    ensures s1 == s2 && t1 == t2
  {
    var x := LocalId(s1, t1);
    SeparatorFirst(s1, t1);
    SeparatorFirst(s2, t2);
    assert |s1| == |s2|;
    assert s1 == x[10..10 + |s1|] == s2;
    assert t1 == x[12 + |s1|..] == t2;
  }

  /** A file under the directory: its absolute path, its path relative to the
      directory, and the mimetype guessed from its name (None when unknown). */
  datatype FileEntry = FileEntry(path: string, relPath: string, mimetype: Option<string>)

  predicate IsImageType(mimetype: string) {
    |mimetype| >= 6 && mimetype[..6] == "image/"
  }

  /** The triples `_iter` yielded before it stopped, and the error that stopped it. */
  datatype Walk = Walk(yielded: seq<DataSource.Yielded>, error: Option<Error>)

  function ImageTuple(sourceId: string, f: FileEntry): (y: DataSource.Yielded)
    ensures y.Tuple? && |y.elems| == 3 && y.elems[2] == Null && y.elems[0].Str? && Truthy(y.elems[0])
  {
    DataSource.Tuple([Str(LocalId(sourceId, Sanitize(f.relPath))), Str(f.path), Null])
  }

  /** What `_iter` yields for some files: `(id, path, None)` for every image file
      whose id is not contained, in walk order; a file of unknown mimetype stops the
      walk, since `None` has no `startswith`. */
  function Images(sourceId: string, files: seq<FileEntry>, contained: set<Value>): Walk {
    if files == [] then Walk([], None)
    else
      var f := files[0];
      var rest := Images(sourceId, files[1..], contained);
      if f.mimetype.None? then Walk([], Some(AttributeError("'NoneType' object has no attribute 'startswith'")))
      else if !IsImageType(f.mimetype.value) then rest
      else if ImageTuple(sourceId, f).elems[0] in contained then rest
      else Walk([ImageTuple(sourceId, f)] + rest.yielded, rest.error)
  }

  predicate IsImageFile(f: FileEntry) {
    f.mimetype.Some? && IsImageType(f.mimetype.value)
  }

  /** What the walk yields is the triple of an image file of the walk, never one
      whose id is contained. */
  lemma {:induction false} ImagesAreFreshTriples(sourceId: string, files: seq<FileEntry>, contained: set<Value>)
    ensures forall y :: y in Images(sourceId, files, contained).yielded ==>
      (DataSource.FreshTriple(y, contained) && exists f :: f in files && IsImageFile(f) && y == ImageTuple(sourceId, f))
  {
    if files != [] {
      var rest := Images(sourceId, files[1..], contained);
      ImagesAreFreshTriples(sourceId, files[1..], contained);
      var w := Images(sourceId, files, contained);
      var head := files[0];
      var tuple := ImageTuple(sourceId, head);
      if head.mimetype.None? {
        assert w.yielded == [];
      } else {
        assert w.yielded == rest.yielded || w.yielded == [tuple] + rest.yielded;
        assert IsImageFile(head) ==> DataSource.FreshTriple(tuple, contained) || w.yielded == rest.yielded;
        forall y | y in w.yielded
          ensures DataSource.FreshTriple(y, contained) && exists f :: f in files && IsImageFile(f) && y == ImageTuple(sourceId, f)
        {
          if y in rest.yielded {
            var f :| f in files[1..] && IsImageFile(f) && y == ImageTuple(sourceId, f);
            assert f in files;
          } else {
            assert y == tuple && head in files;
          }
        }
      }
    }
  }

  /** The base loop passes the walk's triples through unchanged: each is already
      a full triple whose id is truthy and not contained, so no random id is drawn
      and nothing more is skipped. */
  lemma BaseLoopKeepsImages(sourceId: string, files: seq<FileEntry>, contained: set<Value>, randomIds: seq<string>)
    requires |randomIds| == |Images(sourceId, files, contained).yielded|
    ensures var ys := Images(sourceId, files, contained).yielded;
      var d := DataSource.Stream(ys, randomIds, contained);
      && d.error.None?
      && |d.items| == |ys|
      && forall i :: 0 <= i < |ys| ==>
           (d.items[i].annotation == Null && ys[i] == DataSource.Tuple([d.items[i].id, d.items[i].image, Null]))
  {
    ImagesAreFreshTriples(sourceId, files, contained);
    DataSource.PassThrough(Images(sourceId, files, contained).yielded, randomIds, contained);
  }

  /** One step of the walk. */
  lemma ImagesUnfold(sourceId: string, files: seq<FileEntry>, contained: set<Value>, i: nat)
    requires i < |files|
    ensures var f := files[i];
      var rest := Images(sourceId, files[i + 1..], contained);
      Images(sourceId, files[i..], contained) ==
        if f.mimetype.None? then Walk([], Some(AttributeError("'NoneType' object has no attribute 'startswith'")))
        else if !IsImageType(f.mimetype.value) then rest
        else if ImageTuple(sourceId, f).elems[0] in contained then rest
        else Walk([ImageTuple(sourceId, f)] + rest.yielded, rest.error)
  {
    assert files[i..][1..] == files[i + 1..];
  }

  /** The files before `i` have been walked and have yielded `yielded`. */
  predicate WalkedTo(whole: Walk, sourceId: string, files: seq<FileEntry>, contained: set<Value>, i: nat, yielded: seq<DataSource.Yielded>)
    requires i <= |files|
  {
    var rest := Images(sourceId, files[i..], contained);
    whole == Walk(yielded + rest.yielded, rest.error)
  }

  /** A file of unknown mimetype ends the walk with the error. */
  lemma WalkStops(whole: Walk, sourceId: string, files: seq<FileEntry>, contained: set<Value>, i: nat, yielded: seq<DataSource.Yielded>)
    requires i < |files| && files[i].mimetype.None?
    requires WalkedTo(whole, sourceId, files, contained, i, yielded)
    ensures whole == Walk(yielded, Some(AttributeError("'NoneType' object has no attribute 'startswith'")))
  {
    ImagesUnfold(sourceId, files, contained, i);
  }

  /** A file of known mimetype adds its triple when it is a fresh image, and
      nothing otherwise. */
  lemma WalkSteps(whole: Walk, sourceId: string, files: seq<FileEntry>, contained: set<Value>, i: nat, yielded: seq<DataSource.Yielded>)
    requires i < |files| && files[i].mimetype.Some?
    requires WalkedTo(whole, sourceId, files, contained, i, yielded)
    ensures var f := files[i];
      WalkedTo(whole, sourceId, files, contained, i + 1,
        if IsImageType(f.mimetype.value) && ImageTuple(sourceId, f).elems[0] !in contained
        then yielded + [ImageTuple(sourceId, f)] else yielded)
  {
    ImagesUnfold(sourceId, files, contained, i);
    var f := files[i];
    var rest := Images(sourceId, files[i + 1..], contained);
    var y := ImageTuple(sourceId, f);
    if IsImageType(f.mimetype.value) && y.elems[0] !in contained {
      Sorting.ConcatAssoc(yielded, [y], rest.yielded);
    }
  }

  /** `LocalDataSource._iter` over the walk's files, `contained` being the ids the
      containment predicate reports. */
  method IterFiles(sourceId: string, files: seq<FileEntry>, contained: set<Value>) returns (w: Walk)
    ensures w == Images(sourceId, files, contained)
  {
    var yielded: seq<DataSource.Yielded> := [];
    var i := 0;
    ghost var whole := Images(sourceId, files, contained);
    assert files[0..] == files;
    while i < |files|
      invariant 0 <= i <= |files|
      invariant WalkedTo(whole, sourceId, files, contained, i, yielded)
    {
      var f := files[i];
      if f.mimetype.None? {
        WalkStops(whole, sourceId, files, contained, i, yielded);
        return Walk(yielded, Some(AttributeError("'NoneType' object has no attribute 'startswith'")));
      }
      WalkSteps(whole, sourceId, files, contained, i, yielded);
      if IsImageType(f.mimetype.value) {
        var y := ImageTuple(sourceId, f);
        if y.elems[0] !in contained {
          yielded := yielded + [y];
        }
      }
      i := i + 1;
    }
    assert files[i..] == [];
    w := Walk(yielded, None);
  }
}
