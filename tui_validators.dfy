/** The prompt validators: the Hugging Face repository-name grammar, the length
    bounds on a stripped string, and the validator of separated lists (split, strip,
    count bounds, item length bounds, duplicates). */
module TuiValidators {

  import opened Wrappers
  import Sorting

  // ---------------------------------------------------------------------------
  // Repository names
  // ---------------------------------------------------------------------------

  /** `[a-z0-9]`. */
  predicate IsLowerAlnum(c: char) {
    ('a' <= c <= 'z') || ('0' <= c <= '9')
  }

  /** `[a-z0-9_-]`. */
  predicate IsNameChar(c: char) {
    IsLowerAlnum(c) || c == '_' || c == '-'
  }

  predicate AllNameChars(s: string) {
    forall k :: 0 <= k < |s| ==> IsNameChar(s[k])
  }

  /** The owner part, `[a-z0-9][a-z0-9_-]*`. */
  predicate IsOwner(o: string) {
    |o| >= 1 && IsLowerAlnum(o[0]) && AllNameChars(o)
  }

  /** The name part, `[a-z0-9](?:[a-z0-9_-]{0,94}[a-z0-9])?`: 1 to 96 characters,
      first and last alphanumeric. */
  predicate IsName(n: string) {
    1 <= |n| <= 96 && IsLowerAlnum(n[0]) && IsLowerAlnum(n[|n| - 1]) && AllNameChars(n)
  }

  /** The language of the pattern: `owner/name`. */
  predicate RepoNameGrammar(s: string) {
    exists k :: 0 <= k < |s| && s[k] == '/' && IsOwner(s[..k]) && IsName(s[k + 1..])
  }

  /** The states of a left-to-right matcher for the pattern. `InName` counts the
      name characters read and remembers whether the last one was alphanumeric. */
  datatype MatchState = OwnerStart | InOwner | NameStart | InName(len: nat, lastAlnum: bool) | Dead

  function Step(st: MatchState, c: char): MatchState {
    match st
    case OwnerStart => if IsLowerAlnum(c) then InOwner else Dead
    case InOwner => if IsNameChar(c) then InOwner else if c == '/' then NameStart else Dead
    case NameStart => if IsLowerAlnum(c) then InName(1, true) else Dead
    case InName(len, _) => if IsNameChar(c) && len < 96 then InName(len + 1, IsLowerAlnum(c)) else Dead
    case Dead => Dead
  }

  function Run(st: MatchState, s: string): MatchState
    decreases |s|
  {
    if s == [] then st else Run(Step(st, s[0]), s[1..])
  }

  /** `__PATTERN__.fullmatch(text)`. */
  function FullMatch(s: string): bool {
    var st := Run(OwnerStart, s);
    st.InName? && st.lastAlnum
  }

  lemma {:induction false} RunAppend(st: MatchState, a: string, b: string)
    ensures Run(st, a + b) == Run(Run(st, a), b)
    decreases |a|
  {
    if a != [] {
      assert (a + b)[0] == a[0] && (a + b)[1..] == a[1..] + b;
      RunAppend(Step(st, a[0]), a[1..], b);
    } else {
      assert a + b == b;
    }
  }

  lemma {:induction false} RunDead(s: string)
    ensures Run(Dead, s) == Dead
  {
    if s != [] {
      RunDead(s[1..]);
    }
  }

  /** Reading name characters: the count grows and the last character is
      remembered while the 96-character bound holds; anything else kills the
      match. */
  lemma {:induction false} RunName(len: nat, a: bool, t: string)
    requires len <= 96
    ensures Run(InName(len, a), t) ==
      if AllNameChars(t) && len + |t| <= 96 then
        InName(len + |t|, if t == [] then a else IsLowerAlnum(t[|t| - 1]))
      else Dead
    decreases |t|
  {
    if t != [] {
      var c := t[0];
      assert Run(InName(len, a), t) == Run(Step(InName(len, a), c), t[1..]);
      assert forall k :: 0 <= k < |t[1..]| ==> t[1..][k] == t[k + 1];
      if IsNameChar(c) && len < 96 {
        RunName(len + 1, IsLowerAlnum(c), t[1..]);
        if t[1..] != [] {
          assert t[1..][|t[1..]| - 1] == t[|t| - 1];
        }
        assert AllNameChars(t) <==> AllNameChars(t[1..]);
      } else {
        RunDead(t[1..]);
        assert !AllNameChars(t) || len + |t| > 96;
      }
    }
  }

  /** After the slash, the match succeeds exactly on a name. */
  lemma NameStartAccepts(n: string)
    ensures (Run(NameStart, n).InName? && Run(NameStart, n).lastAlnum) <==> IsName(n)
  {
    if n == [] {
    } else if IsLowerAlnum(n[0]) {
      RunName(1, true, n[1..]);
      assert forall k :: 0 <= k < |n[1..]| ==> n[1..][k] == n[k + 1];
      if n[1..] != [] {
        assert n[1..][|n[1..]| - 1] == n[|n| - 1];
      }
      if AllNameChars(n[1..]) {
        assert AllNameChars(n);
      }
    } else {
      RunDead(n[1..]);
    }
  }

  /** In the owner part the matcher stays in the owner state until the first
      character that is not a name character; that must be the slash. */
  lemma {:induction false} RunOwner(t: string)
    ensures AllNameChars(t) ==> Run(InOwner, t) == InOwner
    ensures Run(InOwner, t).InName? ==>
      exists k :: 0 <= k < |t| && t[k] == '/' && AllNameChars(t[..k]) && Run(InOwner, t) == Run(NameStart, t[k + 1..])
  {
    if t != [] {
      var c := t[0];
      assert forall k :: 0 <= k < |t[1..]| ==> t[1..][k] == t[k + 1];
      if IsNameChar(c) {
        RunOwner(t[1..]);
        if Run(InOwner, t).InName? {
          var k :| 0 <= k < |t[1..]| && t[1..][k] == '/' && AllNameChars(t[1..][..k])
            && Run(InOwner, t[1..]) == Run(NameStart, t[1..][k + 1..]);
          assert t[1..][k + 1..] == t[k + 2..];
          assert forall j :: 0 <= j < k + 1 ==> t[..k + 1][j] == t[j];
          assert forall j :: 0 < j < k + 1 ==> t[j] == t[1..][..k][j - 1];
          assert AllNameChars(t[..k + 1]);
        }
      } else if c == '/' {
        assert t[..0] == [];
      } else {
        RunDead(t[1..]);
      }
    }
  }

  /** Every string of the grammar is matched. */
  lemma GrammarMatches(s: string)
    requires RepoNameGrammar(s)
    ensures FullMatch(s)
  {
    var k :| 0 <= k < |s| && s[k] == '/' && IsOwner(s[..k]) && IsName(s[k + 1..]);
    var o := s[..k];
    assert s == [o[0]] + (o[1..] + (['/'] + s[k + 1..]));
    assert AllNameChars(o[1..]) by {
      assert forall j :: 0 <= j < |o[1..]| ==> o[1..][j] == o[j + 1];
    }
    RunOwner(o[1..]);
    RunAppend(InOwner, o[1..], ['/'] + s[k + 1..]);
    NameStartAccepts(s[k + 1..]);
  }

  /** Every matched string is in the grammar. */
  lemma MatchIsGrammar(s: string)
    requires FullMatch(s)
    ensures RepoNameGrammar(s)
  {
    assert s != [];
    if !IsLowerAlnum(s[0]) {
      RunDead(s[1..]);
      assert false;
    }
    RunOwner(s[1..]);
    var k :| 0 <= k < |s[1..]| && s[1..][k] == '/' && AllNameChars(s[1..][..k])
      && Run(InOwner, s[1..]) == Run(NameStart, s[1..][k + 1..]);
    assert s[1..][k + 1..] == s[k + 2..];
    NameStartAccepts(s[k + 2..]);
    var o := s[..k + 1];
    assert forall j :: 0 < j < |o| ==> o[j] == s[1..][..k][j - 1];
    assert IsOwner(o);
    assert s[k + 1] == '/';
  }

  /** The matcher accepts exactly the strings of the grammar. */
  lemma FullMatchIff(s: string)
    ensures FullMatch(s) <==> RepoNameGrammar(s)
  {
    if RepoNameGrammar(s) {
      GrammarMatches(s);
    }
    if FullMatch(s) {
      MatchIsGrammar(s);
    }
  }

  /** `HuggingFaceRepoValidator.validate`: the text is accepted as it is (not
      stripped) exactly when it is `owner/name`. */
  function ValidateRepoName(text: string): (r: Outcome)
    ensures r.Pass? <==> RepoNameGrammar(text)
    ensures r.Fail? ==> r.error == ValidationError(BadFormat)
  {
    FullMatchIff(text);
    if FullMatch(text) then Pass else Fail(ValidationError(BadFormat))
  }

  /** The 96-character bound on the name is exact. */
  lemma NameLengthBound(owner: string, name: string)
    requires IsOwner(owner) && AllNameChars(name) && |name| >= 1
    requires IsLowerAlnum(name[0]) && IsLowerAlnum(name[|name| - 1])
    ensures ValidateRepoName(owner + "/" + name).Pass? <==> |name| <= 96
  {
    var s := owner + "/" + name;
    var k := |owner|;
    assert s[..k] == owner && s[k + 1..] == name && s[k] == '/';
    if ValidateRepoName(s).Pass? {
      var j :| 0 <= j < |s| && s[j] == '/' && IsOwner(s[..j]) && IsName(s[j + 1..]);
      if j < k {
        assert s[j] == owner[j];
      }
    }
  }

  // ---------------------------------------------------------------------------
  // Stripping
  // ---------------------------------------------------------------------------

  /** The characters `str.isspace` reports, which `str.strip()` removes. */
  predicate IsSpace(c: char) {
    ('\U{9}' <= c <= '\U{D}') || ('\U{1C}' <= c <= '\U{1F}') || c == '\U{20}'
    || c == '\U{85}' || c == '\U{A0}' || c == '\U{1680}' || ('\U{2000}' <= c <= '\U{200A}')
    || c == '\U{2028}' || c == '\U{2029}' || c == '\U{202F}' || c == '\U{205F}' || c == '\U{3000}'
  }

  predicate AllSpace(s: string) {
    forall k :: 0 <= k < |s| ==> IsSpace(s[k])
  }

  /** `lstrip()`: drops the leading whitespace and nothing else. */
  function StripLeft(s: string): (r: string)
    ensures |r| <= |s| && r == s[|s| - |r|..]
    ensures AllSpace(s[..|s| - |r|])
    ensures r != [] ==> !IsSpace(r[0])
  {
    if s != [] && IsSpace(s[0]) then StripLeft(s[1..]) else s
  }

  /** `rstrip()`: drops the trailing whitespace and nothing else. */
  function StripRight(s: string): (r: string)
    ensures |r| <= |s| && r == s[..|r|]
    ensures AllSpace(s[|r|..])
    ensures r != [] ==> !IsSpace(r[|r| - 1])
  {
    if s != [] && IsSpace(s[|s| - 1]) then
      var r := StripRight(s[..|s| - 1]);
      assert s[|r|..] == s[..|s| - 1][|r|..] + [s[|s| - 1]];
      r
    else s
  }

  /** `strip()`. */
  function Strip(s: string): string {
    StripRight(StripLeft(s))
  }

  lemma {:induction false} StripLeftPadding(a: string, t: string)
    requires AllSpace(a)
    ensures StripLeft(a + t) == StripLeft(t)
  {
    if a == [] {
      assert a + t == t;
    } else {
      assert (a + t)[0] == a[0] && (a + t)[1..] == a[1..] + t;
      StripLeftPadding(a[1..], t);
    }
  }

  lemma {:induction false} StripRightPadding(t: string, b: string)
    requires AllSpace(b)
    ensures StripRight(t + b) == StripRight(t)
  {
    if b == [] {
      assert t + b == t;
    } else {
      var n := |t + b|;
      assert (t + b)[n - 1] == b[|b| - 1];
      assert (t + b)[..n - 1] == t + b[..|b| - 1];
      StripRightPadding(t, b[..|b| - 1]);
    }
  }

  lemma {:induction false} StripTrailingPadding(s: string, b: string)
    requires AllSpace(b)
    ensures StripRight(StripLeft(s + b)) == StripRight(StripLeft(s))
  {
    if s == [] {
      assert s + b == b + [];
      StripLeftPadding(b, []);
    } else {
      assert (s + b)[0] == s[0] && (s + b)[1..] == s[1..] + b;
      if IsSpace(s[0]) {
        StripTrailingPadding(s[1..], b);
      } else {
        StripRightPadding(s, b);
      }
    }
  }

  /** Whitespace around the text makes no difference to what `strip` returns. */
  lemma StripPadding(a: string, s: string, b: string)
    requires AllSpace(a) && AllSpace(b)
    ensures Strip(a + s + b) == Strip(s)
  {
    assert a + s + b == a + (s + b);
    StripLeftPadding(a, s + b);
    StripTrailingPadding(s, b);
  }

  /** A stripped text neither starts nor ends with whitespace, and stripping it
      again changes nothing. */
  lemma StripIdempotent(s: string)
    ensures var r := Strip(s); r == [] || (!IsSpace(r[0]) && !IsSpace(r[|r| - 1]))
    ensures Strip(Strip(s)) == Strip(s)
  {
    var l := StripLeft(s);
    var r := StripRight(l);
    if r != [] {
      assert r[0] == l[0];
    }
  }

  // ---------------------------------------------------------------------------
  // Length bounds
  // ---------------------------------------------------------------------------

  /** `StringNonEmptyValidator.validate`: the stripped text must be at least
      `minLength` long and, when a maximum is set, at most that long. */
  function ValidateLength(text: string, minLength: int, maxLength: Option<int>): (r: Outcome)
    ensures var n := |Strip(text)|;
      && (r.Pass? <==> minLength <= n && (maxLength.None? || n <= maxLength.value))
      && (n < minLength ==> r == Fail(ValidationError(TooShort(minLength, n))))
      && (minLength <= n && maxLength.Some? && n > maxLength.value ==>
            r == Fail(ValidationError(TooLong(maxLength.value, n))))
  {
    var t := Strip(text);
    if |t| < minLength then Fail(ValidationError(TooShort(minLength, |t|)))
    else if maxLength.Some? && |t| > maxLength.value then Fail(ValidationError(TooLong(maxLength.value, |t|)))
    else Pass
  }

  /** Leading and trailing whitespace never changes the verdict. */
  lemma ValidateLengthIgnoresPadding(a: string, text: string, b: string, minLength: int, maxLength: Option<int>)
    requires AllSpace(a) && AllSpace(b)
    ensures ValidateLength(a + text + b, minLength, maxLength) == ValidateLength(text, minLength, maxLength)
  {
    StripPadding(a, text, b);
  }

  // ---------------------------------------------------------------------------
  // Splitting
  // ---------------------------------------------------------------------------

  predicate OccursAt(s: string, sep: string, i: nat) {
    i + |sep| <= |s| && s[i..i + |sep|] == sep
  }

  /** `str.find(sep, i)`: the first occurrence at or after `i`. */
  function FindFrom(s: string, sep: string, i: nat): (r: Option<nat>)
    decreases |s| - i
    ensures r.Some? ==> i <= r.value && OccursAt(s, sep, r.value)
    ensures r.Some? ==> forall j :: i <= j < r.value ==> !OccursAt(s, sep, j)
    ensures r.None? ==> forall j :: i <= j ==> !OccursAt(s, sep, j)
  {
    if i + |sep| > |s| then None
    else if s[i..i + |sep|] == sep then Some(i)
    else FindFrom(s, sep, i + 1)
  }

  /** `s.split(sep)` for a non-empty separator: cut at every occurrence, taken
      left to right without overlap. */
  function Split(s: string, sep: string): (parts: seq<string>)
    requires sep != []
    decreases |s|
    ensures |parts| >= 1
  {
    match FindFrom(s, sep, 0)
    case None => [s]
    case Some(k) => [s[..k]] + Split(s[k + |sep|..], sep)
  }

  /** `sep.join(parts)`. */
  function Join(parts: seq<string>, sep: string): string {
    if parts == [] then ""
    else if |parts| == 1 then parts[0]
    else parts[0] + sep + Join(parts[1..], sep)
  }

  /** Joining the pieces with the separator gives back the text. */
  lemma {:induction false} SplitJoin(s: string, sep: string)
    requires sep != []
    ensures Join(Split(s, sep), sep) == s
    decreases |s|
  {
    match FindFrom(s, sep, 0)
    case None =>
    case Some(k) =>
      var rest := s[k + |sep|..];
      var parts := Split(rest, sep);
      SplitJoin(rest, sep);
      assert Split(s, sep) == [s[..k]] + parts;
      assert ([s[..k]] + parts)[1..] == parts;
      assert Join(Split(s, sep), sep) == s[..k] + sep + Join(parts, sep);
      assert s == s[..k] + s[k..k + |sep|] + rest;
  }

  /** No piece contains the separator. */
  lemma {:induction false} SplitPiecesFree(s: string, sep: string)
    requires sep != []
    ensures forall p, j :: p in Split(s, sep) ==> !OccursAt(p, sep, j)
    decreases |s|
  {
    match FindFrom(s, sep, 0)
    case None =>
    case Some(k) =>
      SplitPiecesFree(s[k + |sep|..], sep);
      forall j: nat | OccursAt(s[..k], sep, j) ensures false {
        assert s[..k][j..j + |sep|] == s[j..j + |sep|];
        assert OccursAt(s, sep, j);
      }
  }

  // ---------------------------------------------------------------------------
  // The list validator
  // ---------------------------------------------------------------------------

  /** The splitter: a literal separator, or a value of some other type. */
  datatype Splitter = Literal(sep: string) | OtherSplitter

  /** The settings of a `MultiStringEmptyValidator`. */
  datatype MultiConfig = MultiConfig(
    splitter: Splitter,
    minLength: int, maxLength: Option<int>,
    minCount: int, maxCount: Option<int>,
    allowDuplicate: bool)

  function StripAll(parts: seq<string>): (r: seq<string>)
    ensures |r| == |parts|
    ensures forall i :: 0 <= i < |parts| ==> r[i] == Strip(parts[i])
  {
    seq(|parts|, i requires 0 <= i < |parts| => Strip(parts[i]))
  }

  /** `_split_to_labels`: the stripped pieces. An empty separator is a ValueError
      of `str.split`; a splitter of another type is a TypeError. */
  function Labels(text: string, splitter: Splitter): (r: Result<seq<string>>)
    ensures r.Err? <==> splitter.OtherSplitter? || splitter.sep == []
    ensures splitter.OtherSplitter? ==> r.Err? && r.error.TypeError?
    ensures splitter.Literal? && splitter.sep == [] ==> r.Err? && r.error.ValueError?
    ensures r.Ok? ==> |r.value| >= 1
    ensures r.Ok? ==> forall i :: 0 <= i < |r.value| ==> Strip(r.value[i]) == r.value[i]
  {
    match splitter
    case OtherSplitter => Err(TypeError("Invalid splitter"))
    case Literal(sep) =>
      if sep == [] then Err(ValueError("empty separator"))
      else
        var labels := StripAll(Split(text, sep));
        assert forall i :: 0 <= i < |labels| ==> Strip(labels[i]) == labels[i] by {
          forall i | 0 <= i < |labels| ensures Strip(labels[i]) == labels[i] {
            StripIdempotent(Split(text, sep)[i]);
          }
        }
        Ok(labels)
  }

  /** The labels are the stripped pieces between the separators. */
  lemma LabelsArePieces(text: string, sep: string)
    requires sep != []
    ensures Labels(text, Literal(sep)).Ok?
    ensures var parts := Split(text, sep);
      && Join(parts, sep) == text
      && Labels(text, Literal(sep)).value == StripAll(parts)
  {
    SplitJoin(text, sep);
  }

  predicate InBounds(c: MultiConfig, item: string) {
    c.minLength <= |item| && (c.maxLength.None? || |item| <= c.maxLength.value)
  }

  /** The length failure reported for an item out of bounds. */
  function LengthFailure(c: MultiConfig, item: string): ValidationFailure {
    if |item| < c.minLength then ItemTooShort(c.minLength, |item|, item)
    else ItemTooLong(if c.maxLength.Some? then c.maxLength.value else 0, |item|, item)
  }

  /** The per-item checks in order, `seen` being the items already passed: the
      first failure, if any. */
  function ItemFailure(items: seq<string>, c: MultiConfig, seen: set<string>): Option<ValidationFailure> {
    if items == [] then None
    else
      var item := items[0];
      if |item| < c.minLength then Some(ItemTooShort(c.minLength, |item|, item))
      else if c.maxLength.Some? && |item| > c.maxLength.value then Some(ItemTooLong(c.maxLength.value, |item|, item))
      else if !c.allowDuplicate && item in seen then Some(DuplicatedItem(item))
      else ItemFailure(items[1..], c, seen + {item})
  }

  /** The verdict of `validate`: labelling errors, then the count bounds, then
      the items. */
  function MultiCheck(c: MultiConfig, text: string): Outcome {
    match Labels(text, c.splitter)
    case Err(e) => Fail(e)
    case Ok(items) => ItemsVerdict(c, items)
  }

  /** The count bounds, then the per-item checks. */
  function ItemsVerdict(c: MultiConfig, items: seq<string>): Outcome {
      if |items| < c.minCount then Fail(ValidationError(TooFewItems(c.minCount, |items|)))
      else if c.maxCount.Some? && |items| > c.maxCount.value then
        Fail(ValidationError(TooManyItems(c.maxCount.value, |items|)))
      else
        match ItemFailure(items, c, {})
        case Some(f) => Fail(ValidationError(f))
        case None => Pass
  }

  /** The items pass exactly when every one is within the length bounds and,
      unless duplicates are allowed, no item repeats an earlier one or one in
      `seen`. */
  lemma {:induction false} ItemFailureNone(items: seq<string>, c: MultiConfig, seen: set<string>)
    ensures ItemFailure(items, c, seen).None? <==>
      && (forall i :: 0 <= i < |items| ==> InBounds(c, items[i]))
      && (c.allowDuplicate || (Sorting.Distinct(items) && forall i :: 0 <= i < |items| ==> items[i] !in seen))
  {
    if items != [] {
      var item := items[0];
      var tail := items[1..];
      ItemFailureNone(tail, c, seen + {item});
      assert forall i :: 0 <= i < |tail| ==> tail[i] == items[i + 1];
      if InBounds(c, item) && (c.allowDuplicate || item !in seen) {
        if !c.allowDuplicate && ItemFailure(tail, c, seen + {item}).None? {
          forall i, j | 0 <= i < j < |items| ensures items[i] != items[j] {
            if i > 0 {
              assert tail[i - 1] != tail[j - 1];
            } else {
              assert tail[j - 1] !in seen + {item};
            }
          }
        }
        if !c.allowDuplicate && Sorting.Distinct(items) && (forall i :: 0 <= i < |items| ==> items[i] !in seen) {
          forall i | 0 <= i < |tail| ensures tail[i] !in seen + {item} {
            assert items[i + 1] != items[0];
          }
        }
      } else if !InBounds(c, item) {
        assert !InBounds(c, items[0]);
      } else {
        assert items[0] in seen;
      }
    }
  }

  /** With nothing seen before, the items pass exactly when their count and every
      length is within bounds and, unless duplicates are allowed, they are
      distinct. */
  lemma ItemsVerdictPass(c: MultiConfig, items: seq<string>)
    ensures ItemsVerdict(c, items).Pass? <==>
      && c.minCount <= |items| && (c.maxCount.None? || |items| <= c.maxCount.value)
      && (forall i :: 0 <= i < |items| ==> InBounds(c, items[i]))
      && (c.allowDuplicate || Sorting.Distinct(items))
  {
    ItemFailureNone(items, c, {});
  }

  /** The first item out of bounds is the one reported, when everything before it
      passed. */
  lemma {:induction false} FirstLengthFailureReported(items: seq<string>, c: MultiConfig, seen: set<string>, k: nat)
    requires k < |items| && !InBounds(c, items[k])
    requires ItemFailure(items[..k], c, seen).None?
    ensures ItemFailure(items, c, seen) == Some(LengthFailure(c, items[k]))
  {
    var item := items[0];
    if k > 0 {
      assert items[..k][0] == item && items[..k][1..] == items[1..][..k - 1];
      FirstLengthFailureReported(items[1..], c, seen + {item}, k - 1);
    }
  }

  /** The validator accepts exactly when the splitter is usable, the item count is
      within bounds, every item is within the length bounds and, unless allowed,
      no item repeats. */
  lemma MultiCheckAccepts(c: MultiConfig, text: string)
    ensures MultiCheck(c, text).Pass? <==>
      && Labels(text, c.splitter).Ok?
      && var items := Labels(text, c.splitter).value;
      && c.minCount <= |items| && (c.maxCount.None? || |items| <= c.maxCount.value)
      && (forall i :: 0 <= i < |items| ==> InBounds(c, items[i]))
      && (c.allowDuplicate || Sorting.Distinct(items))
  {
    if Labels(text, c.splitter).Ok? {
      ItemsVerdictPass(c, Labels(text, c.splitter).value);
    }
  }

  /** The count bounds are checked before any item: too few or too many items is
      reported whatever the items are. */
  lemma CountCheckedFirst(c: MultiConfig, text: string)
    requires Labels(text, c.splitter).Ok?
    ensures var n := |Labels(text, c.splitter).value|;
      && (n < c.minCount ==> MultiCheck(c, text) == Fail(ValidationError(TooFewItems(c.minCount, n))))
      && (c.minCount <= n && c.maxCount.Some? && n > c.maxCount.value ==>
            MultiCheck(c, text) == Fail(ValidationError(TooManyItems(c.maxCount.value, n))))
  {
  }

  /** `MultiStringEmptyValidator.validate`. */
  method ValidateMulti(c: MultiConfig, text: string) returns (r: Outcome)
    ensures r == MultiCheck(c, text)
  {
    var labels := Labels(text, c.splitter);
    if labels.Err? {
      return Fail(labels.error);
    }
    var items := labels.value;
    if |items| < c.minCount {
      return Fail(ValidationError(TooFewItems(c.minCount, |items|)));
    }
    if c.maxCount.Some? && |items| > c.maxCount.value {
      return Fail(ValidationError(TooManyItems(c.maxCount.value, |items|)));
    }
    var failure := CheckItems(c, items);
    if failure.Some? {
      return Fail(ValidationError(failure.value));
    }
    r := Pass;
  }

  /** The loop of `validate` over the items, with the growing set of items seen:
      the first item failure. */
  method CheckItems(c: MultiConfig, items: seq<string>) returns (failure: Option<ValidationFailure>)
    ensures failure == ItemFailure(items, c, {})
  {
    var seen: set<string> := {};
    var i := 0;
    while i < |items|
      invariant 0 <= i <= |items|
      invariant ItemFailure(items, c, {}) == ItemFailure(items[i..], c, seen)
    {
      assert items[i..][1..] == items[i + 1..];
      var item := items[i];
      if |item| < c.minLength {
        return Some(ItemTooShort(c.minLength, |item|, item));
      }
      if c.maxLength.Some? && |item| > c.maxLength.value {
        return Some(ItemTooLong(c.maxLength.value, |item|, item));
      }
      if !c.allowDuplicate && item in seen {
        return Some(DuplicatedItem(item));
      }
      seen := seen + {item};
      i := i + 1;
    }
    failure := None;
  }
}
