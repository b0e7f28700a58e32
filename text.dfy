/** String helpers the core borrows from Python and its libraries: decimal
    formatting of integers (f-strings), `hbutils.string.plural_word`, and
    `os.path.basename`/`os.path.splitext` on POSIX paths. */
module Text {

  import NaturalOrder

  function DigitChar(d: nat): (c: char)
    requires d < 10
    ensures NaturalOrder.IsDigit(c) && c as int - '0' as int == d
  {
    ['0', '1', '2', '3', '4', '5', '6', '7', '8', '9'][d]
  }

  /** `str(n)` for a natural number. */
  function NatToString(n: nat): (r: string)
    ensures r != []
    ensures forall i :: 0 <= i < |r| ==> NaturalOrder.IsDigit(r[i])
    ensures |r| > 1 ==> r[0] != '0'
  {
    if n < 10 then [DigitChar(n)] else NatToString(n / 10) + [DigitChar(n % 10)]
  }

  /** Reading the digits back gives the number: the formatting loses nothing. */
  lemma {:induction false} NatToStringRoundTrip(n: nat)
    ensures NaturalOrder.DigitsValue(NatToString(n)) == n
  {
    if n >= 10 {
      NatToStringRoundTrip(n / 10);
      var r := NatToString(n);
      assert r[..|r| - 1] == NatToString(n / 10);
    }
  }

  lemma NatToStringInjective(m: nat, n: nat)
    requires NatToString(m) == NatToString(n)
    ensures m == n
  {
    NatToStringRoundTrip(m);
    NatToStringRoundTrip(n);
  }

  /** `f'{i}'` for a Python int. */
  function IntToString(i: int): (r: string)
    ensures r != []
  {
    if i < 0 then "-" + NatToString(-i) else NatToString(i)
  }

  /** `plural_word(n, word)`: the count, a space, and the word, pluralised with a
      trailing "s" unless the count is one. */
  function PluralWord(n: nat, word: string): string {
    NatToString(n) + " " + word + (if n == 1 then "" else "s")
  }

  /** Index of the last `c` in `s`, or -1 (`str.rfind`). */
  function LastIndexOf(s: string, c: char): (r: int)
    ensures -1 <= r < |s|
    ensures r >= 0 ==> s[r] == c
    ensures forall i :: r < i < |s| ==> s[i] != c
  {
    if s == [] then -1
    else if s[|s| - 1] == c then |s| - 1
    else LastIndexOf(s[..|s| - 1], c)
  }

  /** `os.path.basename`: everything after the last slash. */
  function Basename(path: string): (r: string)
    ensures forall i :: 0 <= i < |r| ==> r[i] != '/'
    ensures |r| <= |path| && path[|path| - |r|..] == r
  {
    path[LastIndexOf(path, '/') + 1..]
  }

  /** `os.path.join(dir, name)` on POSIX: an absolute `name` replaces `dir`;
      otherwise `name` is appended, after a slash unless `dir` is empty or already
      ends in one. */
  function Join(dir: string, name: string): (r: string)
    ensures |r| >= |name| && r[|r| - |name|..] == name
  {
    if |name| > 0 && name[0] == '/' then name
    else if dir == [] || dir[|dir| - 1] == '/' then dir + name
    else dir + "/" + name
  }

  /** A relative name joined to a directory keeps the directory as its prefix. */
  lemma JoinKeepsDir(dir: string, name: string)
    requires |name| == 0 || name[0] != '/'
    ensures |Join(dir, name)| >= |dir| && Join(dir, name)[..|dir|] == dir
  {
  }

  /** An absolute name escapes the directory: the join is the name itself. */
  lemma JoinAbsolute(dir: string, name: string)
    requires |name| > 0 && name[0] == '/'
    ensures Join(dir, name) == name
  {
  }

  /** The base name of a joined path is the joined name, when it holds no slash. */
  lemma JoinBasename(dir: string, name: string)
    requires forall i :: 0 <= i < |name| ==> name[i] != '/'
    ensures Basename(Join(dir, name)) == name
  {
    var r := Join(dir, name);
    assert forall i :: |r| - |name| <= i < |r| ==> r[i] == name[i - (|r| - |name|)];
    if |r| > |name| {
      assert r[|r| - |name| - 1] == '/';
    }
  }

  /** The extension `os.path.splitext` splits off a file name: from the last dot,
      provided some character before that dot is not a dot; otherwise empty. */
  function Extension(name: string): (ext: string)
    ensures ext == [] || ext[0] == '.'
    ensures |ext| <= |name| && name[|name| - |ext|..] == ext
    ensures forall i :: 0 < i < |ext| ==> ext[i] != '.'
  {
    var dot := LastIndexOf(name, '.');
    if dot > 0 && exists i :: 0 <= i < dot && name[i] != '.' then
      var ext := name[dot..];
      assert forall i :: 0 < i < |ext| ==> ext[i] == name[dot + i];
      ext
    else
      []
  }

  /** A dotted name with a non-dot stem splits at its last dot. */
  lemma ExtensionOfStemAndSuffix(stem: string, suffix: string)
    requires stem != [] && stem[0] != '.'
    requires '.' !in suffix
    ensures Extension(stem + "." + suffix) == "." + suffix
  {
    var name := stem + "." + suffix;
    assert name[|stem|] == '.';
    assert forall i :: |stem| < i < |name| ==> name[i] == suffix[i - |stem| - 1];
    assert name[0] != '.';
  }

  /** Hidden files and names without a dot have no extension. */
  lemma ExtensionOfDotless(name: string)
    requires forall i :: 0 <= i < |name| ==> name[i] != '.' || (forall j :: 0 <= j < i ==> name[j] == '.')
    ensures Extension(name) == []
  {
  }
}
