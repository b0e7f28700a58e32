/** The natural ("human") order of `natsort.natsorted`, which the hub backend applies
    to the fragment paths it lists: a string is cut into maximal runs of digits and of
    other characters; digit runs compare by their numeric value, other runs as Python
    strings, and at the start a digit run comes before a text run (natsort pads such
    keys with an empty string). Only the ASCII digits 0-9 form numbers here. */
module NaturalOrder {

  import StringOrder
  import Sorting

  datatype Chunk = Number(value: nat) | Text(text: string)

  predicate IsDigit(c: char) {
    '0' <= c <= '9'
  }

  /** Length of the maximal prefix of `s` whose characters are digits iff `digits`. */
  function RunLength(s: string, digits: bool): (n: nat)
    ensures n <= |s|
    ensures forall i :: 0 <= i < n ==> IsDigit(s[i]) == digits
    ensures n < |s| ==> IsDigit(s[n]) != digits
  {
    if s == [] || IsDigit(s[0]) != digits then 0 else 1 + RunLength(s[1..], digits)
  }

  /** The number a run of decimal digits denotes. */
  function DigitsValue(digits: string): nat
    requires forall i :: 0 <= i < |digits| ==> IsDigit(digits[i])
  {
    if digits == [] then 0
    else
      var last := digits[|digits| - 1];
      assert IsDigit(last);
      10 * DigitsValue(digits[..|digits| - 1]) + (last as int - '0' as int)
  }

  /** The natsort key of a string. */
  function Chunks(s: string): seq<Chunk>
    decreases |s|
  {
    if s == [] then []
    else
      var digits := IsDigit(s[0]);
      var n := RunLength(s, digits);
      var chunk := if digits then Number(DigitsValue(s[..n])) else Text(s[..n]);
      [chunk] + Chunks(s[n..])
  }

  predicate ChunkLe(a: Chunk, b: Chunk) {
    match (a, b)
    case (Number(m), Number(n)) => m <= n
    case (Text(x), Text(y)) => StringOrder.LessEq(x, y)
    case (Number(_), Text(_)) => true
    case (Text(_), Number(_)) => false
  }

  /** Tuple comparison of two keys: the first chunk that does not tie decides, and a
      key that is a prefix of the other comes first. */
  predicate KeyLe(k1: seq<Chunk>, k2: seq<Chunk>) {
    if k1 == [] then true
    else if k2 == [] then false
    else if !ChunkLe(k2[0], k1[0]) then true
    else if !ChunkLe(k1[0], k2[0]) then false
    else KeyLe(k1[1..], k2[1..])
  }

  predicate NatLe(a: string, b: string) {
    KeyLe(Chunks(a), Chunks(b))
  }

  lemma ChunkTotal(a: Chunk, b: Chunk)
    ensures ChunkLe(a, b) || ChunkLe(b, a)
  {
    if a.Text? && b.Text? {
      StringOrder.LessTotal(a.text, b.text);
    }
  }

  lemma ChunkTransitive(a: Chunk, b: Chunk, c: Chunk)
    requires ChunkLe(a, b) && ChunkLe(b, c)
    ensures ChunkLe(a, c)
  {
    if a.Text? && b.Text? && c.Text? {
      StringOrder.LessEqTotalOrder();
    }
  }

  lemma {:induction false} KeyTotal(k1: seq<Chunk>, k2: seq<Chunk>)
    ensures KeyLe(k1, k2) || KeyLe(k2, k1)
  {
    if k1 != [] && k2 != [] {
      ChunkTotal(k1[0], k2[0]);
      KeyTotal(k1[1..], k2[1..]);
    }
  }

  lemma {:induction false} KeyTransitive(k1: seq<Chunk>, k2: seq<Chunk>, k3: seq<Chunk>)
    requires KeyLe(k1, k2) && KeyLe(k2, k3)
    ensures KeyLe(k1, k3)
  {
    if k1 != [] && k2 != [] && k3 != [] {
      ChunkTotal(k1[0], k2[0]);
      ChunkTotal(k2[0], k3[0]);
      ChunkTotal(k1[0], k3[0]);
      if ChunkLe(k2[0], k1[0]) && ChunkLe(k1[0], k2[0]) && ChunkLe(k3[0], k2[0]) && ChunkLe(k2[0], k3[0]) {
        ChunkTransitive(k3[0], k2[0], k1[0]);
        ChunkTransitive(k1[0], k2[0], k3[0]);
        KeyTransitive(k1[1..], k2[1..], k3[1..]);
      } else if !ChunkLe(k2[0], k1[0]) {
        // k1[0] strictly first; k2[0] is no later than k3[0]
        if ChunkLe(k3[0], k1[0]) {
          ChunkTransitive(k2[0], k3[0], k1[0]);
        }
      } else {
        // k1[0] ties with k2[0], and k2[0] is strictly before k3[0]
        if ChunkLe(k3[0], k1[0]) {
          ChunkTransitive(k3[0], k1[0], k2[0]);
        }
      }
    }
  }

  /** `natsorted` needs a total preorder; the natural order is one. */
  lemma NatLeTotalPreorder()
    ensures Sorting.TotalPreorder(NatLe)
  {
    forall a, b ensures NatLe(a, b) || NatLe(b, a) {
      KeyTotal(Chunks(a), Chunks(b));
    }
    forall a, b, c | NatLe(a, b) && NatLe(b, c) ensures NatLe(a, c) {
      KeyTransitive(Chunks(a), Chunks(b), Chunks(c));
    }
  }

  /** `natsorted(paths)`. */
  function NatSorted(paths: seq<string>): (r: seq<string>)
    ensures Sorting.SortedBy(r, NatLe)
    ensures multiset(r) == multiset(paths)
  {
    NatLeTotalPreorder();
    Sorting.Sort(paths, NatLe)
  }

  /** A name with a larger number comes later even where plain string order puts
      it first: "10" follows "9" naturally but precedes it as a string. */
  lemma NaturalBeforeLexicographic()
    ensures NatLe("9", "10") && !NatLe("10", "9")
    ensures StringOrder.Less("10", "9")
  {
    assert RunLength("9", true) == 1;
    assert RunLength("10", true) == 2;
    assert "10"[..2] == "10" && "10"[2..] == [];
    assert DigitsValue("1") == 1;
    assert DigitsValue("10") == 10;
    assert Chunks("9") == [Number(9)];
    assert Chunks("10") == [Number(10)];
  }
}
