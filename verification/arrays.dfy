/** The JavaScript array operations the editor's list handling relies on:
    `indexOf` / `findIndex` with their `-1` for "not found", and
    `splice(start, 1)` with its rule for a negative start. Equality on
    elements is Dafny's `==`. On objects that carry their identity it is
    `===`: equal values have the same `ref`. Where the editor compares
    with lodash `isEqual`, `==` is stricter, since it also compares each
    `ref` that `isEqual` ignores. */
module Arrays {

  /** `indexOf(x)` / `findIndex(y => y == x)`: the first index holding
      `x`, or -1. */
  function IndexOf<T(==)>(s: seq<T>, x: T): (i: int)
    ensures -1 <= i < |s|
    ensures i == -1 <==> x !in s
    ensures 0 <= i ==> s[i] == x && x !in s[..i]
    decreases |s|
  {
    if s == [] then -1
    else if s[0] == x then 0
    else
      var rest := IndexOf(s[1..], x);
      assert s[1..][..(if rest < 0 then 0 else rest)] == s[1..(if rest < 0 then 1 else rest + 1)];
      if rest == -1 then -1 else rest + 1
  }

  /** `splice(start, 1)`: a negative start counts from the end (and is
      clamped to 0); a start past the end removes nothing. */
  function SpliceOne<T>(s: seq<T>, start: int): (r: seq<T>)
    ensures 0 <= start < |s| ==> r == s[..start] + s[start + 1..]
    ensures start >= |s| ==> r == s
    ensures start < 0 && 0 <= |s| + start ==> r == s[..|s| + start] + s[|s| + start + 1..]
    ensures |s| + start < 0 && s != [] ==> r == s[1..]
  {
    var from := if start < 0 then (if |s| + start < 0 then 0 else |s| + start) else start;
    if from < |s| then s[..from] + s[from + 1..] else s
  }

  /** `splice(-1, 1)` removes the last element. */
  lemma SpliceMinusOneDropsLast<T>(s: seq<T>)
    requires s != []
    ensures SpliceOne(s, -1) == s[..|s| - 1]
  {
  }

  /** Removing an element keeps every other element, in order. */
  lemma SpliceOneKeepsTheRest<T>(s: seq<T>, i: nat)
    requires i < |s|
    ensures |SpliceOne(s, i)| == |s| - 1
    ensures forall j :: 0 <= j < i ==> SpliceOne(s, i)[j] == s[j]
    ensures forall j :: i <= j < |s| - 1 ==> SpliceOne(s, i)[j] == s[j + 1]
    ensures multiset(SpliceOne(s, i)) == multiset(s) - multiset{s[i]}
  {
    assert s == s[..i] + [s[i]] + s[i + 1..];
  }

  /** `s` with the elements at `i` and `j` exchanged. */
  function Swap<T>(s: seq<T>, i: nat, j: nat): (r: seq<T>)
    requires i < |s| && j < |s|
    ensures |r| == |s| && r[i] == s[j] && r[j] == s[i]
    ensures forall k :: 0 <= k < |s| && k != i && k != j ==> r[k] == s[k]
  {
    s[i := s[j]][j := s[i]]
  }

  /** Swapping keeps the multiset of elements, and swapping back restores
      the sequence. */
  lemma SwapIsPermutation<T>(s: seq<T>, i: nat, j: nat)
    requires i < |s| && j < |s|
    ensures multiset(Swap(s, i, j)) == multiset(s)
    ensures Swap(Swap(s, i, j), i, j) == s
  {
    assert Swap(Swap(s, i, j), i, j) == s;
  }

  /** A sequence one longer that agrees on the shorter one's positions is
      the shorter one with its last element appended. */
  lemma ExtendByOne<T>(longer: seq<T>, shorter: seq<T>, last: T)
    requires |longer| == |shorter| + 1 && longer[|shorter|] == last
    requires forall i :: 0 <= i < |shorter| ==> longer[i] == shorter[i]
    ensures longer == shorter + [last]
  {
  }
}
