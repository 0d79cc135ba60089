/** The difference locator (`PositionOfFirstDifference`): the first index at
    which two sequences diverge, or -1 when they are the same. Used with
    characters for strings and with element values for sequences. */
module FirstDifference {

  function Min(a: nat, b: nat): nat {
    if a <= b then a else b
  }

  function Max(a: nat, b: nat): nat {
    if a <= b then b else a
  }

  /** The first `n` positions of both sequences exist and are equal under `eq`. */
  predicate AgreeUpTo<T>(a: seq<T>, b: seq<T>, eq: (T, T) -> bool, n: nat)
  {
    n <= |a| && n <= |b| && forall i :: 0 <= i < n ==> eq(a[i], b[i])
  }

  /** What "first difference" means: -1 when the sequences have the same
      length and agree everywhere; otherwise an index up to the shorter
      length, before which they agree, and at which either the elements
      differ or the shorter sequence has ended before the longer one. */
  predicate IsFirstDifference<T>(a: seq<T>, b: seq<T>, eq: (T, T) -> bool, r: int)
  {
    if r == -1 then |a| == |b| && AgreeUpTo(a, b, eq, |a|)
    else
      && 0 <= r <= Min(|a|, |b|)
      && AgreeUpTo(a, b, eq, r)
      && (if r == Min(|a|, |b|) then |a| != |b| else !eq(a[r], b[r]))
  }

  /** The comparer overload: walks both sequences in step from `k`. */
  function DiffFrom<T>(a: seq<T>, b: seq<T>, eq: (T, T) -> bool, k: nat): (r: int)
    requires AgreeUpTo(a, b, eq, k)
    ensures IsFirstDifference(a, b, eq, r)
    decreases |a| - k
  {
    if k < |a| then
      if k >= |b| || !eq(a[k], b[k]) then k else DiffFrom(a, b, eq, k + 1)
    else if k < |b| then k
    else -1
  }

  /** `PositionOfFirstDifference(first, second, comparer)`. */
  function PositionOfFirstDifference<T>(first: seq<T>, second: seq<T>, eq: (T, T) -> bool): (r: int)
    ensures IsFirstDifference(first, second, eq, r)
    ensures -1 <= r <= Min(|first|, |second|)
  {
    DiffFrom(first, second, eq, 0)
  }

  /** The first difference is determined by the sequences: any index meeting
      the definition is the one the locator returns. */
  lemma FirstDifferenceUnique<T>(a: seq<T>, b: seq<T>, eq: (T, T) -> bool, r: int)
    requires IsFirstDifference(a, b, eq, r)
    ensures r == PositionOfFirstDifference(a, b, eq)
  {
  }

  /** `PositionOfFirstDifference(first, second)` with the default comparer. */
  function DefaultPositionOfFirstDifference<T(==)>(first: seq<T>, second: seq<T>): (r: int)
    ensures r == -1 <==> first == second
    ensures r >= 0 ==> r <= Min(|first|, |second|) && first[..r] == second[..r]
    ensures r >= 0 && r < |first| && r < |second| ==> first[r] != second[r]
    ensures r < Max(|first|, |second|)
  {
    var eq := (x: T, y: T) => x == y;
    var r := PositionOfFirstDifference(first, second, eq);
    AgreementIsEquality(first, second, if r == -1 then |first| else r);
    r
  }

  /** Under the default comparer, agreeing on a prefix means equal prefixes. */
  lemma AgreementIsEquality<T>(a: seq<T>, b: seq<T>, n: nat)
    requires AgreeUpTo(a, b, (x: T, y: T) => x == y, n)
    ensures a[..n] == b[..n]
  {
    assert forall i :: 0 <= i < n ==> a[..n][i] == b[..n][i];
  }

  /** Under the default comparer the first difference is the one index
      before which the sequences agree and at which they differ. */
  lemma DefaultDifferenceAt<T>(a: seq<T>, b: seq<T>, r: nat)
    requires r < |a| && r < |b| && a[..r] == b[..r] && a[r] != b[r]
    ensures DefaultPositionOfFirstDifference(a, b) == r
  {
  }

  /** When one sequence is a proper prefix of the other the difference is
      where the shorter one ends. */
  lemma PrefixDifference<T>(a: seq<T>, b: seq<T>)
    requires |a| < |b| && a == b[..|a|]
    ensures DefaultPositionOfFirstDifference(a, b) == |a|
    ensures DefaultPositionOfFirstDifference(b, a) == |a|
  {
    var eq := (x: T, y: T) => x == y;
    assert AgreeUpTo(a, b, eq, |a|);
    assert AgreeUpTo(b, a, eq, |a|);
    FirstDifferenceUnique(a, b, eq, |a|);
    FirstDifferenceUnique(b, a, eq, |a|);
  }

  /** The enumerator loop of the source: `diffPos` starts at -1 and counts
      the elements taken from `first`; the second enumerator advances in
      step. When `first` runs out while `second` has more, the answer is 0
      if nothing was read and `++diffPos` otherwise. */
  method ScanFirstDifference<T>(first: seq<T>, second: seq<T>, eq: (T, T) -> bool) returns (diffPos: int)
    ensures IsFirstDifference(first, second, eq, diffPos)
    ensures diffPos == PositionOfFirstDifference(first, second, eq)
  {
    diffPos := -1;
    var taken := 0;
    while taken < |first|
      invariant 0 <= taken <= |first| && taken <= |second|
      invariant diffPos == taken - 1
      invariant AgreeUpTo(first, second, eq, taken)
      invariant DiffFrom(first, second, eq, taken) == PositionOfFirstDifference(first, second, eq)
    {
      diffPos := diffPos + 1;
      if taken >= |second| || !eq(first[taken], second[taken]) {
        return;
      }
      taken := taken + 1;
    }
    if taken < |second| {
      diffPos := if diffPos == -1 then 0 else diffPos + 1;
      return;
    }
    diffPos := -1;
  }
}
