/** Shared by the models: options, lists without duplicates, and the arithmetic of division. */
module Basics {

  datatype Option<T> = None | Some(value: T)

  predicate NoDup<T(==)>(s: seq<T>) {
    forall i, j :: 0 <= i < j < |s| ==> s[i] != s[j]
  }

  function Flatten<T>(chunks: seq<seq<T>>): seq<T> {
    if chunks == [] then [] else Flatten(chunks[..|chunks| - 1]) + chunks[|chunks| - 1]
  }

  function Pow2(k: nat): (p: nat)
    ensures p > 0
  {
    if k == 0 then 1 else 2 * Pow2(k - 1)
  }

  lemma MultipleIsFar(d: int, m: nat)
    ensures d > 0 ==> d * m >= m
    ensures d < 0 ==> d * m <= 0 - m
  {
  }

  lemma Division(x: int, m: nat)
    requires m > 0
    ensures x == x / m * m + x % m && 0 <= x % m < m
  {
  }

  /** There is one quotient and one remainder. */
  lemma DivisionIsUnique(x: int, m: nat, q: int, r: nat)
    requires m > 0 && x == q * m + r && r < m
    ensures x / m == q && x % m == r
  {
    Division(x, m);
    var d := x / m - q;
    assert d * m == r - x % m by {
      assert d * m == x / m * m - q * m;
    }
    MultipleIsFar(d, m);
  }
}
