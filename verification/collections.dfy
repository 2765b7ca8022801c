/** Small notions about numbers and sequences, shared by the other modules. */
module Collections {
  function Least(a: nat, b: nat): nat {
    if a < b then a else b
  }

  /** No element comes twice. */
  ghost predicate Distinct<T>(xs: seq<T>) {
    forall i, j :: 0 <= i < j < |xs| ==> xs[i] != xs[j]
  }

  /** How often an element is there after one more. */
  lemma {:induction false} OneMore<T>(xs: seq<T>, x: T, other: T)
    ensures multiset(xs + [x])[other] == multiset(xs)[other] + if x == other then 1 else 0
  {
  }
}
