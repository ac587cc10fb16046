/** When something was last used, counted along the uses so far. */
module LastUses {
  /** The last place of a number among the uses, counted from 1, or 0 for one that was never used. */
  ghost function LastUse(uses: seq<nat>, x: nat): nat {
    if uses == [] then 0 else if uses[|uses| - 1] == x then |uses| else LastUse(uses[..|uses| - 1], x)
  }

  lemma {:induction false} LastUseBound(uses: seq<nat>, x: nat)
    ensures LastUse(uses, x) <= |uses|
  {
    if uses != [] { LastUseBound(uses[..|uses| - 1], x); }
  }

  lemma UsedNext(uses: seq<nat>, x: nat)
    ensures LastUse(uses + [x], x) == |uses| + 1
    ensures forall y :: y != x ==> LastUse(uses + [x], y) == LastUse(uses, y)
  {
    assert (uses + [x])[..|uses|] == uses;
  }
}
