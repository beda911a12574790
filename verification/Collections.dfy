/** Counting the elements of sequences and sets. */
module Collections {
  ghost predicate NoDuplicates<X>(xs: seq<X>) {
    forall i, j :: 0 <= i < j < |xs| ==> xs[i] != xs[j]
  }

  function Elements<X>(xs: seq<X>): set<X> {
    set x | x in xs
  }

  lemma {:induction false} ElementsSize<X>(xs: seq<X>)
    ensures |Elements(xs)| <= |xs|
    ensures NoDuplicates(xs) ==> |Elements(xs)| == |xs|
  {
    if xs != [] {
      var n := |xs| - 1;
      ElementsSize(xs[..n]);
      assert Elements(xs) == Elements(xs[..n]) + {xs[n]};
    }
  }

  lemma {:induction false} SubsetSize<X>(a: set<X>, b: set<X>)
    requires a <= b
    ensures |a| <= |b|
    decreases a
  {
    if x :| x in a {
      SubsetSize(a - {x}, b - {x});
    }
  }

  /** The numbers below `n`. */
  function Below(n: nat): (s: set<nat>)
    ensures |s| == n && forall k: nat :: k in s <==> k < n
  {
    if n == 0 then {} else Below(n - 1) + {n - 1}
  }
}
