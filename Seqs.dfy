/** Sequence helpers used to specify the runner's list of live coroutines. */
module Seqs {

  /** No element occurs twice. */
  ghost predicate Distinct<T>(xs: seq<T>)
  {
    forall i, j | 0 <= i < j < |xs| :: xs[i] != xs[j]
  }

  /** The elements of `xs` whose flag in `keep` is set, in their original order. */
  function Keep<T>(xs: seq<T>, keep: seq<bool>): (ys: seq<T>)
    requires |xs| == |keep|
    ensures |ys| <= |xs|
  {
    if xs == [] then []
    else (if keep[0] then [xs[0]] else []) + Keep(xs[1..], keep[1..])
  }

  /**
    Keeping elements of a list without repetitions gives a list without
    repetitions, and an element stays exactly when its flag is set.
  */
  lemma {:induction false} KeepDistinct<T>(xs: seq<T>, keep: seq<bool>)
    requires |xs| == |keep| && Distinct(xs)
    ensures Distinct(Keep(xs, keep))
    ensures forall y | y in Keep(xs, keep) :: y in xs
    ensures forall i | 0 <= i < |xs| :: xs[i] in Keep(xs, keep) <==> keep[i]
  {
    if xs != [] {
      var rest := Keep(xs[1..], keep[1..]);
      KeepDistinct(xs[1..], keep[1..]);
      assert xs[0] !in xs[1..] by {
        forall j | 0 <= j < |xs[1..]| ensures xs[1..][j] != xs[0] {
          assert xs[1..][j] == xs[j + 1];
        }
      }
      assert xs[0] !in rest;
      forall i | 1 <= i < |xs| ensures xs[i] in Keep(xs, keep) <==> keep[i] {
        assert xs[i] == xs[1..][i - 1];
        assert xs[i] != xs[0];
      }
    }
  }

  /**
    One step of a pass over `xs` from the back: when the elements after index
    `i` have already been filtered, deciding element `i` (and removing it at
    its index when it is dropped) leaves the elements from `i` on filtered.
  */
  lemma {:induction false} RemoveAtKeepsSuffix<T>(xs: seq<T>, keep: seq<bool>, i: nat, k: bool, ys: seq<T>)
    requires |xs| == |keep| && i < |xs|
    requires ys == xs[..i + 1] + Keep(xs[i + 1..], keep[i + 1..])
    ensures (if k then ys else ys[..i] + ys[i + 1..]) == xs[..i] + Keep(xs[i..], keep[i := k][i..])
  {
    var keep' := keep[i := k];
    assert xs[i..][1..] == xs[i + 1..];
    assert keep'[i..][1..] == keep[i + 1..];
    assert Keep(xs[i..], keep'[i..]) == (if k then [xs[i]] else []) + Keep(xs[i + 1..], keep[i + 1..]);
    if k {
      assert xs[..i + 1] == xs[..i] + [xs[i]];
    } else {
      assert ys[..i] == xs[..i];
      assert ys[i + 1..] == Keep(xs[i + 1..], keep[i + 1..]);
    }
  }
}
