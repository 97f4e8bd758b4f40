/** Drawing `k` distinct elements at random, as `DataFrame.sample(k)` does
    for the selector's fallback fill. The random generator is not modelled;
    its successive outputs arrive as a sequence of naturals `draws`, and each
    draw picks one of the elements still available. */
module Sampling {
  import opened Seqs

  /** The next draw, or 0 once the supplied draws run out. */
  function Head(draws: seq<nat>): nat {
    if |draws| > 0 then draws[0] else 0
  }

  function Tail(draws: seq<nat>): seq<nat> {
    if |draws| > 0 then draws[1..] else []
  }

  /** Draws `k` elements of `c` without replacement, in the order drawn.
      Asking for more elements than `c` holds is an error in pandas, so the
      caller must stay within the pool. */
  function Sample<T(==)>(c: seq<T>, k: nat, draws: seq<nat>): (r: seq<T>)
    requires k <= |c|
    ensures |r| == k
    ensures forall x :: x in r ==> x in c
    ensures Distinct(c) ==> Distinct(r)
    decreases k
  {
    if k == 0 then []
    else
      var i := Head(draws) % |c|;
      var rest := Sample(RemoveAt(c, i), k - 1, Tail(draws));
      DistinctConcat([c[i]], rest);
      [c[i]] + rest
  }

  lemma SmallMod(i: nat, n: nat)
    requires i < n
    ensures i % n == i
  {
  }

  /** Every ordered choice of distinct available elements is the outcome of
      some sequence of draws: the model admits each result the random
      sampler can produce. */
  lemma {:induction false} SampleCovers<T>(c: seq<T>, want: seq<T>) returns (draws: seq<nat>)
    requires Distinct(c) && Distinct(want)
    requires forall x :: x in want ==> x in c
    ensures |want| <= |c|
    ensures Sample(c, |want|, draws) == want
    decreases |want|
  {
    DistinctIntoNoLonger(want, c);
    if |want| == 0 {
      draws := [];
    } else {
      var i := IndexOf(c, want[0]);
      var c' := RemoveAt(c, i);
      var want' := want[1..];
      assert want == [want[0]] + want';
      DistinctConcat([want[0]], want');
      forall x | x in want' ensures x in c' {
        assert x in want && x != want[0];
      }
      var draws' := SampleCovers(c', want');
      draws := [i] + draws';
      assert Head(draws) == i;
      SmallMod(i, |c|);
      assert Tail(draws) == draws';
      assert Sample(c, |want|, draws) == [c[i]] + Sample(c', |want| - 1, draws');
    }
  }
}
