/** Numbering the members of several classes in one history. */
module Counting {

  /** How many entries of the history are of a class. */
  ghost function Count(history: seq<nat>, c: nat): (k: nat)
    ensures k <= |history|
  {
    if history == [] then 0
    else
      var n := |history| - 1;
      Count(history[..n], c) + if history[n] == c then 1 else 0
  }

  /** The number of entry k within its class, from 0. */
  ghost function Ordinal(history: seq<nat>, k: nat): nat
    requires k < |history|
  {
    Count(history[..k], history[k])
  }

  lemma {:induction false} CountMonotone(history: seq<nat>, i: nat, j: nat, c: nat)
    requires i <= j <= |history|
    ensures Count(history[..i], c) <= Count(history[..j], c)
    ensures i < j && history[i] == c ==> Count(history[..i], c) < Count(history[..j], c)
  {
    if i < j {
      CountMonotone(history, i, j - 1, c);
      assert history[..j][..j - 1] == history[..j - 1];
    }
  }

  lemma {:induction false} CountIsMultiplicity(history: seq<nat>, c: nat)
    ensures Count(history, c) == multiset(history)[c]
  {
    if history != [] {
      var n := |history| - 1;
      assert history == history[..n] + [history[n]];
      CountIsMultiplicity(history[..n], c);
    }
  }

  /** Each number below the size of a class is the number of one entry of that class. */
  lemma {:induction false} EveryOrdinalReached(history: seq<nat>, c: nat, q: nat) returns (k: nat)
    requires q < multiset(history)[c]
    ensures k < |history| && history[k] == c && Ordinal(history, k) == q
  {
    var n := |history| - 1;
    assert history == history[..n] + [history[n]];
    CountIsMultiplicity(history[..n], c);
    if q < multiset(history[..n])[c] {
      k := EveryOrdinalReached(history[..n], c, q);
      assert history[..n][..k] == history[..k];
    } else {
      k := n;
    }
  }

  /** Numbers within one class go up strictly, and stay below the number of its entries. */
  lemma OrdinalsIncrease(history: seq<nat>, i: nat, j: nat)
    requires i < j < |history| && history[i] == history[j]
    ensures Ordinal(history, i) < Ordinal(history, j) < Count(history, history[j])
  {
    CountMonotone(history, i, j, history[i]);
    CountMonotone(history, j, |history|, history[j]);
    assert history[..|history|] == history;
  }
}
