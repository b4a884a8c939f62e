/** Calls to other parties, connections and payments, that may succeed or fail: the successes, by number of the call. */
module Outcomes {

  /** A call beyond the end of the list fails. */
  predicate Succeeds(successes: seq<bool>, i: nat) {
    i < |successes| && successes[i]
  }

  /** The `k`-th call alone succeeds. */
  function Only(k: nat): (successes: seq<bool>)
    ensures forall i: nat :: Succeeds(successes, i) <==> i == k
  {
    seq(k + 1, i => i == k)
  }
}
