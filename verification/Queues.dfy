/** Queues of row changes: what the last change for a key says. */
module Queues {
  import opened Wrappers

  /** The value of the last change for k, if there is one. */
  function LastFor<K(==), V>(changes: seq<(K, V)>, k: K): Option<V> {
    if changes == [] then None
    else
      var later := LastFor(changes[1..], k);
      if later.Some? then later
      else if changes[0].0 == k then Some(changes[0].1)
      else None
  }

  lemma {:induction false} LastForAppend<K, V>(changes: seq<(K, V)>, change: (K, V), k: K)
    ensures LastFor(changes + [change], k) == if change.0 == k then Some(change.1) else LastFor(changes, k)
  {
    if changes == [] {
      assert changes + [change] == [change];
    } else {
      assert (changes + [change])[1..] == changes[1..] + [change];
      LastForAppend(changes[1..], change, k);
    }
  }
}
