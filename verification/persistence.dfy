/**
  The save and restore hooks run over a list of indices, as a persistence pass
  drives them: one value per index, in order, with no index recorded in the stream.
  Restoring with the same list of indices reproduces every saved value.
*/
module Persistence {
  import opened Optional
  import opened Partition
  import opened PropertySet
  import opened ObjectPropertySet

  /** The values at `indices`, in order. */
  function ValuesAt<V>(s: Store<V>, indices: seq<Index>): (r: Stream<V>)
    ensures |r| == |indices|
    ensures forall k :: 0 <= k < |indices| ==> r[k] == Get(s, indices[k])
  {
    seq(|indices|, k requires 0 <= k < |indices| => Get(s, indices[k]))
  }

  /** Saves the value at each index in turn. */
  function SaveAll<V>(s: Store<V>, out: Stream<V>, indices: seq<Index>): (r: Stream<V>)
    decreases |indices|
  {
    if |indices| == 0 then out
    else SaveAll(s, SaveProperty(s, out, indices[0]), indices[1..])
  }

  /** Restores one value at each index in turn, stopping at the first failure. */
  function RestoreAll<V>(s: Store<V>, input: Stream<V>, indices: seq<Index>): (r: Result<(Store<V>, Stream<V>), StreamError>)
    decreases |indices|
  {
    if |indices| == 0 then Success((s, input))
    else
      match RestoreProperty(s, input, indices[0])
      case Failure(e) => Failure(e)
      case Success((s', rest)) => RestoreAll(s', rest, indices[1..])
  }

  /** Saving appends exactly the values at the indices. */
  lemma {:induction false} SaveAllAppends<V>(s: Store<V>, out: Stream<V>, indices: seq<Index>)
    ensures SaveAll(s, out, indices) == out + ValuesAt(s, indices)
    decreases |indices|
  {
    if |indices| != 0 {
      SaveAllAppends(s, SaveProperty(s, out, indices[0]), indices[1..]);
      assert ValuesAt(s, indices) == [Get(s, indices[0])] + ValuesAt(s, indices[1..]);
    }
  }

  /**
    Restoring from a stream that starts with the values of `s` at `indices` puts each
    of them back, leaves every other index of `t` alone and consumes exactly them.
  */
  lemma {:induction false} RestoreAllReproduces<V>(s: Store<V>, t: Store<V>, indices: seq<Index>, rest: Stream<V>)
    ensures RestoreAll(t, ValuesAt(s, indices) + rest, indices).Success?
    ensures RestoreAll(t, ValuesAt(s, indices) + rest, indices).value.1 == rest
    ensures forall i: Index :: i in indices ==> Get(RestoreAll(t, ValuesAt(s, indices) + rest, indices).value.0, i) == Get(s, i)
    ensures forall i: Index :: i !in indices ==> Get(RestoreAll(t, ValuesAt(s, indices) + rest, indices).value.0, i) == Get(t, i)
    decreases |indices|
  {
    if |indices| != 0 {
      var input := ValuesAt(s, indices) + rest;
      var tail := indices[1..];
      assert input[0] == Get(s, indices[0]);
      assert input[1..] == ValuesAt(s, tail) + rest;
      var t' := Put(t, indices[0], Get(s, indices[0]));
      RestoreAllReproduces(s, t', tail, rest);
      var final := RestoreAll(t', ValuesAt(s, tail) + rest, tail).value.0;
      forall i: Index | i in indices
        ensures Get(final, i) == Get(s, i)
      {
        if i !in tail {
          assert i == indices[0];
        }
      }
      forall i: Index | i !in indices
        ensures Get(final, i) == Get(t, i)
      {
        assert i !in tail && i != indices[0];
      }
    }
  }

  /** A save pass followed by a restore pass over the same indices reproduces every value. */
  lemma {:induction false} SaveRestoreAllRoundTrip<V>(s: Store<V>, t: Store<V>, indices: seq<Index>)
    ensures RestoreAll(t, SaveAll(s, [], indices), indices).Success?
    ensures RestoreAll(t, SaveAll(s, [], indices), indices).value.1 == []
    ensures forall i: Index :: i in indices ==> Get(RestoreAll(t, SaveAll(s, [], indices), indices).value.0, i) == Get(s, i)
  {
    SaveAllAppends(s, [], indices);
    assert SaveAll(s, [], indices) == ValuesAt(s, indices) + [];
    RestoreAllReproduces(s, t, indices, []);
  }
}
