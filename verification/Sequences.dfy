/** Sequences without repetitions, concatenation, and shuffles. */
module Sequences {

  predicate NoDuplicates<T(==)>(xs: seq<T>) {
    forall i, j :: 0 <= i < j < |xs| ==> xs[i] != xs[j]
  }

  lemma ConcatAssociates<T>(a: seq<T>, b: seq<T>, c: seq<T>)
    ensures (a + b) + c == a + (b + c)
  {
  }

  /** `all` is made of the elements of `a` and of `b`, each in their order. */
  predicate Shuffles<T(==)>(a: seq<T>, b: seq<T>, all: seq<T>)
    decreases |all|
  {
    if all == [] then a == [] && b == []
    else
      || (a != [] && a[0] == all[0] && Shuffles(a[1..], b, all[1..]))
      || (b != [] && b[0] == all[0] && Shuffles(a, b[1..], all[1..]))
  }

  lemma {:induction false} ShufflesNone<T>(all: seq<T>)
    ensures Shuffles(all, [], all)
    decreases |all|
  {
    if all != [] {
      ShufflesNone(all[1..]);
    }
  }

  /** The front of a queue is popped. */
  lemma ShufflesPopped<T>(queue: seq<T>, popped: seq<T>, rest: seq<T>, evicted: seq<T>, puts: seq<T>)
    requires queue != [] && Shuffles(popped + rest, evicted, queue[1..] + puts)
    ensures Shuffles(([queue[0]] + popped) + rest, evicted, queue + puts)
  {
    assert (([queue[0]] + popped) + rest)[1..] == popped + rest;
    assert (queue + puts)[1..] == queue[1..] + puts;
  }

  /** The front of a queue is evicted by a new element. */
  lemma ShufflesEvicted<T>(queue: seq<T>, value: T, kept: seq<T>, evicted: seq<T>, puts: seq<T>)
    requires queue != [] && Shuffles(kept, evicted, (queue[1..] + [value]) + puts)
    ensures Shuffles(kept, [queue[0]] + evicted, queue + ([value] + puts))
  {
    assert ([queue[0]] + evicted)[1..] == evicted;
    assert (queue + ([value] + puts))[1..] == (queue[1..] + [value]) + puts;
  }
}
