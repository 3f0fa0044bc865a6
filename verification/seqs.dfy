/** Small facts about sequence concatenation, stated once for any element
    type so that proofs about particular sequences can cite them instead of
    rediscovering them by extensionality. */
module Seqs {

  /** A nonempty sequence is its head followed by its tail. */
  lemma HeadTail<T>(s: seq<T>)
    requires s != []
    ensures s == [s[0]] + s[1..]
  {
  }

  /** Dropping the head of a concatenation drops it from the left part. */
  lemma TailAppend<T>(a: seq<T>, b: seq<T>)
    requires a != []
    ensures (a + b)[1..] == a[1..] + b
    ensures (a + b)[0] == a[0]
  {
  }

  lemma EmptyAppend<T>(a: seq<T>, b: seq<T>)
    requires a == []
    ensures a + b == b
  {
  }

  lemma AppendAssoc<T>(a: seq<T>, b: seq<T>, c: seq<T>)
    ensures a + (b + c) == (a + b) + c
  {
  }
}
