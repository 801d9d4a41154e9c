/** Small facts about sequences, stated once for any element type so that
    proofs about sequences of strings or rows can use them cheaply. */
module Seqs {

  lemma TakeOneMore<T>(s: seq<T>, i: nat)
    requires i < |s|
    ensures s[..i + 1] == s[..i] + [s[i]]
  {
  }

  lemma TakeAndDrop<T>(s: seq<T>, i: nat)
    requires i <= |s|
    ensures s[..i] + s[i..] == s
  {
  }

  lemma Decompose<T>(s: seq<T>, k: nat)
    requires k < |s|
    ensures s == (s[..k] + [s[k]]) + s[k + 1..]
  {
  }

  lemma AppendAssoc<T>(a: seq<T>, b: seq<T>, c: seq<T>)
    ensures a + b + c == a + (b + c)
  {
  }
}
