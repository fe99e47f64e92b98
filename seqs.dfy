/** Facts about slicing concatenated sequences, proved once in a small context. */
module Seqs {

  lemma DropFirst<T>(x: T, a: seq<T>)
    ensures ([x] + a)[1..] == a
  {
  }

  lemma DropPrefix<T>(a: seq<T>, b: seq<T>)
    ensures (a + b)[|a|..] == b
  {
  }

  lemma TakePrefix<T>(a: seq<T>, b: seq<T>)
    ensures (a + b)[..|a|] == a
  {
  }

  lemma Assoc<T>(a: seq<T>, b: seq<T>, c: seq<T>)
    ensures a + b + c == a + (b + c)
  {
  }

  /** A suffix of a suffix is a suffix. */
  lemma DropDrop<T>(s: seq<T>, i: nat, j: nat)
    requires i + j <= |s|
    ensures s[i..][j..] == s[i + j..]
  {
  }

  /** A prefix of a suffix is a slice. */
  lemma SliceOfSlice<T>(s: seq<T>, i: nat, m: nat)
    requires i + m <= |s|
    ensures s[i..][..m] == s[i..i + m]
  {
  }

  /** Two adjacent slices make up the longer prefix. */
  lemma JoinPrefix<T>(s: seq<T>, i: nat, j: nat)
    requires i <= j <= |s|
    ensures s[..j] == s[..i] + s[i..j]
  {
  }

  /** A prefix followed by a slice of what follows it is a longer prefix. */
  lemma Reassemble<T>(s: seq<T>, i: nat, m: nat, a: seq<T>, b: seq<T>)
    requires i + m <= |s| && s[..i] == a && s[i..][..m] == b
    ensures s[..i + m] == a + b
  {
    assert s[..i + m] == s[..i] + s[i..][..m];
  }
}
