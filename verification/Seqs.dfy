/**
 Sequences without repetition, and with one element more or less.
 */
module Seqs {

  ghost predicate Distinct<T>(c: seq<T>) {
    forall i, j :: 0 <= i < j < |c| ==> c[i] != c[j]
  }

  function Inserted<T>(c: seq<T>, i: nat, e: T): (d: seq<T>)
    requires i <= |c|
    ensures |d| == |c| + 1
  {
    c[..i] + [e] + c[i..]
  }

  function Removed<T>(c: seq<T>, i: nat): (d: seq<T>)
    requires i < |c|
    ensures |d| == |c| - 1
  {
    c[..i] + c[i + 1..]
  }
}
