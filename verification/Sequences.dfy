/**
  Facts about sequences that several modules share.
*/
module Sequences {

  ghost predicate Distinct<T>(s: seq<T>) {
    forall i, j :: 0 <= i < j < |s| ==> s[i] != s[j]
  }

  lemma Assoc<T>(a: seq<T>, b: seq<T>, c: seq<T>)
    ensures a + (b + c) == (a + b) + c
  {
  }

  // ---------------------------------------------------------------------
  // Putting one element in and taking one out, said place by place
  // ---------------------------------------------------------------------

  /** t is s with x put in at k. */
  ghost predicate Inserted<T>(s: seq<T>, k: nat, x: T, t: seq<T>) {
    && k <= |s| && |t| == |s| + 1 && t[k] == x
    && (forall i :: 0 <= i < k ==> t[i] == s[i])
    && (forall i :: k < i < |t| ==> t[i] == s[i - 1])
  }

  /** t is s without its element k. */
  ghost predicate Removed<T>(s: seq<T>, k: nat, t: seq<T>) {
    && k < |s| && |t| == |s| - 1
    && (forall i :: 0 <= i < k ==> t[i] == s[i])
    && (forall i :: k <= i < |t| ==> t[i] == s[i + 1])
  }

  function PutAt<T>(s: seq<T>, k: nat, x: T): seq<T>
    requires k <= |s|
  {
    s[..k] + [x] + s[k..]
  }

  function WithoutAt<T>(s: seq<T>, k: nat): seq<T>
    requires k < |s|
  {
    s[..k] + s[k + 1..]
  }

  lemma Insert<T>(s: seq<T>, k: nat, x: T) returns (t: seq<T>)
    requires k <= |s|
    ensures t == PutAt(s, k, x) && Inserted(s, k, x, t)
  {
    t := PutAt(s, k, x);
  }

  lemma Remove<T>(s: seq<T>, k: nat) returns (t: seq<T>)
    requires k < |s|
    ensures t == WithoutAt(s, k) && Removed(s, k, t)
  {
    t := WithoutAt(s, k);
  }
}
