/**
  Reading a sequence through a permutation of its indices.
 */
module Permutations {

  function Identity(n: nat): seq<int> {
    seq(n, i => i)
  }

  /** Each index below `n` exactly once. */
  ghost predicate Permutes(indices: seq<int>, n: nat) {
    multiset(indices) == multiset(Identity(n))
  }

  lemma PermutesRange(indices: seq<int>, n: nat)
    requires Permutes(indices, n)
    ensures |indices| == n && forall i | 0 <= i < n :: 0 <= indices[i] < n
  {
    assert |multiset(indices)| == |indices| && |multiset(Identity(n))| == n;
    forall i | 0 <= i < n ensures 0 <= indices[i] < n {
      assert indices[i] in multiset(Identity(n));
      var j :| 0 <= j < n && Identity(n)[j] == indices[i];
    }
  }

  lemma PermutesAppend(indices: seq<int>, n: nat)
    requires Permutes(indices, n)
    ensures Permutes(indices + [n], n + 1)
  {
    assert Identity(n + 1) == Identity(n) + [n];
  }

  predicate InRange(indices: seq<int>, n: nat) {
    forall i | 0 <= i < |indices| :: 0 <= indices[i] < n
  }

  /** The elements of `s` in the order of `indices`. */
  function Apply<T>(s: seq<T>, indices: seq<int>): (r: seq<T>)
    requires InRange(indices, |s|)
    ensures |r| == |indices| && forall k | 0 <= k < |r| :: r[k] == s[indices[k]]
  {
    seq(|indices|, k requires 0 <= k < |indices| => s[indices[k]])
  }

  function Without<T>(a: seq<T>, p: nat): (r: seq<T>)
    requires p < |a|
    ensures |r| == |a| - 1
  {
    a[..p] + a[p + 1..]
  }

  lemma WithoutParts<T>(a: seq<T>, p: nat)
    requires p < |a|
    ensures a == a[..p] + ([a[p]] + a[p + 1..]) && Without(a, p) == a[..p] + a[p + 1..]
  {
  }

  lemma WithoutBag<T>(a: seq<T>, p: nat)
    requires p < |a|
    ensures multiset(a) == multiset{a[p]} + multiset(Without(a, p))
    ensures multiset(Without(a, p)) == multiset(a) - multiset{a[p]}
  {
    assert a == a[..p] + ([a[p]] + a[p + 1..]);
  }

  lemma ApplyWithout<T>(s: seq<T>, a: seq<int>, p: nat)
    requires InRange(a, |s|) && p < |a|
    ensures InRange(Without(a, p), |s|)
    ensures multiset(Apply(s, a)) == multiset{s[a[p]]} + multiset(Apply(s, Without(a, p)))
  {
    WithoutBag(Apply(s, a), p);
    assert Without(Apply(s, a), p) == Apply(s, Without(a, p));
  }

  lemma {:induction false} ApplySameBag<T>(s: seq<T>, a: seq<int>, b: seq<int>)
    requires InRange(a, |s|) && InRange(b, |s|) && multiset(a) == multiset(b)
    ensures multiset(Apply(s, a)) == multiset(Apply(s, b))
    decreases |b|
  {
    hide Apply, Without;
    assert |multiset(a)| == |a| && |multiset(b)| == |b|;
    if b == [] {
      assert a == [];
    } else {
      assert b[0] in multiset(a);
      var p :| 0 <= p < |a| && a[p] == b[0];
      WithoutBag(a, p);
      WithoutBag(b, 0);
      ApplyWithout(s, a, p);
      ApplyWithout(s, b, 0);
      ApplySameBag(s, Without(a, p), Without(b, 0));
    }
  }

  /** Read through a permutation, a sequence shows each of its elements once. */
  lemma ApplyPermutes<T>(s: seq<T>, indices: seq<int>)
    requires Permutes(indices, |s|)
    ensures InRange(indices, |s|) && multiset(Apply(s, indices)) == multiset(s)
  {
    PermutesRange(indices, |s|);
    ApplySameBag(s, indices, Identity(|s|));
    assert Apply(s, Identity(|s|)) == s;
  }
}
