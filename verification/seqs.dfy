/** General facts about sequences, stated once so that the proofs about the model can cite
    them instead of rediscovering them among many other sequence terms. */
module Seqs {

  /** A nonempty sequence is its front with its last element appended. */
  lemma SplitLast<T>(s: seq<T>)
    requires |s| > 0
    ensures s == s[..|s| - 1] + [s[|s| - 1]]
  {
  }

  /** A prefix one element longer is the shorter prefix with that element appended. */
  lemma PrefixGrows<T>(s: seq<T>, i: nat)
    requires i < |s|
    ensures s[..i + 1] == s[..i] + [s[i]]
  {
  }

  /** Concatenation is associative. */
  lemma AppendAssoc<T>(a: seq<T>, b: seq<T>, c: seq<T>)
    ensures a + b + c == a + (b + c)
  {
  }

  /** Dropping one more element of a suffix. */
  lemma DropOne<T>(s: seq<T>, i: nat)
    requires i < |s|
    ensures s[i..][0] == s[i] && s[i..][1..] == s[i + 1..]
  {
  }
  /** Dropping `i` elements and then `j` more drops `i + j`. */
  lemma DropTwice<T>(s: seq<T>, i: nat, j: nat)
    requires i + j <= |s|
    ensures s[i..][j..] == s[i + j..]
  {
  }

  /** `a` occurs in `b` as a contiguous run. */
  ghost predicate Infix<T>(a: seq<T>, b: seq<T>)
  {
    exists i :: 0 <= i <= |b| && a <= b[i..]
  }

  /** A sequence occurs in anything built around it. */
  lemma InfixMiddle<T>(x: seq<T>, a: seq<T>, y: seq<T>)
    ensures Infix(a, x + a + y)
  {
    assert (x + a + y)[|x|..] == a + y;
  }

  /** A run inside a run of `c` is a run of `c`. */
  lemma InfixTrans<T>(a: seq<T>, b: seq<T>, c: seq<T>)
    requires Infix(a, b) && Infix(b, c)
    ensures Infix(a, c)
  {
    var i :| 0 <= i <= |b| && a <= b[i..];
    var j :| 0 <= j <= |c| && b <= c[j..];
    assert forall k :: 0 <= k < |a| ==> a[k] == b[i + k] == c[j + i + k];
    assert a <= c[j + i..];
  }

  /** No element occurs twice. */
  ghost predicate Distinct<T>(p: seq<T>)
  {
    forall i, j :: 0 <= i < j < |p| ==> p[i] != p[j]
  }

  /** Distinct elements drawn from a set are at most as many as the set has. */
  lemma {:induction false} DistinctCard<T>(p: seq<T>, s: set<T>)
    requires Distinct(p) && forall k :: 0 <= k < |p| ==> p[k] in s
    ensures |p| <= |s|
  {
    if p != [] {
      var x := p[|p| - 1];
      var q := p[..|p| - 1];
      assert forall k :: 0 <= k < |q| ==> q[k] == p[k] && q[k] in s - {x};
      DistinctCard(q, s - {x});
    }
  }
}
