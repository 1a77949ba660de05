/** Small facts about slices and concatenations, each stated once so that larger proofs need not rediscover them. */
module Sequences {

  lemma HeadAndTail<T>(s: seq<T>)
    requires |s| > 0
    ensures multiset(s) == multiset{s[0]} + multiset(s[1..])
  {
    assert s == [s[0]] + s[1..];
  }

  lemma AppendEmpty<T>(s: seq<T>)
    ensures s + [] == s
  {
  }

  lemma PrependEmpty<T>(s: seq<T>)
    ensures [] + s == s
  {
  }

  lemma Associate<T>(a: seq<T>, b: seq<T>, c: seq<T>)
    ensures (a + b) + c == a + (b + c)
  {
  }

  lemma AssociateFour<T>(a: seq<T>, b: seq<T>, c: seq<T>, d: seq<T>)
    ensures (a + b + c) + d == a + b + (c + d)
  {
  }

  lemma ConcatTail<T>(a: seq<T>, b: seq<T>)
    requires |a| > 0
    ensures |a + b| > 0 && (a + b)[0] == a[0] && (a + b)[1..] == a[1..] + b
  {
  }

  lemma TakeTail<T>(s: seq<T>, k: nat)
    requires 0 < k <= |s|
    ensures s[..k][0] == s[0] && s[..k][1..] == s[1..][..k - 1] && s[k..] == s[1..][k - 1..]
  {
  }

  /** The list a loop still has to visit. */
  lemma DropStep<T>(s: seq<T>, i: nat)
    requires i < |s|
    ensures |s[i..]| > 0 && s[i..][0] == s[i] && s[i..][1..] == s[i + 1..]
  {
  }

  lemma SliceOfPrefix<T>(s: seq<T>, i: nat, j: nat, p: nat)
    requires i <= j <= p <= |s|
    ensures s[..p][i..j] == s[i..j]
  {
  }

  lemma SliceOfTail<T>(s: seq<T>, n: nat, m: nat)
    requires n + m <= |s|
    ensures s[n..][..m] == s[n..n + m] && (m > 0 ==> s[n..n + m][0] == s[n])
  {
  }

  lemma SliceOfSlice<T>(s: seq<T>, start: nat, end: nat, a: nat, b: nat)
    requires a <= b && start + b <= end <= |s|
    ensures s[start..end][a..b] == s[start + a..start + b]
  {
    var x, y := s[start..end][a..b], s[start + a..start + b];
    assert forall k :: 0 <= k < b - a ==> x[k] == y[k];
  }
}
