/** Generic sequence notions the checks are characterised by. */
module Seqs {

  /** `f` maps every position of `a` to a position of `b` holding the same element, strictly increasingly. */
  ghost predicate Embeds<T>(f: seq<nat>, a: seq<T>, b: seq<T>)
  {
    && |f| == |a|
    && (forall i :: 0 <= i < |f| ==> f[i] < |b| && b[f[i]] == a[i])
    && (forall i, j :: 0 <= i < j < |f| ==> f[i] < f[j])
  }

  /** `a` is an order-preserving, not necessarily contiguous, subsequence of `b`. */
  ghost predicate IsSubsequence<T>(a: seq<T>, b: seq<T>)
  {
    exists f :: Embeds(f, a, b)
  }

  /** No element occurs twice. */
  ghost predicate Distinct<T>(s: seq<T>)
  {
    forall i, j :: 0 <= i < |s| && 0 <= j < |s| && s[i] == s[j] ==> i == j
  }

  /** `Array.prototype.indexOf`: the first position holding `x`, or -1. */
  function IndexOf<T(==)>(s: seq<T>, x: T): (r: int)
    ensures -1 <= r < |s|
    ensures r == -1 <==> x !in s
    ensures r >= 0 ==> s[r] == x && x !in s[..r]
  {
    if |s| == 0 then -1
    else if s[0] == x then 0
    else
      var k := IndexOf(s[1..], x);
      if k == -1 then -1 else k + 1
  }

  /** `Object.values(h).flat()`. */
  function Flatten<T>(ss: seq<seq<T>>): seq<T>
  {
    if |ss| == 0 then [] else ss[0] + Flatten(ss[1..])
  }

  /** Every element of a flattened sequence comes from one of the parts, and every part element is in it. */
  lemma {:induction false} FlattenMembers<T>(ss: seq<seq<T>>, x: T)
    ensures x in Flatten(ss) <==> exists c :: 0 <= c < |ss| && x in ss[c]
  {
    if |ss| > 0 {
      FlattenMembers(ss[1..], x);
      if x in Flatten(ss[1..]) {
        var c :| 0 <= c < |ss[1..]| && x in ss[1..][c];
        assert x in ss[c + 1];
      }
      if exists c :: 0 <= c < |ss| && x in ss[c] {
        var c :| 0 <= c < |ss| && x in ss[c];
        if c > 0 {
          assert x in ss[1..][c - 1];
        }
      }
    }
  }
}
