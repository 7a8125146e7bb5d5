/**
 * Ordering a (key, value) table by value, largest first: pandas `sort_values(ascending=False)`
 * and `nlargest(n)`. The order among equal values is the library's; only sortedness matters here.
 */
module Sorting {

  /** Values never increase along the sequence. */
  ghost predicate NonIncreasing<K>(s: seq<(K, real)>) {
    forall i, j :: 0 <= i < j < |s| ==> s[j].1 <= s[i].1
  }

  /** Inserts `x` before the first entry whose value is not larger. */
  function InsertDesc<K>(x: (K, real), s: seq<(K, real)>): seq<(K, real)> {
    if |s| == 0 || s[0].1 <= x.1 then [x] + s else [s[0]] + InsertDesc(x, s[1..])
  }

  /** Insertion adds exactly `x` and keeps a non-increasing sequence non-increasing. */
  lemma {:induction false} InsertDescCorrect<K(!new)>(x: (K, real), s: seq<(K, real)>)
    ensures |InsertDesc(x, s)| == |s| + 1
    ensures multiset(InsertDesc(x, s)) == multiset(s) + multiset{x}
    ensures forall y :: y in InsertDesc(x, s) ==> y == x || y in s
    ensures NonIncreasing(s) ==> NonIncreasing(InsertDesc(x, s))
  {
    if |s| > 0 && x.1 < s[0].1 {
      var t := s[1..];
      assert s == [s[0]] + t;
      InsertDescCorrect(x, t);
      var u := InsertDesc(x, t);
      if NonIncreasing(s) {
        forall j | 0 <= j < |u| ensures u[j].1 <= s[0].1 {
          assert u[j] in u;
        }
      }
    }
  }

  /** A permutation of `s` with values non-increasing. */
  function SortDesc<K(!new)>(s: seq<(K, real)>): (r: seq<(K, real)>)
    ensures |r| == |s|
    ensures multiset(r) == multiset(s)
    ensures NonIncreasing(r)
  {
    if |s| == 0 then []
    else
      assert s == [s[0]] + s[1..];
      InsertDescCorrect(s[0], SortDesc(s[1..]));
      InsertDesc(s[0], SortDesc(s[1..]))
  }

  function Min(a: int, b: int): int {
    if a <= b then a else b
  }

  /** The `n` entries with the largest values, largest first. */
  function NLargest<K(!new)>(s: seq<(K, real)>, n: nat): seq<(K, real)> {
    SortDesc(s)[..Min(n, |s|)]
  }

  /** In a non-increasing sequence, nothing after position `m` exceeds anything before it. */
  lemma TailBelowHead<K(!new)>(t: seq<(K, real)>, m: nat)
    requires NonIncreasing(t) && m <= |t|
    ensures forall y :: y in t[m..] ==> forall i :: 0 <= i < m ==> y.1 <= t[i].1
  {
    forall y | y in t[m..] ensures forall i :: 0 <= i < m ==> y.1 <= t[i].1 {
      var j :| 0 <= j < |t[m..]| && t[m..][j] == y;
      assert t[m + j] == y;
    }
  }

  lemma PrefixRemainder<K>(t: seq<(K, real)>, m: nat)
    requires m <= |t|
    ensures multiset(t[..m]) <= multiset(t)
    ensures multiset(t) - multiset(t[..m]) == multiset(t[m..])
  {
    assert t == t[..m] + t[m..];
  }

  /**
   * `NLargest` keeps min(n, |s|) entries of `s`, largest first, and every entry it leaves out
   * is no larger than any entry it keeps.
   */
  lemma NLargestCorrect<K(!new)>(s: seq<(K, real)>, n: nat)
    ensures |NLargest(s, n)| == Min(n, |s|)
    ensures NonIncreasing(NLargest(s, n))
    ensures multiset(NLargest(s, n)) <= multiset(s)
    ensures forall y :: y in multiset(s) - multiset(NLargest(s, n)) ==>
              forall i :: 0 <= i < |NLargest(s, n)| ==> y.1 <= NLargest(s, n)[i].1
  {
    var t := SortDesc(s);
    var m := Min(n, |s|);
    assert NLargest(s, n) == t[..m];
    PrefixRemainder(t, m);
    TailBelowHead(t, m);
  }
}
