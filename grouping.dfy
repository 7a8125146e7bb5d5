/**
 * pandas `groupby(...)` with its default `sort=True`: a sequence of (key, value) pairs
 * becomes one entry per distinct key, keys ascending, each holding its values in input order.
 */
module Grouping {
  import opened Wrappers
  import opened Ordering

  /** The set of keys occurring in a sequence of (key, value) pairs. */
  function Keys<K, W>(ps: seq<(K, W)>): set<K> {
    set i | 0 <= i < |ps| :: ps[i].0
  }

  function Values<K, W>(ps: seq<(K, W)>): (vs: seq<W>)
    ensures |vs| == |ps| && forall i :: 0 <= i < |ps| ==> vs[i] == ps[i].1
  {
    seq(|ps|, i requires 0 <= i < |ps| => ps[i].1)
  }

  /** The values paired with `k`, in input order: the members of one group. */
  function Select<K(==), V>(ps: seq<(K, V)>, k: K): seq<V> {
    if |ps| == 0 then []
    else Select(ps[..|ps| - 1], k) + (if ps[|ps| - 1].0 == k then [ps[|ps| - 1].1] else [])
  }

  /** Keys strictly ascending, hence pairwise distinct. */
  ghost predicate Ascending<K, W>(gs: seq<(K, W)>, less: (K, K) -> bool) {
    forall i, j :: 0 <= i < j < |gs| ==> less(gs[i].0, gs[j].0)
  }

  /** The lookup table of a keyed sequence (the first entry wins if a key repeats). */
  function ToMap<K, W>(gs: seq<(K, W)>): map<K, W> {
    if |gs| == 0 then map[] else ToMap(gs[1..])[gs[0].0 := gs[0].1]
  }

  /** Adds `v` to the group of `k` in an ascending group list, opening the group in its place if new. */
  function Upsert<K(==), V>(gs: seq<(K, seq<V>)>, k: K, v: V, less: (K, K) -> bool): seq<(K, seq<V>)> {
    if |gs| == 0 then [(k, [v])]
    else if gs[0].0 == k then [(k, gs[0].1 + [v])] + gs[1..]
    else if less(k, gs[0].0) then [(k, [v])] + gs
    else [gs[0]] + Upsert(gs[1..], k, v, less)
  }

  /** The grouping of `ps`, built by adding the pairs to the groups one at a time. */
  function GroupBy<K(==), V>(ps: seq<(K, V)>, less: (K, K) -> bool): seq<(K, seq<V>)> {
    if |ps| == 0 then []
    else Upsert(GroupBy(ps[..|ps| - 1], less), ps[|ps| - 1].0, ps[|ps| - 1].1, less)
  }

  lemma {:induction false} ToMapKeys<K, W>(gs: seq<(K, W)>)
    ensures ToMap(gs).Keys == Keys(gs)
  {
    if |gs| > 0 {
      ToMapKeys(gs[1..]);
      assert Keys(gs) == {gs[0].0} + Keys(gs[1..]) by {
        forall x | x in Keys(gs) ensures x in {gs[0].0} + Keys(gs[1..]) {
          var i :| 0 <= i < |gs| && gs[i].0 == x;
          if i > 0 { assert gs[1..][i - 1].0 == x; }
        }
        forall x | x in Keys(gs[1..]) ensures x in Keys(gs) {
          var i :| 0 <= i < |gs[1..]| && gs[1..][i].0 == x;
          assert gs[i + 1].0 == x;
        }
      }
    }
  }

  lemma {:induction false} ToMapAt<K(!new), W>(gs: seq<(K, W)>, i: nat, less: (K, K) -> bool)
    requires StrictTotalOrder(less) && Ascending(gs, less) && i < |gs|
    ensures gs[i].0 in ToMap(gs) && ToMap(gs)[gs[i].0] == gs[i].1
  {
    if i > 0 {
      assert less(gs[0].0, gs[i].0);
      ToMapAt(gs[1..], i - 1, less);
    }
  }

  lemma KeysCons<K, W>(x: (K, W), s: seq<(K, W)>)
    ensures Keys([x] + s) == {x.0} + Keys(s)
  {
    var t := [x] + s;
    assert t[0].0 == x.0;
    forall y | y in Keys(t) ensures y in {x.0} + Keys(s) {
      var i :| 0 <= i < |t| && t[i].0 == y;
      if i > 0 { assert s[i - 1].0 == y; }
    }
    forall y | y in Keys(s) ensures y in Keys(t) {
      var i :| 0 <= i < |s| && s[i].0 == y;
      assert t[i + 1].0 == y;
    }
  }

  lemma KeysSnoc<K, W>(ps: seq<(K, W)>)
    requires |ps| > 0
    ensures Keys(ps) == Keys(ps[..|ps| - 1]) + {ps[|ps| - 1].0}
  {
    var init := ps[..|ps| - 1];
    forall x | x in Keys(ps) ensures x in Keys(init) + {ps[|ps| - 1].0} {
      var i :| 0 <= i < |ps| && ps[i].0 == x;
      if i < |init| { assert init[i].0 == x; }
    }
    forall x | x in Keys(init) ensures x in Keys(ps) {
      var i :| 0 <= i < |init| && init[i].0 == x;
      assert ps[i].0 == x;
    }
  }

  lemma {:induction false} SelectAbsent<K, V>(ps: seq<(K, V)>, k: K)
    requires k !in Keys(ps)
    ensures Select(ps, k) == []
  {
    if |ps| > 0 {
      KeysSnoc(ps);
      SelectAbsent(ps[..|ps| - 1], k);
    }
  }

  /** Upsert adds exactly the key `k`. */
  lemma {:induction false} UpsertKeys<K, V>(gs: seq<(K, seq<V>)>, k: K, v: V, less: (K, K) -> bool)
    ensures Keys(Upsert(gs, k, v, less)) == Keys(gs) + {k}
  {
    var r := Upsert(gs, k, v, less);
    if |gs| == 0 {
      KeysCons((k, [v]), gs);
    } else {
      KeysCons(gs[0], gs[1..]);
      assert gs == [gs[0]] + gs[1..];
      if gs[0].0 == k {
        KeysCons(r[0], gs[1..]);
      } else if less(k, gs[0].0) {
        KeysCons((k, [v]), gs);
      } else {
        UpsertKeys(gs[1..], k, v, less);
        KeysCons(gs[0], Upsert(gs[1..], k, v, less));
      }
    }
  }

  /** A key below the first key of an ascending list is below all of them, and not among them. */
  lemma BelowAll<K(!new), W>(gs: seq<(K, W)>, k: K, less: (K, K) -> bool)
    requires StrictTotalOrder(less) && Ascending(gs, less)
    requires |gs| > 0 && less(k, gs[0].0)
    ensures forall i :: 0 <= i < |gs| ==> less(k, gs[i].0)
    ensures k !in Keys(gs)
  {
    forall i | 0 <= i < |gs| ensures less(k, gs[i].0) {
      if i > 0 { assert less(gs[0].0, gs[i].0); }
    }
  }

  /** Upsert keeps the keys strictly ascending. */
  lemma {:induction false} UpsertAscending<K(!new), V>(gs: seq<(K, seq<V>)>, k: K, v: V, less: (K, K) -> bool)
    requires StrictTotalOrder(less) && Ascending(gs, less)
    ensures Ascending(Upsert(gs, k, v, less), less)
  {
    if |gs| > 0 && gs[0].0 != k {
      if less(k, gs[0].0) {
        BelowAll(gs, k, less);
      } else {
        var tail := gs[1..];
        UpsertAscending(tail, k, v, less);
        UpsertKeys(tail, k, v, less);
        var u := Upsert(tail, k, v, less);
        forall j | 0 <= j < |u| ensures less(gs[0].0, u[j].0) {
          assert u[j].0 in Keys(u);
          if u[j].0 != k {
            var i :| 0 <= i < |tail| && tail[i].0 == u[j].0;
            assert gs[i + 1] == tail[i];
          }
        }
      }
    }
  }

  /** Upsert appends `v` to `k`'s group, or opens the group `[v]`, and leaves every other group alone. */
  lemma {:induction false} UpsertMap<K(!new), V>(gs: seq<(K, seq<V>)>, k: K, v: V, less: (K, K) -> bool)
    requires StrictTotalOrder(less) && Ascending(gs, less)
    ensures ToMap(Upsert(gs, k, v, less))
         == ToMap(gs)[k := (if k in ToMap(gs) then ToMap(gs)[k] else []) + [v]]
  {
    var r := Upsert(gs, k, v, less);
    if |gs| > 0 {
      if gs[0].0 == k {
        assert r[1..] == gs[1..];
      } else if less(k, gs[0].0) {
        assert r[1..] == gs;
        BelowAll(gs, k, less);
        ToMapKeys(gs);
        assert k !in ToMap(gs);
        assert [] + [v] == [v];
        assert ToMap(r) == ToMap(gs)[k := [v]];
      } else {
        UpsertMap(gs[1..], k, v, less);
        assert r[1..] == Upsert(gs[1..], k, v, less);
      }
    }
  }

  /** The map view of a grouping: every key of `ps`, and no other, mapped to its group. */
  lemma {:induction false} GroupByMap<K(!new), V>(ps: seq<(K, V)>, less: (K, K) -> bool)
    requires StrictTotalOrder(less)
    ensures Ascending(GroupBy(ps, less), less)
    ensures Keys(GroupBy(ps, less)) == Keys(ps)
    ensures forall k :: k in ToMap(GroupBy(ps, less)) ==> ToMap(GroupBy(ps, less))[k] == Select(ps, k)
  {
    if |ps| > 0 {
      var init := ps[..|ps| - 1];
      var p := ps[|ps| - 1];
      GroupByMap(init, less);
      var g0 := GroupBy(init, less);
      UpsertAscending(g0, p.0, p.1, less);
      UpsertKeys(g0, p.0, p.1, less);
      UpsertMap(g0, p.0, p.1, less);
      KeysSnoc(ps);
      ToMapKeys(g0);
      var g := GroupBy(ps, less);
      forall k | k in ToMap(g) ensures ToMap(g)[k] == Select(ps, k) {
        if k == p.0 && k !in ToMap(g0) {
          SelectAbsent(init, k);
        }
      }
    }
  }

  /**
   * The grouping is exactly right: keys strictly ascending (so pairwise distinct), the keys
   * are those of the input, and each group holds the values paired with its key, in order.
   */
  lemma GroupByCorrect<K(!new), V>(ps: seq<(K, V)>, less: (K, K) -> bool)
    requires StrictTotalOrder(less)
    ensures Ascending(GroupBy(ps, less), less)
    ensures Keys(GroupBy(ps, less)) == Keys(ps)
    ensures forall i :: 0 <= i < |GroupBy(ps, less)| ==>
              GroupBy(ps, less)[i].1 == Select(ps, GroupBy(ps, less)[i].0)
  {
    GroupByMap(ps, less);
    var g := GroupBy(ps, less);
    forall i | 0 <= i < |g| ensures g[i].1 == Select(ps, g[i].0) {
      ToMapAt(g, i, less);
    }
  }

  /** A key that occurs in the input has a non-empty group. */
  lemma {:induction false} SelectPresent<K, V>(ps: seq<(K, V)>, k: K)
    requires k in Keys(ps)
    ensures |Select(ps, k)| > 0
  {
    var init := ps[..|ps| - 1];
    if ps[|ps| - 1].0 != k {
      KeysSnoc(ps);
      SelectPresent(init, k);
    }
  }

  /** A group holds only values paired with its key. */
  lemma {:induction false} SelectMembers<K, V>(ps: seq<(K, V)>, k: K)
    ensures forall v :: v in Select(ps, k) ==> (k, v) in ps
  {
    if |ps| > 0 {
      var init := ps[..|ps| - 1];
      SelectMembers(init, k);
      forall v | v in Select(ps, k) ensures (k, v) in ps {
        if v in Select(init, k) {
          var i :| 0 <= i < |init| && init[i] == (k, v);
          assert ps[i] == init[i];
        }
      }
    }
  }

  /** Total number of values held by a group list. */
  function Size<K, V>(gs: seq<(K, seq<V>)>): nat {
    if |gs| == 0 then 0 else |gs[0].1| + Size(gs[1..])
  }

  lemma {:induction false} UpsertSize<K, V>(gs: seq<(K, seq<V>)>, k: K, v: V, less: (K, K) -> bool)
    ensures Size(Upsert(gs, k, v, less)) == Size(gs) + 1
  {
    if |gs| > 0 {
      var r := Upsert(gs, k, v, less);
      if gs[0].0 == k {
        assert r[1..] == gs[1..];
      } else if less(k, gs[0].0) {
        assert r[1..] == gs;
      } else {
        UpsertSize(gs[1..], k, v, less);
        assert r[1..] == Upsert(gs[1..], k, v, less);
      }
    }
  }

  /** Every input pair lands in a group: the groups hold as many values as the input has pairs. */
  lemma {:induction false} GroupBySize<K, V>(ps: seq<(K, V)>, less: (K, K) -> bool)
    ensures Size(GroupBy(ps, less)) == |ps|
  {
    if |ps| > 0 {
      GroupBySize(ps[..|ps| - 1], less);
      UpsertSize(GroupBy(ps[..|ps| - 1], less), ps[|ps| - 1].0, ps[|ps| - 1].1, less);
    }
  }

  function SumReal(xs: seq<real>): real {
    if |xs| == 0 then 0.0 else xs[0] + SumReal(xs[1..])
  }

  lemma {:induction false} SumRealAppend(xs: seq<real>, ys: seq<real>)
    ensures SumReal(xs + ys) == SumReal(xs) + SumReal(ys)
  {
    if |xs| == 0 {
      assert xs + ys == ys;
    } else {
      assert (xs + ys)[1..] == xs[1..] + ys;
      SumRealAppend(xs[1..], ys);
    }
  }

  /** The sum of every group's sum. */
  function GroupedTotal<K>(gs: seq<(K, seq<real>)>): real {
    if |gs| == 0 then 0.0 else SumReal(gs[0].1) + GroupedTotal(gs[1..])
  }

  lemma {:induction false} UpsertTotal<K>(gs: seq<(K, seq<real>)>, k: K, v: real, less: (K, K) -> bool)
    ensures GroupedTotal(Upsert(gs, k, v, less)) == GroupedTotal(gs) + v
  {
    var r := Upsert(gs, k, v, less);
    if |gs| == 0 {
      assert SumReal([v]) == v;
    } else if gs[0].0 == k {
      assert r[1..] == gs[1..];
      SumRealAppend(gs[0].1, [v]);
      assert SumReal([v]) == v;
    } else if less(k, gs[0].0) {
      assert r[1..] == gs;
      assert SumReal([v]) == v;
    } else {
      UpsertTotal(gs[1..], k, v, less);
      assert r[1..] == Upsert(gs[1..], k, v, less);
    }
  }

  /** (key, sum of the key's values) per group: `groupby(key)[value].sum()`. */
  function SumEach<K>(gs: seq<(K, seq<real>)>): (r: seq<(K, real)>)
    ensures |r| == |gs|
    ensures forall i :: 0 <= i < |gs| ==> r[i] == (gs[i].0, SumReal(gs[i].1))
  {
    if |gs| == 0 then [] else [(gs[0].0, SumReal(gs[0].1))] + SumEach(gs[1..])
  }

  function GroupSums<K(==)>(ps: seq<(K, real)>, less: (K, K) -> bool): seq<(K, real)> {
    SumEach(GroupBy(ps, less))
  }

  /** Group sums: keys strictly ascending, exactly the input keys, each the sum over its pairs. */
  lemma GroupSumsCorrect<K(!new)>(ps: seq<(K, real)>, less: (K, K) -> bool)
    requires StrictTotalOrder(less)
    ensures Ascending(GroupSums(ps, less), less)
    ensures Keys(GroupSums(ps, less)) == Keys(ps)
    ensures forall i :: 0 <= i < |GroupSums(ps, less)| ==>
              GroupSums(ps, less)[i].1 == SumReal(Select(ps, GroupSums(ps, less)[i].0))
  {
    GroupByCorrect(ps, less);
    var g := GroupBy(ps, less);
    var r := GroupSums(ps, less);
    assert Keys(r) == Keys(g) by {
      forall x | x in Keys(r) ensures x in Keys(g) {
        var i :| 0 <= i < |r| && r[i].0 == x;
        assert g[i].0 == x;
      }
      forall x | x in Keys(g) ensures x in Keys(r) {
        var i :| 0 <= i < |g| && g[i].0 == x;
        assert r[i].0 == x;
      }
    }
  }

  lemma {:induction false} SumEachTotal<K>(gs: seq<(K, seq<real>)>)
    ensures SumReal(Values(SumEach(gs))) == GroupedTotal(gs)
  {
    if |gs| > 0 {
      SumEachTotal(gs[1..]);
      assert Values(SumEach(gs)) == [SumReal(gs[0].1)] + Values(SumEach(gs[1..]));
    }
  }

  lemma {:induction false} GroupByTotal<K>(ps: seq<(K, real)>, less: (K, K) -> bool)
    ensures GroupedTotal(GroupBy(ps, less)) == SumReal(Values(ps))
  {
    if |ps| > 0 {
      var init := ps[..|ps| - 1];
      GroupByTotal(init, less);
      UpsertTotal(GroupBy(init, less), ps[|ps| - 1].0, ps[|ps| - 1].1, less);
      assert Values(ps) == Values(init) + [ps[|ps| - 1].1];
      SumRealAppend(Values(init), [ps[|ps| - 1].1]);
      assert SumReal([ps[|ps| - 1].1]) == ps[|ps| - 1].1;
    }
  }

  /** Grouping loses and invents nothing: the group sums add up to the sum of all the values. */
  lemma GroupSumsTotal<K>(ps: seq<(K, real)>, less: (K, K) -> bool)
    ensures SumReal(Values(GroupSums(ps, less))) == SumReal(Values(ps))
  {
    SumEachTotal(GroupBy(ps, less));
    GroupByTotal(ps, less);
  }

  /** `f` applied to every element. */
  function MapSeq<V, W>(vs: seq<V>, f: V -> W): seq<W> {
    seq(|vs|, i requires 0 <= i < |vs| => f(vs[i]))
  }

  /** `f` applied to the value of every pair; the keys stay. */
  function MapValues<K, V, W>(ps: seq<(K, V)>, f: V -> W): seq<(K, W)> {
    seq(|ps|, i requires 0 <= i < |ps| => (ps[i].0, f(ps[i].1)))
  }

  /** `f` applied to every member of every group. */
  function MapGroups<K, V, W>(gs: seq<(K, seq<V>)>, f: V -> W): seq<(K, seq<W>)> {
    seq(|gs|, i requires 0 <= i < |gs| => (gs[i].0, MapSeq(gs[i].1, f)))
  }

  lemma {:induction false} UpsertMapValues<K, V, W>(gs: seq<(K, seq<V>)>, k: K, v: V, f: V -> W, less: (K, K) -> bool)
    ensures Upsert(MapGroups(gs, f), k, f(v), less) == MapGroups(Upsert(gs, k, v, less), f)
  {
    var m := MapGroups(gs, f);
    if |gs| == 0 {
      assert MapSeq([v], f) == [f(v)];
    } else if gs[0].0 == k {
      assert MapSeq(gs[0].1 + [v], f) == MapSeq(gs[0].1, f) + [f(v)];
      assert m[1..] == MapGroups(gs[1..], f);
    } else if less(k, gs[0].0) {
      assert MapSeq([v], f) == [f(v)];
    } else {
      UpsertMapValues(gs[1..], k, v, f, less);
      assert m[1..] == MapGroups(gs[1..], f);
      var u := Upsert(gs[1..], k, v, less);
      assert MapGroups([gs[0]] + u, f) == [m[0]] + MapGroups(u, f);
    }
  }

  /**
   * Grouping commutes with projecting the values: `groupby(key)[column]` groups the column's
   * values exactly as the rows holding them are grouped.
   */
  lemma {:induction false} GroupByMapValues<K, V, W>(ps: seq<(K, V)>, f: V -> W, less: (K, K) -> bool)
    ensures GroupBy(MapValues(ps, f), less) == MapGroups(GroupBy(ps, less), f)
  {
    if |ps| > 0 {
      var init := ps[..|ps| - 1];
      var last := ps[|ps| - 1];
      GroupByMapValues(init, f, less);
      assert MapValues(ps, f)[..|ps| - 1] == MapValues(init, f);
      UpsertMapValues(GroupBy(init, less), last.0, last.1, f, less);
    } else {
      assert MapGroups(GroupBy(ps, less), f) == [];
    }
  }

  /** The arithmetic mean, absent for no values: pandas' `mean()` over the non-null values. */
  function Mean(xs: seq<real>): Option<real> {
    if |xs| == 0 then None else Some(SumReal(xs) / (|xs| as real))
  }

  lemma {:induction false} SumRealBounds(xs: seq<real>, lo: real, hi: real)
    requires forall i :: 0 <= i < |xs| ==> lo <= xs[i] <= hi
    ensures (|xs| as real) * lo <= SumReal(xs) <= (|xs| as real) * hi
  {
    if |xs| > 0 {
      SumRealBounds(xs[1..], lo, hi);
    }
  }

  /** A mean lies between any lower and upper bound of its values; one value is its own mean. */
  lemma MeanBetween(xs: seq<real>, lo: real, hi: real)
    requires |xs| > 0
    requires forall i :: 0 <= i < |xs| ==> lo <= xs[i] <= hi
    ensures lo <= Mean(xs).value <= hi
  {
    SumRealBounds(xs, lo, hi);
    var n := |xs| as real;
    assert n * lo <= SumReal(xs) <= n * hi;
    assert lo == (n * lo) / n && hi == (n * hi) / n;
  }

  lemma MeanSingle(x: real)
    ensures Mean([x]) == Some(x)
  {
    assert SumReal([x]) == x;
  }
}
