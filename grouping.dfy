/**
 * Group-and-count over a sequence of keys: what `value_counts()` and
 * `groupby(...).size()` / `.count()` compute for the detection rules. The
 * model lists the distinct keys in order of first occurrence; the rules only
 * rely on "each distinct key once, with its exact number of occurrences".
 */
module Grouping {

  /** Number of occurrences of `k` in `ks`. */
  function Count<K(==)>(ks: seq<K>, k: K): nat {
    if ks == [] then 0 else Count(ks[..|ks| - 1], k) + (if ks[|ks| - 1] == k then 1 else 0)
  }

  lemma {:induction false} CountPositive<K(!new)>(ks: seq<K>, k: K)
    ensures Count(ks, k) > 0 <==> k in ks
  {
    if ks != [] {
      CountPositive(ks[..|ks| - 1], k);
      assert ks == ks[..|ks| - 1] + [ks[|ks| - 1]];
    }
  }

  lemma AllCountsPositive<K(!new)>(ks: seq<K>)
    ensures forall k :: k in ks ==> Count(ks, k) > 0
  {
    forall k | k in ks {
      CountPositive(ks, k);
    }
  }

  /** `x` followed by `n - 1` more copies of itself. */
  function Repeat<T>(x: T, n: nat): seq<T> {
    seq(n, _ => x)
  }

  /** No key is listed twice. */
  predicate DistinctKeys<K(==), V>(t: seq<(K, V)>) {
    forall i, j :: 0 <= i < j < |t| ==> t[i].0 != t[j].0
  }

  /** The distinct elements of `ks`, in order of first occurrence. */
  function Distinct<K(==)>(ks: seq<K>): seq<K> {
    if ks == [] then []
    else
      var d := Distinct(ks[..|ks| - 1]);
      var x := ks[|ks| - 1];
      if x in d then d else d + [x]
  }

  /** `Distinct` keeps every element, adds none, and lists none twice. */
  lemma {:induction false} DistinctContents<K(!new)>(ks: seq<K>)
    ensures forall x :: x in Distinct(ks) <==> x in ks
    ensures forall i, j :: 0 <= i < j < |Distinct(ks)| ==> Distinct(ks)[i] != Distinct(ks)[j]
  {
    if ks != [] {
      DistinctContents(ks[..|ks| - 1]);
      assert ks == ks[..|ks| - 1] + [ks[|ks| - 1]];
    }
  }

  /** Each key of `d` paired with its number of occurrences in `ks`. */
  function CountsOf<K(==)>(ks: seq<K>, d: seq<K>): seq<(K, nat)> {
    seq(|d|, j requires 0 <= j < |d| => (d[j], Count(ks, d[j])))
  }

  /** Group `ks` by key and count each group (`value_counts`, `groupby().size()`). */
  function Tally<K(==)>(ks: seq<K>): seq<(K, nat)> {
    CountsOf(ks, Distinct(ks))
  }

  /** The tally lists every distinct key exactly once, each with the exact
      number of times it occurs, and no key that does not occur. */
  lemma TallyContents<K(!new)>(ks: seq<K>)
    ensures DistinctKeys(Tally(ks))
    ensures forall j :: 0 <= j < |Tally(ks)| ==> Tally(ks)[j].1 == Count(ks, Tally(ks)[j].0) && Tally(ks)[j].1 > 0
    ensures forall k :: k in ks ==> exists j :: 0 <= j < |Tally(ks)| && Tally(ks)[j].0 == k
  {
    AllCountsPositive(ks);
    DistinctContents(ks);
    var d := Distinct(ks);
    var t := Tally(ks);
    assert forall j :: 0 <= j < |t| ==> t[j].0 == d[j];
  }

  /** Sum of the counts of a tally. */
  function Total<K>(t: seq<(K, nat)>): nat {
    if t == [] then 0 else Total(t[..|t| - 1]) + t[|t| - 1].1
  }

  lemma {:induction false} TotalAfterAppend<K(!new)>(ks: seq<K>, x: K, d: seq<K>)
    ensures Total(CountsOf(ks + [x], d)) == Total(CountsOf(ks, d)) + Count(d, x)
  {
    if d != [] {
      var d' := d[..|d| - 1];
      TotalAfterAppend(ks, x, d');
      assert CountsOf(ks + [x], d)[..|d| - 1] == CountsOf(ks + [x], d');
      assert CountsOf(ks, d)[..|d| - 1] == CountsOf(ks, d');
      assert (ks + [x])[..|ks|] == ks;
    }
  }

  lemma {:induction false} CountInDistinct<K(!new)>(d: seq<K>, x: K)
    requires forall i, j :: 0 <= i < j < |d| ==> d[i] != d[j]
    ensures Count(d, x) == if x in d then 1 else 0
  {
    if d != [] {
      var d' := d[..|d| - 1];
      CountInDistinct(d', x);
      assert d == d' + [d[|d| - 1]];
      if x == d[|d| - 1] {
        assert x !in d';
      }
    }
  }

  /** The group counts add up to the number of keys grouped. */
  lemma {:induction false} TallyTotal<K(!new)>(ks: seq<K>)
    ensures Total(Tally(ks)) == |ks|
  {
    if ks != [] {
      var p, x := ks[..|ks| - 1], ks[|ks| - 1];
      assert ks == p + [x];
      TallyTotal(p);
      var dp := Distinct(p);
      DistinctContents(p);
      TotalAfterAppend(p, x, dp);
      CountInDistinct(dp, x);
      if x !in dp {
        var d := dp + [x];
        assert Distinct(ks) == d;
        assert CountsOf(ks, d)[..|dp|] == CountsOf(ks, dp);
        CountPositive(p, x);
      }
    }
  }

  lemma {:induction false} CountRepeat<K(!new)>(x: K, n: nat)
    ensures Count(Repeat(x, n), x) == n
    ensures Distinct(Repeat(x, n)) == if n == 0 then [] else [x]
  {
    if n > 0 {
      assert Repeat(x, n)[..n - 1] == Repeat(x, n - 1);
      CountRepeat(x, n - 1);
    }
  }

  /** Grouping `n` copies of one key yields that key once, with count `n`. */
  lemma TallyRepeat<K(!new)>(x: K, n: nat)
    ensures Tally(Repeat(x, n)) == if n == 0 then [] else [(x, n)]
  {
    CountRepeat(x, n);
    if n > 0 {
      assert Tally(Repeat(x, n)) == CountsOf(Repeat(x, n), [x]);
    }
  }
}
