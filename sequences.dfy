/**
  Sequence vocabulary shared by the table model: boolean-mask selection
  (what `df[mask]` does to the rows of a frame), first occurrences (what
  `drop_duplicates` and `nunique` look at) and integer sums.
 */
module Sequences {

  predicate StrictlyIncreasing(s: seq<int>) {
    forall i, j :: 0 <= i < j < |s| ==> s[i] < s[j]
  }

  predicate NoDuplicates<T(==)>(s: seq<T>) {
    forall i, j :: 0 <= i < j < |s| ==> s[i] != s[j]
  }

  function Elements<T>(s: seq<T>): set<T> {
    set x | x in s
  }

  /** The positions at which `keep` is true, in ascending order. */
  function Positions(keep: seq<bool>): (ps: seq<nat>)
    ensures |ps| <= |keep|
    ensures StrictlyIncreasing(ps)
    ensures forall k :: 0 <= k < |ps| ==> ps[k] < |keep| && keep[ps[k]]
    ensures forall i :: 0 <= i < |keep| && keep[i] ==> i in ps
  {
    if keep == [] then []
    else
      var n := |keep| - 1;
      var prev := Positions(keep[..n]);
      assert forall k :: 0 <= k < |prev| ==> prev[k] < n;
      if keep[n] then prev + [n] else prev
  }

  /** The elements of `s` at which `keep` is true, in their original order:
      boolean-mask indexing. */
  function Pick<T>(s: seq<T>, keep: seq<bool>): seq<T>
    requires |keep| == |s|
  {
    if s == [] then []
    else
      var n := |s| - 1;
      Pick(s[..n], keep[..n]) + (if keep[n] then [s[n]] else [])
  }

  /** Mask selection takes exactly the elements at `Positions(keep)`, so it
      keeps their relative order. */
  lemma {:induction false} PickAt<T>(s: seq<T>, keep: seq<bool>)
    requires |keep| == |s|
    ensures |Pick(s, keep)| == |Positions(keep)|
    ensures forall k :: 0 <= k < |Pick(s, keep)| ==> Pick(s, keep)[k] == s[Positions(keep)[k]]
  {
    if s != [] {
      var n := |s| - 1;
      PickAt(s[..n], keep[..n]);
    }
  }

  /** `x` is selected exactly when it stands at some kept position. */
  lemma PickMember<T>(s: seq<T>, keep: seq<bool>, x: T)
    requires |keep| == |s|
    ensures x in Pick(s, keep) <==> exists i :: 0 <= i < |s| && keep[i] && s[i] == x
  {
    PickAt(s, keep);
    var ps := Positions(keep);
    if x in Pick(s, keep) {
      var k :| 0 <= k < |Pick(s, keep)| && Pick(s, keep)[k] == x;
      assert keep[ps[k]] && s[ps[k]] == x;
    }
    if i :| 0 <= i < |s| && keep[i] && s[i] == x {
      var k :| 0 <= k < |ps| && ps[k] == i;
      assert Pick(s, keep)[k] == x;
    }
  }

  /** When the mask tests each element against a predicate given as a set of
      accepted values, selection keeps every accepted value as often as it
      occurs and drops every other value. */
  lemma {:induction false} PickCount<T>(s: seq<T>, keep: seq<bool>, accepted: set<T>, v: T)
    requires |keep| == |s|
    requires forall i :: 0 <= i < |s| ==> keep[i] == (s[i] in accepted)
    ensures multiset(Pick(s, keep))[v] == if v in accepted then multiset(s)[v] else 0
  {
    if s != [] {
      var n := |s| - 1;
      PickCount(s[..n], keep[..n], accepted, v);
      assert s == s[..n] + [s[n]];
    }
  }

  /** Selection never breaks distinctness. */
  lemma PickNoDuplicates<T>(s: seq<T>, keep: seq<bool>)
    requires |keep| == |s|
    requires NoDuplicates(s)
    ensures NoDuplicates(Pick(s, keep))
  {
    PickAt(s, keep);
  }

  /** Two strictly increasing sequences with the same elements are equal. */
  lemma {:induction false} IncreasingUnique(a: seq<int>, b: seq<int>)
    requires StrictlyIncreasing(a) && StrictlyIncreasing(b)
    requires forall x :: x in a <==> x in b
    ensures a == b
    decreases |a| + |b|
  {
    assert (a == []) == (b == []) by {
      if a != [] { assert a[0] in a; }
      if b != [] { assert b[0] in b; }
    }
    if a != [] {
      var m, n := |a| - 1, |b| - 1;
      assert a[m] == b[n] by {
        assert a[m] in a && b[n] in b;
        assert a[m] in b && b[n] in a;
      }
      forall x
        ensures x in a[..m] <==> x in b[..n]
      {
        if x in a[..m] {
          assert x in b && x < b[n];
        }
        if x in b[..n] {
          assert x in a && x < a[m];
        }
      }
      IncreasingUnique(a[..m], b[..n]);
      assert a == a[..m] + [a[m]] && b == b[..n] + [b[n]];
    }
  }

  /** `keep[i]` says that `s[i]` has not occurred earlier in `s`. */
  function FirstOccurrences<T(==)>(s: seq<T>): (keep: seq<bool>)
    ensures |keep| == |s|
  {
    seq(|s|, i requires 0 <= i < |s| => s[i] !in s[..i])
  }

  /** The distinct elements of `s`, each at its first occurrence. */
  function Distinct<T(==)>(s: seq<T>): seq<T> {
    Pick(s, FirstOccurrences(s))
  }

  lemma {:induction false} DistinctProperties<T>(s: seq<T>)
    ensures NoDuplicates(Distinct(s))
    ensures forall x :: x in Distinct(s) <==> x in s
  {
    if s != [] {
      var n := |s| - 1;
      assert FirstOccurrences(s)[..n] == FirstOccurrences(s[..n]);
      DistinctProperties(s[..n]);
      assert Distinct(s) == Distinct(s[..n]) + (if s[n] !in s[..n] then [s[n]] else []);
      forall x
        ensures x in s <==> x in s[..n] || x == s[n]
      {
        assert s == s[..n] + [s[n]];
      }
    }
  }

  /** There are never more distinct elements than elements, and exactly as
      many when no element repeats. */
  lemma {:induction false} CardElements<T>(s: seq<T>)
    ensures |Elements(s)| <= |s|
    ensures |Elements(s)| == |s| <==> NoDuplicates(s)
  {
    if s != [] {
      var n := |s| - 1;
      CardElements(s[..n]);
      assert s == s[..n] + [s[n]];
      assert Elements(s) == Elements(s[..n]) + {s[n]};
      if s[n] in s[..n] {
        assert Elements(s) == Elements(s[..n]);
        var i :| 0 <= i < n && s[i] == s[n];
        assert !NoDuplicates(s);
      } else {
        assert |Elements(s)| == |Elements(s[..n])| + 1;
        if NoDuplicates(s[..n]) {
          assert NoDuplicates(s);
        }
      }
    }
  }

  function Sum(s: seq<int>): int {
    if s == [] then 0 else Sum(s[..|s| - 1]) + s[|s| - 1]
  }

  /** A sum of non-negative numbers is non-negative. */
  lemma {:induction false} SumNonNegative(a: seq<int>)
    ensures (forall i :: 0 <= i < |a| ==> a[i] >= 0) ==> Sum(a) >= 0
  {
    if a != [] && forall i :: 0 <= i < |a| ==> a[i] >= 0 {
      var n := |a| - 1;
      assert forall i :: 0 <= i < n ==> a[..n][i] == a[i];
      SumNonNegative(a[..n]);
    }
  }

  /** The sum of element-wise sums is the sum of the two sums. */
  lemma {:induction false} SumAdd(a: seq<int>, b: seq<int>, c: seq<int>)
    requires |a| == |b| == |c|
    requires forall j :: 0 <= j < |c| ==> c[j] == a[j] + b[j]
    ensures Sum(c) == Sum(a) + Sum(b)
  {
    if c != [] {
      var n := |c| - 1;
      SumAdd(a[..n], b[..n], c[..n]);
    }
  }

  /** Selecting with `keep` and then keeping first occurrences leaves the
      kept elements that no earlier kept element equals. `d` is the
      selection, `first` marks those elements in `s`. */
  lemma FirstOccurrencesOfSelection<T>(s: seq<T>, keep: seq<bool>, d: seq<T>, first: seq<bool>)
    requires |keep| == |s| == |first|
    requires |d| == |Positions(keep)|
    requires forall j :: 0 <= j < |d| ==> d[j] == s[Positions(keep)[j]]
    requires forall p :: 0 <= p < |s| ==>
               first[p] == (keep[p] && forall q :: 0 <= q < p && keep[q] ==> s[q] != s[p])
    ensures forall j :: 0 <= j < |d| ==> FirstOccurrences(d)[j] == first[Positions(keep)[j]]
  {
    forall j | 0 <= j < |d|
      ensures FirstOccurrences(d)[j] == first[Positions(keep)[j]]
    {
      FirstOccurrenceAt(s, keep, d, first, j);
    }
  }

  /** One position of `FirstOccurrencesOfSelection`. */
  lemma FirstOccurrenceAt<T>(s: seq<T>, keep: seq<bool>, d: seq<T>, first: seq<bool>, j: nat)
    requires |keep| == |s| == |first|
    requires |d| == |Positions(keep)| && j < |d|
    requires forall k :: 0 <= k < |d| ==> d[k] == s[Positions(keep)[k]]
    requires forall p :: 0 <= p < |s| ==>
               first[p] == (keep[p] && forall q :: 0 <= q < p && keep[q] ==> s[q] != s[p])
    ensures FirstOccurrences(d)[j] == first[Positions(keep)[j]]
  {
    var pk := Positions(keep);
    var p := pk[j];
    if d[j] in d[..j] {
      var i :| 0 <= i < j && d[..j][i] == d[j];
      assert pk[i] < p && keep[pk[i]] && s[pk[i]] == s[p];
    } else {
      forall q | 0 <= q < p && keep[q]
        ensures s[q] != s[p]
      {
        var i :| 0 <= i < |pk| && pk[i] == q;
        assert pk[i] < pk[j];
        assert d[..j][i] == d[i];
      }
    }
  }

  /** `a` with the entries where `keep` is false replaced by 0. */
  function Masked(a: seq<int>, keep: seq<bool>): (m: seq<int>)
    requires |keep| == |a|
    ensures |m| == |a|
    ensures forall i :: 0 <= i < |a| ==> m[i] == if keep[i] then a[i] else 0
  {
    seq(|a|, i requires 0 <= i < |a| => if keep[i] then a[i] else 0)
  }

  /** Summing the selected entries is summing the entries with the others
      counted as 0. */
  lemma {:induction false} SumPick(a: seq<int>, keep: seq<bool>)
    requires |keep| == |a|
    ensures Sum(Pick(a, keep)) == Sum(Masked(a, keep))
  {
    if a != [] {
      var n := |a| - 1;
      SumPick(a[..n], keep[..n]);
      assert Masked(a, keep)[..n] == Masked(a[..n], keep[..n]);
      var p := Pick(a[..n], keep[..n]);
      if keep[n] {
        assert (p + [a[n]])[..|p|] == p;
      } else {
        assert p + [] == p;
      }
    }
  }

  /** A sum of zeros is zero. */
  lemma {:induction false} SumZeros(a: seq<int>)
    requires forall i :: 0 <= i < |a| ==> a[i] == 0
    ensures Sum(a) == 0
  {
    if a != [] {
      SumZeros(a[..|a| - 1]);
    }
  }

  /** The mask of the positions whose key is `y`. */
  function KeyMask<K(==)>(keys: seq<K>, y: K): (keep: seq<bool>)
    ensures |keep| == |keys|
    ensures forall i :: 0 <= i < |keys| ==> keep[i] == (keys[i] == y)
  {
    seq(|keys|, i requires 0 <= i < |keys| => keys[i] == y)
  }

  /** The mask of the positions whose key is not among `ys`. */
  function OutsideMask<K(==)>(keys: seq<K>, ys: seq<K>): (keep: seq<bool>)
    ensures |keep| == |keys|
    ensures forall i :: 0 <= i < |keys| ==> keep[i] == (keys[i] !in ys)
  {
    seq(|keys|, i requires 0 <= i < |keys| => keys[i] !in ys)
  }

  /** The total of the amounts under each key of `ys`. */
  function GroupTotals<K(==)>(keys: seq<K>, a: seq<int>, ys: seq<K>): (g: seq<int>)
    requires |keys| == |a|
    ensures |g| == |ys|
    ensures forall j :: 0 <= j < |ys| ==> g[j] == Sum(Masked(a, KeyMask(keys, ys[j])))
  {
    seq(|ys|, j requires 0 <= j < |ys| => Sum(Masked(a, KeyMask(keys, ys[j]))))
  }

  /** Grouping by distinct keys splits a sum: the group totals plus what
      lies under the other keys make up the whole. */
  lemma {:induction false} GroupTotalsSplit<K>(keys: seq<K>, a: seq<int>, ys: seq<K>)
    requires |keys| == |a| && NoDuplicates(ys)
    ensures Sum(GroupTotals(keys, a, ys)) + Sum(Masked(a, OutsideMask(keys, ys))) == Sum(a)
  {
    if ys == [] {
      assert Masked(a, OutsideMask(keys, ys)) == a;
    } else {
      var n := |ys| - 1;
      var y := ys[n];
      GroupTotalsSplit(keys, a, ys[..n]);
      assert GroupTotals(keys, a, ys)[..n] == GroupTotals(keys, a, ys[..n]);
      OutsideSplit(keys, a, ys);
      SumAdd(Masked(a, OutsideMask(keys, ys)), Masked(a, KeyMask(keys, y)), Masked(a, OutsideMask(keys, ys[..n])));
    }
  }

  /** Removing the last key `y` from `ys` adds the amounts under `y` back to
      those outside. */
  lemma OutsideSplit<K>(keys: seq<K>, a: seq<int>, ys: seq<K>)
    requires |keys| == |a| && NoDuplicates(ys) && ys != []
    ensures forall i :: 0 <= i < |keys| ==>
              Masked(a, OutsideMask(keys, ys[..|ys| - 1]))[i]
              == Masked(a, OutsideMask(keys, ys))[i] + Masked(a, KeyMask(keys, ys[|ys| - 1]))[i]
  {
    var n := |ys| - 1;
    assert ys[n] !in ys[..n];
    assert ys == ys[..n] + [ys[n]];
  }

  /** When every key is among the distinct keys `ys`, the group totals add
      up to the whole sum. */
  lemma GroupTotalsSum<K>(keys: seq<K>, a: seq<int>, ys: seq<K>)
    requires |keys| == |a| && NoDuplicates(ys)
    requires forall i :: 0 <= i < |keys| ==> keys[i] in ys
    ensures Sum(GroupTotals(keys, a, ys)) == Sum(a)
  {
    GroupTotalsSplit(keys, a, ys);
    SumZeros(Masked(a, OutsideMask(keys, ys)));
  }

  /** An element of a sequence without duplicates occurs once. */
  lemma {:induction false} NoDuplicatesOnce<T>(s: seq<T>, x: T)
    requires NoDuplicates(s)
    ensures multiset(s)[x] <= 1
  {
    if s != [] {
      var n := |s| - 1;
      NoDuplicatesOnce(s[..n], x);
      assert s == s[..n] + [s[n]];
      if x == s[n] {
        assert x !in s[..n];
      }
    }
  }

  /** A reordering of a sequence without duplicates has none either. */
  lemma PermutationNoDuplicates<T>(s: seq<T>, r: seq<T>)
    requires multiset(r) == multiset(s) && NoDuplicates(s)
    ensures NoDuplicates(r)
  {
    forall i, j | 0 <= i < j < |r|
      ensures r[i] != r[j]
    {
      if r[i] == r[j] {
        assert r == r[..j] + [r[j]] + r[j + 1..];
        assert r[i] in r[..j];
        assert multiset(r)[r[j]] >= 2;
        NoDuplicatesOnce(s, r[j]);
      }
    }
  }

  /** A reordering has the same length and the same elements. */
  lemma PermutationElements<T>(s: seq<T>, r: seq<T>)
    requires multiset(r) == multiset(s)
    ensures |r| == |s|
    ensures forall k :: 0 <= k < |r| ==> r[k] in s
    ensures forall k :: 0 <= k < |s| ==> s[k] in r
  {
    assert |multiset(r)| == |multiset(s)|;
    forall k | 0 <= k < |r|
      ensures r[k] in s
    {
      assert r[k] in multiset(s);
    }
    forall k | 0 <= k < |s|
      ensures s[k] in r
    {
      assert s[k] in multiset(r);
    }
  }
}
