/** Generic facts about sequences that the table operations are built from. */
module Seqs {

  /** No element occurs twice. */
  ghost predicate Distinct<T>(s: seq<T>) {
    forall i, j :: 0 <= i < j < |s| ==> s[i] != s[j]
  }

  /** The elements of `s` that satisfy `p`, in their original order. */
  function Filter<T(!new)>(s: seq<T>, p: T -> bool): (r: seq<T>)
    ensures |r| <= |s|
    ensures forall i :: 0 <= i < |r| ==> r[i] in s && p(r[i])
    ensures forall i :: 0 <= i < |s| && p(s[i]) ==> s[i] in r
    ensures multiset(r) <= multiset(s)
    decreases |s|
  {
    if |s| == 0 then []
    else
      assert s == [s[0]] + s[1..];
      (if p(s[0]) then [s[0]] else []) + Filter(s[1..], p)
  }

  /** Filtering keeps every occurrence of an element that satisfies the condition, and none of one that does not. */
  lemma {:induction false} FilterCounts<T(!new)>(s: seq<T>, p: T -> bool, x: T)
    ensures multiset(Filter(s, p))[x] == if p(x) then multiset(s)[x] else 0
    decreases |s|
  {
    if |s| > 0 {
      assert s == [s[0]] + s[1..];
      FilterCounts(s[1..], p, x);
    }
  }

  /** Filtering a concatenation filters each part, keeping the parts in order. */
  lemma {:induction false} FilterAppend<T(!new)>(a: seq<T>, b: seq<T>, p: T -> bool)
    ensures Filter(a + b, p) == Filter(a, p) + Filter(b, p)
    decreases |a|
  {
    if |a| > 0 {
      assert (a + b)[1..] == a[1..] + b;
      FilterAppend(a[1..], b, p);
    } else {
      assert a + b == b;
    }
  }

  /** A single element is kept exactly when it satisfies the condition. */
  lemma FilterOfOne<T(!new)>(x: T, p: T -> bool)
    ensures Filter([x], p) == if p(x) then [x] else []
  {
    assert [x][1..] == [];
  }

  lemma {:induction false} FilterKeepsDistinct<T(!new)>(s: seq<T>, p: T -> bool)
    ensures Distinct(s) ==> Distinct(Filter(s, p))
    decreases |s|
  {
    if |s| > 0 {
      FilterKeepsDistinct(s[1..], p);
      assert Distinct(s) ==> s[0] !in s[1..];
    }
  }

  lemma {:induction false} FilterOfAll<T(!new)>(s: seq<T>, p: T -> bool)
    requires forall i :: 0 <= i < |s| ==> p(s[i])
    ensures Filter(s, p) == s
    decreases |s|
  {
    if |s| > 0 {
      FilterOfAll(s[1..], p);
    }
  }

  /** The first occurrence of every element, in order of first occurrence. */
  function Unique<T(==)>(s: seq<T>): (r: seq<T>)
    ensures Distinct(r)
    ensures forall i :: 0 <= i < |r| ==> r[i] in s
    ensures forall i :: 0 <= i < |s| ==> s[i] in r
    ensures |r| <= |s|
    decreases |s|
  {
    if |s| == 0 then []
    else
      var p := Unique(s[..|s| - 1]);
      if s[|s| - 1] in p then p else p + [s[|s| - 1]]
  }

  /** pandas `duplicated()` with keep='first': flag i is set when s[i] already occurred before i. */
  function Duplicated<T(==)>(s: seq<T>): (r: seq<bool>)
    ensures |r| == |s|
    ensures |s| > 0 ==> !r[0]
  {
    seq(|s|, i requires 0 <= i < |s| => s[i] in s[..i])
  }

  /** Flag i is set exactly when an earlier position holds the same element. */
  lemma DuplicatedIsEarlierOccurrence<T>(s: seq<T>, i: nat)
    requires i < |s|
    ensures Duplicated(s)[i] <==> exists j :: 0 <= j < i && s[j] == s[i]
  {
    if Duplicated(s)[i] {
      var j :| 0 <= j < |s[..i]| && s[..i][j] == s[i];
      assert s[j] == s[i];
    }
  }

  /** Boolean-mask selection `s[~flags]`: the elements whose flag is not set, in order. */
  function KeepUnflagged<T>(s: seq<T>, flags: seq<bool>): seq<T>
    requires |flags| == |s|
    decreases |s|
  {
    if |s| == 0 then []
    else
      KeepUnflagged(s[..|s| - 1], flags[..|s| - 1])
      + (if flags[|s| - 1] then [] else [s[|s| - 1]])
  }

  /** The number of set flags (Python's `sum` over booleans). */
  function CountTrue(flags: seq<bool>): (r: nat)
    ensures r <= |flags|
    ensures r == 0 <==> forall i :: 0 <= i < |flags| ==> !flags[i]
    ensures r == multiset(flags)[true]
    decreases |flags|
  {
    if |flags| == 0 then 0
    else
      assert flags == flags[..|flags| - 1] + [flags[|flags| - 1]];
      CountTrue(flags[..|flags| - 1]) + (if flags[|flags| - 1] then 1 else 0)
  }

  lemma DuplicatedOfPrefix<T>(s: seq<T>, n: nat)
    requires n <= |s|
    ensures Duplicated(s)[..n] == Duplicated(s[..n])
  {
    forall i | 0 <= i < n
      ensures Duplicated(s)[i] == Duplicated(s[..n])[i]
    {
      assert s[..n][..i] == s[..i];
    }
  }

  /** Unique keeps exactly the elements that `duplicated()` does not flag. */
  lemma {:induction false} UniqueIsUnflagged<T>(s: seq<T>)
    ensures Unique(s) == KeepUnflagged(s, Duplicated(s))
    decreases |s|
  {
    if |s| > 0 {
      var n := |s| - 1;
      DuplicatedOfPrefix(s, n);
      UniqueIsUnflagged(s[..n]);
    }
  }

  /** A sequence without repeats has no flagged element. */
  lemma {:induction false} DistinctHasNoDuplicated<T>(s: seq<T>)
    requires Distinct(s)
    ensures CountTrue(Duplicated(s)) == 0
    decreases |s|
  {
    if |s| > 0 {
      var n := |s| - 1;
      DuplicatedOfPrefix(s, n);
      DistinctHasNoDuplicated(s[..n]);
      assert s[n] !in s[..n];
    }
  }

  lemma {:induction false} UniqueOfDistinct<T>(s: seq<T>)
    requires Distinct(s)
    ensures Unique(s) == s
    decreases |s|
  {
    if |s| > 0 {
      var n := |s| - 1;
      UniqueOfDistinct(s[..n]);
      assert s[n] !in s[..n];
      assert s == s[..n] + [s[n]];
    }
  }

  lemma DistinctMultiplicity<T>(s: seq<T>, x: T)
    requires Distinct(s)
    ensures multiset(s)[x] <= 1
    decreases |s|
  {
    if |s| > 0 {
      var n := |s| - 1;
      assert s == s[..n] + [s[n]];
      DistinctMultiplicity(s[..n], x);
      assert s[n] == x ==> x !in s[..n];
    }
  }

  lemma TwoPositions<T>(s: seq<T>, i: nat, j: nat)
    requires i < j < |s|
    ensures s[i] == s[j] ==> multiset(s)[s[i]] >= 2
  {
    assert s == s[..i] + [s[i]] + s[i + 1..j] + [s[j]] + s[j + 1..];
  }

  /** A permutation of a sequence without repeats has no repeats. */
  lemma PermutationKeepsDistinct<T>(a: seq<T>, b: seq<T>)
    requires multiset(a) == multiset(b)
    requires Distinct(b)
    ensures Distinct(a)
  {
    forall i, j | 0 <= i < j < |a|
      ensures a[i] != a[j]
    {
      TwoPositions(a, i, j);
      DistinctMultiplicity(b, a[i]);
    }
  }

  /** `key` never increases along `s`. */
  ghost predicate NonIncreasing<T>(s: seq<T>, key: T -> int) {
    forall i, j :: 0 <= i < j < |s| ==> key(s[i]) >= key(s[j])
  }

  /** Inserts `x` into a sequence sorted by descending `key`, before the elements with an equal key. */
  function InsertDesc<T>(x: T, s: seq<T>, key: T -> int): (r: seq<T>)
    requires NonIncreasing(s, key)
    ensures NonIncreasing(r, key)
    ensures multiset(r) == multiset(s) + multiset{x}
    ensures |r| == |s| + 1
    ensures r[0] == if |s| == 0 || key(x) >= key(s[0]) then x else s[0]
    decreases |s|
  {
    if |s| == 0 || key(x) >= key(s[0]) then [x] + s
    else
      var rest := InsertDesc(x, s[1..], key);
      assert s == [s[0]] + s[1..];
      assert key(rest[0]) <= key(s[0]);
      [s[0]] + rest
  }

  /** Sorting by descending `key`: a permutation of `s` along which `key` never increases. */
  function SortDesc<T>(s: seq<T>, key: T -> int): (r: seq<T>)
    ensures NonIncreasing(r, key)
    ensures multiset(r) == multiset(s)
    ensures |r| == |s|
    decreases |s|
  {
    if |s| == 0 then []
    else
      assert s == [s[0]] + s[1..];
      InsertDesc(s[0], SortDesc(s[1..], key), key)
  }

  /** Cutting a sorted sequence after k elements: what is cut off is in the rest, and no larger than the last kept. */
  lemma SortedPrefix<T>(s: seq<T>, key: T -> int, k: nat)
    requires NonIncreasing(s, key)
    requires 0 < k <= |s|
    ensures multiset(s) == multiset(s[..k]) + multiset(s[k..])
    ensures forall j :: k <= j < |s| ==> key(s[j]) <= key(s[k - 1])
  {
    assert s == s[..k] + s[k..];
  }

  function Sum(s: seq<int>): int
    decreases |s|
  {
    if |s| == 0 then 0 else Sum(s[..|s| - 1]) + s[|s| - 1]
  }

  /** The sum of vals[i] over the positions i whose key is k. */
  function SumWhere<K(==)>(keys: seq<K>, vals: seq<int>, k: K): int
    requires |keys| == |vals|
    decreases |keys|
  {
    if |keys| == 0 then 0
    else
      SumWhere(keys[..|keys| - 1], vals[..|vals| - 1], k)
      + (if keys[|keys| - 1] == k then vals[|vals| - 1] else 0)
  }

  /** The per-group sums, one for each entry of `groups`. */
  function Totals<K(==)>(keys: seq<K>, vals: seq<int>, groups: seq<K>): (r: seq<int>)
    requires |keys| == |vals|
  {
    seq(|groups|, i requires 0 <= i < |groups| => SumWhere(keys, vals, groups[i]))
  }

  lemma {:induction false} TotalsOfNothing<K>(groups: seq<K>)
    ensures Sum(Totals([], [], groups)) == 0
    decreases |groups|
  {
    if |groups| > 0 {
      var m := |groups| - 1;
      TotalsOfNothing(groups[..m]);
      assert Totals([], [], groups)[..m] == Totals([], [], groups[..m]);
    }
  }

  lemma {:induction false} TotalsOfExtended<K>(keys: seq<K>, vals: seq<int>, k: K, v: int, groups: seq<K>)
    requires |keys| == |vals|
    requires Distinct(groups)
    ensures Sum(Totals(keys + [k], vals + [v], groups))
         == Sum(Totals(keys, vals, groups)) + (if k in groups then v else 0)
    decreases |groups|
  {
    if |groups| > 0 {
      var m := |groups| - 1;
      var g := groups[..m];
      TotalsOfExtended(keys, vals, k, v, g);
      assert Totals(keys + [k], vals + [v], groups)[..m] == Totals(keys + [k], vals + [v], g);
      assert Totals(keys, vals, groups)[..m] == Totals(keys, vals, g);
      assert (keys + [k])[..|keys|] == keys;
      assert (vals + [v])[..|vals|] == vals;
      assert groups == g + [groups[m]];
      assert k in g ==> k != groups[m];
    }
  }

  /** Summing the group totals over groups that cover every key, each once, gives the grand total. */
  lemma {:induction false} TotalsSum<K>(keys: seq<K>, vals: seq<int>, groups: seq<K>)
    requires |keys| == |vals|
    requires Distinct(groups)
    requires forall i :: 0 <= i < |keys| ==> keys[i] in groups
    ensures Sum(Totals(keys, vals, groups)) == Sum(vals)
    decreases |keys|
  {
    if |keys| == 0 {
      TotalsOfNothing(groups);
    } else {
      var n := |keys| - 1;
      TotalsSum(keys[..n], vals[..n], groups);
      TotalsOfExtended(keys[..n], vals[..n], keys[n], vals[n], groups);
      assert keys == keys[..n] + [keys[n]];
      assert vals == vals[..n] + [vals[n]];
    }
  }

  function Ones(n: nat): (r: seq<int>) {
    seq(n, _ => 1)
  }

  lemma {:induction false} SumOfOnes(n: nat)
    ensures Sum(Ones(n)) == n
  {
    if n > 0 {
      SumOfOnes(n - 1);
      assert Ones(n)[..n - 1] == Ones(n - 1);
    }
  }

  /** Summing a one per position over the positions holding x counts the occurrences of x. */
  lemma {:induction false} SumWhereOfOnes<T>(s: seq<T>, x: T)
    ensures SumWhere(s, Ones(|s|), x) == multiset(s)[x]
    decreases |s|
  {
    if |s| > 0 {
      var n := |s| - 1;
      SumWhereOfOnes(s[..n], x);
      assert Ones(|s|)[..n] == Ones(n);
      assert s == s[..n] + [s[n]];
    }
  }
}
