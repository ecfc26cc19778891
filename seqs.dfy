/** Sequence operations standing for the LINQ operators the services use:
    `Where` (Filter), `FirstOrDefault` (FindIndex), `OrderBy`/`OrderByDescending`
    (SortBy, a stable sort), together with the key-uniqueness predicate that
    models a unique index of a table. */
module Seqs {
  import opened Wrappers

  /** `Where`: the elements of `s` that satisfy `p`, in their original order. */
  function Filter<T(!new)>(s: seq<T>, p: T -> bool): (r: seq<T>)
    ensures |r| <= |s|
    ensures forall x :: x in r <==> x in s && p(x)
  {
    if |s| == 0 then []
    else if p(s[0]) then [s[0]] + Filter(s[1..], p)
    else Filter(s[1..], p)
  }

  lemma {:induction false} FilterConcat<T(!new)>(a: seq<T>, b: seq<T>, p: T -> bool)
    ensures Filter(a + b, p) == Filter(a, p) + Filter(b, p)
  {
    if |a| == 0 {
      assert a + b == b;
    } else {
      assert (a + b)[1..] == a[1..] + b;
      FilterConcat(a[1..], b, p);
    }
  }

  /** A filter that no element passes is empty. */
  lemma FilterNone<T(!new)>(s: seq<T>, p: T -> bool)
    requires forall x :: x in s ==> !p(x)
    ensures Filter(s, p) == []
  {
  }

  /** `FirstOrDefault`: the index of the first element satisfying `p`, if any. */
  function FindIndex<T(!new)>(s: seq<T>, p: T -> bool): (r: Option<nat>)
    ensures r.Some? ==> r.value < |s| && p(s[r.value])
    ensures r.Some? ==> forall j :: 0 <= j < r.value ==> !p(s[j])
    ensures r.None? <==> forall j :: 0 <= j < |s| ==> !p(s[j])
    ensures r.Some? <==> exists x :: x in s && p(x)
  {
    if |s| == 0 then None
    else if p(s[0]) then Some(0)
    else
      match FindIndex(s[1..], p)
      case Some(k) => Some(k + 1)
      case None => None
  }

  /** The index found is unchanged by replacing an element with one that `p` judges alike. */
  lemma {:induction false} FindIndexUpdate<T(!new)>(s: seq<T>, k: nat, x: T, p: T -> bool)
    requires k < |s| && p(x) == p(s[k])
    ensures FindIndex(s[k := x], p) == FindIndex(s, p)
  {
    var t := s[k := x];
    if k == 0 {
      assert t[1..] == s[1..];
    } else {
      assert t[0] == s[0];
      assert t[1..] == s[1..][k - 1 := x];
      FindIndexUpdate(s[1..], k - 1, x, p);
    }
  }

  /** Appending an element is seen only when no earlier element matches. */
  lemma {:induction false} FindIndexAppend<T(!new)>(s: seq<T>, x: T, p: T -> bool)
    ensures FindIndex(s + [x], p) ==
      if FindIndex(s, p).Some? then FindIndex(s, p)
      else if p(x) then Some(|s|) else None
  {
    if |s| == 0 {
      assert s + [x] == [x];
    } else {
      assert (s + [x])[0] == s[0];
      assert (s + [x])[1..] == s[1..] + [x];
      FindIndexAppend(s[1..], x, p);
    }
  }

  /** `f` applied to every element, in order. */
  function Map<T, U>(s: seq<T>, f: T -> U): (r: seq<U>)
    ensures |r| == |s|
    ensures forall i :: 0 <= i < |s| ==> r[i] == f(s[i])
  {
    seq(|s|, i requires 0 <= i < |s| => f(s[i]))
  }

  /** A prefix holds at most the occurrences of the whole. */
  lemma MultisetPrefix<T>(s: seq<T>, n: nat)
    requires n <= |s|
    ensures multiset(s[..n]) <= multiset(s)
  {
    assert s == s[..n] + s[n..];
    assert multiset(s) == multiset(s[..n]) + multiset(s[n..]);
  }

  /** Removing the element at `j` removes one occurrence of it. */
  lemma MultisetRemoveAt<T>(t: seq<T>, j: nat)
    requires j < |t|
    ensures multiset(t) == multiset(t[..j] + t[j + 1..]) + multiset{t[j]}
  {
    assert t == t[..j] + [t[j]] + t[j + 1..];
  }

  lemma MultisetCancel<T>(a: multiset<T>, b: multiset<T>, x: T)
    requires a + multiset{x} == b + multiset{x}
    ensures a == b
  {
    assert a == (a + multiset{x}) - multiset{x};
    assert b == (b + multiset{x}) - multiset{x};
  }

  lemma MapRemoveAt<T, U>(t: seq<T>, j: nat, f: T -> U)
    requires j < |t|
    ensures Map(t[..j] + t[j + 1..], f) == Map(t, f)[..j] + Map(t, f)[j + 1..]
  {
  }

  /** Mapping two permutations of each other gives permutations of each other. */
  lemma {:induction false} MapPermutation<T, U>(s: seq<T>, t: seq<T>, f: T -> U)
    requires multiset(s) == multiset(t)
    ensures multiset(Map(s, f)) == multiset(Map(t, f))
    decreases |s|
  {
    if |s| == 0 {
      assert |t| == |multiset(t)| == 0;
    } else {
      assert s[0] in multiset(t);
      var j :| 0 <= j < |t| && t[j] == s[0];
      var s', t' := s[1..], t[..j] + t[j + 1..];
      MultisetRemoveAt(t, j);
      MultisetRemoveAt(s, 0);
      assert s[..0] + s[1..] == s';
      MultisetCancel(multiset(s'), multiset(t'), s[0]);
      MapPermutation(s', t', f);
      MapPermutationStep(s, t, j, f);
    }
  }

  lemma MapPermutationStep<T, U>(s: seq<T>, t: seq<T>, j: nat, f: T -> U)
    requires 0 < |s| && j < |t| && t[j] == s[0]
    requires multiset(Map(s[1..], f)) == multiset(Map(t[..j] + t[j + 1..], f))
    ensures multiset(Map(s, f)) == multiset(Map(t, f))
  {
    var ds, dt := Map(s, f), Map(t, f);
    MapRemoveAt(t, j, f);
    assert Map(t[..j] + t[j + 1..], f) == dt[..j] + dt[j + 1..];
    assert Map(s[1..], f) == ds[..0] + ds[1..];
    PermutationStep(ds, dt, j);
  }

  /** Putting one element back on both sides of a permutation keeps it one. */
  lemma PermutationStep<U>(ds: seq<U>, dt: seq<U>, j: nat)
    requires 0 < |ds| && j < |dt| && ds[0] == dt[j]
    requires multiset(ds[..0] + ds[1..]) == multiset(dt[..j] + dt[j + 1..])
    ensures multiset(ds) == multiset(dt)
  {
    MultisetRemoveAt(ds, 0);
    MultisetRemoveAt(dt, j);
  }

  /** A unique index on `key`: no two rows of `s` share a key. */
  ghost predicate UniqueBy<T, K>(s: seq<T>, key: T -> K)
  {
    forall i, j :: 0 <= i < j < |s| ==> key(s[i]) != key(s[j])
  }

  lemma UniqueByCons<T, K>(a: T, s: seq<T>, key: T -> K)
    ensures UniqueBy([a] + s, key) <==> UniqueBy(s, key) && forall y :: y in s ==> key(y) != key(a)
  {
    var t := [a] + s;
    if UniqueBy(t, key) {
      forall i, j | 0 <= i < j < |s| ensures key(s[i]) != key(s[j]) {
        assert s[i] == t[i + 1] && s[j] == t[j + 1];
      }
      forall y | y in s ensures key(y) != key(a) {
        var j :| 0 <= j < |s| && s[j] == y;
        assert t[0] == a && t[j + 1] == y;
      }
    }
    if UniqueBy(s, key) && forall y :: y in s ==> key(y) != key(a) {
      forall i, j | 0 <= i < j < |t| ensures key(t[i]) != key(t[j]) {
        assert t[j] == s[j - 1];
        if i > 0 {
          assert t[i] == s[i - 1];
        }
      }
    }
  }

  lemma UniqueByAppend<T, K>(s: seq<T>, x: T, key: T -> K)
    requires UniqueBy(s, key)
    requires forall y :: y in s ==> key(y) != key(x)
    ensures UniqueBy(s + [x], key)
  {
    var t := s + [x];
    forall i, j | 0 <= i < j < |t| ensures key(t[i]) != key(t[j]) {
      assert t[i] == s[i];
      if j < |s| {
        assert t[j] == s[j];
      } else {
        assert s[i] in s;
      }
    }
  }

  lemma UniqueByUpdate<T, K>(s: seq<T>, k: nat, x: T, key: T -> K)
    requires UniqueBy(s, key)
    requires k < |s| && key(x) == key(s[k])
    ensures UniqueBy(s[k := x], key)
  {
  }

  lemma {:induction false} UniqueByFilter<T(!new), K>(s: seq<T>, p: T -> bool, key: T -> K)
    requires UniqueBy(s, key)
    ensures UniqueBy(Filter(s, p), key)
  {
    if |s| > 0 {
      assert s == [s[0]] + s[1..];
      UniqueByCons(s[0], s[1..], key);
      UniqueByFilter(s[1..], p, key);
      if p(s[0]) {
        UniqueByCons(s[0], Filter(s[1..], p), key);
      }
    }
  }

  /** Two rows of a uniquely keyed table with the same key are the same row. */
  lemma UniqueByMembers<T, K>(s: seq<T>, x: T, y: T, key: T -> K)
    requires UniqueBy(s, key)
    requires x in s && y in s && key(x) == key(y)
    ensures x == y
  {
    var i :| 0 <= i < |s| && s[i] == x;
    var j :| 0 <= j < |s| && s[j] == y;
    assert i == j;
  }

  /** `le` orders every pair and is transitive: what an `OrderBy` key comparison provides. */
  ghost predicate TotalPreorder<T(!new)>(le: (T, T) -> bool)
  {
    && (forall a, b :: le(a, b) || le(b, a))
    && (forall a, b, c :: le(a, b) && le(b, c) ==> le(a, c))
  }

  ghost predicate SortedBy<T>(s: seq<T>, le: (T, T) -> bool)
  {
    forall i, j :: 0 <= i < j < |s| ==> le(s[i], s[j])
  }

  /** Places `x` before the first element it may precede. */
  function InsertBy<T>(x: T, s: seq<T>, le: (T, T) -> bool): (r: seq<T>)
    ensures multiset(r) == multiset(s) + multiset{x}
    ensures |r| == |s| + 1
  {
    if |s| == 0 then [x]
    else if le(x, s[0]) then [x] + s
    else
      assert s == [s[0]] + s[1..];
      [s[0]] + InsertBy(x, s[1..], le)
  }

  /** A stable sort by `le` (first element inserted last, in front of its equals),
      like LINQ's `OrderBy`. */
  function SortBy<T>(s: seq<T>, le: (T, T) -> bool): (r: seq<T>)
    ensures multiset(r) == multiset(s)
    ensures |r| == |s|
  {
    if |s| == 0 then []
    else
      assert s == [s[0]] + s[1..];
      InsertBy(s[0], SortBy(s[1..], le), le)
  }

  lemma {:induction false} InsertBySorted<T(!new)>(x: T, s: seq<T>, le: (T, T) -> bool)
    requires TotalPreorder(le) && SortedBy(s, le)
    ensures SortedBy(InsertBy(x, s, le), le)
  {
    if |s| == 0 {
    } else if le(x, s[0]) {
      var r := [x] + s;
      forall i, j | 0 <= i < j < |r| ensures le(r[i], r[j]) {
        if i == 0 && j > 1 {
          assert le(x, s[0]) && le(s[0], s[j - 1]);
        }
      }
    } else {
      var rest := InsertBy(x, s[1..], le);
      InsertBySorted(x, s[1..], le);
      assert le(s[0], x);
      forall y | y in rest ensures le(s[0], y) {
        assert y in multiset(rest);
        if y != x {
          assert y in multiset(s[1..]);
          var j :| 0 <= j < |s[1..]| && s[1..][j] == y;
          assert s[j + 1] == y;
        }
      }
      var r := [s[0]] + rest;
      forall i, j | 0 <= i < j < |r| ensures le(r[i], r[j]) {
        assert r[j] == rest[j - 1];
        if i == 0 {
          assert rest[j - 1] in rest;
        } else {
          assert r[i] == rest[i - 1];
        }
      }
    }
  }

  lemma {:induction false} SortBySorted<T(!new)>(s: seq<T>, le: (T, T) -> bool)
    requires TotalPreorder(le)
    ensures SortedBy(SortBy(s, le), le)
  {
    if |s| > 0 {
      SortBySorted(s[1..], le);
      InsertBySorted(s[0], SortBy(s[1..], le), le);
    }
  }

  /** Sorting what is already sorted changes nothing (the sort is stable). */
  lemma {:induction false} SortByOfSorted<T>(s: seq<T>, le: (T, T) -> bool)
    requires SortedBy(s, le)
    ensures SortBy(s, le) == s
  {
    if |s| > 0 {
      assert SortedBy(s[1..], le) by {
        forall i, j | 0 <= i < j < |s[1..]| ensures le(s[1..][i], s[1..][j]) {
          assert s[1..][i] == s[i + 1] && s[1..][j] == s[j + 1];
        }
      }
      SortByOfSorted(s[1..], le);
      if |s| > 1 {
        assert le(s[0], s[1]);
      }
      assert s == [s[0]] + s[1..];
    }
  }

  lemma {:induction false} InsertByUnique<T, K>(x: T, s: seq<T>, le: (T, T) -> bool, key: T -> K)
    requires UniqueBy(s, key)
    requires forall y :: y in s ==> key(y) != key(x)
    ensures UniqueBy(InsertBy(x, s, le), key)
  {
    if |s| == 0 {
    } else if le(x, s[0]) {
      UniqueByCons(x, s, key);
    } else {
      assert s == [s[0]] + s[1..];
      UniqueByCons(s[0], s[1..], key);
      InsertByUnique(x, s[1..], le, key);
      var rest := InsertBy(x, s[1..], le);
      forall y | y in rest ensures key(y) != key(s[0]) {
        assert y in multiset(rest);
        if y != x {
          assert y in multiset(s[1..]);
        }
      }
      UniqueByCons(s[0], rest, key);
    }
  }

  lemma {:induction false} SortByUnique<T, K>(s: seq<T>, le: (T, T) -> bool, key: T -> K)
    requires UniqueBy(s, key)
    ensures UniqueBy(SortBy(s, le), key)
  {
    if |s| > 0 {
      assert s == [s[0]] + s[1..];
      UniqueByCons(s[0], s[1..], key);
      SortByUnique(s[1..], le, key);
      var sorted := SortBy(s[1..], le);
      forall y | y in sorted ensures key(y) != key(s[0]) {
        assert y in multiset(sorted);
        assert y in multiset(s[1..]);
      }
      InsertByUnique(s[0], sorted, le, key);
    }
  }
}
