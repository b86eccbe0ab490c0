/** Optional values: a C# nullable reference or a TypeScript `T | null`. */
module Common {
  datatype Option<T> = None | Some(value: T)
}

/** Order-preserving list operations: LINQ `Where`, JavaScript `filter`. */
module Seqs {
  import Common

  /** The elements of `s` satisfying `p`, in their original order. */
  function Filter<T(==)>(s: seq<T>, p: T -> bool): (r: seq<T>)
    ensures |r| <= |s|
    ensures forall i :: 0 <= i < |r| ==> p(r[i])
    decreases |s|
  {
    if |s| == 0 then []
    else Filter(s[..|s| - 1], p) + (if p(s[|s| - 1]) then [s[|s| - 1]] else [])
  }

  /** The kept elements come from `s`, and every element of `s` that
      satisfies `p` is kept. */
  lemma {:induction false} FilterMembers<T>(s: seq<T>, p: T -> bool)
    ensures forall i :: 0 <= i < |Filter(s, p)| ==> Filter(s, p)[i] in s
    ensures forall i :: 0 <= i < |s| && p(s[i]) ==> s[i] in Filter(s, p)
    decreases |s|
  {
    if |s| > 0 {
      var s', x := s[..|s| - 1], s[|s| - 1];
      FilterMembers(s', p);
      var r', r := Filter(s', p), Filter(s, p);
      assert r == r' + (if p(x) then [x] else []);
      forall i | 0 <= i < |r| ensures r[i] in s {
        if i < |r'| {
          var j :| 0 <= j < |s'| && s'[j] == r'[i];
          assert s[j] == r[i];
        } else {
          assert r[i] == s[|s| - 1];
        }
      }
      forall i | 0 <= i < |s| && p(s[i]) ensures s[i] in r {
        if i < |s'| {
          assert s'[i] == s[i];
          var j :| 0 <= j < |r'| && r'[j] == s'[i];
          assert r[j] == s[i];
        } else {
          assert r[|r| - 1] == s[i];
        }
      }
    }
  }

  /** LINQ `FirstOrDefault(p)`, as a position: the first index whose element
      satisfies `p`, or None when no element does. */
  function FirstIndex<T>(s: seq<T>, p: T -> bool): (r: Common.Option<nat>)
    ensures r.Some? ==> r.value < |s| && p(s[r.value])
    ensures r.Some? ==> forall j :: 0 <= j < r.value ==> !p(s[j])
    ensures r.None? <==> forall j :: 0 <= j < |s| ==> !p(s[j])
    decreases |s|
  {
    if |s| == 0 then Common.None
    else if p(s[0]) then Common.Some(0)
    else match FirstIndex(s[1..], p)
      case None => Common.None
      case Some(k) => Common.Some(k + 1)
  }

  /** `FirstIndex` is determined by its contract: the first position whose
      element satisfies `p`. */
  lemma FirstIndexAt<T>(s: seq<T>, p: T -> bool, k: int)
    requires 0 <= k < |s| && p(s[k])
    requires forall j :: 0 <= j < k ==> !p(s[j])
    ensures FirstIndex(s, p) == Common.Some(k)
  {
    var r := FirstIndex(s, p);
    assert r.Some?;
    assert !(r.value < k) && !(k < r.value);
  }

  /** Appending elements does not move a match found in the prefix. */
  lemma FirstIndexAppend<T>(a: seq<T>, b: seq<T>, p: T -> bool)
    requires FirstIndex(a, p).Some?
    ensures FirstIndex(a + b, p) == FirstIndex(a, p)
  {
    var k := FirstIndex(a, p).value;
    FirstIndexAt(a + b, p, k);
  }

  /** The elements `f` maps `s` to, position by position (LINQ `Select`). */
  function Map<A, B>(s: seq<A>, f: A -> B): (r: seq<B>)
    ensures |r| == |s|
    ensures forall i :: 0 <= i < |s| ==> r[i] == f(s[i])
  {
    seq(|s|, i requires 0 <= i < |s| => f(s[i]))
  }

  /** Mapping distributes over concatenation. */
  lemma MapConcat<A, B>(a: seq<A>, b: seq<A>, f: A -> B)
    ensures Map(a + b, f) == Map(a, f) + Map(b, f)
  {
  }

  /** Filtering and mapping one more element of a prefix extends the
      result by that element's image, when it passes. */
  lemma FilterMapPrefix<A, B>(s: seq<A>, i: int, p: A -> bool, f: A -> B)
    requires 0 <= i < |s|
    ensures Map(Filter(s[..i + 1], p), f) == Map(Filter(s[..i], p), f) + (if p(s[i]) then [f(s[i])] else [])
  {
    assert s[..i + 1][..i] == s[..i];
    MapConcat(Filter(s[..i], p), if p(s[i]) then [s[i]] else [], f);
  }

  /** Mapping a non-empty list is mapping all but its last element, then
      the last one. */
  lemma MapSnoc<A, B>(s: seq<A>, f: A -> B)
    requires |s| > 0
    ensures Map(s, f) == Map(s[..|s| - 1], f) + [f(s[|s| - 1])]
  {
    assert s == s[..|s| - 1] + [s[|s| - 1]];
    MapConcat(s[..|s| - 1], [s[|s| - 1]], f);
  }

  /** Mapping a list with a first element. */
  lemma MapCons<A, B>(x: A, s: seq<A>, f: A -> B)
    ensures Map([x] + s, f) == [f(x)] + Map(s, f)
  {
    MapConcat([x], s, f);
  }

  /** Mapping commutes with dropping the first element. */
  lemma MapTail<A, B>(s: seq<A>, f: A -> B)
    requires |s| > 0
    ensures Map(s, f)[1..] == Map(s[1..], f) && Map(s, f)[0] == f(s[0])
  {
  }

  /** The image of a member is a member of the image. */
  lemma MapMembership<A, B>(s: seq<A>, f: A -> B, x: A)
    requires x in s
    ensures f(x) in Map(s, f)
  {
    var i :| 0 <= i < |s| && s[i] == x;
    assert Map(s, f)[i] == f(x);
  }

  /** No value occurs twice. */
  predicate NoDuplicates<T(==)>(s: seq<T>) {
    forall i, j :: 0 <= i < j < |s| ==> s[i] != s[j]
  }

  /** Filtering distributes over concatenation. */
  lemma {:induction false} FilterConcat<T>(a: seq<T>, b: seq<T>, p: T -> bool)
    ensures Filter(a + b, p) == Filter(a, p) + Filter(b, p)
    decreases |b|
  {
    if |b| == 0 {
      assert a + b == a;
    } else {
      var b' := b[..|b| - 1];
      assert (a + b)[..|a + b| - 1] == a + b';
      assert (a + b)[|a + b| - 1] == b[|b| - 1];
      FilterConcat(a, b', p);
    }
  }

  /** A filter that keeps every element is the identity. */
  lemma {:induction false} FilterAll<T>(s: seq<T>, p: T -> bool)
    requires forall i :: 0 <= i < |s| ==> p(s[i])
    ensures Filter(s, p) == s
    decreases |s|
  {
    if |s| > 0 {
      var s' := s[..|s| - 1];
      assert forall i :: 0 <= i < |s'| ==> s'[i] == s[i];
      FilterAll(s', p);
    }
  }

  /** A filter that drops every element leaves nothing. */
  lemma FilterNone<T>(s: seq<T>, p: T -> bool)
    requires forall x :: x in s ==> !p(x)
    ensures Filter(s, p) == []
  {
  }

  /** Two predicates that agree on `s` filter it alike. */
  lemma {:induction false} FilterCongruent<T>(s: seq<T>, p: T -> bool, q: T -> bool)
    requires forall x :: x in s ==> p(x) == q(x)
    ensures Filter(s, p) == Filter(s, q)
    decreases |s|
  {
    if |s| > 0 {
      var s' := s[..|s| - 1];
      assert forall x :: x in s' ==> x in s;
      FilterCongruent(s', p, q);
    }
  }

  /** Filtering twice by predicates is filtering once by their conjunction. */
  lemma {:induction false} FilterFilter<T>(s: seq<T>, p: T -> bool, q: T -> bool, pq: T -> bool)
    requires forall x :: pq(x) == (p(x) && q(x))
    ensures Filter(Filter(s, p), q) == Filter(s, pq)
    decreases |s|
  {
    if |s| > 0 {
      var s' := s[..|s| - 1];
      var x := s[|s| - 1];
      FilterFilter(s', p, q, pq);
      FilterConcat(Filter(s', p), if p(x) then [x] else [], q);
    }
  }

  /** Filtering keeps a list ordered by a strictly increasing key ordered. */
  lemma {:induction false} FilterIncreasing<T>(s: seq<T>, p: T -> bool, key: T -> int)
    requires forall i, j :: 0 <= i < j < |s| ==> key(s[i]) < key(s[j])
    ensures forall i, j :: 0 <= i < j < |Filter(s, p)| ==> key(Filter(s, p)[i]) < key(Filter(s, p)[j])
    decreases |s|
  {
    if |s| > 0 {
      var s', x := s[..|s| - 1], s[|s| - 1];
      assert forall i :: 0 <= i < |s'| ==> s'[i] == s[i];
      FilterIncreasing(s', p, key);
      FilterMembers(s', p);
      var r', r := Filter(s', p), Filter(s, p);
      assert r == r' + (if p(x) then [x] else []);
      forall i, j | 0 <= i < j < |r| ensures key(r[i]) < key(r[j]) {
        assert r[i] == r'[i];
        if j < |r'| {
          assert r[j] == r'[j];
        } else {
          var m :| 0 <= m < |s'| && s'[m] == r'[i];
          assert key(s[m]) < key(x);
        }
      }
    }
  }

  /** Filtering keeps a list without duplicates free of them. */
  lemma {:induction false} FilterNoDuplicates<T>(s: seq<T>, p: T -> bool)
    requires NoDuplicates(s)
    ensures NoDuplicates(Filter(s, p))
    decreases |s|
  {
    if |s| > 0 {
      var s' := s[..|s| - 1];
      var x := s[|s| - 1];
      FilterMembers(s', p);
      assert NoDuplicates(s') by {
        forall i, j | 0 <= i < j < |s'| ensures s'[i] != s'[j] {
          assert s'[i] == s[i] && s'[j] == s[j];
        }
      }
      FilterNoDuplicates(s', p);
    }
  }

  /** No two elements of `s` have the same `f`-value (for rows: the id). */
  predicate DistinctBy<T, K(==)>(s: seq<T>, f: T -> K) {
    forall i, j :: 0 <= i < j < |s| ==> f(s[i]) != f(s[j])
  }

  /** The list without position `k`, position by position. */
  lemma RemovedAt<T>(s: seq<T>, k: int)
    requires 0 <= k < |s|
    ensures |s[..k] + s[k + 1..]| == |s| - 1
    ensures forall i :: 0 <= i < k ==> (s[..k] + s[k + 1..])[i] == s[i]
    ensures forall i :: k < i < |s| ==> (s[..k] + s[k + 1..])[i - 1] == s[i]
  {
  }

  /** Two non-overlapping slices of a list with distinct values share no value. */
  lemma SlicesApart<T, K>(s: seq<T>, f: T -> K, from1: int, to1: int, from2: int, to2: int)
    requires DistinctBy(s, f)
    requires 0 <= from1 && to1 <= from2 && to2 <= |s|
    ensures forall x, y :: from1 <= x < to1 && from2 <= y < to2 ==> f(s[x]) != f(s[y])
  {
  }

  /** Filtering keeps the values of a list distinct. */
  lemma {:induction false} FilterDistinctBy<T, K>(s: seq<T>, p: T -> bool, f: T -> K)
    requires DistinctBy(s, f)
    ensures DistinctBy(Filter(s, p), f)
    decreases |s|
  {
    if |s| > 0 {
      var s' := s[..|s| - 1];
      var x := s[|s| - 1];
      assert DistinctBy(s', f) by {
        forall i, j | 0 <= i < j < |s'| ensures f(s'[i]) != f(s'[j]) {
          assert s'[i] == s[i] && s'[j] == s[j];
        }
      }
      FilterDistinctBy(s', p, f);
      FilterMembers(s', p);
      var r := Filter(s', p);
      forall k | 0 <= k < |r| ensures f(r[k]) != f(x) {
        var m :| 0 <= m < |s'| && s'[m] == r[k];
        assert s[m] == r[k];
      }
    }
  }

  /** Filtering out the one element that fails `p` is removing its position. */
  lemma FilterRemovesOne<T>(s: seq<T>, k: int, p: T -> bool)
    requires 0 <= k < |s| && !p(s[k])
    requires forall i :: 0 <= i < |s| && i != k ==> p(s[i])
    ensures Filter(s, p) == s[..k] + s[k + 1..]
  {
    var front, back := s[..k], s[k + 1..];
    FilterAllFront(s, k, p);
    FilterAllBack(s, k, p);
    assert s == front + [s[k]] + back;
    FilterSkipsOne(front, s[k], back, p);
  }

  lemma FilterAllFront<T>(s: seq<T>, k: int, p: T -> bool)
    requires 0 <= k <= |s|
    requires forall i :: 0 <= i < k ==> p(s[i])
    ensures Filter(s[..k], p) == s[..k]
  {
    var t := s[..k];
    assert forall i :: 0 <= i < |t| ==> t[i] == s[i];
    FilterAll(t, p);
  }

  lemma FilterAllBack<T>(s: seq<T>, k: int, p: T -> bool)
    requires 0 <= k < |s|
    requires forall i :: k < i < |s| ==> p(s[i])
    ensures Filter(s[k + 1..], p) == s[k + 1..]
  {
    var t := s[k + 1..];
    forall i | 0 <= i < |t| ensures p(t[i]) {
      assert t[i] == s[k + 1 + i];
    }
    FilterAll(t, p);
  }

  /** An element that fails the predicate drops out from between two lists. */
  lemma FilterSkipsOne<T>(a: seq<T>, x: T, b: seq<T>, p: T -> bool)
    requires !p(x)
    ensures Filter(a + [x] + b, p) == Filter(a, p) + Filter(b, p)
  {
    FilterConcat(a + [x], b, p);
    FilterConcat(a, [x], p);
    FilterOneFails(x, p);
    assert Filter(a, p) + [] == Filter(a, p);
  }

  lemma FilterOneFails<T>(x: T, p: T -> bool)
    requires !p(x)
    ensures Filter([x], p) == []
  {
    assert [x][..0] == [];
  }

  /** Filtering for a predicate that exactly one position satisfies leaves
      just that element. */
  lemma {:induction false} FilterOnly<T>(s: seq<T>, k: int, p: T -> bool)
    requires 0 <= k < |s| && p(s[k])
    requires forall i :: 0 <= i < |s| && i != k ==> !p(s[i])
    ensures Filter(s, p) == [s[k]]
    decreases |s|
  {
    var s' := s[..|s| - 1];
    if k == |s| - 1 {
      assert forall x :: x in s' ==> !p(x);
      FilterNone(s', p);
    } else {
      assert forall i :: 0 <= i < |s'| && i != k ==> !p(s'[i]);
      FilterOnly(s', k, p);
    }
  }
}
