/**
 Sequence helpers standing in for the Python built-ins that the caption tool
 leans on: `collections.Counter` lookups (Count), the first position of a value
 (FirstIndex), `list(dict.fromkeys(xs))` (Dedup), the slice `xs[:n]` (Take) and
 list filtering (Filter).
 */
module Seqs {

  /** No value occurs twice. */
  predicate Distinct<T(==)>(s: seq<T>) {
    forall i, j :: 0 <= i < j < |s| ==> s[i] != s[j]
  }

  predicate StrictlyIncreasing(s: seq<int>) {
    forall i, j :: 0 <= i < j < |s| ==> s[i] < s[j]
  }

  function Min(a: int, b: int): int {
    if a <= b then a else b
  }

  function Max(a: int, b: int): int {
    if a >= b then a else b
  }

  /** Number of occurrences of `x` in `s`: what `Counter(s)[x]` holds. */
  function Count<T(==)>(s: seq<T>, x: T): (n: nat)
    ensures n <= |s|
    ensures n > 0 <==> x in s
  {
    if |s| == 0 then 0
    else (if s[0] == x then 1 else 0) + Count(s[1..], x)
  }

  /** `Count` agrees with the multiplicity of `x` in the multiset of `s`. */
  lemma {:induction false} CountIsMultiplicity<T>(s: seq<T>, x: T)
    ensures Count(s, x) == multiset(s)[x]
  {
    if |s| > 0 {
      CountIsMultiplicity(s[1..], x);
      assert s == [s[0]] + s[1..];
      assert multiset(s) == multiset([s[0]]) + multiset(s[1..]);
    }
  }

  /** Position of the first occurrence of `x` in `s`. */
  function FirstIndex<T(==)>(s: seq<T>, x: T): (i: nat)
    requires x in s
    ensures i < |s| && s[i] == x
    ensures forall k :: 0 <= k < i ==> s[k] != x
  {
    if s[0] == x then 0 else 1 + FirstIndex(s[1..], x)
  }

  /** A first occurrence inside a prefix is the first occurrence in the whole sequence. */
  lemma FirstIndexInPrefix<T>(s: seq<T>, n: nat, x: T)
    requires n <= |s| && x in s[..n]
    ensures FirstIndex(s, x) == FirstIndex(s[..n], x)
  {
    var i := FirstIndex(s[..n], x);
    assert s[i] == x;
    forall k | 0 <= k < i ensures s[k] != x {
      assert s[..n][k] == s[k];
    }
  }

  /** In a sequence without repetitions every element sits at its first occurrence. */
  lemma FirstIndexOfDistinct<T>(s: seq<T>, k: nat)
    requires Distinct(s) && k < |s|
    ensures FirstIndex(s, s[k]) == k
  {
  }

  /**
   The values of `s` in order of first appearance, each once: Python's
   `list(dict.fromkeys(s))`. The sequence is grown one element at a time from
   the left, the way the dictionary is filled.
   */
  function Dedup<T(==,!new)>(s: seq<T>): (d: seq<T>)
    ensures Distinct(d)
    ensures forall x :: x in d <==> x in s
    ensures InFirstAppearanceOrder(s, d)
  {
    if |s| == 0 then []
    else
      var p := s[..|s| - 1];
      var last := s[|s| - 1];
      var d := Dedup(p);
      assert forall x :: x in s <==> x in p || x == last by {
        assert s == p + [last];
      }
      forall k | 0 <= k < |d|
        ensures FirstIndex(s, d[k]) == FirstIndex(p, d[k])
      {
        FirstIndexInPrefix(s, |s| - 1, d[k]);
      }
      if last in d then d
      else
        assert FirstIndex(s, last) == |s| - 1;
        d + [last]
  }

  /** Python's `s[:n]` for a non-negative `n`: the first `n` values, or all of them. */
  function Take<T>(s: seq<T>, n: nat): (t: seq<T>)
    ensures |t| == Min(n, |s|)
    ensures forall k :: 0 <= k < |t| ==> t[k] == s[k]
  {
    if n < |s| then s[..n] else s
  }

  /** Keeps, in order, the values that satisfy `p`. */
  function Filter<T(!new)>(s: seq<T>, p: T -> bool): (r: seq<T>)
    ensures |r| <= |s|
    ensures forall x :: x in r <==> x in s && p(x)
  {
    if |s| == 0 then []
    else if p(s[0]) then [s[0]] + Filter(s[1..], p)
    else Filter(s[1..], p)
  }

  /** Filtering one more value either keeps it at the end or leaves the result alone. */
  lemma {:induction false} FilterSnoc<T(!new)>(s: seq<T>, x: T, p: T -> bool)
    ensures Filter(s + [x], p) == Filter(s, p) + (if p(x) then [x] else [])
  {
    if |s| > 0 {
      assert (s + [x])[1..] == s[1..] + [x];
      FilterSnoc(s[1..], x, p);
    } else {
      assert s + [x] == [x];
    }
  }

  /** When no value qualifies, nothing is kept. */
  lemma {:induction false} FilterNone<T(!new)>(s: seq<T>, p: T -> bool)
    requires forall k :: 0 <= k < |s| ==> !p(s[k])
    ensures Filter(s, p) == []
  {
    if |s| > 0 {
      FilterNone(s[1..], p);
    }
  }

  /** Filtering keeps an increasing sequence increasing. */
  lemma {:induction false} FilterIncreasing(s: seq<int>, p: int -> bool)
    requires StrictlyIncreasing(s)
    ensures StrictlyIncreasing(Filter(s, p))
  {
    if |s| > 0 {
      var tail := s[1..];
      assert StrictlyIncreasing(tail);
      FilterIncreasing(tail, p);
      var ft := Filter(tail, p);
      forall x | x in ft ensures s[0] < x {
        var k :| 0 <= k < |tail| && tail[k] == x;
        assert s[k + 1] == x;
      }
      if p(s[0]) {
        var r := [s[0]] + ft;
        forall i, j | 0 <= i < j < |r| ensures r[i] < r[j] {
          assert r[j] == ft[j - 1] && r[j] in ft;
          if i > 0 {
            assert r[i] == ft[i - 1];
          }
        }
      }
    }
  }

  /** A sequence without repetitions has as many distinct values as positions. */
  lemma {:induction false} DistinctCardinality<T>(s: seq<T>)
    requires Distinct(s)
    ensures |set x | x in s| == |s|
  {
    if |s| > 0 {
      var tail := s[1..];
      assert Distinct(tail);
      DistinctCardinality(tail);
      assert (set x | x in s) == {s[0]} + (set x | x in tail) by {
        assert s == [s[0]] + tail;
      }
      assert s[0] !in tail;
    }
  }

  /** `Dedup` holds one entry per distinct value. */
  lemma DedupLength<T(!new)>(s: seq<T>)
    ensures |Dedup(s)| == |set x | x in s|
  {
    var d := Dedup(s);
    DistinctCardinality(d);
    assert (set x | x in d) == (set x | x in s);
  }

  /** `a` is ordered strictly by first appearance in `s`. */
  predicate InFirstAppearanceOrder<T(==)>(s: seq<T>, a: seq<T>)
    requires forall x :: x in a ==> x in s
  {
    forall i, j :: 0 <= i < j < |a| ==> FirstIndex(s, a[i]) < FirstIndex(s, a[j])
  }

  /** Positions in such a sequence follow first appearances in `s`. */
  lemma FirstAppearanceOrderMonotone<T>(s: seq<T>, a: seq<T>, i: nat, j: nat)
    requires forall y :: y in a ==> y in s
    requires InFirstAppearanceOrder(s, a)
    requires i < |a| && j < |a|
    requires FirstIndex(s, a[i]) < FirstIndex(s, a[j])
    ensures i < j
  {
  }

  /** The head of such a sequence is the value that appears first. */
  lemma HeadAppearsFirst<T>(s: seq<T>, a: seq<T>, x: T)
    requires forall y :: y in a ==> y in s
    requires InFirstAppearanceOrder(s, a)
    requires |a| > 0 && x in a
    ensures FirstIndex(s, a[0]) <= FirstIndex(s, x)
  {
    var k :| 0 <= k < |a| && a[k] == x;
    assert k == 0 || FirstIndex(s, a[0]) < FirstIndex(s, a[k]);
  }

  /**
   Two sequences with the same values, each ordered strictly by first
   appearance in `s`, are the same sequence.
   */
  lemma {:induction false} FirstAppearanceOrderUnique<T>(s: seq<T>, a: seq<T>, b: seq<T>)
    requires forall x :: x in a ==> x in s
    requires forall x :: x in a <==> x in b
    requires InFirstAppearanceOrder(s, a)
    requires InFirstAppearanceOrder(s, b)
    ensures a == b
    decreases |a|
  {
    assert |a| > 0 ==> a[0] in b;
    assert |b| > 0 ==> b[0] in a;
    if |a| > 0 && |b| > 0 {
      HeadAppearsFirst(s, a, b[0]);
      HeadAppearsFirst(s, b, a[0]);
      assert a[0] == s[FirstIndex(s, a[0])] == s[FirstIndex(s, b[0])] == b[0];
      var ta, tb := a[1..], b[1..];
      forall x | x in ta ensures x in tb {
        var k :| 0 <= k < |ta| && ta[k] == x;
        assert a[k + 1] == x && FirstIndex(s, a[0]) < FirstIndex(s, x);
        assert x in a;
        assert x in b;
        var m :| 0 <= m < |b| && b[m] == x;
        assert m > 0 && tb[m - 1] == x;
      }
      forall x | x in tb ensures x in ta {
        var k :| 0 <= k < |tb| && tb[k] == x;
        assert b[k + 1] == x && FirstIndex(s, b[0]) < FirstIndex(s, x);
        assert x in b;
        assert x in a;
        var m :| 0 <= m < |a| && a[m] == x;
        assert m > 0 && ta[m - 1] == x;
      }
      FirstAppearanceOrderUnique(s, ta, tb);
      assert a == [a[0]] + ta && b == [b[0]] + tb;
    }
  }
}
