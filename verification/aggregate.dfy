/**
 The caption aggregator: collapses the per-frame captions of one video into a
 single caption. A caption that occurs often enough wins outright; otherwise
 the first few distinct captions are joined with " / ".
 */
module Captions {
  import opened Seqs

  type Caption = string

  /** Separator placed between captions in the fallback summary. */
  const Separator: string := " / "

  /** The fallback summary joins at most this many distinct captions. */
  const FallbackLimit: nat := 5

  /** Least count that can ever make a caption the majority answer. */
  const MinMajority: nat := 2

  /** Count a caption needs among `n` captions to win outright: `max(2, n // 3)`. */
  function Threshold(n: nat): (t: nat)
    ensures t >= MinMajority
    ensures t * 3 <= Max(3 * MinMajority, n)
    ensures n >= 3 * MinMajority ==> n < (t + 1) * 3
  {
    if n / 3 >= MinMajority then n / 3 else MinMajority
  }

  /**
   `m` is what `Counter(s).most_common(1)` reports: a caption of `s` with the
   highest count, and of those the one seen first (every caption seen before
   it is strictly less frequent).
   */
  predicate IsMostCommon(s: seq<Caption>, m: Caption) {
    && m in s
    && (forall k :: 0 <= k < |s| ==> Count(s, s[k]) <= Count(s, m))
    && (forall k :: 0 <= k < FirstIndex(s, m) ==> Count(s, s[k]) < Count(s, m))
  }

  /**
   Python's `max(keys, key=count)` as a scan: `best` is the position of the
   running maximum among `keys[..next]`; a later key replaces it only when its
   count is strictly greater, so ties keep the earlier key.
   */
  function ArgMaxFrom(s: seq<Caption>, keys: seq<Caption>, best: nat, next: nat): (i: nat)
    requires best < next <= |keys|
    requires forall k :: 0 <= k < next ==> Count(s, keys[k]) <= Count(s, keys[best])
    requires forall k :: 0 <= k < best ==> Count(s, keys[k]) < Count(s, keys[best])
    ensures i < |keys|
    ensures forall k :: 0 <= k < |keys| ==> Count(s, keys[k]) <= Count(s, keys[i])
    ensures forall k :: 0 <= k < i ==> Count(s, keys[k]) < Count(s, keys[i])
    decreases |keys| - next
  {
    if next == |keys| then best
    else if Count(s, keys[next]) > Count(s, keys[best]) then ArgMaxFrom(s, keys, next, next + 1)
    else ArgMaxFrom(s, keys, best, next + 1)
  }

  /**
   `Counter(s).most_common(1)[0][0]`: the counter lists the distinct captions
   in order of first appearance and the single most common entry is picked
   by `max` over that listing.
   */
  function MostCommon(s: seq<Caption>): (m: Caption)
    requires |s| > 0
    ensures IsMostCommon(s, m)
  {
    var keys := Dedup(s);
    assert s[0] in keys;
    var i := ArgMaxFrom(s, keys, 0, 1);
    var m := keys[i];
    assert forall k :: 0 <= k < |s| ==> Count(s, s[k]) <= Count(s, m) by {
      forall k | 0 <= k < |s| ensures Count(s, s[k]) <= Count(s, m) {
        assert s[k] in keys;
      }
    }
    assert forall k :: 0 <= k < FirstIndex(s, m) ==> Count(s, s[k]) < Count(s, m) by {
      forall k | 0 <= k < FirstIndex(s, m) ensures Count(s, s[k]) < Count(s, m) {
        assert s[k] in keys;
        var j :| 0 <= j < |keys| && keys[j] == s[k];
        assert FirstIndex(s, keys[j]) <= k;
        FirstAppearanceOrderMonotone(s, keys, j, i);
      }
    }
    m
  }

  /** The most common caption is determined by its description alone. */
  lemma MostCommonUnique(s: seq<Caption>, m: Caption)
    requires IsMostCommon(s, m)
    ensures m == MostCommon(s)
  {
    var m' := MostCommon(s);
    SeenNoLater(s, m, m');
    SeenNoLater(s, m', m);
    assert m == s[FirstIndex(s, m)] == s[FirstIndex(s, m')] == m';
  }

  /** Of two captions that both fit the description, neither is seen before the other. */
  lemma SeenNoLater(s: seq<Caption>, m: Caption, m': Caption)
    requires IsMostCommon(s, m) && IsMostCommon(s, m')
    ensures FirstIndex(s, m) <= FirstIndex(s, m')
  {
    var i, i' := FirstIndex(s, m), FirstIndex(s, m');
    assert Count(s, s[i]) <= Count(s, m');
    assert Count(s, s[i']) <= Count(s, m);
    assert s[i] == m;
  }

  /** Total number of characters in `parts`. */
  function TotalLength(parts: seq<string>): nat {
    if |parts| == 0 then 0 else |parts[0]| + TotalLength(parts[1..])
  }

  /** Python's `sep.join(parts)`. */
  function Join(parts: seq<string>, sep: string): (r: string)
    ensures |parts| > 0 ==> |r| == TotalLength(parts) + (|parts| - 1) * |sep|
    ensures |parts| == 0 ==> r == ""
  {
    if |parts| == 0 then ""
    else if |parts| == 1 then parts[0]
    else parts[0] + sep + Join(parts[1..], sep)
  }

  /** Where part `k` starts inside `Join(parts, sep)`. */
  function Offset(parts: seq<string>, sep: string, k: nat): nat
    requires k <= |parts|
  {
    TotalLength(parts[..k]) + k * |sep|
  }

  /** Offsets in `parts` are those in its tail, shifted by the first part and a separator. */
  lemma OffsetTail(parts: seq<string>, sep: string, k: nat)
    requires 0 < k <= |parts|
    ensures Offset(parts, sep, k) == |parts[0]| + |sep| + Offset(parts[1..], sep, k - 1)
  {
    assert parts[..k][1..] == parts[1..][..k - 1];
  }

  lemma {:induction false} TotalLengthAppend(a: seq<string>, b: seq<string>)
    ensures TotalLength(a + b) == TotalLength(a) + TotalLength(b)
  {
    if |a| > 0 {
      TotalLengthAppend(a[1..], b);
      assert (a + b)[1..] == a[1..] + b;
    } else {
      assert a + b == b;
    }
  }

  /** Consecutive offsets are one part and one separator apart. */
  lemma OffsetNext(parts: seq<string>, sep: string, k: nat)
    requires k < |parts|
    ensures Offset(parts, sep, k + 1) == Offset(parts, sep, k) + |parts[k]| + |sep|
  {
    assert parts[..k + 1] == parts[..k] + [parts[k]];
    TotalLengthAppend(parts[..k], [parts[k]]);
    assert TotalLength([parts[k]]) == |parts[k]| by { assert [parts[k]][1..] == []; }
  }

  /**
   The joined string is made of the parts, in order, with exactly one
   separator between neighbours and nothing else.
   */
  lemma {:induction false} JoinSegments(parts: seq<string>, sep: string, k: nat)
    requires k < |parts|
    ensures Offset(parts, sep, k) + |parts[k]| <= |Join(parts, sep)|
    ensures Join(parts, sep)[Offset(parts, sep, k)..Offset(parts, sep, k) + |parts[k]|] == parts[k]
    ensures k + 1 < |parts| ==>
      Offset(parts, sep, k + 1) == Offset(parts, sep, k) + |parts[k]| + |sep| <= |Join(parts, sep)| &&
      Join(parts, sep)[Offset(parts, sep, k) + |parts[k]|..Offset(parts, sep, k + 1)] == sep
    decreases k
  {
    var r := Join(parts, sep);
    OffsetNext(parts, sep, k);
    assert Offset(parts, sep, 0) == 0 by { assert parts[..0] == []; }
    assert TotalLength(parts[..1]) == |parts[0]| by { assert parts[..1][1..] == []; }
    if |parts| == 1 {
      assert r == parts[0];
    } else {
      var tail := parts[1..];
      var head := parts[0] + sep;
      assert r == head + Join(tail, sep);
      if k == 0 {
        assert r[..|parts[0]|] == parts[0];
        assert r[|parts[0]|..|head|] == sep;
      } else {
        JoinSegments(tail, sep, k - 1);
        OffsetTail(parts, sep, k);
        var o := Offset(tail, sep, k - 1);
        assert tail[k - 1] == parts[k];
        assert r[|head| + o..|head| + o + |parts[k]|] == Join(tail, sep)[o..o + |parts[k]|];
        if k + 1 < |parts| {
          OffsetTail(parts, sep, k + 1);
          var o' := Offset(tail, sep, k);
          assert r[|head| + o + |parts[k]|..|head| + o'] == Join(tail, sep)[o + |parts[k]|..o'];
        }
      }
    }
  }

  /** `aggregate_captions`. */
  function Aggregate(captions: seq<Caption>): (r: string)
    ensures captions == [] ==> r == ""
    ensures forall m :: IsMostCommon(captions, m) && Count(captions, m) >= Threshold(|captions|) ==> r == m
  {
    if |captions| == 0 then ""
    else
      var m := MostCommon(captions);
      assert forall m' :: IsMostCommon(captions, m') ==> m' == m by {
        forall m' | IsMostCommon(captions, m') ensures m' == m {
          MostCommonUnique(captions, m');
        }
      }
      if Count(captions, m) >= Threshold(|captions|) then m
      else
        var unique := Dedup(captions);
        Join(Take(unique, FallbackLimit), Separator)
  }

  /**
   Without a majority the answer is the " / "-join of the first five distinct
   captions, taken in order of first appearance, each once; `d` is any listing
   of the distinct captions in that order, and it has one entry per distinct
   caption.
   */
  lemma AggregateFallback(captions: seq<Caption>, d: seq<Caption>)
    requires |captions| > 0
    requires forall k :: 0 <= k < |captions| ==> Count(captions, captions[k]) < Threshold(|captions|)
    requires forall x :: x in d <==> x in captions
    requires InFirstAppearanceOrder(captions, d)
    ensures |d| == |set x | x in captions|
    ensures Aggregate(captions) == Join(Take(d, FallbackLimit), Separator)
  {
    var m := MostCommon(captions);
    assert Count(captions, captions[FirstIndex(captions, m)]) < Threshold(|captions|);
    FirstAppearanceOrderUnique(captions, Dedup(captions), d);
    DedupLength(captions);
  }

  /** A caption occurring in a sequence without repetitions occurs exactly once. */
  lemma {:induction false} CountDistinct(s: seq<Caption>, x: Caption)
    requires Distinct(s) && x in s
    ensures Count(s, x) == 1
  {
    if s[0] == x {
      assert x !in s[1..];
    } else {
      assert Distinct(s[1..]);
      CountDistinct(s[1..], x);
    }
  }

  /**
   When no caption repeats, nothing reaches the threshold and the answer is
   the join of the first five captions in input order.
   */
  lemma AggregateAllDistinct(captions: seq<Caption>)
    requires |captions| > 0 && Distinct(captions)
    ensures Aggregate(captions) == Join(Take(captions, FallbackLimit), Separator)
  {
    forall k | 0 <= k < |captions| ensures Count(captions, captions[k]) < Threshold(|captions|) {
      CountDistinct(captions, captions[k]);
    }
    forall k | 0 <= k < |captions| ensures FirstIndex(captions, captions[k]) == k {
      FirstIndexOfDistinct(captions, k);
    }
    AggregateFallback(captions, captions);
  }

  /** A single caption is returned unchanged. */
  lemma AggregateSingle(c: Caption)
    ensures Aggregate([c]) == c
  {
    AggregateAllDistinct([c]);
  }

  // The example lemmas below take the caption list as a parameter pinned by
  // `requires`: on a literal list the verifier unfolds the recursive
  // functions past its resource limit.

  /** Three identical captions out of four win outright. */
  lemma ExampleMajority(s: seq<Caption>)
    requires s == ["cat on a mat", "cat on a mat", "cat on a mat", "dog in a yard"]
    ensures Aggregate(s) == "cat on a mat"
  {
    CountIsMultiplicity(s, "cat on a mat");
    CountIsMultiplicity(s, "dog in a yard");
    assert Count(s, "cat on a mat") == 3;
    assert Count(s, "dog in a yard") == 1;
    assert IsMostCommon(s, "cat on a mat");
  }

  /** The " / "-join of three captions. */
  lemma JoinThree(s: seq<Caption>, a: Caption, b: Caption, c: Caption)
    requires s == [a, b, c]
    ensures Join(s, Separator) == a + " / " + b + " / " + c
  {
    assert s[1..] == [b, c] && s[1..][1..] == [c];
    assert Join([c], Separator) == c;
    assert Join([b, c], Separator) == b + Separator + c;
    assert Join(s, Separator) == a + Separator + (b + Separator + c);
  }

  /** Three different captions fall back to their join. */
  lemma ExampleFallback(s: seq<Caption>)
    requires s == ["a", "b", "c"]
    ensures Aggregate(s) == "a / b / c"
  {
    assert Distinct(s);
    AggregateAllDistinct(s);
    FallbackJoinThree(s);
  }

  /** The summary text of the three-caption example. */
  lemma FallbackJoinThree(s: seq<Caption>)
    requires s == ["a", "b", "c"]
    ensures Join(Take(s, FallbackLimit), Separator) == "a / b / c"
  {
    assert Take(s, FallbackLimit) == s;
    JoinThree(s, "a", "b", "c");
  }

  /** The seven-caption example: how often each caption occurs. */
  lemma SevenCaptionFacts(s: seq<Caption>)
    requires s == ["x", "x", "y", "y", "y", "z", "w"]
    ensures Count(s, "x") == 2 && Count(s, "y") == 3 && Count(s, "z") == 1 && Count(s, "w") == 1
  {
    CountIsMultiplicity(s, "x");
    CountIsMultiplicity(s, "y");
    CountIsMultiplicity(s, "z");
    CountIsMultiplicity(s, "w");
  }

  /** In the seven-caption example "y" is the most common caption. */
  lemma LaterWinnerCounts(s: seq<Caption>)
    requires s == ["x", "x", "y", "y", "y", "z", "w"]
    ensures IsMostCommon(s, "y") && Count(s, "y") == 3
  {
    SevenCaptionFacts(s);
    assert s[0] == "x" && s[1] == "x" && s[2] == "y";
    assert FirstIndex(s, "y") == 2;
    assert forall k :: 0 <= k < |s| ==> s[k] == "x" || s[k] == "y" || s[k] == "z" || s[k] == "w";
  }

  /** With seven captions the threshold is two, and the later but more frequent caption wins. */
  lemma ExampleLaterWinner(s: seq<Caption>)
    requires s == ["x", "x", "y", "y", "y", "z", "w"]
    ensures Aggregate(s) == "y"
  {
    LaterWinnerCounts(s);
    assert Threshold(|s|) == 2;
  }
}
