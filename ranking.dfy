/**
 * Frequency re-indexing of the subword buckets (CompactDictionary::writeCompact):
 * the pairs (count, bucket) are sorted with std::greater, so the hottest
 * bucket gets rank 0, and reverse_sub_map sends each raw bucket to its rank.
 */
module Ranking {
  import opened Basics

  /** (sub_count[b], b), as the std::pair held in ord_subs. */
  type Pair = (int, int)

  /** std::greater on std::pair<int32_t, int32_t>: lexicographic, count first. */
  predicate Greater(a: Pair, b: Pair)
  {
    a.0 > b.0 || (a.0 == b.0 && a.1 > b.1)
  }

  ghost predicate StrictlyDecreasing(s: seq<Pair>)
  {
    forall i, j :: 0 <= i < j < |s| ==> Greater(s[i], s[j])
  }

  /** ord_subs before the sort: bucket b holds its count. */
  function Pairs(counts: seq<int>): (r: seq<Pair>)
    ensures |r| == |counts|
    ensures forall b :: 0 <= b < |counts| ==> r[b] == (counts[b], b)
  {
    seq(|counts|, b requires 0 <= b < |counts| => (counts[b], b))
  }

  /** Insert x into a sequence sorted by Greater. */
  function Insert(x: Pair, s: seq<Pair>): (r: seq<Pair>)
    ensures multiset(r) == multiset(s) + multiset{x}
    ensures |r| == |s| + 1
  {
    if s == [] then [x]
    else if Greater(s[0], x) then
      assert s == [s[0]] + s[1..];
      [s[0]] + Insert(x, s[1..])
    else [x] + s
  }

  /** The sorted order of the list (std::list::sort with std::greater). */
  function SortDescending(s: seq<Pair>): (r: seq<Pair>)
    ensures multiset(r) == multiset(s)
    ensures |r| == |s|
  {
    if s == [] then []
    else
      assert s == [s[0]] + s[1..];
      Insert(s[0], SortDescending(s[1..]))
  }

  /** ord_subs after the sort. */
  function Ranked(counts: seq<int>): seq<Pair>
  {
    SortDescending(Pairs(counts))
  }

  lemma {:induction false} InsertDecreasing(x: Pair, s: seq<Pair>)
    requires StrictlyDecreasing(s) && x !in s
    ensures StrictlyDecreasing(Insert(x, s))
    decreases |s|
  {
    if s != [] && Greater(s[0], x) {
      assert s == [s[0]] + s[1..];
      InsertDecreasing(x, s[1..]);
      var r := Insert(x, s[1..]);
      forall k | 0 <= k < |r|
        ensures Greater(s[0], r[k])
      {
        assert r[k] in multiset(r);
        if r[k] != x {
          assert r[k] in s[1..];
        }
      }
    } else if s != [] {
      assert Greater(x, s[0]) by {
        assert x != s[0];
      }
    }
  }

  ghost predicate Distinct(s: seq<Pair>)
  {
    forall i, j :: 0 <= i < j < |s| ==> s[i] != s[j]
  }

  lemma {:induction false} SortDecreasing(s: seq<Pair>)
    requires Distinct(s)
    ensures StrictlyDecreasing(SortDescending(s))
    decreases |s|
  {
    if s != [] {
      assert Distinct(s[1..]);
      SortDecreasing(s[1..]);
      var t := SortDescending(s[1..]);
      assert s[0] !in multiset(s[1..]) by {
        forall j | 0 <= j < |s[1..]|
          ensures s[1..][j] != s[0]
        {
          assert s[1..][j] == s[j + 1];
        }
      }
      InsertDecreasing(s[0], t);
    }
  }

  /**
   * After the sort ord_subs is strictly decreasing as (count, bucket) pairs
   * (counts non-increasing, ties broken by the larger bucket first) and holds
   * exactly the pairs it started with.
   */
  lemma RankedIsSorted(counts: seq<int>)
    ensures StrictlyDecreasing(Ranked(counts))
    ensures multiset(Ranked(counts)) == multiset(Pairs(counts))
    ensures forall i, j :: 0 <= i < j < |Ranked(counts)| ==>
      Ranked(counts)[i].0 >= Ranked(counts)[j].0 &&
      (Ranked(counts)[i].0 == Ranked(counts)[j].0 ==> Ranked(counts)[i].1 > Ranked(counts)[j].1)
  {
    SortDecreasing(Pairs(counts));
  }

  /** In a strictly decreasing sequence the head precedes every other element. */
  lemma HeadIsGreatest(a: seq<Pair>, x: Pair)
    requires StrictlyDecreasing(a) && x in a && x != a[0]
    ensures Greater(a[0], x)
  {
    var k :| 0 <= k < |a| && a[k] == x;
  }

  /** The sort has one possible result: two strictly decreasing orderings of the same pairs are equal. */
  lemma {:induction false} SortedUnique(a: seq<Pair>, b: seq<Pair>)
    requires StrictlyDecreasing(a) && StrictlyDecreasing(b)
    requires multiset(a) == multiset(b)
    ensures a == b
    decreases |a|
  {
    if a == [] {
      assert |b| == |multiset(b)|;
    } else {
      assert a[0] in multiset(b) && b[0] in multiset(a) by {
        assert a[0] in multiset(a);
        assert |b| == |multiset(b)|;
        assert b[0] in multiset(b);
      }
      if a[0] != b[0] {
        HeadIsGreatest(b, a[0]);
        HeadIsGreatest(a, b[0]);
        assert false;
      }
      assert a == [a[0]] + a[1..] && b == [b[0]] + b[1..];
      assert multiset(a[1..]) == multiset(a) - multiset{a[0]};
      assert multiset(b[1..]) == multiset(b) - multiset{a[0]};
      SortedUnique(a[1..], b[1..]);
    }
  }

  // ---------------------------------------------------------------------
  // reverse_sub_map

  /** The position of bucket b in ord, if any. */
  function Position(ord: seq<Pair>, b: int): (r: Option<nat>)
    ensures r.Some? ==> r.value < |ord| && ord[r.value].1 == b
    ensures r.None? ==> forall k :: 0 <= k < |ord| ==> ord[k].1 != b
  {
    if ord == [] then None
    else if ord[0].1 == b then Some(0)
    else match Position(ord[1..], b)
      case Some(k) => Some(k + 1)
      case None => None
  }

  /** reverse_sub_map after the loop: the rank of each bucket, 0 for a bucket not in ord. */
  function ReverseSubMap(ord: seq<Pair>, n: nat): (r: seq<int>)
    ensures |r| == n
  {
    seq(n, b requires 0 <= b < n => match Position(ord, b) case Some(k) => k case None => 0)
  }

  ghost predicate BucketsDistinct(ord: seq<Pair>)
  {
    forall i, j :: 0 <= i < j < |ord| ==> ord[i].1 != ord[j].1
  }

  lemma PositionOf(ord: seq<Pair>, k: nat)
    requires BucketsDistinct(ord) && k < |ord|
    ensures Position(ord, ord[k].1) == Some(k)
  {
  }

  /** The loop `reverse_sub_map[it->second] = rit` over ord_subs. */
  method BuildReverseSubMap(ord: seq<Pair>, n: nat) returns (rsm: seq<int>)
    requires forall k :: 0 <= k < |ord| ==> 0 <= ord[k].1 < n
    requires BucketsDistinct(ord)
    ensures rsm == ReverseSubMap(ord, n)
  {
    var a := new int[n](_ => 0);
    var rit := 0;
    while rit < |ord|
      invariant 0 <= rit <= |ord|
      invariant forall k :: 0 <= k < rit ==> a[ord[k].1] == k
      invariant forall b :: 0 <= b < n && (forall k :: 0 <= k < rit ==> ord[k].1 != b) ==> a[b] == 0
    {
      a[ord[rit].1] := rit;
      rit := rit + 1;
    }
    rsm := a[..];
    forall b | 0 <= b < n
      ensures rsm[b] == ReverseSubMap(ord, n)[b]
    {
      match Position(ord, b)
      case Some(k) =>
        PositionOf(ord, k);
      case None =>
    }
  }

  /**
   * reverse_sub_map inverts the sort: for every raw bucket b < n it gives a
   * rank in [0, n) at which ord_subs holds bucket b, so it is a permutation
   * of [0, n).
   */
  lemma ReverseSubMapInverts(counts: seq<int>)
    ensures forall b :: 0 <= b < |counts| ==>
      var r := ReverseSubMap(Ranked(counts), |counts|)[b];
      0 <= r < |counts| && Ranked(counts)[r] == (counts[b], b)
    ensures forall b1, b2 :: 0 <= b1 < b2 < |counts| ==>
      ReverseSubMap(Ranked(counts), |counts|)[b1] != ReverseSubMap(Ranked(counts), |counts|)[b2]
  {
    var ord := Ranked(counts);
    var n := |counts|;
    forall b | 0 <= b < n
      ensures var r := ReverseSubMap(ord, n)[b]; 0 <= r < n && ord[r] == (counts[b], b)
    {
      assert Pairs(counts)[b] in multiset(ord);
      var k :| 0 <= k < |ord| && ord[k] == (counts[b], b);
      match Position(ord, b)
      case Some(p) =>
        assert ord[p] in multiset(Pairs(counts));
      case None =>
        assert false;
    }
  }

  /** Facts about Ranked that the encoder needs to call BuildReverseSubMap. */
  lemma RankedBuckets(counts: seq<int>)
    ensures |Ranked(counts)| == |counts|
    ensures forall k :: 0 <= k < |counts| ==>
      0 <= Ranked(counts)[k].1 < |counts| && Ranked(counts)[k] == (counts[Ranked(counts)[k].1], Ranked(counts)[k].1)
    ensures BucketsDistinct(Ranked(counts))
  {
    var ord := Ranked(counts);
    RankedIsSorted(counts);
    forall k | 0 <= k < |ord|
      ensures 0 <= ord[k].1 < |counts| && ord[k] == (counts[ord[k].1], ord[k].1)
    {
      assert ord[k] in multiset(Pairs(counts));
    }
  }
}
