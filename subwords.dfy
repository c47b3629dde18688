/**
 * The character n-gram rule shared by the encoder
 * (CompactDictionary::getSubwordsFrequency) and the reader
 * (Dictionary::computeSubwords).  A word is a byte string in UTF-8; a byte
 * of the form 10xxxxxx is a continuation byte (section 3 of RFC 3629) and
 * never starts a code point.  An n-gram is a run of n whole code points
 * starting at a code-point start; those with n < minn, and single code
 * points at the very start or the very end of the word, are not used.
 *
 * Ngrams(w, minn, maxn) lists the used n-grams in the order both loops visit
 * them; NgramsExact characterizes that list independently of the loops.
 */
module Subwords {
  import opened Basics
  import opened Hashing

  /** `(b & 0xC0) == 0x80`: the top two bits of b are 10. */
  predicate IsContinuation(b: byte)
  {
    0x80 <= b < 0xC0
  }

  /** The range test is the source's mask test. */
  lemma ContinuationIsMask(b: byte)
    ensures IsContinuation(b) <==> (b as bv8) & 0xC0 == 0x80
  {
  }

  /** The first position at or after k that is the end of w or not a continuation byte. */
  function SkipContinuation(w: seq<byte>, k: nat): (e: nat)
    requires k <= |w|
    ensures k <= e <= |w|
    ensures e == |w| || !IsContinuation(w[e])
    ensures forall t :: k <= t < e ==> IsContinuation(w[t])
    decreases |w| - k
  {
    if k < |w| && IsContinuation(w[k]) then SkipContinuation(w, k + 1) else k
  }

  /** The n-gram w[start..end], made of n code points. */
  datatype Ngram = Ngram(start: nat, end: nat, n: nat)

  /** The test at the end of the inner loop (`n >= minn && !(n == 1 && (i == 0 || j == size))`). */
  predicate Admitted(w: seq<byte>, minn: nat, g: Ngram)
  {
    g.n >= minn && !(g.n == 1 && (g.start == 0 || g.end == |w|))
  }

  /** The inner loop from state (j, n): one code point more per round, while j < |w| and n <= maxn. */
  function Grow(w: seq<byte>, i: nat, j: nat, n: nat, minn: nat, maxn: nat): seq<Ngram>
    requires i <= j <= |w|
    decreases |w| - j
  {
    if j < |w| && n <= maxn then
      var e := SkipContinuation(w, j + 1);
      var g := Ngram(i, e, n);
      (if Admitted(w, minn, g) then [g] else []) + Grow(w, i, e, n + 1, minn, maxn)
    else
      []
  }

  /** The outer loop from position i. */
  function NgramsFrom(w: seq<byte>, i: nat, minn: nat, maxn: nat): seq<Ngram>
    requires i <= |w|
    decreases |w| - i
  {
    if i == |w| then []
    else (if IsContinuation(w[i]) then [] else Grow(w, i, i, 1, minn, maxn)) + NgramsFrom(w, i + 1, minn, maxn)
  }

  /** The n-grams of w that both loops use, in visiting order. */
  function Ngrams(w: seq<byte>, minn: nat, maxn: nat): seq<Ngram>
  {
    NgramsFrom(w, 0, minn, maxn)
  }

  /** The number of code points (bytes that are not continuation bytes) in w[a..b]. */
  function CodePoints(w: seq<byte>, a: nat, b: nat): nat
    requires a <= b <= |w|
    decreases b - a
  {
    if a == b then 0 else CodePoints(w, a, b - 1) + (if IsContinuation(w[b - 1]) then 0 else 1)
  }

  /** Position k of w is where a code point starts, or the end of w. */
  ghost predicate IsBoundary(w: seq<byte>, k: nat)
  {
    k == |w| || (k < |w| && !IsContinuation(w[k]))
  }

  /** The n-gram rule stated without the loops. */
  ghost predicate ValidNgram(w: seq<byte>, minn: nat, maxn: nat, g: Ngram)
  {
    && g.start < g.end <= |w|
    && !IsContinuation(w[g.start])
    && IsBoundary(w, g.end)
    && CodePoints(w, g.start, g.end) == g.n
    && 1 <= g.n <= maxn
    && Admitted(w, minn, g)
  }

  // ---------------------------------------------------------------------
  // Counting code points

  lemma {:induction false} CodePointsSplit(w: seq<byte>, a: nat, b: nat, c: nat)
    requires a <= b <= c <= |w|
    ensures CodePoints(w, a, c) == CodePoints(w, a, b) + CodePoints(w, b, c)
    decreases c - b
  {
    if b < c {
      CodePointsSplit(w, a, b, c - 1);
    }
  }

  /** A code point start followed by continuation bytes only is one code point. */
  lemma {:induction false} OneCodePoint(w: seq<byte>, j: nat, e: nat)
    requires j < e <= |w|
    requires !IsContinuation(w[j])
    requires forall t :: j < t < e ==> IsContinuation(w[t])
    ensures CodePoints(w, j, e) == 1
    decreases e - j
  {
    if e > j + 1 {
      OneCodePoint(w, j, e - 1);
    }
  }

  lemma {:induction false} CodePointsPositive(w: seq<byte>, j: nat, e: nat)
    requires j < e <= |w|
    requires !IsContinuation(w[j])
    ensures CodePoints(w, j, e) >= 1
    decreases e - j
  {
    if e > j + 1 {
      CodePointsPositive(w, j, e - 1);
    }
  }

  /** The inner loop lists n-grams that start at i and end after j, inside w. */
  lemma {:induction false} GrowInRange(w: seq<byte>, i: nat, j: nat, n: nat, minn: nat, maxn: nat)
    requires i <= j <= |w|
    ensures forall k :: 0 <= k < |Grow(w, i, j, n, minn, maxn)| ==>
      Grow(w, i, j, n, minn, maxn)[k].start == i && j < Grow(w, i, j, n, minn, maxn)[k].end <= |w|
    decreases |w| - j
  {
    if j < |w| && n <= maxn {
      GrowInRange(w, i, SkipContinuation(w, j + 1), n + 1, minn, maxn);
    }
  }

  // ---------------------------------------------------------------------
  // Soundness: every listed n-gram obeys the rule

  lemma {:induction false} GrowSound(w: seq<byte>, i: nat, j: nat, n: nat, minn: nat, maxn: nat)
    requires i <= j <= |w| && i < |w| && !IsContinuation(w[i])
    requires IsBoundary(w, j) && n >= 1 && CodePoints(w, i, j) == n - 1
    ensures forall g :: g in Grow(w, i, j, n, minn, maxn) ==> ValidNgram(w, minn, maxn, g) && g.start == i
    decreases |w| - j
  {
    if j < |w| && n <= maxn {
      var e := SkipContinuation(w, j + 1);
      CodePointsSplit(w, i, j, e);
      OneCodePoint(w, j, e);
      GrowSound(w, i, e, n + 1, minn, maxn);
    }
  }

  lemma {:induction false} NgramsFromSound(w: seq<byte>, i: nat, minn: nat, maxn: nat)
    requires i <= |w|
    ensures forall g :: g in NgramsFrom(w, i, minn, maxn) ==> ValidNgram(w, minn, maxn, g) && g.start >= i
    decreases |w| - i
  {
    if i < |w| {
      if !IsContinuation(w[i]) {
        GrowSound(w, i, i, 1, minn, maxn);
      }
      NgramsFromSound(w, i + 1, minn, maxn);
    }
  }

  // ---------------------------------------------------------------------
  // Completeness: every n-gram obeying the rule is listed

  lemma {:induction false} GrowComplete(w: seq<byte>, i: nat, j: nat, n: nat, minn: nat, maxn: nat, g: Ngram)
    requires ValidNgram(w, minn, maxn, g) && g.start == i
    requires i <= j <= g.end && IsBoundary(w, j)
    requires 1 <= n <= g.n && CodePoints(w, i, j) == n - 1
    ensures g in Grow(w, i, j, n, minn, maxn)
    decreases |w| - j
  {
    if j == g.end {
      assert false;
    }
    var e := SkipContinuation(w, j + 1);
    if e > g.end {
      assert false;
    }
    CodePointsSplit(w, i, j, e);
    OneCodePoint(w, j, e);
    if e < g.end {
      CodePointsSplit(w, i, e, g.end);
      CodePointsPositive(w, e, g.end);
      GrowComplete(w, i, e, n + 1, minn, maxn, g);
    }
  }

  lemma {:induction false} NgramsFromComplete(w: seq<byte>, i: nat, minn: nat, maxn: nat, g: Ngram)
    requires i <= |w|
    requires ValidNgram(w, minn, maxn, g) && g.start >= i
    ensures g in NgramsFrom(w, i, minn, maxn)
    decreases |w| - i
  {
    assert i < |w|;
    var here := if IsContinuation(w[i]) then [] else Grow(w, i, i, 1, minn, maxn);
    assert NgramsFrom(w, i, minn, maxn) == here + NgramsFrom(w, i + 1, minn, maxn);
    if g.start == i {
      GrowComplete(w, i, i, 1, minn, maxn, g);
      assert g in here;
    } else {
      NgramsFromComplete(w, i + 1, minn, maxn, g);
    }
  }

  /**
   * An n-gram is used exactly when it starts at a code point, ends at a code
   * point boundary, spans between 1 and maxn code points, and passes the
   * minn / single-code-point-at-an-edge test.
   */
  lemma NgramsExact(w: seq<byte>, minn: nat, maxn: nat, g: Ngram)
    ensures g in Ngrams(w, minn, maxn) <==> ValidNgram(w, minn, maxn, g)
  {
    NgramsFromSound(w, 0, minn, maxn);
    if ValidNgram(w, minn, maxn, g) {
      NgramsFromComplete(w, 0, minn, maxn, g);
    }
  }

  // ---------------------------------------------------------------------
  // Each used n-gram is listed once

  /** a is visited before b: it starts earlier, or starts at the same position and ends earlier. */
  predicate Before(a: Ngram, b: Ngram)
  {
    a.start < b.start || (a.start == b.start && a.end < b.end)
  }

  /** The list is strictly increasing in (start, end). */
  predicate Increasing(gs: seq<Ngram>)
  {
    forall p, q :: 0 <= p < q < |gs| ==> Before(gs[p], gs[q])
  }

  lemma IncreasingAppend(a: seq<Ngram>, b: seq<Ngram>)
    requires Increasing(a) && Increasing(b)
    requires forall p, q :: 0 <= p < |a| && 0 <= q < |b| ==> Before(a[p], b[q])
    ensures Increasing(a + b)
  {
    forall p, q | 0 <= p < q < |a + b|
      ensures Before((a + b)[p], (a + b)[q])
    {
      if p >= |a| {
        assert Before(b[p - |a|], b[q - |a|]);
      } else if q >= |a| {
        assert Before(a[p], b[q - |a|]);
      }
    }
  }

  /** The inner loop visits longer and longer n-grams from i. */
  lemma {:induction false} GrowIncreasing(w: seq<byte>, i: nat, j: nat, n: nat, minn: nat, maxn: nat)
    requires i <= j <= |w|
    ensures Increasing(Grow(w, i, j, n, minn, maxn))
    decreases |w| - j
  {
    if j < |w| && n <= maxn {
      var e := SkipContinuation(w, j + 1);
      var g := Ngram(i, e, n);
      GrowIncreasing(w, i, e, n + 1, minn, maxn);
      GrowInRange(w, i, e, n + 1, minn, maxn);
      IncreasingAppend(if Admitted(w, minn, g) then [g] else [], Grow(w, i, e, n + 1, minn, maxn));
    }
  }

  /** The outer loop visits the starts in increasing order. */
  lemma {:induction false} NgramsFromIncreasing(w: seq<byte>, i: nat, minn: nat, maxn: nat)
    requires i <= |w|
    ensures Increasing(NgramsFrom(w, i, minn, maxn))
    decreases |w| - i
  {
    if i < |w| {
      var here := if IsContinuation(w[i]) then [] else Grow(w, i, i, 1, minn, maxn);
      var rest := NgramsFrom(w, i + 1, minn, maxn);
      NgramsFromIncreasing(w, i + 1, minn, maxn);
      NgramsFromSound(w, i + 1, minn, maxn);
      if !IsContinuation(w[i]) {
        GrowIncreasing(w, i, i, 1, minn, maxn);
        GrowInRange(w, i, i, 1, minn, maxn);
      }
      forall p, q | 0 <= p < |here| && 0 <= q < |rest|
        ensures Before(here[p], rest[q])
      {
        assert rest[q] in rest;
      }
      IncreasingAppend(here, rest);
    }
  }

  /** A strictly increasing list holds each of its elements once. */
  lemma {:induction false} IncreasingOnce(gs: seq<Ngram>, g: Ngram)
    requires Increasing(gs)
    ensures multiset(gs)[g] == if g in gs then 1 else 0
    decreases |gs|
  {
    if gs != [] {
      var tl := gs[1..];
      assert gs == [gs[0]] + tl;
      assert Increasing(tl) by {
        forall p, q | 0 <= p < q < |tl|
          ensures Before(tl[p], tl[q])
        {
          assert Before(gs[p + 1], gs[q + 1]);
        }
      }
      IncreasingOnce(tl, g);
      if g == gs[0] {
        forall q | 0 <= q < |tl|
          ensures tl[q] != g
        {
          assert Before(gs[0], gs[q + 1]);
        }
      }
    }
  }

  /**
   * Each n-gram the rule admits is visited exactly once, and no other is:
   * the count of g among the used n-grams is 1 or 0 as ValidNgram says.
   */
  lemma NgramsOnce(w: seq<byte>, minn: nat, maxn: nat, g: Ngram)
    ensures multiset(Ngrams(w, minn, maxn))[g] == if ValidNgram(w, minn, maxn, g) then 1 else 0
  {
    NgramsFromIncreasing(w, 0, minn, maxn);
    IncreasingOnce(Ngrams(w, minn, maxn), g);
    NgramsExact(w, minn, maxn, g);
  }

  /** The bytes of a used n-gram. */
  function NgramBytes(w: seq<byte>, g: Ngram): seq<byte>
    requires g.start <= g.end <= |w|
  {
    w[g.start..g.end]
  }

  /** Every listed n-gram is a slice of w. */
  lemma NgramsInRange(w: seq<byte>, minn: nat, maxn: nat)
    ensures forall g :: g in Ngrams(w, minn, maxn) ==> g.start < g.end <= |w|
  {
    NgramsFromSound(w, 0, minn, maxn);
  }

  // ---------------------------------------------------------------------
  // The buckets the loops hash the n-grams to

  /** The buckets `hash(ngram) % n` of the n-grams gs of w, in order. */
  function NgramBuckets(w: seq<byte>, gs: seq<Ngram>, n: int): (r: seq<int>)
    requires n > 0
    requires forall k :: 0 <= k < |gs| ==> gs[k].start <= gs[k].end <= |w|
    ensures |r| == |gs|
    ensures forall k :: 0 <= k < |gs| ==> r[k] == Bucket(NgramBytes(w, gs[k]), n)
  {
    if gs == [] then []
    else NgramBuckets(w, gs[..|gs| - 1], n) + [Bucket(NgramBytes(w, gs[|gs| - 1]), n)]
  }

  /** The bucket of every used n-gram of w. */
  function SubwordBuckets(w: seq<byte>, minn: nat, maxn: nat, n: int): seq<int>
    requires n > 0
  {
    NgramsInRange(w, minn, maxn);
    NgramBuckets(w, Ngrams(w, minn, maxn), n)
  }

  lemma {:induction false} NgramBucketsAppend(w: seq<byte>, a: seq<Ngram>, b: seq<Ngram>, n: int)
    requires n > 0
    requires forall k :: 0 <= k < |a| ==> a[k].start <= a[k].end <= |w|
    requires forall k :: 0 <= k < |b| ==> b[k].start <= b[k].end <= |w|
    ensures NgramBuckets(w, a + b, n) == NgramBuckets(w, a, n) + NgramBuckets(w, b, n)
  {
    var l, r := NgramBuckets(w, a + b, n), NgramBuckets(w, a, n) + NgramBuckets(w, b, n);
    forall k | 0 <= k < |l|
      ensures l[k] == r[k]
    {
      if k < |a| {
        assert (a + b)[k] == a[k];
      } else {
        assert (a + b)[k] == b[k - |a|];
      }
    }
  }

  /** The buckets the inner loop of getSubwordsFrequency and computeSubwords hits from state (j, n), as that loop computes them. */
  function GrowBuckets(w: seq<byte>, i: nat, j: nat, n: nat, minn: nat, maxn: nat, nb: int): seq<int>
    requires nb > 0 && i <= j <= |w|
    decreases |w| - j
  {
    if j < |w| && n <= maxn then
      var e := SkipContinuation(w, j + 1);
      (if Admitted(w, minn, Ngram(i, e, n)) then [Bucket(w[i..e], nb)] else []) + GrowBuckets(w, i, e, n + 1, minn, maxn, nb)
    else
      []
  }

  /** The buckets the outer loop of both hits from position i. */
  function BucketsFrom(w: seq<byte>, i: nat, minn: nat, maxn: nat, nb: int): seq<int>
    requires nb > 0 && i <= |w|
    decreases |w| - i
  {
    if i == |w| then []
    else (if IsContinuation(w[i]) then [] else GrowBuckets(w, i, i, 1, minn, maxn, nb)) + BucketsFrom(w, i + 1, minn, maxn, nb)
  }

  lemma {:induction false} GrowBucketsNgrams(w: seq<byte>, i: nat, j: nat, n: nat, minn: nat, maxn: nat, nb: int)
    requires nb > 0 && i <= j <= |w|
    ensures forall k :: 0 <= k < |Grow(w, i, j, n, minn, maxn)| ==>
      Grow(w, i, j, n, minn, maxn)[k].start <= Grow(w, i, j, n, minn, maxn)[k].end <= |w|
    ensures GrowBuckets(w, i, j, n, minn, maxn, nb) == NgramBuckets(w, Grow(w, i, j, n, minn, maxn), nb)
    decreases |w| - j
  {
    GrowInRange(w, i, j, n, minn, maxn);
    if j < |w| && n <= maxn {
      var e := SkipContinuation(w, j + 1);
      var g := Ngram(i, e, n);
      var here: seq<Ngram> := if Admitted(w, minn, g) then [g] else [];
      var hereBuckets := if Admitted(w, minn, g) then [Bucket(w[i..e], nb)] else [];
      GrowBucketsNgrams(w, i, e, n + 1, minn, maxn, nb);
      assert NgramBuckets(w, here, nb) == hereBuckets;
      NgramBucketsAppend(w, here, Grow(w, i, e, n + 1, minn, maxn), nb);
      assert Grow(w, i, j, n, minn, maxn) == here + Grow(w, i, e, n + 1, minn, maxn);
      assert GrowBuckets(w, i, j, n, minn, maxn, nb) == hereBuckets + GrowBuckets(w, i, e, n + 1, minn, maxn, nb);
    }
  }

  /** Two lists of slices of w make one. */
  lemma SlicesAppend(w: seq<byte>, a: seq<Ngram>, b: seq<Ngram>)
    requires forall k :: 0 <= k < |a| ==> a[k].start <= a[k].end <= |w|
    requires forall k :: 0 <= k < |b| ==> b[k].start <= b[k].end <= |w|
    ensures forall k :: 0 <= k < |a + b| ==> (a + b)[k].start <= (a + b)[k].end <= |w|
  {
    forall k | 0 <= k < |a + b|
      ensures (a + b)[k].start <= (a + b)[k].end <= |w|
    {
      if k >= |a| {
        assert (a + b)[k] == b[k - |a|];
      }
    }
  }

  lemma {:induction false} BucketsFromNgrams(w: seq<byte>, i: nat, minn: nat, maxn: nat, nb: int)
    requires nb > 0 && i <= |w|
    ensures forall k :: 0 <= k < |NgramsFrom(w, i, minn, maxn)| ==>
      NgramsFrom(w, i, minn, maxn)[k].start <= NgramsFrom(w, i, minn, maxn)[k].end <= |w|
    ensures BucketsFrom(w, i, minn, maxn, nb) == NgramBuckets(w, NgramsFrom(w, i, minn, maxn), nb)
    decreases |w| - i
  {
    if i < |w| {
      BucketsFromNgrams(w, i + 1, minn, maxn, nb);
      var here := if IsContinuation(w[i]) then [] else Grow(w, i, i, 1, minn, maxn);
      var hereBuckets := if IsContinuation(w[i]) then [] else GrowBuckets(w, i, i, 1, minn, maxn, nb);
      GrowBucketsNgrams(w, i, i, 1, minn, maxn, nb);
      assert NgramBuckets(w, here, nb) == hereBuckets;
      NgramBucketsAppend(w, here, NgramsFrom(w, i + 1, minn, maxn), nb);
      var all := NgramsFrom(w, i, minn, maxn);
      assert all == here + NgramsFrom(w, i + 1, minn, maxn);
      assert BucketsFrom(w, i, minn, maxn, nb) == hereBuckets + BucketsFrom(w, i + 1, minn, maxn, nb);
      SlicesAppend(w, here, NgramsFrom(w, i + 1, minn, maxn));
    }
  }

  /** The loops hit exactly the buckets of the used n-grams, in order. */
  lemma BucketsFromAll(w: seq<byte>, minn: nat, maxn: nat, nb: int)
    requires nb > 0
    ensures BucketsFrom(w, 0, minn, maxn, nb) == SubwordBuckets(w, minn, maxn, nb)
  {
    BucketsFromNgrams(w, 0, minn, maxn, nb);
  }

  /** The bookkeeping of one round of the outer loop (shared by both loops). */
  lemma OuterStep(w: seq<byte>, i: nat, minn: nat, maxn: nat, nb: int, hits: seq<int>)
    requires nb > 0 && i < |w|
    ensures var here := if IsContinuation(w[i]) then [] else GrowBuckets(w, i, i, 1, minn, maxn, nb);
      (hits + here) + BucketsFrom(w, i + 1, minn, maxn, nb) == hits + BucketsFrom(w, i, minn, maxn, nb)
  {
    var here := if IsContinuation(w[i]) then [] else GrowBuckets(w, i, i, 1, minn, maxn, nb);
    SeqAssoc(hits, here, BucketsFrom(w, i + 1, minn, maxn, nb));
  }

  /** The bookkeeping of one round of the inner loop (shared by both loops). */
  lemma InnerStep(w: seq<byte>, i: nat, j: nat, n: nat, minn: nat, maxn: nat, nb: int, hits: seq<int>)
    requires nb > 0 && i <= j < |w| && n <= maxn
    ensures var e := SkipContinuation(w, j + 1);
      var here := if Admitted(w, minn, Ngram(i, e, n)) then [Bucket(w[i..e], nb)] else [];
      (hits + here) + GrowBuckets(w, i, e, n + 1, minn, maxn, nb) == hits + GrowBuckets(w, i, j, n, minn, maxn, nb)
  {
    var e := SkipContinuation(w, j + 1);
    var here := if Admitted(w, minn, Ngram(i, e, n)) then [Bucket(w[i..e], nb)] else [];
    SeqAssoc(hits, here, GrowBuckets(w, i, e, n + 1, minn, maxn, nb));
  }

  /** `ngram.push_back(word[j++])` for one code point: its lead byte and the continuation bytes after it. */
  method AppendCodePoint(word: seq<byte>, i: nat, j: nat, ngram: seq<byte>) returns (ngram': seq<byte>, j': nat)
    requires i <= j < |word| && ngram == word[i..j]
    ensures j' == SkipContinuation(word, j + 1) && ngram' == word[i..j']
  {
    assert word[i..j + 1] == word[i..j] + [word[j]];
    ngram', j' := ngram + [word[j]], j + 1;
    while j' < |word| && IsContinuation(word[j'])
      invariant j + 1 <= j' <= |word| && SkipContinuation(word, j') == SkipContinuation(word, j + 1)
      invariant ngram' == word[i..j']
      decreases |word| - j'
    {
      assert word[i..j' + 1] == word[i..j'] + [word[j']];
      ngram', j' := ngram' + [word[j']], j' + 1;
    }
  }

  /** One bucket per used n-gram. */
  lemma SubwordBucketsLength(w: seq<byte>, minn: nat, maxn: nat, nb: int)
    requires nb > 0
    ensures |SubwordBuckets(w, minn, maxn, nb)| == |Ngrams(w, minn, maxn)|
  {
  }

  /** What the bucket list means: one bucket per used n-gram, in order, each the hash of that n-gram's bytes. */
  lemma SubwordBucketsMeaning(w: seq<byte>, minn: nat, maxn: nat, nb: int)
    requires nb > 0
    ensures |SubwordBuckets(w, minn, maxn, nb)| == |Ngrams(w, minn, maxn)|
    ensures forall k :: 0 <= k < |Ngrams(w, minn, maxn)| ==>
      ValidNgram(w, minn, maxn, Ngrams(w, minn, maxn)[k]) &&
      SubwordBuckets(w, minn, maxn, nb)[k] == Bucket(NgramBytes(w, Ngrams(w, minn, maxn)[k]), nb)
  {
    var gs := Ngrams(w, minn, maxn);
    forall k | 0 <= k < |gs|
      ensures ValidNgram(w, minn, maxn, gs[k])
    {
      NgramsExact(w, minn, maxn, gs[k]);
    }
  }

}
