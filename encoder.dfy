/**
 * The encoder, CompactDictionary (src/compact_dictionary.cc): it counts how
 * often each subword bucket is hit by the n-grams of the vocabulary, ranks the
 * buckets by that count, and writes the word file and the compact data file.
 *
 * The fastText model it reads from (the vocabulary, the word2int_ table, the
 * input matrix and the word vectors getWordVector computes) is a Model value.
 */
module Encoder {
  import opened Basics
  import opened Hashing
  import opened Subwords
  import opened Quantization
  import opened Ranking
  import StringTable
  import opened Container

  // ---------------------------------------------------------------------
  // getSubwordsFrequency

  /** The counts c after one more hit for each bucket of bs, in order (buckets outside c are ignored). */
  function Tally(c: seq<int>, bs: seq<int>): (r: seq<int>)
    ensures |r| == |c|
  {
    if bs == [] then c
    else
      var r0 := Tally(c, bs[..|bs| - 1]);
      var b := bs[|bs| - 1];
      if 0 <= b < |r0| then r0[b := r0[b] + 1] else r0
  }

  /** Bucket b gains one for every occurrence of b in bs. */
  lemma {:induction false} TallyCounts(c: seq<int>, bs: seq<int>)
    ensures forall b :: 0 <= b < |c| ==> Tally(c, bs)[b] == c[b] + multiset(bs)[b]
  {
    if bs != [] {
      var front := bs[..|bs| - 1];
      TallyCounts(c, front);
      assert bs == front + [bs[|bs| - 1]];
      assert multiset(bs) == multiset(front) + multiset{bs[|bs| - 1]};
    }
  }

  /** One more hit for bucket b. */
  lemma TallySnoc(c: seq<int>, bs: seq<int>, b: int)
    requires 0 <= b < |c|
    ensures Tally(c, bs + [b]) == Tally(c, bs)[b := Tally(c, bs)[b] + 1]
  {
    assert (bs + [b])[..|bs|] == bs;
  }

  lemma {:induction false} TallyAppend(c: seq<int>, a: seq<int>, b: seq<int>)
    ensures Tally(c, a + b) == Tally(Tally(c, a), b)
    decreases |b|
  {
    if b == [] {
      assert a + b == a;
    } else {
      var front := b[..|b| - 1];
      assert (a + b)[..|a + b| - 1] == a + front;
      assert (a + b)[|a + b| - 1] == b[|b| - 1];
      TallyAppend(c, a, front);
    }
  }

  /**
   * getSubwordsFrequency: one more hit for the bucket of every used n-gram of
   * word; sub_count[b] grows by the number of used n-grams that hash to b.
   */
  method GetSubwordsFrequency(word: seq<byte>, subCount: array<int>, minn: nat, maxn: nat)
    requires subCount.Length > 0
    modifies subCount
    ensures forall b :: 0 <= b < subCount.Length ==>
      subCount[b] == old(subCount[b]) + multiset(SubwordBuckets(word, minn, maxn, subCount.Length))[b]
  {
    ghost var start := subCount[..];
    ghost var hits: seq<int> := [];
    var i := 0;
    while i < |word|
      invariant 0 <= i <= |word|
      invariant hits + BucketsFrom(word, i, minn, maxn, subCount.Length) == BucketsFrom(word, 0, minn, maxn, subCount.Length)
      invariant subCount[..] == Tally(start, hits)
    {
      hits := CountCodePoint(word, i, subCount, minn, maxn, start, hits);
      i := i + 1;
    }
    assert hits + [] == hits;
    TallySubwords(start, word, minn, maxn, subCount.Length);
  }

  /** One round of the outer loop of getSubwordsFrequency: the n-grams that start at i, unless word[i] continues a code point. */
  method CountCodePoint(word: seq<byte>, i: nat, subCount: array<int>, minn: nat, maxn: nat, ghost start: seq<int>, ghost hits: seq<int>)
      returns (ghost hits': seq<int>)
    requires subCount.Length > 0 && i < |word|
    requires hits + BucketsFrom(word, i, minn, maxn, subCount.Length) == BucketsFrom(word, 0, minn, maxn, subCount.Length)
    requires subCount[..] == Tally(start, hits)
    modifies subCount
    ensures hits' + BucketsFrom(word, i + 1, minn, maxn, subCount.Length) == BucketsFrom(word, 0, minn, maxn, subCount.Length)
    ensures subCount[..] == Tally(start, hits')
  {
    ghost var c := subCount[..];
    ghost var here := if IsContinuation(word[i]) then [] else GrowBuckets(word, i, i, 1, minn, maxn, subCount.Length);
    if !IsContinuation(word[i]) {
      CountNgramsAt(word, i, subCount, minn, maxn);
    }
    assert subCount[..] == Tally(c, here);
    CountStep(word, i, minn, maxn, subCount.Length, start, hits, subCount[..]);
    hits' := hits + here;
  }

  /** The bookkeeping of one round of the outer loop of getSubwordsFrequency. */
  lemma CountStep(w: seq<byte>, i: nat, minn: nat, maxn: nat, nb: int, start: seq<int>, hits: seq<int>, c: seq<int>)
    requires nb > 0 && i < |w|
    requires hits + BucketsFrom(w, i, minn, maxn, nb) == BucketsFrom(w, 0, minn, maxn, nb)
    ensures var here := if IsContinuation(w[i]) then [] else GrowBuckets(w, i, i, 1, minn, maxn, nb);
      && (hits + here) + BucketsFrom(w, i + 1, minn, maxn, nb) == BucketsFrom(w, 0, minn, maxn, nb)
      && (c == Tally(Tally(start, hits), here) ==> c == Tally(start, hits + here))
  {
    var here := if IsContinuation(w[i]) then [] else GrowBuckets(w, i, i, 1, minn, maxn, nb);
    OuterStep(w, i, minn, maxn, nb, hits);
    TallyAppend(start, hits, here);
  }

  lemma TallySubwords(c: seq<int>, w: seq<byte>, minn: nat, maxn: nat, nb: int)
    requires nb > 0
    ensures forall b :: 0 <= b < |c| ==>
      Tally(c, BucketsFrom(w, 0, minn, maxn, nb))[b] == c[b] + multiset(SubwordBuckets(w, minn, maxn, nb))[b]
  {
    BucketsFromAll(w, minn, maxn, nb);
    TallyCounts(c, BucketsFrom(w, 0, minn, maxn, nb));
  }

  /** The inner loop of getSubwordsFrequency for the code point that starts at i. */
  method CountNgramsAt(word: seq<byte>, i: nat, subCount: array<int>, minn: nat, maxn: nat)
    requires subCount.Length > 0 && i < |word|
    modifies subCount
    ensures subCount[..] == Tally(old(subCount[..]), GrowBuckets(word, i, i, 1, minn, maxn, subCount.Length))
  {
    ghost var c0, nb := subCount[..], subCount.Length;
    ghost var all := GrowBuckets(word, i, i, 1, minn, maxn, nb);
    ghost var hits: seq<int> := [];
    var ngram: seq<byte> := [];
    var j := i;
    var n := 1;
    while j < |word| && n <= maxn
      invariant i <= j <= |word| && n >= 1
      invariant ngram == word[i..j]
      invariant hits + GrowBuckets(word, i, j, n, minn, maxn, nb) == all
      invariant subCount[..] == Tally(c0, hits)
      decreases |word| - j
    {
      ngram, j, hits := CountNgram(word, i, j, n, ngram, subCount, minn, maxn, c0, hits);
      n := n + 1;
    }
    assert GrowBuckets(word, i, j, n, minn, maxn, nb) == [];
    assert hits + [] == hits;
  }

  /** One round of that loop: the next code point joins the n-gram, and a used n-gram counts for its bucket. */
  method CountNgram(word: seq<byte>, i: nat, j: nat, n: nat, ngram: seq<byte>, subCount: array<int>, minn: nat, maxn: nat,
                    ghost c0: seq<int>, ghost hits: seq<int>)
      returns (ngram': seq<byte>, j': nat, ghost hits': seq<int>)
    requires subCount.Length > 0 && i <= j < |word| && n <= maxn
    requires ngram == word[i..j] && subCount[..] == Tally(c0, hits)
    modifies subCount
    ensures j' == SkipContinuation(word, j + 1) && ngram' == word[i..j']
    ensures hits' + GrowBuckets(word, i, j', n + 1, minn, maxn, subCount.Length) ==
      hits + GrowBuckets(word, i, j, n, minn, maxn, subCount.Length)
    ensures subCount[..] == Tally(c0, hits')
  {
    ngram', j' := AppendCodePoint(word, i, j, ngram);
    InnerStep(word, i, j, n, minn, maxn, subCount.Length, hits);
    if n >= minn && !(n == 1 && (i == 0 || j' == |word|)) {
      hits' := CountBucket(ngram', subCount, c0, hits);
    } else {
      hits' := hits;
      assert hits + [] == hits;
    }
  }

  /** `sub_count[hash(ngram) % sub_count.size()]++`. */
  method CountBucket(ngram: seq<byte>, subCount: array<int>, ghost c0: seq<int>, ghost hits: seq<int>) returns (ghost hits': seq<int>)
    requires subCount.Length > 0 && subCount[..] == Tally(c0, hits)
    modifies subCount
    ensures hits' == hits + [Bucket(ngram, subCount.Length)]
    ensures subCount[..] == Tally(c0, hits')
  {
    var h := ComputeHash(ngram);
    var b := h % subCount.Length;
    TallySnoc(c0, hits, b);
    subCount[b] := subCount[b] + 1;
    hits' := hits + [b];
  }



  // ---------------------------------------------------------------------
  // The fastText model writeCompact reads

  /**
   * The parts of the trained FastText object that writeCompact uses:
   * the vocabulary (words_[i].word and .count), ntokens_, word2int_,
   * args_->minn, args_->maxn and args_->bucket, the rows of the input
   * matrix, the vectors getWordVector computes for the words, and the
   * number of columns of the input matrix.
   */
  datatype Model = Model(
    words: seq<seq<byte>>,
    counts: seq<int>,
    ntokens: int,
    word2int: seq<int32>,
    minn: nat,
    maxn: nat,
    bucket: int,
    input: seq<seq<F32>>,
    wordVectors: seq<seq<F32>>,
    ndim: int)

  /** An input matrix of ndim columns with a row for every word and every bucket. */
  ghost predicate InputOk(m: Model)
  {
    && 0 < m.bucket && 1 <= m.ndim
    && |m.input| >= |m.words| + m.bucket
    && (forall r :: 0 <= r < |m.input| ==> |m.input[r]| == m.ndim)
  }

  /**
   * What writeCompact relies on: a count and a vector per word, the input
   * matrix, nrwords within the vocabulary, and header values that fit
   * their int32_t fields.
   */
  ghost predicate ModelOk(m: Model, nrwords: int)
  {
    && InputOk(m)
    && |m.counts| == |m.words| && |m.wordVectors| == |m.words|
    && 0 <= nrwords <= |m.words|
    && (forall i :: 0 <= i < |m.wordVectors| ==> |m.wordVectors[i]| >= m.ndim)
    && |m.words| < TWO31 && |m.word2int| < TWO31 && m.bucket < TWO31 && m.ndim < TWO31
    && StringTable.TableSize(m.words[..nrwords]) < TWO31
  }

  /**
   * transform(n_, data, map.data(), map.size()).  writeCompact opens the map
   * file only when its name is empty, which never yields a file, so map holds
   * the single value 0.0 and map.size() is 1: for ndim != 1 the first ndim
   * coordinates are copied, for ndim == 1 the product with the zero map is
   * taken.
   */
  function Transform(ndim: int, data: seq<F32>, ops: FloatOps): (r: seq<F32>)
    requires 1 <= ndim <= |data|
    ensures |r| == ndim
  {
    if ndim != 1 then data[..ndim] else [ops.add(ZERO, ops.mul(data[0], ZERO))]
  }

  // ---------------------------------------------------------------------
  // Counting

  /** The buckets hit by getSubwordsFrequency over all the words, word after word. */
  function AllBuckets(words: seq<seq<byte>>, minn: nat, maxn: nat, nb: int): seq<int>
    requires nb > 0
  {
    if words == [] then []
    else AllBuckets(words[..|words| - 1], minn, maxn, nb) + SubwordBuckets(words[|words| - 1], minn, maxn, nb)
  }

  /** sub_count after the counting loop: for each bucket, how many used n-grams of the vocabulary hash to it. */
  function SubCounts(m: Model): (r: seq<int>)
    requires m.bucket > 0
    ensures |r| == m.bucket
  {
    seq(m.bucket, b => multiset(AllBuckets(m.words, m.minn, m.maxn, m.bucket))[b])
  }

  /** `for (i < nwords_) getSubwordsFrequency(words_[i].word, sub_count)` on a zeroed sub_count. */
  method CountSubwords(m: Model) returns (counts: seq<int>)
    requires m.bucket > 0
    ensures counts == SubCounts(m)
  {
    var subCount := new int[m.bucket](_ => 0);
    var i := 0;
    while i < |m.words|
      invariant 0 <= i <= |m.words|
      invariant forall b :: 0 <= b < m.bucket ==> subCount[b] == multiset(AllBuckets(m.words[..i], m.minn, m.maxn, m.bucket))[b]
    {
      assert m.words[..i + 1][..i] == m.words[..i];
      GetSubwordsFrequency(m.words[i], subCount, m.minn, m.maxn);
      i := i + 1;
    }
    assert m.words[..i] == m.words;
    counts := subCount[..];
  }

  /** The sum of the counts (total_subs). */
  function Sum(xs: seq<int>): int
  {
    if xs == [] then 0 else Sum(xs[..|xs| - 1]) + xs[|xs| - 1]
  }

  lemma {:induction false} SumTally(c: seq<int>, bs: seq<int>)
    requires forall k :: 0 <= k < |bs| ==> 0 <= bs[k] < |c|
    ensures Sum(Tally(c, bs)) == Sum(c) + |bs|
  {
    if bs != [] {
      var front := bs[..|bs| - 1];
      SumTally(c, front);
      SumUpdate(Tally(c, front), bs[|bs| - 1]);
    }
  }

  lemma {:induction false} SumUpdate(c: seq<int>, b: nat)
    requires b < |c|
    ensures Sum(c[b := c[b] + 1]) == Sum(c) + 1
    decreases |c|
  {
    var d := c[b := c[b] + 1];
    assert d[..|d| - 1] == if b < |c| - 1 then c[..|c| - 1][b := c[b] + 1] else c[..|c| - 1];
    if b < |c| - 1 {
      SumUpdate(c[..|c| - 1], b);
    }
  }

  lemma {:induction false} AllBucketsInRange(words: seq<seq<byte>>, minn: nat, maxn: nat, nb: int)
    requires nb > 0
    ensures forall k :: 0 <= k < |AllBuckets(words, minn, maxn, nb)| ==> 0 <= AllBuckets(words, minn, maxn, nb)[k] < nb
  {
    if words != [] {
      AllBucketsInRange(words[..|words| - 1], minn, maxn, nb);
      var w := words[|words| - 1];
      NgramsInRange(w, minn, maxn);
    }
  }

  /** total_subs is the number of used n-grams in the vocabulary. */
  lemma TotalSubs(m: Model)
    requires m.bucket > 0
    ensures Sum(SubCounts(m)) == |AllBuckets(m.words, m.minn, m.maxn, m.bucket)|
  {
    var bs := AllBuckets(m.words, m.minn, m.maxn, m.bucket);
    var zero := seq(m.bucket, _ => 0);
    AllBucketsInRange(m.words, m.minn, m.maxn, m.bucket);
    TallyCounts(zero, bs);
    assert Tally(zero, bs) == SubCounts(m);
    SumTally(zero, bs);
    SumZero(m.bucket);
  }

  lemma {:induction false} SumZero(n: nat)
    ensures Sum(seq(n, _ => 0)) == 0
  {
    if n > 0 {
      assert seq(n, _ => 0)[..n - 1] == seq(n - 1, _ => 0);
      SumZero(n - 1);
    }
  }

  // ---------------------------------------------------------------------
  // Ranking

  /** The ord_subs loop (one pair (sub_count[i], i) per bucket, summing total_subs), then the descending sort. */
  method RankBuckets(counts: seq<int>) returns (ord: seq<Pair>, total: int)
    ensures ord == Ranked(counts) && total == Sum(counts)
  {
    var pairs: seq<Pair> := [];
    total := 0;
    var i := 0;
    while i < |counts|
      invariant 0 <= i <= |counts|
      invariant pairs == Pairs(counts[..i])
      invariant total == Sum(counts[..i])
    {
      assert counts[..i + 1][..i] == counts[..i];
      pairs := pairs + [(counts[i], i)];
      total := total + counts[i];
      i := i + 1;
    }
    assert counts[..i] == counts;
    ord := SortDescending(pairs);
  }
}
