/**
 * CompactDictionary::writeCompact (src/compact_dictionary.cc): the word file
 * and the data file it writes for a Model, section after section, and what
 * those sections hold.
 */
module Writer {
  import opened Basics
  import opened Quantization
  import opened Ranking
  import opened Container
  import opened Encoder
  import StringTable

  /** Every pair of ord names a bucket of the model. */
  ghost predicate OrdOk(m: Model, ord: seq<Pair>)
  {
    forall k :: 0 <= k < |ord| ==> 0 <= ord[k].1 < m.bucket
  }

  /** `fwrite(&x, sizeof(x), 1, fd)` for each item of xs, in order. */
  method Emit4<T>(fd: seq<byte>, xs: seq<T>, enc: T -> seq<byte>) returns (out: seq<byte>)
    ensures out == fd + Encode4(xs, enc)
  {
    out := fd;
    var i := 0;
    while i < |xs|
      invariant 0 <= i <= |xs|
      invariant out == fd + Encode4(xs[..i], enc)
    {
      assert xs[..i + 1][..i] == xs[..i];
      out := out + enc(xs[i]);
      i := i + 1;
    }
    assert xs[..i] == xs;
  }

  // ---------------------------------------------------------------------
  // Frequencies

  /** `words_[i].count / double(ntokens_)`. */
  function WordFreq(m: Model, i: nat, ops: FloatOps): F32
    requires i < |m.counts|
  {
    ops.ratio(m.counts[i], m.ntokens)
  }

  /** `it->first / total_subs` for the pair at rank k of ord_subs. */
  function SubFreq(ord: seq<Pair>, k: nat, total: int, ops: FloatOps): F32
    requires k < |ord|
  {
    ops.ratio(ord[k].0, total)
  }

  /** The frequencies of the first n words. */
  function WordFreqs(m: Model, n: nat, ops: FloatOps): (r: seq<F32>)
    requires n <= |m.counts|
    ensures |r| == n
  {
    seq(n, i requires 0 <= i < n => WordFreq(m, i, ops))
  }

  /** The frequencies of the buckets, in rank order. */
  function SubFreqs(ord: seq<Pair>, total: int, ops: FloatOps): (r: seq<F32>)
    ensures |r| == |ord|
  {
    seq(|ord|, k requires 0 <= k < |ord| => SubFreq(ord, k, total, ops))
  }

  /** The two frequency loops of writeCompact. */
  method WriteFreqs(fd: seq<byte>, m: Model, nrwords: nat, ord: seq<Pair>, total: int, ops: FloatOps) returns (out: seq<byte>)
    requires nrwords <= |m.counts|
    ensures out == fd + Encode4(WordFreqs(m, nrwords, ops) + SubFreqs(ord, total, ops), F32Bytes)
  {
    out := fd;
    var i := 0;
    while i < nrwords
      invariant 0 <= i <= nrwords
      invariant out == fd + Encode4(WordFreqs(m, i, ops), F32Bytes)
    {
      var freq := ops.ratio(m.counts[i], m.ntokens);
      assert WordFreqs(m, i + 1, ops) == WordFreqs(m, i, ops) + [freq];
      EmitStep(fd, WordFreqs(m, i, ops), freq, F32Bytes);
      out := out + F32Bytes(freq);
      i := i + 1;
    }
    ghost var words := WordFreqs(m, nrwords, ops);
    assert words + SubFreqs(ord[..0], total, ops) == words;
    var k := 0;
    while k < |ord|
      invariant 0 <= k <= |ord|
      invariant out == fd + Encode4(words + SubFreqs(ord[..k], total, ops), F32Bytes)
    {
      var freq := ops.ratio(ord[k].0, total);
      assert SubFreqs(ord[..k + 1], total, ops) == SubFreqs(ord[..k], total, ops) + [freq];
      SeqAssoc(words, SubFreqs(ord[..k], total, ops), [freq]);
      EmitStep(fd, words + SubFreqs(ord[..k], total, ops), freq, F32Bytes);
      out := out + F32Bytes(freq);
      k := k + 1;
    }
    assert ord[..k] == ord;
  }

  /** Writing one more item after xs writes xs + [x]. */
  lemma EmitStep<T>(fd: seq<byte>, xs: seq<T>, x: T, enc: T -> seq<byte>)
    ensures (fd + Encode4(xs, enc)) + enc(x) == fd + Encode4(xs + [x], enc)
  {
    assert (xs + [x])[..|xs|] == xs;
  }

  // ---------------------------------------------------------------------
  // Top words

  /** transform of the vector getWordVector computes for word i. */
  function WordRow(m: Model, i: nat, ops: FloatOps): (r: seq<F32>)
    requires i < |m.wordVectors| && 1 <= m.ndim <= |m.wordVectors[i]|
    ensures |r| == m.ndim
  {
    Transform(m.ndim, m.wordVectors[i], ops)
  }

  function WordRows(m: Model, nrwords: int, ops: FloatOps): (rows: seq<seq<F32>>)
    requires ModelOk(m, nrwords)
    ensures |rows| == nrwords
    ensures forall i :: 0 <= i < nrwords ==> rows[i] == WordRow(m, i, ops)
  {
    seq(nrwords, i requires 0 <= i < nrwords => WordRow(m, i, ops))
  }

  /** The top-words loop: one row of ndim floats per restricted word. */
  method WriteTopWords(fd: seq<byte>, m: Model, nrwords: int, ops: FloatOps) returns (out: seq<byte>)
    requires ModelOk(m, nrwords)
    ensures out == fd + Encode4(Concat(WordRows(m, nrwords, ops)), F32Bytes)
  {
    ghost var rows := WordRows(m, nrwords, ops);
    out := fd;
    var i := 0;
    while i < nrwords
      invariant 0 <= i <= nrwords
      invariant out == fd + Encode4(Concat(rows[..i]), F32Bytes)
    {
      var v := Transform(m.ndim, m.wordVectors[i], ops);
      EmitRowStep(fd, rows, i, F32Bytes);
      out := Emit4(out, v, F32Bytes);
      i := i + 1;
    }
    assert rows[..i] == rows;
  }

  /** Writing row i after rows[..i] writes rows[..i + 1]. */
  lemma EmitRowStep<T>(fd: seq<byte>, rows: seq<seq<T>>, i: nat, enc: T -> seq<byte>)
    requires i < |rows|
    ensures fd + Encode4(Concat(rows[..i + 1]), enc) == (fd + Encode4(Concat(rows[..i]), enc)) + Encode4(rows[i], enc)
  {
    assert rows[..i + 1][..i] == rows[..i];
    Encode4Append(Concat(rows[..i]), rows[i], enc);
  }

  // ---------------------------------------------------------------------
  // Subword vectors

  /** transform of the input-matrix row of the bucket at rank r (row ord[r].1 + nwords_). */
  function SubRow(m: Model, ord: seq<Pair>, r: nat, ops: FloatOps): (v: seq<F32>)
    requires InputOk(m) && OrdOk(m, ord) && r < |ord|
    ensures |v| == m.ndim
  {
    Transform(m.ndim, m.input[ord[r].1 + |m.words|], ops)
  }

  /** (vmm[2 r], vmm[2 r + 1]). */
  function SubBounds(m: Model, ord: seq<Pair>, r: nat, ops: FloatOps): (F32, F32)
    requires InputOk(m) && OrdOk(m, ord) && r < |ord|
  {
    MinMaxScan(SubRow(m, ord, r, ops), ops.less)
  }

  /** The packed bytes written for rank r. */
  function SubBlock(m: Model, ord: seq<Pair>, r: nat, ops: FloatOps): (b: seq<byte>)
    requires InputOk(m) && OrdOk(m, ord) && r < |ord|
    ensures |b| == m.ndim / 2
  {
    var mm := SubBounds(m, ord, r, ops);
    PackedBlock(SubRow(m, ord, r, ops), mm.0, mm.1, ops)
  }

  function SubBlocks(m: Model, ord: seq<Pair>, ops: FloatOps): (rows: seq<seq<byte>>)
    requires InputOk(m) && OrdOk(m, ord)
    ensures |rows| == |ord|
    ensures forall r :: 0 <= r < |ord| ==> rows[r] == SubBlock(m, ord, r, ops)
  {
    seq(|ord|, r requires 0 <= r < |ord| => SubBlock(m, ord, r, ops))
  }

  function BoundRows(m: Model, ord: seq<Pair>, ops: FloatOps): (rows: seq<seq<F32>>)
    requires InputOk(m) && OrdOk(m, ord)
    ensures |rows| == |ord|
    ensures forall r :: 0 <= r < |ord| ==> rows[r] == [SubBounds(m, ord, r, ops).0, SubBounds(m, ord, r, ops).1]
  {
    seq(|ord|, r requires 0 <= r < |ord| => [SubBounds(m, ord, r, ops).0, SubBounds(m, ord, r, ops).1])
  }

  /** The subword loop of writeCompact: per rank, the min/max scan and the packed levels. */
  method WriteSubVectors(fd: seq<byte>, m: Model, ord: seq<Pair>, ops: FloatOps) returns (out: seq<byte>, vmm: seq<F32>)
    requires InputOk(m) && OrdOk(m, ord)
    ensures out == fd + Concat(SubBlocks(m, ord, ops))
    ensures vmm == Concat(BoundRows(m, ord, ops))
  {
    out, vmm := fd, [];
    var ii := 0;
    while ii < |ord|
      invariant 0 <= ii <= |ord|
      invariant out == fd + Concat(SubBlocks(m, ord, ops)[..ii])
      invariant vmm == Concat(BoundRows(m, ord, ops)[..ii])
    {
      var i := ord[ii].1 + |m.words|;
      var v := Transform(m.ndim, m.input[i], ops);
      var min, max := MinMax(v, ops.less);
      var block := PackLevels(v, min, max, ops);
      SubStep(fd, m, ord, ops, ii);
      out, vmm := out + block, vmm + [min, max];
      ii := ii + 1;
    }
    assert SubBlocks(m, ord, ops)[..ii] == SubBlocks(m, ord, ops);
    assert BoundRows(m, ord, ops)[..ii] == BoundRows(m, ord, ops);
  }

  /** One round of the subword loop appends the block and the bounds of rank ii. */
  lemma SubStep(fd: seq<byte>, m: Model, ord: seq<Pair>, ops: FloatOps, ii: nat)
    requires InputOk(m) && OrdOk(m, ord) && ii < |ord|
    ensures (fd + Concat(SubBlocks(m, ord, ops)[..ii])) + SubBlock(m, ord, ii, ops) == fd + Concat(SubBlocks(m, ord, ops)[..ii + 1])
    ensures Concat(BoundRows(m, ord, ops)[..ii]) + [SubBounds(m, ord, ii, ops).0, SubBounds(m, ord, ii, ops).1]
      == Concat(BoundRows(m, ord, ops)[..ii + 1])
  {
    var blocks, bounds := SubBlocks(m, ord, ops), BoundRows(m, ord, ops);
    assert blocks[..ii + 1][..ii] == blocks[..ii];
    assert bounds[..ii + 1][..ii] == bounds[..ii];
  }

  // ---------------------------------------------------------------------
  // The data file

  function HeaderOf(m: Model, nrwords: int): Header
    requires ModelOk(m, nrwords)
  {
    Header(|m.words|, nrwords, |m.word2int|, m.bucket, m.ndim, StringTable.TableSize(m.words[..nrwords]),
      m.minn % 256, m.maxn % 256)
  }

  /** reverse_sub_map as the int32_t values it is written as. */
  function RankTable(counts: seq<int>): (r: seq<int32>)
    requires |counts| < TWO31
    ensures |r| == |counts|
  {
    ReverseSubMapInverts(counts);
    ReverseSubMap(Ranked(counts), |counts|)
  }

  /** ord_subs for m: the buckets by descending (count, bucket). */
  function OrdOf(m: Model): (ord: seq<Pair>)
    requires InputOk(m)
    ensures |ord| == m.bucket && OrdOk(m, ord)
  {
    RankedBuckets(SubCounts(m));
    Ranked(SubCounts(m))
  }

  /** word2int_ followed by reverse_sub_map. */
  function Hash2idOf(m: Model): (r: seq<int32>)
    requires ModelOk(m, 0)
    ensures |r| == |m.word2int| + m.bucket
  {
    m.word2int + RankTable(SubCounts(m))
  }

  function FreqsOf(m: Model, nrwords: int, ops: FloatOps): (r: seq<F32>)
    requires InputOk(m) && 0 <= nrwords <= |m.counts|
    ensures |r| == nrwords + m.bucket
  {
    WordFreqs(m, nrwords, ops) + SubFreqs(OrdOf(m), Sum(SubCounts(m)), ops)
  }

  function TopWordsOf(m: Model, nrwords: int, ops: FloatOps): (r: seq<F32>)
    requires ModelOk(m, nrwords)
    ensures |r| == nrwords * m.ndim
  {
    ConcatLength(WordRows(m, nrwords, ops), m.ndim);
    Concat(WordRows(m, nrwords, ops))
  }

  function SubVecsOf(m: Model, ops: FloatOps): (r: seq<byte>)
    requires InputOk(m)
    ensures |r| == m.bucket * (m.ndim / 2)
  {
    ConcatLength(SubBlocks(m, OrdOf(m), ops), m.ndim / 2);
    Concat(SubBlocks(m, OrdOf(m), ops))
  }

  function MinsMaxsOf(m: Model, ops: FloatOps): (r: seq<F32>)
    requires InputOk(m)
    ensures |r| == 2 * m.bucket
  {
    ConcatLength(BoundRows(m, OrdOf(m), ops), 2);
    Concat(BoundRows(m, OrdOf(m), ops))
  }

  /** The sections writeCompact writes for m. */
  function CompactOf(m: Model, nrwords: int, ops: FloatOps): (c: Compact)
    requires ModelOk(m, nrwords)
  {
    assert ModelOk(m, 0);
    Compact(HeaderOf(m, nrwords), Hash2idOf(m), StringTable.Table(m.words[..nrwords]),
      FreqsOf(m, nrwords, ops), TopWordsOf(m, nrwords, ops), SubVecsOf(m, ops), MinsMaxsOf(m, ops))
  }

  /**
   * writeCompact: the word file holds every word, the data file the
   * sections of CompactOf(m, nrwords) in the order the reader expects.
   */
  method WriteCompact(m: Model, nrwords: int, ops: FloatOps) returns (wordFile: seq<byte>, dataFile: seq<byte>)
    requires ModelOk(m, nrwords)
    ensures wordFile == StringTable.Table(m.words)
    ensures dataFile == Serialize(CompactOf(m, nrwords, ops))
  {
    var counts := CountSubwords(m);
    var nchars;
    wordFile, nchars := StringTable.WriteWords(m.words, nrwords);
    assert StringTable.Clamp(nrwords, |m.words|) == nrwords;
    var header := Header(|m.words|, nrwords, |m.word2int|, m.bucket, m.ndim, nchars, m.minn % 256, m.maxn % 256);
    var fd := HeaderBytes(header);
    var ord, total := RankBuckets(counts);
    RankedBuckets(counts);
    ReverseSubMapInverts(counts);
    fd := Emit4(fd, m.word2int, I32Bytes);
    var rsm := BuildReverseSubMap(ord, m.bucket);
    fd := Emit4<int32>(fd, rsm, I32Bytes);
    var chars, _ := StringTable.WriteWords(m.words[..nrwords], nrwords);
    fd := fd + chars;
    fd := WriteFreqs(fd, m, nrwords, ord, total, ops);
    fd := WriteTopWords(fd, m, nrwords, ops);
    var vmm;
    fd, vmm := WriteSubVectors(fd, m, ord, ops);
    fd := Emit4(fd, vmm, F32Bytes);
    dataFile := fd;
    CompactLayout(m, nrwords, ops);
  }

  /** The data file of CompactOf(m, nrwords), piece by piece. */
  lemma CompactLayout(m: Model, nrwords: int, ops: FloatOps)
    requires ModelOk(m, nrwords)
    ensures var c := CompactOf(m, nrwords, ops);
      Serialize(c) ==
        HeaderBytes(c.header) + Encode4(m.word2int, I32Bytes) + Encode4(RankTable(SubCounts(m)), I32Bytes)
        + c.chars + Encode4(c.freqs, F32Bytes) + Encode4(c.topWords, F32Bytes) + c.subVecs + Encode4(c.minsMaxs, F32Bytes)
  {
    var c := CompactOf(m, nrwords, ops);
    assert ModelOk(m, 0);
    SerializeParts(c, m.word2int, RankTable(SubCounts(m)));
  }

  // ---------------------------------------------------------------------
  // What the data file holds

  /** transform of the input-matrix row of raw bucket b (row b + nwords_). */
  function BucketRow(m: Model, b: nat, ops: FloatOps): (v: seq<F32>)
    requires InputOk(m) && b < m.bucket
    ensures |v| == m.ndim
  {
    Transform(m.ndim, m.input[b + |m.words|], ops)
  }

  /** The header holds the model's sizes, and every section has the size the header implies. */
  lemma CompactWellSized(m: Model, nrwords: int, ops: FloatOps)
    requires ModelOk(m, nrwords)
    ensures var c := CompactOf(m, nrwords, ops);
      && WellSized(c)
      && c.header.nwords == |m.words| && c.header.nrwords == nrwords
      && c.header.nwordsBucket == |m.word2int| && c.header.nsubsBucket == m.bucket && c.header.ndim == m.ndim
      && c.header.minn == m.minn % 256 && c.header.maxn == m.maxn % 256
  {
    StringTable.TableSizeIsLength(m.words[..nrwords]);
  }

  /** Coordinate j of restricted word i sits at i * ndim + j of the top-words section. */
  lemma TopWordAt(m: Model, nrwords: int, ops: FloatOps, i: nat, j: nat)
    requires ModelOk(m, nrwords) && i < nrwords && j < m.ndim
    ensures i * m.ndim + j < |TopWordsOf(m, nrwords, ops)|
    ensures TopWordsOf(m, nrwords, ops)[i * m.ndim + j] == Transform(m.ndim, m.wordVectors[i], ops)[j]
    ensures m.ndim != 1 ==> TopWordsOf(m, nrwords, ops)[i * m.ndim + j] == m.wordVectors[i][j]
  {
    ConcatAt(WordRows(m, nrwords, ops), m.ndim, i, j);
  }

  /** The frequency of restricted word i is its count over ntokens_. */
  lemma WordFreqAt(m: Model, nrwords: int, ops: FloatOps, i: nat)
    requires ModelOk(m, nrwords) && i < nrwords
    ensures FreqsOf(m, nrwords, ops)[i] == ops.ratio(m.counts[i], m.ntokens)
  {
  }

  /** The min/max pair of raw bucket b. */
  function BucketBounds(m: Model, b: nat, ops: FloatOps): (F32, F32)
    requires InputOk(m) && b < m.bucket
  {
    MinMaxScan(BucketRow(m, b, ops), ops.less)
  }

  /** The packed levels of raw bucket b. */
  function BucketBlock(m: Model, b: nat, ops: FloatOps): seq<byte>
    requires InputOk(m) && b < m.bucket
  {
    PackedBlock(BucketRow(m, b, ops), BucketBounds(m, b, ops).0, BucketBounds(m, b, ops).1, ops)
  }

  /** reverse_sub_map[b] is the rank at which ord_subs holds bucket b. */
  lemma RankTableAt(counts: seq<int>, b: nat)
    requires |counts| < TWO31 && b < |counts|
    ensures 0 <= RankTable(counts)[b] < |counts|
    ensures Ranked(counts)[RankTable(counts)[b]] == (counts[b], b)
  {
    ReverseSubMapInverts(counts);
  }

  /** The ndim / 2 bytes of rank r are the packed levels of the bucket ord holds at r. */
  lemma BlockAt(m: Model, ord: seq<Pair>, ops: FloatOps, r: nat)
    requires InputOk(m) && OrdOk(m, ord) && r < |ord|
    ensures 0 <= r * (m.ndim / 2) <= r * (m.ndim / 2) + m.ndim / 2 <= |Concat(SubBlocks(m, ord, ops))|
    ensures Concat(SubBlocks(m, ord, ops))[r * (m.ndim / 2)..r * (m.ndim / 2) + m.ndim / 2] == BucketBlock(m, ord[r].1, ops)
  {
    MulMono(0, r, m.ndim / 2);
    ConcatSlice(SubBlocks(m, ord, ops), m.ndim / 2, r);
  }

  /** The two floats of rank r are the bounds of the bucket ord holds at r. */
  lemma BoundsAt(m: Model, ord: seq<Pair>, ops: FloatOps, r: nat)
    requires InputOk(m) && OrdOk(m, ord) && r < |ord|
    ensures 2 * r + 2 <= |Concat(BoundRows(m, ord, ops))|
    ensures Concat(BoundRows(m, ord, ops))[2 * r..2 * r + 2] == [BucketBounds(m, ord[r].1, ops).0, BucketBounds(m, ord[r].1, ops).1]
  {
    ConcatSlice(BoundRows(m, ord, ops), 2, r);
  }

  /**
   * The lookup of the reader lands on the right block: for raw bucket b,
   * rank r = hash2id[nwords_bucket + b] is where ord_subs holds bucket b,
   * freqs[nrwords + r] is b's share of total_subs, the ndim / 2 bytes at
   * r * (ndim / 2) are b's packed levels and minsMaxs[2 r], minsMaxs[2 r + 1]
   * are b's bounds.
   */
  lemma BucketLookup(m: Model, nrwords: int, ops: FloatOps, b: nat, r: int)
    requires ModelOk(m, nrwords) && b < m.bucket
    requires r == Hash2idOf(m)[|m.word2int| + b]
    ensures 0 <= r < m.bucket && OrdOf(m)[r] == (SubCounts(m)[b], b)
    ensures FreqsOf(m, nrwords, ops)[nrwords + r] == ops.ratio(SubCounts(m)[b], Sum(SubCounts(m)))
    ensures MinsMaxsOf(m, ops)[2 * r..2 * r + 2] == [BucketBounds(m, b, ops).0, BucketBounds(m, b, ops).1]
    ensures 0 <= r * (m.ndim / 2) <= r * (m.ndim / 2) + m.ndim / 2 <= |SubVecsOf(m, ops)|
    ensures SubVecsOf(m, ops)[r * (m.ndim / 2)..r * (m.ndim / 2) + m.ndim / 2] == BucketBlock(m, b, ops)
  {
    Hash2idSub(m, b);
    RankLookup(m, ops, b, r);
    BucketFreq(m, nrwords, ops, r);
  }

  /** Entry nrwords + r of the frequencies is the share of total_subs of the bucket of rank r. */
  lemma BucketFreq(m: Model, nrwords: int, ops: FloatOps, r: int)
    requires InputOk(m) && 0 <= nrwords <= |m.counts| && 0 <= r < m.bucket
    ensures FreqsOf(m, nrwords, ops)[nrwords + r] == ops.ratio(OrdOf(m)[r].0, Sum(SubCounts(m)))
  {
    var words, ord := WordFreqs(m, nrwords, ops), OrdOf(m);
    SubFreqAt(words, ord, Sum(SubCounts(m)), ops, r);
    assert FreqsOf(m, nrwords, ops) == words + SubFreqs(ord, Sum(SubCounts(m)), ops);
  }

  /** The subword half of hash2id is reverse_sub_map. */
  lemma Hash2idSub(m: Model, b: nat)
    requires ModelOk(m, 0) && b < m.bucket
    ensures Hash2idOf(m)[|m.word2int| + b] == RankTable(SubCounts(m))[b]
  {
  }

  /** After the word frequencies, entry r of the bucket frequencies is the share of the bucket of rank r. */
  lemma SubFreqAt(words: seq<F32>, ord: seq<Pair>, total: int, ops: FloatOps, r: int)
    requires 0 <= r < |ord|
    ensures (words + SubFreqs(ord, total, ops))[|words| + r] == ops.ratio(ord[r].0, total)
  {
  }

  /** BucketLookup, for the rank reverse_sub_map gives bucket b. */
  lemma RankLookup(m: Model, ops: FloatOps, b: nat, r: int)
    requires InputOk(m) && m.bucket < TWO31 && b < m.bucket
    requires r == RankTable(SubCounts(m))[b]
    ensures 0 <= r < m.bucket && OrdOf(m)[r] == (SubCounts(m)[b], b)
    ensures MinsMaxsOf(m, ops)[2 * r..2 * r + 2] == [BucketBounds(m, b, ops).0, BucketBounds(m, b, ops).1]
    ensures 0 <= r * (m.ndim / 2) <= r * (m.ndim / 2) + m.ndim / 2 <= |SubVecsOf(m, ops)|
    ensures SubVecsOf(m, ops)[r * (m.ndim / 2)..r * (m.ndim / 2) + m.ndim / 2] == BucketBlock(m, b, ops)
  {
    var ord := OrdOf(m);
    RankTableAt(SubCounts(m), b);
    MulMono(0, r, m.ndim / 2);
    BoundsAt(m, ord, ops, r);
    BlockAt(m, ord, ops, r);
  }

  /**
   * What the reader gets back from the data file of CompactOf(m, nrwords)
   * when ndim is even and the first word is non-empty: the sections as
   * written (the sub-vector buffer padded with zeros) and the offset of every
   * restricted word, each the start of that word.
   */
  lemma EncodeDecode(m: Model, nrwords: int, ops: FloatOps)
    requires ModelOk(m, nrwords) && nrwords >= 1 && m.ndim % 2 == 0
    requires |m.words[0]| >= 1 && forall t :: 0 <= t < nrwords ==> StringTable.NoNulIn(m.words[t])
    ensures var c := CompactOf(m, nrwords, ops);
      var offsets := StringTable.StartsFrom(m.words[..nrwords], 0, nrwords);
      && ParseImage(Serialize(c)) == Ok(Image(c.header, c.hash2id, c.chars, c.freqs, c.topWords,
           c.subVecs + ZeroBytes(|c.subVecs|), c.minsMaxs, offsets))
      && (forall k :: 0 <= k < nrwords ==> StringTable.CStringAt(c.chars, offsets[k]) == Some(m.words[k]))
  {
    var c := CompactOf(m, nrwords, ops);
    var ws := m.words[..nrwords];
    CompactWellSized(m, nrwords, ops);
    StringTable.OffsetsOfTable(ws);
    RoundTrip(c);
    forall k | 0 <= k < nrwords
      ensures StringTable.CStringAt(c.chars, StringTable.StartsFrom(ws, 0, nrwords)[k]) == Some(m.words[k])
    {
      StringTable.WordsOfTable(ws, k);
    }
  }

  /**
   * What load reads as written agrees with CompactOf(m, nrwords) exactly
   * when nrwords equals the size of word2int_ (see AsWrittenFreqs).
   */
  lemma AsWrittenReadsCompact(m: Model, nrwords: int, ops: FloatOps)
    requires ModelOk(m, nrwords) && ParseImageAsWritten(Serialize(CompactOf(m, nrwords, ops))).Ok?
    ensures var c := CompactOf(m, nrwords, ops);
      ParseImageAsWritten(Serialize(c)).value.freqs == c.freqs <==> nrwords == |m.word2int|
  {
    CompactWellSized(m, nrwords, ops);
    AsWrittenFreqs(CompactOf(m, nrwords, ops));
  }
}
