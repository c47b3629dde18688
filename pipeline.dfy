/**
 * The two programs together: the data file CompactDictionary::writeCompact
 * writes for a model is one the corrected load (ParseImage, reading the
 * nrwords + nsubs_bucket frequencies written) accepts and getWordInfo can
 * serve, and the sub vector computeSubwords adds for a bucket is the
 * dequantized block the encoder packed for that bucket.  Load as written
 * (ParseImageAsWritten) gets the same image back exactly when nrwords is
 * the number of word slots (AsWrittenLoadedImage).
 */
module Pipeline {
  import opened Basics
  import opened Hashing
  import opened Quantization
  import StringTable
  import opened Container
  import opened Encoder
  import opened Writer
  import opened Reader

  /** What the corrected load reads from the data file writeCompact writes for m. */
  function Loaded(m: Model, nrwords: int, ops: FloatOps): Result<Image>
    requires ModelOk(m, nrwords)
  {
    ParseImage(Serialize(CompactOf(m, nrwords, ops)))
  }

  /**
   * A model whose data file load reads in full: an even ndim, at least one
   * restricted word, a non-empty first word and no '\0' inside the words.
   */
  ghost predicate Readable(m: Model, nrwords: int)
  {
    && ModelOk(m, nrwords) && nrwords >= 1 && m.ndim % 2 == 0
    && |m.words[0]| >= 1 && (forall t :: 0 <= t < nrwords ==> StringTable.NoNulIn(m.words[t]))
  }

  /**
   * A word2int_ table find can probe: every slot is -1 or a word id, and
   * some slot holds -1 or an id the restriction drops.
   */
  ghost predicate WordSlotsOk(m: Model, nrwords: int)
  {
    && (forall s :: 0 <= s < |m.word2int| ==> m.word2int[s] >= -1)
    && (exists s :: 0 <= s < |m.word2int| && (m.word2int[s] == -1 || m.word2int[s] >= nrwords))
  }

  /** The image the corrected load gets back: the sections as written, the sub-vector buffer zero-padded, and the offsets of the scan. */
  function ImageOf(m: Model, nrwords: int, ops: FloatOps): Image
    requires Readable(m, nrwords)
  {
    var c := CompactOf(m, nrwords, ops);
    Image(c.header, c.hash2id, c.chars, c.freqs, c.topWords, c.subVecs + ZeroBytes(|c.subVecs|), c.minsMaxs,
      StringTable.StartsFrom(m.words[..nrwords], 0, nrwords))
  }

  /** The corrected load accepts the data file and gets back ImageOf; every offset starts the C string of its word. */
  lemma LoadedImage(m: Model, nrwords: int, ops: FloatOps)
    requires Readable(m, nrwords)
    ensures Loaded(m, nrwords, ops) == Ok(ImageOf(m, nrwords, ops))
    ensures var img := ImageOf(m, nrwords, ops);
      forall k :: 0 <= k < nrwords ==> StringTable.CStringAt(img.chars, img.words[k]) == Some(m.words[k])
  {
    EncodeDecode(m, nrwords, ops);
  }

  /**
   * Load as written reads nwords_bucket + nsubs_bucket frequencies: it gets
   * ImageOf back from writeCompact's data file exactly when the restriction
   * keeps as many words as word2int_ has slots.
   */
  lemma AsWrittenLoadedImage(m: Model, nrwords: int, ops: FloatOps)
    requires Readable(m, nrwords)
    ensures ParseImageAsWritten(Serialize(CompactOf(m, nrwords, ops))) == Ok(ImageOf(m, nrwords, ops))
      <==> nrwords == |m.word2int|
  {
    var c := CompactOf(m, nrwords, ops);
    LoadedImage(m, nrwords, ops);
    CompactWellSized(m, nrwords, ops);
    SerializedHeader(c);
    if nrwords == |m.word2int| {
      SameCount(Serialize(c));
    } else if ParseImageAsWritten(Serialize(c)).Ok? {
      AsWrittenFreqs(c);
    }
  }

  /** ImageOf has the sizes of its header, and each offset starts a C string. */
  lemma ImageShaped(m: Model, nrwords: int, ops: FloatOps)
    requires Readable(m, nrwords) && |m.word2int| >= 1
    ensures var img := ImageOf(m, nrwords, ops);
      && Shaped(img)
      && forall k :: 0 <= k < |img.words| ==> StringTable.CStringAt(img.chars, img.words[k]).Some?
  {
    LoadedImage(m, nrwords, ops);
    CompactWellSized(m, nrwords, ops);
    EvenHalf(m.bucket, m.ndim);
  }

  /** The word half of ImageOf's hash2id is word2int_, the subword half holds ranks. */
  lemma ImageSlots(m: Model, nrwords: int, ops: FloatOps)
    requires Readable(m, nrwords)
    ensures var img := ImageOf(m, nrwords, ops);
      && img.header.nwordsBucket as int == |m.word2int| && img.header.nsubsBucket as int == m.bucket
      && |img.hash2id| == |m.word2int| + m.bucket
      && (forall s :: 0 <= s < img.header.nwordsBucket ==> img.hash2id[s] == m.word2int[s])
      && (forall s :: img.header.nwordsBucket <= s < |img.hash2id| ==> 0 <= img.hash2id[s] < img.header.nsubsBucket)
  {
    var img := ImageOf(m, nrwords, ops);
    var nwb := |m.word2int|;
    assert img.hash2id == m.word2int + RankTable(SubCounts(m));
    forall s | nwb <= s < |img.hash2id|
      ensures 0 <= img.hash2id[s] < m.bucket
    {
      RankTableAt(SubCounts(m), s - nwb);
    }
  }

  /** The data file of a readable model with a probeable word2int_ loads into an image getWordInfo can serve. */
  lemma EncodedServable(m: Model, nrwords: int, ops: FloatOps)
    requires Readable(m, nrwords) && WordSlotsOk(m, nrwords)
    ensures Loaded(m, nrwords, ops) == Ok(ImageOf(m, nrwords, ops))
    ensures Servable(ImageOf(m, nrwords, ops))
  {
    var s :| 0 <= s < |m.word2int| && (m.word2int[s] == -1 || m.word2int[s] >= nrwords);
    LoadedImage(m, nrwords, ops);
    ImageShaped(m, nrwords, ops);
    ImageSlots(m, nrwords, ops);
    assert Blank(ImageOf(m, nrwords, ops), s);
  }

  /** The rank load's hash2id gives raw bucket b is the one reverse_sub_map gave it. */
  lemma ServedRank(m: Model, nrwords: int, ops: FloatOps, b: nat)
    requires Readable(m, nrwords) && b < m.bucket
    ensures var img := ImageOf(m, nrwords, ops);
      && img.header.ndim as int == m.ndim && img.header.nwordsBucket as int == |m.word2int|
      && |m.word2int| + b < |img.hash2id|
      && img.hash2id[|m.word2int| + b] == RankTable(SubCounts(m))[b]
  {
  }

  /** The ndim / 2 bytes the reader takes for raw bucket b are the levels writeCompact packed for b. */
  lemma ServedBytes(m: Model, nrwords: int, ops: FloatOps, b: nat)
    requires Readable(m, nrwords) && b < m.bucket
    ensures var img := ImageOf(m, nrwords, ops);
      var h := img.hash2id[img.header.nwordsBucket + b];
      var d := img.header.ndim as int;
      && 0 <= h * d / 2 <= h * d / 2 + d / 2 <= |img.subVecs|
      && img.subVecs[h * d / 2..h * d / 2 + d / 2] == BucketBlock(m, b, ops)
  {
    ServedRank(m, nrwords, ops, b);
    var r := RankTable(SubCounts(m))[b];
    var d := m.ndim;
    RankLookup(m, ops, b, r);
    EvenHalf(r, d);
    ServedBlock(SubVecsOf(m, ops), r * (d / 2), d / 2);
  }

  /** The two floats the reader takes for raw bucket b are the bounds the min/max scan found for b. */
  lemma ServedBounds(m: Model, nrwords: int, ops: FloatOps, b: nat)
    requires Readable(m, nrwords) && b < m.bucket
    ensures var img := ImageOf(m, nrwords, ops);
      var h := img.hash2id[img.header.nwordsBucket + b];
      && 0 <= 2 * h <= 2 * h + 2 <= |img.minsMaxs|
      && img.minsMaxs[2 * h..2 * h + 2] == [BucketBounds(m, b, ops).0, BucketBounds(m, b, ops).1]
  {
    ServedRank(m, nrwords, ops, b);
    RankLookup(m, ops, b, RankTable(SubCounts(m))[b]);
  }

  /**
   * The lookup lands on the bucket's block: the sub vector computeSubwords
   * adds for raw bucket b is toFloat of the levels writeCompact packed for b,
   * with the bounds its min/max scan found (EncodedServable says when the
   * loaded image is servable).
   */
  lemma ServedSubVector(m: Model, nrwords: int, ops: FloatOps, b: nat)
    requires Readable(m, nrwords) && Servable(ImageOf(m, nrwords, ops)) && b < m.bucket
    ensures SubVector(ImageOf(m, nrwords, ops), b, ops) ==
      Dequantize(BucketBlock(m, b, ops), BucketBounds(m, b, ops).0, BucketBounds(m, b, ops).1, m.ndim, ops)
  {
    ServedRank(m, nrwords, ops, b);
    ServedBytes(m, nrwords, ops, b);
    ServedBounds(m, nrwords, ops, b);
    SubVectorOf(ImageOf(m, nrwords, ops), b, BucketBlock(m, b, ops), BucketBounds(m, b, ops).0, BucketBounds(m, b, ops).1, ops);
  }

  /** Row idx of the loaded top_words is the row writeCompact wrote for restricted word idx. */
  lemma ServedRow(m: Model, nrwords: int, ops: FloatOps, idx: int)
    requires Readable(m, nrwords) && Servable(ImageOf(m, nrwords, ops)) && IsTopWord(ImageOf(m, nrwords, ops), idx)
    ensures TopWordRow(ImageOf(m, nrwords, ops), idx) == WordRow(m, idx, ops)
  {
    CompactWellSized(m, nrwords, ops);
    ConcatSlice(WordRows(m, nrwords, ops), m.ndim, idx);
  }

  /**
   * A query getWordInfo answers from top_words gets what the encoder stored
   * for that word: the word at the id find stopped at is the query (up to
   * its first '\0'), the vector is transform of its word vector, and the
   * frequency is its count over ntokens_.
   */
  lemma ServedTopWord(m: Model, nrwords: int, ops: FloatOps, w: seq<byte>)
    requires Readable(m, nrwords) && Servable(ImageOf(m, nrwords, ops))
    requires IsTopWord(ImageOf(m, nrwords, ops), ImageOf(m, nrwords, ops).hash2id[FindSlot(ImageOf(m, nrwords, ops), w)])
    ensures var img := ImageOf(m, nrwords, ops);
      var idx := img.hash2id[FindSlot(img, w)];
      && m.words[idx] == CPrefix(w)
      && WordInfo(img, w, ops).data == Transform(m.ndim, m.wordVectors[idx], ops)
      && WordInfo(img, w, ops).freq == ops.ratio(m.counts[idx], m.ntokens)
  {
    var img := ImageOf(m, nrwords, ops);
    var idx := img.hash2id[FindSlot(img, w)];
    LoadedImage(m, nrwords, ops);
    TopWordInfo(img, w, ops);
    ServedRow(m, nrwords, ops, idx);
    WordFreqAt(m, nrwords, ops, idx);
  }

  /**
   * Word k was put into word2int_ t probe steps from hash(word k) %
   * word2int_.size(), past slots that held only words added before it: the
   * table fastText's Dictionary builds when it adds the words in id order
   * with its own find.
   */
  ghost predicate PlacedAt(m: Model, k: int, t: nat)
    requires 0 <= k < |m.words| && 1 <= |m.word2int|
  {
    var n := |m.word2int|;
    var start := Hash(m.words[k]) % n;
    && m.word2int[Slot(start, n, t)] == k
    && forall u :: 0 <= u < t ==> 0 <= m.word2int[Slot(start, n, u)] < k
  }

  /** Every restricted word was placed into word2int_ in id order. */
  ghost predicate FilledInOrder(m: Model, nrwords: int)
    requires 0 <= nrwords <= |m.words| && 1 <= |m.word2int|
  {
    forall k :: 0 <= k < nrwords ==> Placed(m, k)
  }

  ghost predicate Placed(m: Model, k: int)
    requires 0 <= k < |m.words| && 1 <= |m.word2int|
  {
    exists t: nat :: PlacedAt(m, k, t)
  }

  /** No two restricted words are spelled alike. */
  ghost predicate DistinctWords(m: Model, nrwords: int)
    requires 0 <= nrwords <= |m.words|
  {
    forall i, j :: 0 <= i < j < nrwords ==> m.words[i] != m.words[j]
  }

  /**
   * A probe that reaches the slot holding k, a top word spelled as w, after
   * t steps through slots holding other top words, stops there.
   */
  lemma FindsPlaced(img: Image, w: seq<byte>, k: nat, t: nat)
    requires Findable(img) && k < img.header.nrwords && SameWord(img, k, w)
    requires var n := img.header.nwordsBucket; var start := Hash(w) % n;
      && img.hash2id[Slot(start, n, t)] == k
      && forall u :: 0 <= u < t ==>
        var j := img.hash2id[Slot(start, n, u)]; 0 <= j < img.header.nrwords && !SameWord(img, j as nat, w)
    ensures img.hash2id[FindSlot(img, w)] == k
  {
    var n := img.header.nwordsBucket;
    var start := Hash(w) % n;
    FindSlotMeaning(img, w);
    var len := FindLength(img, w);
    if len < t {
      assert false;
    } else if len > t {
      assert false;
    }
  }

  /** find of restricted word k after load stops at the slot that holds k. */
  lemma FindsTopWord(m: Model, nrwords: int, ops: FloatOps, k: nat)
    requires Readable(m, nrwords) && WordSlotsOk(m, nrwords)
    requires DistinctWords(m, nrwords) && FilledInOrder(m, nrwords)
    requires k < nrwords
    ensures Servable(ImageOf(m, nrwords, ops))
    ensures ImageOf(m, nrwords, ops).hash2id[FindSlot(ImageOf(m, nrwords, ops), m.words[k])] == k
  {
    var img := ImageOf(m, nrwords, ops);
    var w := m.words[k];
    var n := |m.word2int|;
    EncodedServable(m, nrwords, ops);
    LoadedImage(m, nrwords, ops);
    ImageShaped(m, nrwords, ops);
    ImageSlots(m, nrwords, ops);
    assert CPrefix(w) == w;
    assert Placed(m, k);
    var t: nat :| PlacedAt(m, k, t);
    var start := Hash(w) % n;
    forall u | 0 <= u < t
      ensures var j := img.hash2id[Slot(start, n, u)]; 0 <= j < nrwords && !SameWord(img, j as nat, w)
    {
      var j := m.word2int[Slot(start, n, u)];
      assert 0 <= j < k;
      assert m.words[j] != w;
    }
    FindsPlaced(img, w, k, t);
  }

  /**
   * Every word inserted at encode time is found after load: with distinct
   * words and word2int_ filled in id order, find(word k) stops at the slot
   * holding k, so getWordInfo answers from top_words with word k's row and
   * frequency.
   */
  lemma ServedEveryTopWord(m: Model, nrwords: int, ops: FloatOps)
    requires Readable(m, nrwords) && WordSlotsOk(m, nrwords)
    requires DistinctWords(m, nrwords) && FilledInOrder(m, nrwords)
    ensures Servable(ImageOf(m, nrwords, ops))
    ensures var img := ImageOf(m, nrwords, ops);
      forall k :: 0 <= k < nrwords ==>
        && img.hash2id[FindSlot(img, m.words[k])] == k
        && WordInfo(img, m.words[k], ops).data == Transform(m.ndim, m.wordVectors[k], ops)
        && WordInfo(img, m.words[k], ops).freq == ops.ratio(m.counts[k], m.ntokens)
  {
    var img := ImageOf(m, nrwords, ops);
    EncodedServable(m, nrwords, ops);
    ImageShaped(m, nrwords, ops);
    forall k | 0 <= k < nrwords
      ensures && img.hash2id[FindSlot(img, m.words[k])] == k
        && WordInfo(img, m.words[k], ops).data == Transform(m.ndim, m.wordVectors[k], ops)
        && WordInfo(img, m.words[k], ops).freq == ops.ratio(m.counts[k], m.ntokens)
    {
      FindsTopWord(m, nrwords, ops, k);
      ServedTopWord(m, nrwords, ops, m.words[k]);
    }
  }

  /** A block inside the written bytes reads the same from the zero-padded buffer. */
  lemma ServedBlock(v: seq<byte>, off: nat, n: nat)
    requires off + n <= |v|
    ensures (v + ZeroBytes(|v|))[off..off + n] == v[off..off + n]
  {
  }
}
