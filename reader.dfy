/**
 * The reader, Dictionary (grpc_server/wv_server.cc): it loads the compact
 * data file into memory and answers getWordInfo queries.  A word found among
 * the top words by the open-addressing probe of find gets its stored vector
 * and frequency; any other word gets the average of the dequantized vectors
 * of the subword buckets its n-grams (of "<" + word + ">") hash to.
 *
 * The pure part states what a query returns of a loaded Image; the class
 * Dictionary holds the same vectors as fields and computes it step by step.
 */
module Reader {
  import opened Basics
  import opened Hashing
  import opened Subwords
  import opened Quantization
  import opened Container
  import StringTable

  // ---------------------------------------------------------------------
  // What the lookups need of a loaded image

  /** The sizes load gives its vectors, with at least one top word and one bucket of each kind. */
  predicate Shaped(img: Image)
  {
    var h := img.header;
    && 1 <= h.nrwords && 1 <= h.nwordsBucket && 1 <= h.nsubsBucket && 0 <= h.ndim
    && |img.hash2id| == h.nwordsBucket + h.nsubsBucket
    && |img.words| == h.nrwords as int
    && h.nrwords as int <= |img.freqs|
    && |img.topWords| == h.nrwords * h.ndim
    && |img.subVecs| == h.nsubsBucket * h.ndim
    && |img.minsMaxs| == 2 * h.nsubsBucket
  }

  /** What the probe of find indexes: the word slots of hash2id and the word offsets. */
  predicate Probeable(img: Image)
  {
    && 1 <= img.header.nwordsBucket as int <= |img.hash2id|
    && |img.words| == img.header.nrwords as int
  }

  lemma ShapedProbeable(img: Image)
    requires Shaped(img)
    ensures Probeable(img)
  {
  }

  /** Word slot s ends every probe: it is empty (-1) or holds an id past the top words. */
  predicate Blank(img: Image, s: nat)
    requires Probeable(img) && s < img.header.nwordsBucket
  {
    img.hash2id[s] == -1 || img.hash2id[s] >= img.header.nrwords
  }

  /**
   * What find reads stays inside its vectors and its probe stops: each top
   * word is '\0'-terminated for strcmp, word slots hold -1 or an id, and
   * some word slot is blank.  Nothing about the subword half or its sizes.
   */
  ghost predicate Findable(img: Image)
  {
    && Probeable(img)
    && (forall k :: 0 <= k < |img.words| ==> StringTable.CStringAt(img.chars, img.words[k]).Some?)
    && (forall s :: 0 <= s < img.header.nwordsBucket ==> img.hash2id[s] >= -1)
    && (exists s :: 0 <= s < img.header.nwordsBucket && Blank(img, s))
  }

  /**
   * Every index find, getWordInfo and computeSubwords take stays inside its
   * vector: the sizes, a rank in every subword slot, and what find needs.
   */
  ghost predicate Servable(img: Image)
  {
    Ranked(img) && Findable(img)
  }

  /** What computeSubwords indexes: the sizes, and a rank below nsubs_bucket in every subword slot. */
  predicate Ranked(img: Image)
  {
    && Shaped(img)
    && (forall s :: img.header.nwordsBucket <= s < |img.hash2id| ==> 0 <= img.hash2id[s] < img.header.nsubsBucket)
  }

  // ---------------------------------------------------------------------
  // find

  /** The C string `w.c_str()` hands strcmp: the bytes of w before its first '\0'. */
  function CPrefix(w: seq<byte>): (p: seq<byte>)
    ensures |p| <= |w| && p == w[..|p|]
    ensures StringTable.NoNulIn(p)
    ensures |p| < |w| ==> w[|p|] == 0
  {
    match StringTable.NextNul(w, 0)
    case None => w
    case Some(k) => w[..k]
  }

  /** `strcmp(words[k], w) == 0`: the '\0'-terminated bytes at words[k] are those of w's C string. */
  function SameWord(img: Image, k: nat, w: seq<byte>): bool
    requires Probeable(img) && k < |img.words|
  {
    StringTable.CStringAt(img.chars, img.words[k]) == Some(CPrefix(w))
  }

  /** The loop condition of find at slot s: the slot holds a top word other than w. */
  predicate Passes(img: Image, s: nat, w: seq<byte>)
    requires Probeable(img) && s < img.header.nwordsBucket
  {
    0 <= img.hash2id[s] < img.header.nrwords && !SameWord(img, img.hash2id[s] as nat, w)
  }

  /** `(id + 1) % nwords_bucket`: the slot after id, wrapping round to 0. */
  function NextSlot(id: nat, n: int): (s: nat)
    requires id < n
    ensures s == if id + 1 < n then id + 1 else 0
  {
    if id + 1 < n then
      assert (id + 1) / n == 0;
      (id + 1) % n
    else
      assert (id + 1) / n == 1;
      (id + 1) % n
  }

  /** The t-th slot of the probe that starts at slot id. */
  function Slot(id: nat, n: int, t: nat): (s: nat)
    requires id < n
    ensures s < n
  {
    if t == 0 then id else NextSlot(Slot(id, n, t - 1), n)
  }

  /** The probe from slot id with at most fuel slots to visit: the first slot that does not pass. */
  function ProbeFrom(img: Image, w: seq<byte>, id: nat, fuel: nat): (r: Option<nat>)
    requires Probeable(img) && id < img.header.nwordsBucket
    ensures r.Some? ==> r.value < img.header.nwordsBucket
    decreases fuel
  {
    if fuel == 0 then None
    else if !Passes(img, id, w) then Some(id)
    else ProbeFrom(img, w, NextSlot(id, img.header.nwordsBucket), fuel - 1)
  }

  lemma {:induction false} SlotStep(id: nat, n: int, t: nat)
    requires id < n
    ensures Slot(NextSlot(id, n), n, t) == Slot(id, n, t + 1)
  {
    if t > 0 {
      SlotStep(id, n, t - 1);
    }
  }

  /** The probe visits id, id + 1, ... and wraps round to 0 once. */
  lemma {:induction false} SlotValue(id: nat, n: int, t: nat)
    requires id < n && t < n
    ensures Slot(id, n, t) == if id + t < n then id + t else id + t - n
  {
    if t > 0 {
      SlotValue(id, n, t - 1);
    }
  }

  /** A probe that meets a slot which does not pass within its fuel stops. */
  lemma {:induction false} ProbeReaches(img: Image, w: seq<byte>, id: nat, fuel: nat, k: nat)
    requires Probeable(img) && id < img.header.nwordsBucket
    requires k < fuel && !Passes(img, Slot(id, img.header.nwordsBucket, k), w)
    ensures ProbeFrom(img, w, id, fuel).Some?
    decreases k
  {
    if Passes(img, id, w) {
      assert k != 0;
      SlotStep(id, img.header.nwordsBucket, k - 1);
      ProbeReaches(img, w, NextSlot(id, img.header.nwordsBucket), fuel - 1, k - 1);
    }
  }

  /** The number of slots a probe that stops passes before it stops. */
  ghost function ProbeLength(img: Image, w: seq<byte>, id: nat, fuel: nat): nat
    requires Probeable(img) && id < img.header.nwordsBucket
    requires ProbeFrom(img, w, id, fuel).Some?
    decreases fuel
  {
    if !Passes(img, id, w) then 0 else 1 + ProbeLength(img, w, NextSlot(id, img.header.nwordsBucket), fuel - 1)
  }

  /** Where a probe stops: at a slot that does not pass, within its fuel ... */
  lemma {:induction false} ProbeStops(img: Image, w: seq<byte>, id: nat, fuel: nat)
    requires Probeable(img) && id < img.header.nwordsBucket
    requires ProbeFrom(img, w, id, fuel).Some?
    ensures var k := ProbeLength(img, w, id, fuel);
      && k < fuel
      && ProbeFrom(img, w, id, fuel).value == Slot(id, img.header.nwordsBucket, k)
      && !Passes(img, Slot(id, img.header.nwordsBucket, k), w)
    decreases fuel
  {
    if Passes(img, id, w) {
      var next := NextSlot(id, img.header.nwordsBucket);
      ProbeStops(img, w, next, fuel - 1);
      SlotStep(id, img.header.nwordsBucket, ProbeLength(img, w, next, fuel - 1));
    }
  }

  /** ... after passing only slots that hold top words other than w. */
  lemma {:induction false} ProbePasses(img: Image, w: seq<byte>, id: nat, fuel: nat)
    requires Probeable(img) && id < img.header.nwordsBucket
    requires ProbeFrom(img, w, id, fuel).Some?
    ensures forall t :: 0 <= t < ProbeLength(img, w, id, fuel) ==> Passes(img, Slot(id, img.header.nwordsBucket, t), w)
    decreases fuel
  {
    var n := img.header.nwordsBucket;
    if Passes(img, id, w) {
      var next := NextSlot(id, n);
      ProbePasses(img, w, next, fuel - 1);
      forall t | 0 <= t < ProbeLength(img, w, id, fuel)
        ensures Passes(img, Slot(id, n, t), w)
      {
        if t > 0 {
          SlotStep(id, n, t - 1);
        }
      }
    }
  }

  /** With a blank word slot, the probe from any slot stops within nwords_bucket steps. */
  lemma StopperReached(img: Image, w: seq<byte>, start: nat)
    requires Findable(img) && start < img.header.nwordsBucket
    ensures ProbeFrom(img, w, start, img.header.nwordsBucket).Some?
  {
    var n := img.header.nwordsBucket as int;
    var s :| 0 <= s < n && Blank(img, s);
    var k := if s >= start then s - start else s + n - start;
    SlotValue(start, n, k);
    ProbeReaches(img, w, start, n, k);
  }

  /** find(w, h): the slot where the probe from h % nwords_bucket stops. */
  function FindFrom(img: Image, w: seq<byte>, h: u32): (s: nat)
    requires Findable(img)
    ensures s < img.header.nwordsBucket
  {
    StopperReached(img, w, h % img.header.nwordsBucket);
    ProbeFrom(img, w, h % img.header.nwordsBucket, img.header.nwordsBucket).value
  }

  /** find(w): the probe starts at the hash of w. */
  function FindSlot(img: Image, w: seq<byte>): (s: nat)
    requires Findable(img)
    ensures s < img.header.nwordsBucket
  {
    FindFrom(img, w, Hash(w))
  }

  /** The number of slots find passes before it stops. */
  ghost function FindLength(img: Image, w: seq<byte>): nat
    requires Findable(img)
  {
    StopperReached(img, w, Hash(w) % img.header.nwordsBucket);
    ProbeLength(img, w, Hash(w) % img.header.nwordsBucket, img.header.nwordsBucket)
  }

  /**
   * What find returns: a word slot that holds -1, an id of no top word, or
   * the id of a top word whose string is w; it is reached from
   * hash(w) % nwords_bucket in fewer than nwords_bucket steps through slots
   * that each hold another top word.
   */
  lemma FindSlotStops(img: Image, w: seq<byte>)
    requires Findable(img)
    ensures var idx := img.hash2id[FindSlot(img, w)];
      idx == -1 || idx >= img.header.nrwords || (0 <= idx < img.header.nrwords && SameWord(img, idx as nat, w))
  {
    var start := Hash(w) % img.header.nwordsBucket;
    StopperReached(img, w, start);
    ProbeStops(img, w, start, img.header.nwordsBucket);
  }

  lemma FindSlotMeaning(img: Image, w: seq<byte>)
    requires Findable(img)
    ensures var s := FindSlot(img, w);
      var idx := img.hash2id[s];
      idx == -1 || idx >= img.header.nrwords || (0 <= idx < img.header.nrwords && SameWord(img, idx as nat, w))
    ensures var start := Hash(w) % img.header.nwordsBucket;
      var k := FindLength(img, w);
      && k < img.header.nwordsBucket
      && FindSlot(img, w) == Slot(start, img.header.nwordsBucket, k)
      && forall t :: 0 <= t < k ==> Passes(img, Slot(start, img.header.nwordsBucket, t), w)
  {
    var start := Hash(w) % img.header.nwordsBucket;
    StopperReached(img, w, start);
    ProbeStops(img, w, start, img.header.nwordsBucket);
    ProbePasses(img, w, start, img.header.nwordsBucket);
  }

  // ---------------------------------------------------------------------
  // toFloat, addVector, divVector, computeSubwords

  function AddAt(a: seq<F32>, b: seq<F32>, n: nat, i: nat, ops: FloatOps): F32
    requires n <= |a| && n <= |b| && i < |a|
  {
    if i < n then ops.add(a[i], b[i]) else a[i]
  }

  function DivAt(a: seq<F32>, div: int, n: nat, i: nat, ops: FloatOps): F32
    requires n <= |a| && i < |a|
  {
    if i < n then ops.divCount(a[i], div) else a[i]
  }

  /** `v1[i] += v2[i]` for every i < n. */
  function AddVec(a: seq<F32>, b: seq<F32>, n: nat, ops: FloatOps): (r: seq<F32>)
    requires n <= |a| && n <= |b|
    ensures |r| == |a|
  {
    seq(|a|, i requires 0 <= i < |a| => AddAt(a, b, n, i, ops))
  }

  /** `v[i] /= div` for every i < n. */
  function DivVec(a: seq<F32>, div: int, n: nat, ops: FloatOps): (r: seq<F32>)
    requires n <= |a|
    ensures |r| == |a|
  {
    seq(|a|, i requires 0 <= i < |a| => DivAt(a, div, n, i, ops))
  }

  /** Rank h < nsubs_bucket has its ndim / 2 bytes at h * ndim / 2 inside the nsubs_bucket * ndim bytes of sub_vecs. */
  lemma HalfOffset(h: int, n: int, d: int)
    requires 0 <= h < n && 0 <= d
    ensures 0 <= h * d / 2 && h * d / 2 + d / 2 <= n * d
  {
    MulMono(0, h, d);
    MulMono(h + 1, n, d);
    assert h * d + d == (h + 1) * d;
  }

  /**
   * The vector computeSubwords adds for subword bucket b: toFloat of the
   * rank r = hash2id[nwords_bucket + b], its bytes at r * ndim / 2 and its
   * bounds at mins_maxs[2 r] and mins_maxs[2 r + 1].
   */
  function SubVector(img: Image, b: int, ops: FloatOps): (v: seq<F32>)
    requires Ranked(img) && 0 <= b < img.header.nsubsBucket
    ensures |v| == img.header.ndim as int
  {
    var h: int := img.hash2id[img.header.nwordsBucket + b];
    var d := img.header.ndim as int;
    HalfOffset(h, img.header.nsubsBucket, d);
    Dequantize(img.subVecs[h * d / 2..h * d / 2 + d / 2], img.minsMaxs[2 * h], img.minsMaxs[2 * h + 1], d, ops)
  }

  /** SubVector from what the image holds at the rank of b. */
  lemma SubVectorOf(img: Image, b: int, block: seq<byte>, lo: F32, hi: F32, ops: FloatOps)
    requires Ranked(img) && 0 <= b < img.header.nsubsBucket
    requires var h := img.hash2id[img.header.nwordsBucket + b];
      var d := img.header.ndim as int;
      && 0 <= h * d / 2 <= h * d / 2 + d / 2 <= |img.subVecs| && img.subVecs[h * d / 2..h * d / 2 + d / 2] == block
      && 0 <= 2 * h <= 2 * h + 2 <= |img.minsMaxs| && img.minsMaxs[2 * h..2 * h + 2] == [lo, hi]
    ensures SubVector(img, b, ops) == Dequantize(block, lo, hi, img.header.ndim as nat, ops)
  {
    var h: int := img.hash2id[img.header.nwordsBucket + b];
    assert img.minsMaxs[2 * h] == img.minsMaxs[2 * h..2 * h + 2][0];
    assert img.minsMaxs[2 * h + 1] == img.minsMaxs[2 * h..2 * h + 2][1];
  }

  /** acc after adding the sub vector of each bucket of bs, in order (buckets outside the table are ignored). */
  function Accumulate(img: Image, acc: seq<F32>, bs: seq<int>, ops: FloatOps): (r: seq<F32>)
    requires Ranked(img) && |acc| == img.header.ndim as int
    ensures |r| == |acc|
  {
    if bs == [] then acc
    else
      var r0 := Accumulate(img, acc, bs[..|bs| - 1], ops);
      var b := bs[|bs| - 1];
      if 0 <= b < img.header.nsubsBucket then AddVec(r0, SubVector(img, b, ops), |r0|, ops) else r0
  }

  /** One more bucket: its sub vector is added. */
  lemma AccumulateSnoc(img: Image, acc: seq<F32>, bs: seq<int>, b: int, ops: FloatOps)
    requires Ranked(img) && |acc| == img.header.ndim as int && 0 <= b < img.header.nsubsBucket
    ensures Accumulate(img, acc, bs + [b], ops) == AddVec(Accumulate(img, acc, bs, ops), SubVector(img, b, ops), |acc|, ops)
  {
    assert (bs + [b])[..|bs|] == bs;
  }

  lemma {:induction false} AccumulateAppend(img: Image, acc: seq<F32>, a: seq<int>, b: seq<int>, ops: FloatOps)
    requires Ranked(img) && |acc| == img.header.ndim as int
    ensures Accumulate(img, acc, a + b, ops) == Accumulate(img, Accumulate(img, acc, a, ops), b, ops)
    decreases |b|
  {
    if b == [] {
      assert a + b == a;
    } else {
      var front := b[..|b| - 1];
      assert (a + b)[..|a + b| - 1] == a + front;
      assert (a + b)[|a + b| - 1] == b[|b| - 1];
      AccumulateAppend(img, acc, a, front, ops);
    }
  }

  /**
   * computeSubwords(w, r, count): r plus the sub vector of every used n-gram
   * of w, divided by count plus the number of used n-grams (one bucket each).
   */
  function SubwordAverage(img: Image, w: seq<byte>, r: seq<F32>, count: int, ops: FloatOps): (v: seq<F32>)
    requires Ranked(img) && |r| == img.header.ndim as int
    ensures |v| == |r|
  {
    AverageOver(img, r, SubwordBuckets(w, img.header.minn, img.header.maxn, img.header.nsubsBucket as int), count, ops)
  }

  /** r plus the sub vectors of the buckets bs, divided by count plus the number of buckets. */
  function AverageOver(img: Image, r: seq<F32>, bs: seq<int>, count: int, ops: FloatOps): (v: seq<F32>)
    requires Ranked(img) && |r| == img.header.ndim as int
    ensures |v| == |r|
  {
    DivVec(Accumulate(img, r, bs, ops), count + |bs|, |r|, ops)
  }

  /**
   * The average divides the sum over the buckets of w by count plus the
   * number of used n-grams of w.
   */
  lemma AverageOf(img: Image, w: seq<byte>, r: seq<F32>, count: int, ops: FloatOps)
    requires Ranked(img) && |r| == img.header.ndim as int
    ensures var h := img.header;
      SubwordAverage(img, w, r, count, ops) == DivVec(Accumulate(img, r, SubwordBuckets(w, h.minn, h.maxn, h.nsubsBucket as int), ops),
        count + |Ngrams(w, h.minn, h.maxn)|, |r|, ops)
  {
    var h := img.header;
    var bs := SubwordBuckets(w, h.minn, h.maxn, h.nsubsBucket as int);
    AverageOverOf(img, r, bs, count, ops);
    SubwordBucketsLength(w, h.minn, h.maxn, h.nsubsBucket as int);
  }

  lemma AverageOverOf(img: Image, r: seq<F32>, bs: seq<int>, count: int, ops: FloatOps)
    requires Ranked(img) && |r| == img.header.ndim as int
    ensures AverageOver(img, r, bs, count, ops) == DivVec(Accumulate(img, r, bs, ops), count + |bs|, |r|, ops)
  {
  }

  /** The string computeSubwords receives: BOW + word + EOW. */
  function Bracket(w: seq<byte>): seq<byte>
  {
    [60] + w + [62]
  }

  /** A word with fewer than minn code points has no used n-gram ... */
  lemma ShortWordHasNoNgrams(w: seq<byte>, minn: nat, maxn: nat)
    requires CodePoints(w, 0, |w|) < minn
    ensures Ngrams(w, minn, maxn) == []
  {
    if Ngrams(w, minn, maxn) != [] {
      var g := Ngrams(w, minn, maxn)[0];
      NgramsExact(w, minn, maxn, g);
      CodePointsSplit(w, 0, g.start, g.end);
      CodePointsSplit(w, 0, g.end, |w|);
    }
  }

  /** ... so "<>", the string of the empty word, has none once minn >= 3: computeSubwords divides zeros by 0. */
  lemma EmptyWordAverage(img: Image, ops: FloatOps)
    requires Ranked(img) && img.header.minn >= 3
    ensures Ngrams(Bracket([]), img.header.minn, img.header.maxn) == []
    ensures SubwordAverage(img, Bracket([]), Zeros(img.header.ndim as int), 0, ops) ==
      seq(img.header.ndim as int, _ => ops.divCount(ZERO, 0))
  {
    var w := Bracket([]);
    assert w == [60, 62];
    assert CodePoints(w, 0, 2) == 2 by {
      assert CodePoints(w, 0, 1) == 1;
    }
    ShortWordHasNoNgrams(w, img.header.minn, img.header.maxn);
    SubwordBucketsLength(w, img.header.minn, img.header.maxn, img.header.nsubsBucket as int);
  }

  // ---------------------------------------------------------------------
  // getWordInfo

  /** VectorResult: the vector, the frequency and the dimension of a query. */
  datatype VectorResult = VectorResult(data: seq<F32>, freq: F32, ndim: int32)

  /** The top word id getWordInfo finds for w, if the probe stops at a top word. */
  predicate IsTopWord(img: Image, idx: int)
  {
    0 <= idx < img.header.nrwords
  }

  /** Row idx of top_words: the ndim floats at idx * ndim. */
  function TopWordRow(img: Image, idx: int): (v: seq<F32>)
    requires Shaped(img) && IsTopWord(img, idx)
    ensures |v| == img.header.ndim as int
  {
    var d := img.header.ndim as int;
    RowBounds(idx, img.header.nrwords as int, d);
    img.topWords[idx * d..idx * d + d]
  }

  /** Row idx < n of width d lies inside n * d. */
  lemma RowBounds(idx: int, n: int, d: int)
    requires 0 <= idx < n && 0 <= d
    ensures 0 <= idx * d && idx * d + d <= n * d
  {
    MulMono(0, idx, d);
    MulMono(idx + 1, n, d);
    assert (idx + 1) * d == idx * d + d;
  }

  /**
   * getWordInfo(w): when find stops at a slot holding a top word id, that
   * word's row of top_words and its frequency; otherwise the subword average
   * of "<" + w + ">" from a zero vector and the frequency of the last top word.
   */
  function WordInfo(img: Image, w: seq<byte>, ops: FloatOps): (r: VectorResult)
    requires Servable(img)
    ensures |r.data| == img.header.ndim as int && r.ndim == img.header.ndim
  {
    var idx := img.hash2id[FindSlot(img, w)];
    if IsTopWord(img, idx) then StoredInfo(img, idx) else AverageInfo(img, w, ops)
  }

  /** The answer for top word idx: its row of top_words and its frequency. */
  function StoredInfo(img: Image, idx: int): (r: VectorResult)
    requires Shaped(img) && IsTopWord(img, idx)
    ensures |r.data| == img.header.ndim as int && r.ndim == img.header.ndim
  {
    VectorResult(TopWordRow(img, idx), img.freqs[idx], img.header.ndim)
  }

  /** The answer for a word without a stored row: the subword average of "<" + w + ">" from zero, and the last top word's frequency. */
  function AverageInfo(img: Image, w: seq<byte>, ops: FloatOps): (r: VectorResult)
    requires Servable(img)
    ensures |r.data| == img.header.ndim as int && r.ndim == img.header.ndim
  {
    var h := img.header;
    VectorResult(SubwordAverage(img, Bracket(w), Zeros(h.ndim as int), 0, ops), img.freqs[h.nrwords - 1], h.ndim)
  }

  /**
   * A query that gets a stored row gets the row of the word itself: the top
   * word at that id is spelled as w (up to w's first '\0').
   */
  lemma TopWordInfo(img: Image, w: seq<byte>, ops: FloatOps)
    requires Servable(img) && IsTopWord(img, img.hash2id[FindSlot(img, w)])
    ensures var idx := img.hash2id[FindSlot(img, w)];
      && StringTable.CStringAt(img.chars, img.words[idx]) == Some(CPrefix(w))
      && WordInfo(img, w, ops).freq == img.freqs[idx]
      && WordInfo(img, w, ops).data == TopWordRow(img, idx)
  {
    FindSlotStops(img, w);
  }

  /**
   * A query that gets no stored row: the probe stopped at a blank slot after
   * passing only other top words, and the vector is the average of the sub
   * vectors of the used n-grams of "<" + w + ">" (SubwordBucketsMeaning says
   * which buckets those are).
   */
  lemma SubwordInfo(img: Image, w: seq<byte>, ops: FloatOps)
    requires Servable(img) && !IsTopWord(img, img.hash2id[FindSlot(img, w)])
    ensures Blank(img, FindSlot(img, w))
    ensures var h := img.header;
      && WordInfo(img, w, ops).freq == img.freqs[h.nrwords - 1]
      && WordInfo(img, w, ops).data == DivVec(Accumulate(img, Zeros(h.ndim as int),
           SubwordBuckets(Bracket(w), h.minn, h.maxn, h.nsubsBucket as int), ops),
           |Ngrams(Bracket(w), h.minn, h.maxn)|, h.ndim as int, ops)
  {
    FindSlotStops(img, w);
    var h := img.header;
    assert WordInfo(img, w, ops) == AverageInfo(img, w, ops);
    AverageInfoData(img, w, ops);
  }

  /** The vector of the subword answer, as SubwordInfo states it. */
  lemma AverageInfoData(img: Image, w: seq<byte>, ops: FloatOps)
    requires Servable(img)
    ensures var h := img.header;
      AverageInfo(img, w, ops).data == DivVec(Accumulate(img, Zeros(h.ndim as int),
        SubwordBuckets(Bracket(w), h.minn, h.maxn, h.nsubsBucket as int), ops),
        |Ngrams(Bracket(w), h.minn, h.maxn)|, h.ndim as int, ops)
  {
    AverageOf(img, Bracket(w), Zeros(img.header.ndim as int), 0, ops);
  }

  // ---------------------------------------------------------------------
  // The Dictionary object

  /**
   * The corrected load, ParseImage, once the header is read and sized: the
   * sections, with the offsets of the scan.
   */
  lemma LoadSteps(data: seq<byte>, h: Header, img: Image)
    requires |data| >= HEADER_SIZE && h == ParseHeader(data)
    requires SizesNonNegative(h, true) && h.nrwords != 0
    requires img == ReadSections(data, h, true)
    ensures img.header == h
    ensures StringTable.Offsets(img.chars, h.nrwords as nat).None? ==> ParseImage(data).Err?
    ensures StringTable.Offsets(img.chars, h.nrwords as nat).Some? ==>
      ParseImage(data) == Ok(img.(words := StringTable.Offsets(img.chars, h.nrwords as nat).value))
  {
  }

  class Dictionary {
    var nwords: int32
    var nrwords: int32
    var nwordsBucket: int32
    var nsubsBucket: int32
    var ndim: int32
    var nchars: int32
    var maxn: byte
    var minn: byte
    var chars: seq<byte>
    var words: seq<nat>
    var hash2id: seq<int32>
    var freqs: seq<F32>
    var topWords: seq<F32>
    var minsMaxs: seq<F32>
    var subVecs: seq<byte>

    /** The fields, as the Image load fills them. */
    function Snapshot(): Image
      reads this
    {
      Image(Header(nwords, nrwords, nwordsBucket, nsubsBucket, ndim, nchars, minn, maxn),
        hash2id, chars, freqs, topWords, subVecs, minsMaxs, words)
    }

    ghost predicate Valid()
      reads this
    {
      Servable(Snapshot())
    }

    /** `Dictionary(filename) { load(filename); }`, with the corrected load. */
    constructor(data: seq<byte>)
      ensures ParseImage(data).Ok? ==> Snapshot() == ParseImage(data).value
      ensures ParseImage(data).Ok? && Servable(ParseImage(data).value) ==> Valid()
      ensures (|data| >= HEADER_SIZE && ParseHeader(data).nrwords == ParseHeader(data).nwordsBucket &&
        ParseImageAsWritten(data).Ok?) ==> Snapshot() == ParseImageAsWritten(data).value
    {
      new;
      var ok := Load(data);
    }

    /**
     * load: the header, then each section at the position the previous
     * freads leave, then the scan for the word offsets.  It fails where the
     * source would index outside a vector (see ParseWith).  It reads the
     * nrwords + nsubs_bucket frequencies the encoder writes, where the
     * source reads nwords_bucket + nsubs_bucket; the two agree when nrwords
     * is the number of word slots.
     */
    method Load(data: seq<byte>) returns (ok: bool)
      modifies this
      ensures ok <==> ParseImage(data).Ok?
      ensures ok ==> Snapshot() == ParseImage(data).value
      ensures ok && Servable(ParseImage(data).value) ==> Valid()
      ensures |data| >= HEADER_SIZE && ParseHeader(data).nrwords == ParseHeader(data).nwordsBucket ==>
        (ok <==> ParseImageAsWritten(data).Ok?) && (ok ==> Snapshot() == ParseImageAsWritten(data).value)
      ensures !ok ==> unchanged(this)
    {
      if |data| >= HEADER_SIZE && ParseHeader(data).nrwords == ParseHeader(data).nwordsBucket {
        SameCount(data);
      }
      if |data| < HEADER_SIZE {
        return false;
      }
      var h := ParseHeader(data);
      if !SizesNonNegative(h, true) || h.nrwords == 0 {
        return false;
      }
      var img := ReadSections(data, h, true);
      var scanned, offsets := StringTable.ScanWords(img.chars, h.nrwords as nat);
      LoadSteps(data, h, img);
      if !scanned {
        return false;
      }
      Fill(img.(words := offsets));
      ok := true;
    }

    /** The header fields load freads first. */
    method FillHeader(h: Header)
      modifies this`nwords, this`nrwords, this`nwordsBucket, this`nsubsBucket,
        this`ndim, this`nchars, this`minn, this`maxn
      ensures nwords == h.nwords && nrwords == h.nrwords && nwordsBucket == h.nwordsBucket && nsubsBucket == h.nsubsBucket
      ensures ndim == h.ndim && nchars == h.nchars && minn == h.minn && maxn == h.maxn
    {
      nwords, nrwords, nwordsBucket, nsubsBucket := h.nwords, h.nrwords, h.nwordsBucket, h.nsubsBucket;
      ndim, nchars, minn, maxn := h.ndim, h.nchars, h.minn, h.maxn;
    }

    /** The sections load freads after the header, and the offsets of its scan. */
    method FillSections(loaded: Image)
      modifies this`hash2id, this`chars, this`freqs, this`topWords, this`subVecs, this`minsMaxs, this`words
      ensures hash2id == loaded.hash2id && chars == loaded.chars && freqs == loaded.freqs && words == loaded.words
      ensures topWords == loaded.topWords && subVecs == loaded.subVecs && minsMaxs == loaded.minsMaxs
    {
      hash2id, chars, freqs, words := loaded.hash2id, loaded.chars, loaded.freqs, loaded.words;
      topWords, subVecs, minsMaxs := loaded.topWords, loaded.subVecs, loaded.minsMaxs;
    }

    /** The assignments of load's freads and of the scan to the fields. */
    method Fill(loaded: Image)
      modifies this
      ensures Snapshot() == loaded
    {
      FillHeader(loaded.header);
      FillSections(loaded);
    }

    /** find(w, h): linear probing from h % nwords_bucket until a slot does not pass. */
    method FindHashed(w: seq<byte>, h: u32) returns (id: int)
      requires Findable(Snapshot())
      ensures id == FindFrom(Snapshot(), w, h)
    {
      ghost var img := Snapshot();
      id := h % nwordsBucket;
      StopperReached(img, w, id);
      ghost var fuel: nat := nwordsBucket as nat;
      while hash2id[id] != -1 && hash2id[id] < nrwords && StringTable.CStringAt(chars, words[hash2id[id]]) != Some(CPrefix(w))
        invariant 0 <= id < nwordsBucket
        invariant ProbeFrom(img, w, id, fuel) == ProbeFrom(img, w, h % nwordsBucket, nwordsBucket)
        invariant ProbeFrom(img, w, id, fuel).Some?
        decreases fuel
      {
        id := (id + 1) % nwordsBucket;
        fuel := fuel - 1;
      }
    }

    /** find(w): find(w.c_str(), hash(w)). */
    method Find(w: seq<byte>) returns (id: int)
      requires Findable(Snapshot())
      ensures id == FindSlot(Snapshot(), w)
    {
      var h := ComputeHash(w);
      id := FindHashed(w, h);
    }

    /** toFloat(&sub_vecs[off], min, max): ndim floats, two per byte, a last odd one left 0.0. */
    method ToFloat(off: nat, min: F32, max: F32, ops: FloatOps) returns (r: seq<F32>)
      requires 0 <= ndim && off + ndim / 2 <= |subVecs|
      ensures r == Dequantize(subVecs[off..off + ndim / 2], min, max, ndim as nat, ops)
    {
      var d: nat := ndim as nat;
      var v := subVecs[off..off + d / 2];
      var a := new F32[d](_ => ZERO);
      var i := 0;
      while i < d / 2
        invariant 0 <= i <= d / 2
        invariant forall k :: 0 <= k < 2 * i ==> a[k] == DequantizedAt(v, min, max, d, ops, k)
        invariant forall k :: 2 * i <= k < d ==> a[k] == ZERO
      {
        DequantizeLevels(v, min, max, d, ops, i);
        a[2 * i] := ops.dequant(v[i] % 16, min, max);
        a[2 * i + 1] := ops.dequant(v[i] / 16, min, max);
        i := i + 1;
      }
      r := a[..];
    }

    /**
     * getWordInfo(word): the slot find stops at decides between the stored
     * row of a top word and the subword average of "<" + word + ">".
     */
    method GetWordInfo(word: seq<byte>, ops: FloatOps) returns (ret: VectorResult)
      requires Valid()
      ensures ret == WordInfo(Snapshot(), word, ops)
    {
      ghost var img := Snapshot();
      var s := Find(word);
      var idx := hash2id[s];
      assert idx == img.hash2id[FindSlot(img, word)];
      if idx != -1 && idx < nrwords && idx < nrwords + nsubsBucket {
        ret := StoredAnswer(idx);
      } else {
        ret := SubwordAnswer(word, ops);
      }
    }

    /** The answer for a top word id: its row of top_words and its frequency. */
    method StoredAnswer(idx: int) returns (ret: VectorResult)
      requires Valid() && IsTopWord(Snapshot(), idx)
      ensures ret == StoredInfo(Snapshot(), idx)
    {
      var d: int := ndim as int;
      RowBounds(idx, nrwords as int, d);
      var off := idx * d;
      ret := VectorResult(topWords[off..off + d], freqs[idx], ndim);
    }

    /** The answer for any other word: the subword average of "<" + word + ">" from zero and the last top word's frequency. */
    method SubwordAnswer(word: seq<byte>, ops: FloatOps) returns (ret: VectorResult)
      requires Valid()
      ensures ret == AverageInfo(Snapshot(), word, ops)
    {
      var data := ZeroVector(ndim as nat);
      ComputeSubwords(Bracket(word), data, 0, ops);
      ret := VectorResult(data[..], freqs[nrwords - 1], ndim);
    }

    /** `Vector v(ndim)`: a fresh vector of n zeros. */
    static method ZeroVector(n: nat) returns (v: array<F32>)
      ensures fresh(v) && v[..] == Zeros(n)
    {
      v := new F32[n](_ => ZERO);
      assert v[..] == Zeros(n);
    }

    /**
     * computeSubwords(word, r, count): the outer loop over the code points of
     * word; r ends as the subword average of word from the r and count given.
     */
    method ComputeSubwords(word: seq<byte>, r: array<F32>, count: int, ops: FloatOps)
      requires Valid() && r.Length == ndim as int
      modifies r
      ensures r[..] == SubwordAverage(old(Snapshot()), word, old(r[..]), count, ops)
    {
      ghost var img := Snapshot();
      ghost var start := r[..];
      ghost var hits;
      var c;
      c, hits := AddSubwords(word, r, count, ops);
      DivVector(r, c, ops);
      AverageOf(img, word, start, count, ops);
      SubwordBucketsLength(word, minn, maxn, nsubsBucket as int);
    }

    /** The loop of computeSubwords: r gains the sub vector of each used n-gram of word, and count counts them. */
    method AddSubwords(word: seq<byte>, r: array<F32>, count: int, ops: FloatOps) returns (c: int, ghost hits: seq<int>)
      requires Valid() && r.Length == ndim as int
      modifies r
      ensures hits == SubwordBuckets(word, minn, maxn, nsubsBucket as int)
      ensures r[..] == Accumulate(Snapshot(), old(r[..]), hits, ops)
      ensures c == count + |hits|
    {
      ghost var img := Snapshot();
      ghost var start := r[..];
      ghost var nb := nsubsBucket as int;
      hits := [];
      c := count;
      var i := 0;
      while i < |word|
        invariant 0 <= i <= |word|
        invariant hits + BucketsFrom(word, i, minn, maxn, nb) == BucketsFrom(word, 0, minn, maxn, nb)
        invariant r[..] == Accumulate(img, start, hits, ops)
        invariant c == count + |hits|
      {
        OuterStep(word, i, minn, maxn, nb, hits);
        if !IsContinuation(word[i]) {
          c, hits := AddNgramsAt(word, i, r, c, ops, start, hits);
        } else {
          assert hits + [] == hits;
        }
        i := i + 1;
      }
      assert hits == SubwordBuckets(word, minn, maxn, nb) by {
        assert hits + [] == hits;
        BucketsFromAll(word, minn, maxn, nb);
      }
    }

    /** The inner loop of computeSubwords for the code point that starts at i. */
    method AddNgramsAt(word: seq<byte>, i: nat, r: array<F32>, count: int, ops: FloatOps,
                       ghost start: seq<F32>, ghost hits: seq<int>)
        returns (count': int, ghost hits': seq<int>)
      requires Valid() && r.Length == ndim as int && |start| == ndim as int && i < |word|
      requires r[..] == Accumulate(Snapshot(), start, hits, ops)
      modifies r
      ensures hits' == hits + GrowBuckets(word, i, i, 1, minn, maxn, nsubsBucket as int)
      ensures r[..] == Accumulate(Snapshot(), start, hits', ops)
      ensures count' == count + |hits'| - |hits|
    {
      ghost var all := hits + GrowBuckets(word, i, i, 1, minn, maxn, nsubsBucket as int);
      hits', count' := hits, count;
      var ngram: seq<byte> := [];
      var j := i;
      var n := 1;
      while j < |word| && n <= maxn
        invariant i <= j <= |word| && n >= 1
        invariant ngram == word[i..j]
        invariant hits' + GrowBuckets(word, i, j, n, minn, maxn, nsubsBucket as int) == all
        invariant r[..] == Accumulate(Snapshot(), start, hits', ops)
        invariant count' == count + |hits'| - |hits|
        decreases |word| - j
      {
        ngram, j, count', hits' := AddNgram(word, i, j, n, ngram, r, count', ops, start, hits');
        n := n + 1;
      }
      assert GrowBuckets(word, i, j, n, minn, maxn, nsubsBucket as int) == [];
      assert hits' + [] == hits';
    }

    /**
     * One round of that loop: the next code point joins the n-gram; a used
     * n-gram adds the sub vector of its bucket, whose rank is
     * hash2id[hash(ngram) % nsubs_bucket + nwords_bucket], and counts one more.
     */
    method AddNgram(word: seq<byte>, i: nat, j: nat, n: nat, ngram: seq<byte>, r: array<F32>, count: int, ops: FloatOps,
                    ghost start: seq<F32>, ghost hits: seq<int>)
        returns (ngram': seq<byte>, j': nat, count': int, ghost hits': seq<int>)
      requires Valid() && r.Length == ndim as int && |start| == ndim as int
      requires i <= j < |word| && n <= maxn
      requires ngram == word[i..j] && r[..] == Accumulate(Snapshot(), start, hits, ops)
      modifies r
      ensures j' == SkipContinuation(word, j + 1) && ngram' == word[i..j']
      ensures hits' + GrowBuckets(word, i, j', n + 1, minn, maxn, nsubsBucket as int) ==
        hits + GrowBuckets(word, i, j, n, minn, maxn, nsubsBucket as int)
      ensures r[..] == Accumulate(Snapshot(), start, hits', ops)
      ensures count' == count + |hits'| - |hits|
    {
      ngram', j' := AppendCodePoint(word, i, j, ngram);
      InnerStep(word, i, j, n, minn, maxn, nsubsBucket as int, hits);
      hits', count' := hits, count;
      if n >= minn && !(n == 1 && (i == 0 || j' == |word|)) {
        var h := ComputeHash(ngram');
        var b := h % nsubsBucket;
        AddBucket(b, r, ops, start, hits);
        hits', count' := hits + [b], count + 1;
      } else {
        assert hits + [] == hits;
      }
    }

    /** `addVector(r, toFloat(&sub_vecs[h * ndim / 2], mins_maxs[2 h], mins_maxs[2 h + 1]))` with h = hash2id[b + nwords_bucket]. */
    method AddBucket(b: int, r: array<F32>, ops: FloatOps, ghost start: seq<F32>, ghost hits: seq<int>)
      requires Valid() && r.Length == ndim as int && |start| == ndim as int && 0 <= b < nsubsBucket
      requires r[..] == Accumulate(Snapshot(), start, hits, ops)
      modifies r
      ensures r[..] == Accumulate(Snapshot(), start, hits + [b], ops)
    {
      ghost var img := Snapshot();
      var h: int := hash2id[b + nwordsBucket];
      var d: int := ndim as int;
      HalfOffset(h, nsubsBucket as int, d);
      var v := ToFloat(h * d / 2, minsMaxs[2 * h], minsMaxs[2 * h + 1], ops);
      assert v == SubVector(img, b, ops);
      AccumulateSnoc(img, start, hits, b, ops);
      AddVector(r, v, ops);
    }

    /** addVector(v1, v2): `v1[i] += v2[i]` for i < ndim. */
    method AddVector(v1: array<F32>, v2: seq<F32>, ops: FloatOps)
      requires 0 <= ndim as int <= v1.Length && ndim as int <= |v2|
      modifies v1
      ensures v1[..] == AddVec(old(v1[..]), v2, ndim as nat, ops)
    {
      var i := 0;
      while i < ndim
        invariant 0 <= i <= ndim
        invariant forall k :: 0 <= k < v1.Length ==> v1[k] == if k < i then ops.add(old(v1[k]), v2[k]) else old(v1[k])
      {
        v1[i] := ops.add(v1[i], v2[i]);
        i := i + 1;
      }
    }

    /** divVector(v, div): `v[i] /= div` for i < ndim. */
    method DivVector(v: array<F32>, div: int, ops: FloatOps)
      requires 0 <= ndim as int <= v.Length
      modifies v
      ensures v[..] == DivVec(old(v[..]), div, ndim as nat, ops)
    {
      var i := 0;
      while i < ndim
        invariant 0 <= i <= ndim
        invariant forall k :: 0 <= k < v.Length ==> v[k] == if k < i then ops.divCount(old(v[k]), div) else old(v[k])
      {
        v[i] := ops.divCount(v[i], div);
        i := i + 1;
      }
    }
  }
}
