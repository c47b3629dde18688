/**
 * The 4-bit quantization codec of the compact store.  The encoder
 * (CompactDictionary::writeCompact) scans each subword vector for its
 * minimum and maximum, turns each coordinate into a level, and packs two
 * levels into one byte as `lo + 16 * hi`; the reader (Dictionary::toFloat)
 * takes the levels back with `% 16` and `/ 16` and dequantizes them.
 *
 * Float arithmetic (the level rounding and the dequantization) is the
 * FloatOps parameter; what is exact is which level lands in which byte and
 * comes back out at which coordinate.
 */
module Quantization {
  import opened Basics

  /** `val = lo; val += 16 * hi;` on uint8_t: the sum wraps modulo 256. */
  function Pack(lo: byte, hi: byte): byte
  {
    (lo + 16 * hi) % 256
  }

  /** Level of coordinate 2i in toFloat (`v[i] % 16`). */
  function LowLevel(b: byte): int
  {
    b % 16
  }

  /** Level of coordinate 2i+1 in toFloat (`v[i] / 16`). */
  function HighLevel(b: byte): int
  {
    b / 16
  }

  /** Both unpacked levels are 4-bit values. */
  lemma LevelsInRange(b: byte)
    ensures 0 <= LowLevel(b) <= 15 && 0 <= HighLevel(b) <= 15
  {
  }

  /** Unpacking recovers both levels when each fits in four bits ... */
  lemma UnpackPack(lo: byte, hi: byte)
    requires lo < 16 && hi < 16
    ensures LowLevel(Pack(lo, hi)) == lo && HighLevel(Pack(lo, hi)) == hi
  {
    assert Pack(lo, hi) == lo + 16 * hi;
  }

  /** ... and packing the two levels of any byte gives the byte back: the codec is a bijection. */
  lemma PackUnpack(b: byte)
    ensures Pack(LowLevel(b), HighLevel(b)) == b
  {

  }

  /**
   * A high level of 16 or more does not survive packing: only its low four
   * bits stay in the byte, so the reader gets back hi % 16.
   */
  lemma PackLosesWideLevels(lo: byte, hi: byte)
    ensures Pack(lo, hi) == Pack(lo, hi % 16)
    ensures lo < 16 ==> HighLevel(Pack(lo, hi)) == hi % 16
  {
    var q, r := hi / 16, hi % 16;
    assert hi == 16 * q + r;
    assert lo + 16 * hi == (lo + 16 * r) + 256 * q;
    if lo < 16 {
      assert Pack(lo, hi) == lo + 16 * r;
    }
  }

  /** Level of coordinate k of a block decoded from the packed bytes v. */
  function LevelAt(v: seq<byte>, k: nat): int
    requires k / 2 < |v|
  {
    if k % 2 == 0 then LowLevel(v[k / 2]) else HighLevel(v[k / 2])
  }

  /** Coordinate k of toFloat's output. */
  function DequantizedAt(v: seq<byte>, min: F32, max: F32, ndim: nat, ops: FloatOps, k: nat): F32
    requires ndim / 2 <= |v| && k < ndim
  {
    if k < 2 * (ndim / 2) then ops.dequant(LevelAt(v, k), min, max) else ZERO
  }

  /**
   * toFloat(v, min, max) with ndim coordinates: coordinates below
   * 2 * (ndim / 2) come from the levels of v, a last odd coordinate keeps
   * the 0.0 the vector was created with.
   */
  function Dequantize(v: seq<byte>, min: F32, max: F32, ndim: nat, ops: FloatOps): (r: seq<F32>)
    requires ndim / 2 <= |v|
    ensures |r| == ndim
  {
    seq(ndim, k requires 0 <= k < ndim => DequantizedAt(v, min, max, ndim, ops, k))
  }

  /** The levels toFloat feeds to the dequantization are in [0, 15]; coordinate 2i uses v[i] % 16, 2i+1 uses v[i] / 16. */
  lemma DequantizeLevels(v: seq<byte>, min: F32, max: F32, ndim: nat, ops: FloatOps, i: nat)
    requires ndim / 2 <= |v| && i < ndim / 2
    ensures Dequantize(v, min, max, ndim, ops)[2 * i] == ops.dequant(v[i] % 16, min, max)
    ensures Dequantize(v, min, max, ndim, ops)[2 * i + 1] == ops.dequant(v[i] / 16, min, max)
    ensures 0 <= v[i] % 16 <= 15 && 0 <= v[i] / 16 <= 15
  {
    assert (2 * i) % 2 == 0 && (2 * i) / 2 == i;
    assert (2 * i + 1) % 2 == 1 && (2 * i + 1) / 2 == i;
    assert 2 * i + 1 < 2 * (ndim / 2);
    assert LevelAt(v, 2 * i) == v[i] % 16;
    assert LevelAt(v, 2 * i + 1) == v[i] / 16;
  }

  // ---------------------------------------------------------------------
  // Encoder side

  /** `<` as a strict order: irreflexive and transitive (float `<` is, once NaN is excluded). */
  ghost predicate StrictOrder<T(!new)>(less: (T, T) -> bool)
  {
    && (forall a :: !less(a, a))
    && (forall a, b, c :: less(a, b) && less(b, c) ==> less(a, c))
  }

  /** One round of the min/max scan: a smaller value replaces the minimum, otherwise a larger one replaces the maximum. */
  function MinMaxStep<T>(acc: (T, T), x: T, less: (T, T) -> bool): (T, T)
  {
    if less(x, acc.0) then (x, acc.1) else if less(acc.1, x) then (acc.0, x) else acc
  }

  /** The scan from coordinate j on, with the (min, max) found so far. */
  function MinMaxFrom<T>(v: seq<T>, j: nat, acc: (T, T), less: (T, T) -> bool): (T, T)
    decreases |v| - j
  {
    if j >= |v| then acc else MinMaxFrom(v, j + 1, MinMaxStep(acc, v[j], less), less)
  }

  /** The (min, max) pair writeCompact stores for a vector: the scan started from v[0]. */
  function MinMaxScan<T>(v: seq<T>, less: (T, T) -> bool): (T, T)
    requires |v| >= 1
  {
    MinMaxFrom(v, 1, (v[0], v[0]), less)
  }

  lemma {:induction false} MinMaxFromBounds<T(!new)>(v: seq<T>, j: nat, acc: (T, T), less: (T, T) -> bool)
    requires 1 <= j <= |v| && StrictOrder(less)
    requires acc.0 in v[..j] && acc.1 in v[..j] && !less(acc.1, acc.0)
    requires forall k :: 0 <= k < j ==> !less(v[k], acc.0) && !less(acc.1, v[k])
    ensures MinMaxFrom(v, j, acc, less).0 in v && MinMaxFrom(v, j, acc, less).1 in v
    ensures forall k :: 0 <= k < |v| ==> !less(v[k], MinMaxFrom(v, j, acc, less).0) && !less(MinMaxFrom(v, j, acc, less).1, v[k])
    decreases |v| - j
  {
    if j == |v| {
      assert v[..j] == v;
    } else {
      assert v[..j + 1] == v[..j] + [v[j]];
      MinMaxFromBounds(v, j + 1, MinMaxStep(acc, v[j], less), less);
    }
  }

  /**
   * With `<` a strict order the scan finds a least and a greatest coordinate:
   * both are coordinates of v and no coordinate lies below the first or above the second.
   */
  lemma MinMaxScanBounds<T(!new)>(v: seq<T>, less: (T, T) -> bool)
    requires |v| >= 1 && StrictOrder(less)
    ensures MinMaxScan(v, less).0 in v && MinMaxScan(v, less).1 in v
    ensures forall k :: 0 <= k < |v| ==> !less(v[k], MinMaxScan(v, less).0) && !less(MinMaxScan(v, less).1, v[k])
  {
    assert v[..1] == [v[0]];
    MinMaxFromBounds(v, 1, (v[0], v[0]), less);
  }

  /**
   * The min/max loop of writeCompact (vmm[2 ii], vmm[2 ii + 1]): start from v[0];
   * a smaller value replaces the minimum, otherwise a larger one replaces the maximum.
   */
  method MinMax<T>(v: seq<T>, less: (T, T) -> bool) returns (min: T, max: T)
    requires |v| >= 1
    ensures (min, max) == MinMaxScan(v, less)
  {
    min, max := v[0], v[0];
    var j := 1;
    while j < |v|
      invariant 1 <= j <= |v|
      invariant MinMaxFrom(v, j, (min, max), less) == MinMaxScan(v, less)
    {
      if less(v[j], min) {
        min := v[j];
      } else if less(max, v[j]) {
        max := v[j];
      }
      j := j + 1;
    }
  }

  /** The level the encoder computes for coordinate j. */
  function Level(v: seq<F32>, j: nat, min: F32, max: F32, ops: FloatOps): byte
    requires j < |v|
  {
    ops.level(v[j], min, max)
  }

  /** The packed bytes of one bucket: one byte per pair of coordinates, a last odd coordinate dropped. */
  function PackedBlock(v: seq<F32>, min: F32, max: F32, ops: FloatOps): (r: seq<byte>)
    ensures |r| == |v| / 2
  {
    seq(|v| / 2, k requires 0 <= k < |v| / 2 => Pack(Level(v, 2 * k, min, max, ops), Level(v, 2 * k + 1, min, max, ops)))
  }

  /** The packing loop of writeCompact (`val` is the byte being assembled). */
  method PackLevels(v: seq<F32>, min: F32, max: F32, ops: FloatOps) returns (out: seq<byte>)
    ensures |out| == |v| / 2
    ensures forall k :: 0 <= k < |out| ==>
      out[k] == Pack(ops.level(v[2 * k], min, max), ops.level(v[2 * k + 1], min, max))
    ensures out == PackedBlock(v, min, max, ops)
  {
    out := [];
    var val: byte := 0;
    var j := 0;
    while j < |v|
      invariant 0 <= j <= |v|
      invariant |out| == j / 2
      invariant forall k :: 0 <= k < |out| ==>
        out[k] == Pack(ops.level(v[2 * k], min, max), ops.level(v[2 * k + 1], min, max))
      invariant j % 2 == 1 ==> val == ops.level(v[j - 1], min, max)
    {
      if j % 2 == 0 {
        val := ops.level(v[j], min, max);
      } else {
        val := Pack(val, ops.level(v[j], min, max));
        out := out + [val];
      }
      j := j + 1;
    }
    assert forall k :: 0 <= k < |out| ==> out[k] == PackedBlock(v, min, max, ops)[k];
  }

  /**
   * Decoding a packed block hands toFloat exactly the levels the encoder
   * computed, whenever those levels are 4-bit values.
   */
  lemma {:induction false} DecodeRecoversLevels(v: seq<F32>, min: F32, max: F32, ops: FloatOps, k: nat)
    requires k < 2 * (|v| / 2)
    requires ops.level(v[k], min, max) < 16
    requires ops.level(v[k + 1 - 2 * (k % 2)], min, max) < 16
    ensures LevelAt(PackedBlock(v, min, max, ops), k) == ops.level(v[k], min, max)
  {
    var b := PackedBlock(v, min, max, ops);
    var i := k / 2;
    assert b[i] == Pack(ops.level(v[2 * i], min, max), ops.level(v[2 * i + 1], min, max));
    UnpackPack(ops.level(v[2 * i], min, max), ops.level(v[2 * i + 1], min, max));
  }
}
