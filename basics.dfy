/**
 * Shared vocabulary of the compact embedding store: bytes, 32-bit integers
 * as they appear in the container (little-endian), float32 values kept as
 * their bit patterns, error results, and the floating-point operations the
 * encoder and the reader perform, passed in as parameters.
 */
module Basics {

  /** An unsigned 8-bit value (unsigned char / uint8_t). */
  type byte = x: int | 0 <= x < 256

  /** A float32 value, as the 32 bits fread/fwrite/memcpy copy, read as an unsigned number. */
  type F32 = x: int | 0 <= x < TWO32

  const TWO32: int := 0x1_0000_0000
  const TWO31: int := 0x8000_0000

  /** The range of C++ int32_t. */
  type int32 = x: int | -TWO31 <= x < TWO31

  /** Positive zero, the pattern of 0.0f (std::vector<float>(n) and resize fill with it). */
  const ZERO: F32 := 0

  datatype Option<+T> = None | Some(value: T)

  datatype Error =
    | Truncated          // the file is shorter than the header, whose fields stay unread
    | NegativeSize       // a count in the header is negative
    | BadHeader          // nrwords is 0: words[0] would be written past the end of words
    | BadStringTable     // the word-offset scan runs off the end of the char table

  datatype Result<+T> = Ok(value: T) | Err(error: Error)

  /**
   * The float operations of the source, left uninterpreted: IEEE rounding is
   * not modelled, but every value the source computes is the result of these
   * operations applied in the source's own order.
   *  - dequant(level, min, max): level * ((max - min) / 15.0) + min        (toFloat)
   *  - add(a, b): a + b                                     (addVector, transform)
   *  - mul(a, b): a * b                                                    (transform)
   *  - divCount(a, n): a / float(n)                                        (divVector)
   *  - ratio(c, t): float(c / double(t))                                   (frequencies)
   *  - level(x, min, max): uint8_t((x - min) / ((max - min) / 15.0 + 1e-11) + 0.5)
   *  - less(a, b): a < b
   */
  datatype FloatOps = FloatOps(
    dequant: (int, F32, F32) -> F32,
    add: (F32, F32) -> F32,
    mul: (F32, F32) -> F32,
    divCount: (F32, int) -> F32,
    ratio: (int, int) -> F32,
    level: (F32, F32, F32) -> byte,
    less: (F32, F32) -> bool)

  function Zeros(n: nat): (r: seq<F32>)
    ensures |r| == n && forall k :: 0 <= k < n ==> r[k] == ZERO
  {
    seq(n, _ => ZERO)
  }

  function ZeroBytes(n: nat): (r: seq<byte>)
    ensures |r| == n && forall k :: 0 <= k < n ==> r[k] == 0
  {
    seq(n, _ => 0)
  }

  /** Rows laid out one after the other, as consecutive fwrite calls lay them out. */
  function Concat<T>(rows: seq<seq<T>>): seq<T>
  {
    if rows == [] then [] else Concat(rows[..|rows| - 1]) + rows[|rows| - 1]
  }

  /** Rows of d items each take d items per row ... */
  lemma {:induction false} ConcatLength<T>(rows: seq<seq<T>>, d: nat)
    requires forall r :: 0 <= r < |rows| ==> |rows[r]| == d
    ensures |Concat(rows)| == |rows| * d
  {
    if rows != [] {
      var front := rows[..|rows| - 1];
      assert forall r :: 0 <= r < |front| ==> front[r] == rows[r];
      ConcatLength(front, d);
      assert |Concat(rows)| == |front| * d + d;
      assert (|front| + 1) * d == |front| * d + d;
    }
  }

  /** ... and item j of row r sits at r * d + j. */
  lemma {:induction false} ConcatAt<T>(rows: seq<seq<T>>, d: nat, r: nat, j: nat)
    requires forall t :: 0 <= t < |rows| ==> |rows[t]| == d
    requires r < |rows| && j < d
    ensures r * d + j < |Concat(rows)| && Concat(rows)[r * d + j] == rows[r][j]
  {
    var front := rows[..|rows| - 1];
    ConcatLength(front, d);
    if r < |rows| - 1 {
      ConcatAt(front, d, r, j);
      assert r * d + j < |front| * d by {
        MulStrict(r, |front|, d, j);
      }
    } else {
      assert r == |front|;
    }
    ConcatLength(rows, d);
  }

  /** Row r is the slice [r * d, r * d + d) of the concatenation. */
  lemma {:induction false} ConcatSlice<T>(rows: seq<seq<T>>, d: nat, r: nat)
    requires forall t :: 0 <= t < |rows| ==> |rows[t]| == d
    requires r < |rows|
    ensures r * d + d <= |Concat(rows)| && Concat(rows)[r * d..r * d + d] == rows[r]
  {
    var front := rows[..|rows| - 1];
    ConcatLength(front, d);
    ConcatLength(rows, d);
    if r < |rows| - 1 {
      ConcatSlice(front, d, r);
      assert r * d + d <= |front| * d by {
        MulMono(r + 1, |front|, d);
      }
      assert Concat(rows)[r * d..r * d + d] == Concat(front)[r * d..r * d + d];
    } else {
      assert r == |front|;
    }
  }

  lemma MulMono(a: nat, b: nat, d: nat)
    requires a <= b
    ensures a * d <= b * d
  {
  }

  lemma MulStrict(r: nat, n: nat, d: nat, j: nat)
    requires r < n && j < d
    ensures r * d + j < n * d
  {
    assert (r + 1) * d <= n * d;
  }

  /** Concatenation distributes over appending rows. */
  lemma {:induction false} ConcatAppend<T>(a: seq<seq<T>>, b: seq<seq<T>>)
    ensures Concat(a + b) == Concat(a) + Concat(b)
    decreases |b|
  {
    if b == [] {
      assert a + b == a;
    } else {
      var front := b[..|b| - 1];
      assert (a + b)[..|a + b| - 1] == a + front;
      assert (a + b)[|a + b| - 1] == b[|b| - 1];
      ConcatAppend(a, front);
    }
  }

  // ---------------------------------------------------------------------
  // Little-endian 32-bit words

  function U32Bytes(u: nat): (r: seq<byte>)
    requires u < TWO32
    ensures |r| == 4
  {
    var u1 := u / 256;
    var u2 := u1 / 256;
    [(u % 256), (u1 % 256), (u2 % 256), (u2 / 256)]
  }

  function U32Value(b: seq<byte>): (u: nat)
    requires |b| == 4
    ensures u < TWO32
  {
    b[0] as int + 256 * (b[1] as int + 256 * (b[2] as int + 256 * b[3] as int))
  }

  lemma U32RoundTrip(u: nat)
    requires u < TWO32
    ensures U32Value(U32Bytes(u)) == u
  {
    var u1 := u / 256;
    DivBound(u, 0x100_0000);
    var u2 := u1 / 256;
    DivBound(u1, 0x1_0000);
    DivBound(u2, 256);
    var b := U32Bytes(u);
    var d0, d1, d2, d3 := b[0], b[1], b[2], b[3];
    Horner(u, u1, u2, d0, d1, d2, d3);
  }

  lemma DivBound(u: nat, k: nat)
    requires u < 256 * k
    ensures u / 256 < k
  {
  }

  lemma Horner(u: int, u1: int, u2: int, d0: int, d1: int, d2: int, d3: int)
    requires u == d0 + 256 * u1 && u1 == d1 + 256 * u2 && u2 == d2 + 256 * d3
    ensures d0 + 256 * (d1 + 256 * (d2 + 256 * d3)) == u
  {
  }

  /** int32_t as its four bytes in memory (two's complement, little-endian). */
  function I32Bytes(x: int32): (r: seq<byte>)
    ensures |r| == 4
  {
    U32Bytes(if x < 0 then x + TWO32 else x)
  }

  function I32Value(b: seq<byte>): int32
    requires |b| == 4
  {
    var u := U32Value(b);
    if u >= TWO31 then u - TWO32 else u
  }

  lemma I32RoundTrip(x: int32)
    ensures I32Value(I32Bytes(x)) == x
  {
    U32RoundTrip(if x < 0 then x + TWO32 else x);
  }

  function F32Bytes(f: F32): (r: seq<byte>)
    ensures |r| == 4
  {
    U32Bytes(f)
  }

  function F32Value(b: seq<byte>): F32
    requires |b| == 4
  {
    U32Value(b)
  }

  lemma F32RoundTrip(f: F32)
    ensures F32Value(F32Bytes(f)) == f
  {
    U32RoundTrip(f);
  }

  lemma SeqAssoc<T>(a: seq<T>, b: seq<T>, c: seq<T>)
    ensures (a + b) + c == a + (b + c)
  {
  }
}
