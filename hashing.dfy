/**
 * The 32-bit FNV-1a string hash shared by the encoder and the reader
 * (grpc_server/wv_server.cc, Dictionary::hash).  Each byte is read as a
 * C++ `char` and converted with `uint32_t(...)`; on signed-char targets a
 * byte >= 0x80 is sign-extended before the XOR, which the model does.
 */
module Hashing {
  import opened Basics

  /** A uint32_t value. */
  type u32 = x: int | 0 <= x < TWO32

  const OFFSET_BASIS: u32 := 2166136261
  const FNV_PRIME: u32 := 16777619

  function Pow2(k: nat): (p: nat)
    ensures p >= 1
  {
    if k == 0 then 1 else 2 * Pow2(k - 1)
  }

  lemma {:induction false} Pow2Add(a: nat, b: nat)
    ensures Pow2(a + b) == Pow2(a) * Pow2(b)
    decreases b
  {
    if b > 0 {
      Pow2Add(a, b - 1);
      assert Pow2(a + b) == 2 * Pow2(a + b - 1);
    }
  }

  lemma Pow2Of32()
    ensures Pow2(32) == TWO32
  {
    assert Pow2(4) == 16;
    Pow2Add(4, 4);
    Pow2Add(8, 8);
    Pow2Add(16, 16);
  }

  /** Bitwise exclusive or of the low k bits of a and b. */
  function XorBits(a: nat, b: nat, k: nat): (r: nat)
    ensures r < Pow2(k)
  {
    if k == 0 then 0 else (a % 2 + b % 2) % 2 + 2 * XorBits(a / 2, b / 2, k - 1)
  }

  /** `a ^ b` on uint32_t. */
  function Xor32(a: u32, b: u32): u32
  {
    Pow2Of32();
    XorBits(a, b, 32)
  }

  /** The value of a byte read as a signed `char`. */
  function CharValue(b: byte): int
  {
    if b < 0x80 then b else b - 256
  }

  /** `uint32_t(c)` for a signed `char` c: the value modulo 2^32, i.e. sign extension. */
  function SignExtend(b: byte): u32
  {
    CharValue(b) % TWO32
  }

  /** One round of the loop body: XOR the byte in, then multiply modulo 2^32. */
  function Step(h: u32, b: byte): u32
  {
    Xor32(h, SignExtend(b)) * FNV_PRIME % TWO32
  }

  /** The loop read as a left fold from accumulator h over s. */
  function HashFrom(h: u32, s: seq<byte>): u32
    decreases |s|
  {
    if s == [] then h else HashFrom(Step(h, s[0]), s[1..])
  }

  function Hash(s: seq<byte>): u32
  {
    HashFrom(OFFSET_BASIS, s)
  }

  lemma {:induction false} HashFromAppend(h: u32, s: seq<byte>, c: byte)
    ensures HashFrom(h, s + [c]) == Step(HashFrom(h, s), c)
    decreases |s|
  {
    if s == [] {
      assert s + [c] == [c];
    } else {
      assert (s + [c])[1..] == s[1..] + [c];
      HashFromAppend(Step(h, s[0]), s[1..], c);
    }
  }

  /** The hash of the empty string is the offset basis, and appending a byte is one more round. */
  lemma HashAppend(s: seq<byte>, c: byte)
    ensures Hash([]) == 2166136261
    ensures Hash(s + [c]) == Xor32(Hash(s), SignExtend(c)) * 16777619 % 0x1_0000_0000
  {
    HashFromAppend(OFFSET_BASIS, s, c);
  }

  /** Bytes at or above 0x80 are sign-extended: their top 24 bits are set before the XOR. */
  lemma SignExtendHighBytes(b: byte)
    ensures b < 0x80 ==> SignExtend(b) == b
    ensures b >= 0x80 ==> SignExtend(b) == 0xFFFF_FF00 + b
  {
  }

  /** Dictionary::hash: the loop over the bytes of the string. */
  method ComputeHash(s: seq<byte>) returns (h: u32)
    ensures h == Hash(s)
  {
    h := 2166136261;
    var i := 0;
    while i < |s|
      invariant 0 <= i <= |s|
      invariant HashFrom(h, s[i..]) == Hash(s)
    {
      assert s[i..][1..] == s[i + 1..];
      h := Xor32(h, SignExtend(s[i]));
      h := h * 16777619 % 0x1_0000_0000;
      i := i + 1;
    }
  }

  /** `hash(x) % n` with both operands unsigned, as the source computes bucket indices. */
  function Bucket(s: seq<byte>, n: int): (b: int)
    requires n > 0
    ensures 0 <= b < n
  {
    Hash(s) % n
  }
}
