/**
 * The layout of the compact data file.  The encoder (writeCompact) writes,
 * in this order:
 *   header     nwords, nrwords, nwords_bucket, nsubs_bucket, ndim, nchars
 *              (int32 each), minn, maxn (one byte each)
 *   hash2id    nwords_bucket word ids (word2int_), then nsubs_bucket ranks
 *              (reverse_sub_map), int32 each
 *   chars      the string table of the first nrwords words, nchars bytes
 *   freqs      nrwords word frequencies, then nsubs_bucket subword
 *              frequencies in rank order, float32 each
 *   top words  nrwords vectors of ndim float32
 *   sub vecs   nsubs_bucket packed blocks of ndim / 2 bytes, in rank order
 *   mins/maxs  nsubs_bucket (min, max) pairs of float32, in rank order
 * The reader (Dictionary::load) reads the same sections in the same order,
 * each with fread into a buffer that resize zero-filled.
 */
module Container {
  import opened Basics
  import StringTable

  // ---------------------------------------------------------------------
  // Sequences of 32-bit items

  /** The bytes of xs, four per item, as fwrite of an array writes them. */
  function Encode4<T>(xs: seq<T>, enc: T -> seq<byte>): seq<byte>
  {
    if xs == [] then [] else Encode4(xs[..|xs| - 1], enc) + enc(xs[|xs| - 1])
  }

  /** The items fread fills from b, four bytes each. */
  function Decode4<T>(b: seq<byte>, dec: (byte, byte, byte, byte) -> T): (r: seq<T>)
    ensures |r| == |b| / 4
  {
    seq(|b| / 4, i requires 0 <= i < |b| / 4 => dec(b[4 * i], b[4 * i + 1], b[4 * i + 2], b[4 * i + 3]))
  }

  lemma {:induction false} Encode4At<T>(xs: seq<T>, enc: T -> seq<byte>, i: nat, t: nat)
    requires forall x :: |enc(x)| == 4
    requires i < |xs| && t < 4
    ensures |Encode4(xs, enc)| == 4 * |xs|
    ensures Encode4(xs, enc)[4 * i + t] == enc(xs[i])[t]
    decreases |xs|
  {
    var init := xs[..|xs| - 1];
    Encode4Length(init, enc);
    if i < |xs| - 1 {
      Encode4At(init, enc, i, t);
    }
  }

  lemma {:induction false} Encode4Length<T>(xs: seq<T>, enc: T -> seq<byte>)
    requires forall x :: |enc(x)| == 4
    ensures |Encode4(xs, enc)| == 4 * |xs|
    decreases |xs|
  {
    if xs != [] {
      Encode4Length(xs[..|xs| - 1], enc);
    }
  }

  ghost predicate Codec<T(!new)>(enc: T -> seq<byte>, dec: (byte, byte, byte, byte) -> T)
  {
    forall x :: |enc(x)| == 4 && dec(enc(x)[0], enc(x)[1], enc(x)[2], enc(x)[3]) == x
  }

  /** Reading back what was written gives the items back. */
  lemma Decode4Encode4<T(!new)>(xs: seq<T>, enc: T -> seq<byte>, dec: (byte, byte, byte, byte) -> T)
    requires Codec(enc, dec)
    ensures |Encode4(xs, enc)| == 4 * |xs|
    ensures Decode4(Encode4(xs, enc), dec) == xs
  {
    Encode4Length(xs, enc);
    var b := Encode4(xs, enc);
    forall i | 0 <= i < |xs|
      ensures Decode4(b, dec)[i] == xs[i]
    {
      Encode4At(xs, enc, i, 0);
      Encode4At(xs, enc, i, 1);
      Encode4At(xs, enc, i, 2);
      Encode4At(xs, enc, i, 3);
    }
  }

  function I32Of4(a: byte, b: byte, c: byte, d: byte): int32
  {
    I32Value([a, b, c, d])
  }

  function F32Of4(a: byte, b: byte, c: byte, d: byte): F32
  {
    F32Value([a, b, c, d])
  }

  lemma I32Codec()
    ensures Codec(I32Bytes, I32Of4)
  {
    forall x: int32
      ensures |I32Bytes(x)| == 4 && I32Of4(I32Bytes(x)[0], I32Bytes(x)[1], I32Bytes(x)[2], I32Bytes(x)[3]) == x
    {
      var e := I32Bytes(x);
      assert [e[0], e[1], e[2], e[3]] == e;
      I32RoundTrip(x);
    }
  }

  lemma F32Codec()
    ensures Codec(F32Bytes, F32Of4)
  {
    forall x: F32
      ensures |F32Bytes(x)| == 4 && F32Of4(F32Bytes(x)[0], F32Bytes(x)[1], F32Bytes(x)[2], F32Bytes(x)[3]) == x
    {
      var e := F32Bytes(x);
      assert [e[0], e[1], e[2], e[3]] == e;
      F32RoundTrip(x);
    }
  }

  // ---------------------------------------------------------------------
  // Consecutive sections

  /** The pieces one after the other. */
  function Flatten(ss: seq<seq<byte>>): seq<byte>
  {
    if ss == [] then [] else ss[0] + Flatten(ss[1..])
  }

  /** Where section k starts. */
  function Offset(ss: seq<seq<byte>>, k: nat): nat
    requires k <= |ss|
  {
    |Flatten(ss[..k])|
  }

  lemma {:induction false} FlattenAppend(a: seq<seq<byte>>, b: seq<seq<byte>>)
    ensures Flatten(a + b) == Flatten(a) + Flatten(b)
    decreases |a|
  {
    if a == [] {
      assert a + b == b;
    } else {
      assert (a + b)[1..] == a[1..] + b;
      FlattenAppend(a[1..], b);
    }
  }

  /** Section k occupies [Offset(k), Offset(k) + |ss[k]|), and Offset(k + 1) follows it. */
  lemma FlattenSlice(ss: seq<seq<byte>>, k: nat)
    requires k < |ss|
    ensures Offset(ss, k + 1) == Offset(ss, k) + |ss[k]|
    ensures Offset(ss, k) + |ss[k]| <= |Flatten(ss)|
    ensures Flatten(ss)[Offset(ss, k)..Offset(ss, k) + |ss[k]|] == ss[k]
  {
    assert ss == ss[..k] + [ss[k]] + ss[k + 1..];
    FlattenAppend(ss[..k] + [ss[k]], ss[k + 1..]);
    FlattenAppend(ss[..k], [ss[k]]);
    var one: seq<seq<byte>> := [ss[k]];
    assert Flatten(one) == ss[k] by {
      assert one[1..] == [];
    }
    assert ss[..k + 1] == ss[..k] + [ss[k]];
  }

  // ---------------------------------------------------------------------
  // The header

  datatype Header = Header(
    nwords: int32,
    nrwords: int32,
    nwordsBucket: int32,
    nsubsBucket: int32,
    ndim: int32,
    nchars: int32,
    minn: byte,
    maxn: byte)

  const HEADER_SIZE: nat := 26

  /** The eight fwrites of the header. */
  function HeaderFields(h: Header): seq<seq<byte>>
  {
    [I32Bytes(h.nwords), I32Bytes(h.nrwords), I32Bytes(h.nwordsBucket), I32Bytes(h.nsubsBucket),
     I32Bytes(h.ndim), I32Bytes(h.nchars), [h.minn], [h.maxn]]
  }

  function HeaderBytes(h: Header): seq<byte>
  {
    Flatten(HeaderFields(h))
  }

  /** The eight freads of load that fill the header fields. */
  function ParseHeader(b: seq<byte>): Header
    requires |b| >= HEADER_SIZE
  {
    Header(I32Value(b[0..4]), I32Value(b[4..8]), I32Value(b[8..12]), I32Value(b[12..16]),
      I32Value(b[16..20]), I32Value(b[20..24]), b[24], b[25])
  }

  lemma HeaderLength(h: Header)
    ensures |HeaderBytes(h)| == HEADER_SIZE
  {
    HeaderOffsets(h);
  }

  lemma HeaderOffsets(h: Header)
    ensures forall k :: 0 <= k <= 6 ==> Offset(HeaderFields(h), k) == 4 * k
    ensures Offset(HeaderFields(h), 7) == 25 && |HeaderBytes(h)| == HEADER_SIZE
  {
    var fs := HeaderFields(h);
    FieldOffsets(fs);
    assert fs[..8] == fs;
  }

  lemma FieldOffsets(fs: seq<seq<byte>>)
    requires |fs| == 8
    requires forall k :: 0 <= k < 6 ==> |fs[k]| == 4
    requires |fs[6]| == 1 && |fs[7]| == 1
    ensures forall k :: 0 <= k <= 6 ==> Offset(fs, k) == 4 * k
    ensures Offset(fs, 7) == 25 && Offset(fs, 8) == 26
  {
    assert fs[..0] == [];
    FlattenSlice(fs, 0);
    FlattenSlice(fs, 1);
    FlattenSlice(fs, 2);
    FlattenSlice(fs, 3);
    FlattenSlice(fs, 4);
    FlattenSlice(fs, 5);
    FlattenSlice(fs, 6);
    FlattenSlice(fs, 7);
  }

  lemma HeaderField(h: Header, rest: seq<byte>, k: nat)
    requires k < 8
    ensures Offset(HeaderFields(h), k) + |HeaderFields(h)[k]| <= |HeaderBytes(h)|
    ensures (HeaderBytes(h) + rest)[Offset(HeaderFields(h), k)..Offset(HeaderFields(h), k) + |HeaderFields(h)[k]|]
      == HeaderFields(h)[k]
  {
    HeaderOffsets(h);
    FlattenSlice(HeaderFields(h), k);
  }

  lemma HeaderInt(h: Header, rest: seq<byte>, k: nat, x: int32)
    requires k < 6 && HeaderFields(h)[k] == I32Bytes(x)
    ensures |HeaderBytes(h) + rest| >= HEADER_SIZE
    ensures I32Value((HeaderBytes(h) + rest)[4 * k..4 * k + 4]) == x
  {
    HeaderOffsets(h);
    HeaderField(h, rest, k);
    I32RoundTrip(x);
  }

  lemma ParseHeaderOf(b: seq<byte>, h: Header)
    requires |b| >= HEADER_SIZE
    requires I32Value(b[0..4]) == h.nwords && I32Value(b[4..8]) == h.nrwords
    requires I32Value(b[8..12]) == h.nwordsBucket && I32Value(b[12..16]) == h.nsubsBucket
    requires I32Value(b[16..20]) == h.ndim && I32Value(b[20..24]) == h.nchars
    requires b[24] == h.minn && b[25] == h.maxn
    ensures ParseHeader(b) == h
  {
  }
  lemma HeaderRoundTrip(h: Header, rest: seq<byte>)
    ensures |HeaderBytes(h) + rest| >= HEADER_SIZE
    ensures ParseHeader(HeaderBytes(h) + rest) == h
  {
    HeaderOffsets(h);
    HeaderInt(h, rest, 0, h.nwords);
    HeaderInt(h, rest, 1, h.nrwords);
    HeaderInt(h, rest, 2, h.nwordsBucket);
    HeaderInt(h, rest, 3, h.nsubsBucket);
    HeaderInt(h, rest, 4, h.ndim);
    HeaderInt(h, rest, 5, h.nchars);
    HeaderMinn(h, rest);
    HeaderMaxn(h, rest);
    ParseHeaderOf(HeaderBytes(h) + rest, h);
  }
  lemma HeaderMinn(h: Header, rest: seq<byte>)
    ensures |HeaderBytes(h) + rest| >= HEADER_SIZE
    ensures (HeaderBytes(h) + rest)[24] == h.minn
  {
    var b := HeaderBytes(h) + rest;
    HeaderField(h, rest, 6);
    HeaderOffsets(h);
    assert b[24..25] == [h.minn];
  }
  lemma HeaderMaxn(h: Header, rest: seq<byte>)
    ensures |HeaderBytes(h) + rest| >= HEADER_SIZE
    ensures (HeaderBytes(h) + rest)[25] == h.maxn
  {
    var b := HeaderBytes(h) + rest;
    HeaderField(h, rest, 7);
    HeaderOffsets(h);
    assert b[25..26] == [h.maxn];
  }

  // ---------------------------------------------------------------------
  // What the encoder writes

  datatype Compact = Compact(
    header: Header,
    hash2id: seq<int32>,
    chars: seq<byte>,
    freqs: seq<F32>,
    topWords: seq<F32>,
    subVecs: seq<byte>,
    minsMaxs: seq<F32>)

  function Sections(c: Compact): seq<seq<byte>>
  {
    [HeaderBytes(c.header), Encode4(c.hash2id, I32Bytes), c.chars, Encode4(c.freqs, F32Bytes),
     Encode4(c.topWords, F32Bytes), c.subVecs, Encode4(c.minsMaxs, F32Bytes)]
  }

  lemma {:induction false} Encode4Append<T>(a: seq<T>, b: seq<T>, enc: T -> seq<byte>)
    ensures Encode4(a + b, enc) == Encode4(a, enc) + Encode4(b, enc)
    decreases |b|
  {
    if b == [] {
      assert a + b == a;
    } else {
      var front := b[..|b| - 1];
      assert (a + b)[..|a + b| - 1] == a + front;
      assert (a + b)[|a + b| - 1] == b[|b| - 1];
      Encode4Append(a, front, enc);
    }
  }

  /** Seven pieces laid out one after the other. */
  lemma Flatten7(s0: seq<byte>, s1: seq<byte>, s2: seq<byte>, s3: seq<byte>, s4: seq<byte>, s5: seq<byte>, s6: seq<byte>)
    ensures Flatten([s0, s1, s2, s3, s4, s5, s6]) == s0 + s1 + s2 + s3 + s4 + s5 + s6
  {
    var t6: seq<seq<byte>> := [s6];
    var t5, t4, t3 := [s5] + t6, [s4] + ([s5] + t6), [s3] + ([s4] + ([s5] + t6));
    assert t6[1..] == [];
    FlattenCons(s5, t6);
    FlattenCons(s4, t5);
    FlattenCons(s3, t4);
    assert Flatten(t3) == s3 + s4 + s5 + s6;
    var t2, t1 := [s2] + t3, [s1] + ([s2] + t3);
    FlattenCons(s2, t3);
    FlattenCons(s1, t2);
    FlattenCons(s0, t1);
    assert [s0, s1, s2, s3, s4, s5, s6] == [s0] + t1;
  }

  lemma FlattenCons(x: seq<byte>, r: seq<seq<byte>>)
    ensures Flatten([x] + r) == x + Flatten(r)
  {
    assert ([x] + r)[1..] == r;
  }

  /** The data file: the sections one after the other. */
  function Serialize(c: Compact): seq<byte>
  {
    Flatten(Sections(c))
  }

  /** The data file piece by piece, with the hash table written as its two halves. */
  lemma SerializeParts(c: Compact, words: seq<int32>, subs: seq<int32>)
    requires c.hash2id == words + subs
    ensures Serialize(c) == HeaderBytes(c.header) + Encode4(words, I32Bytes) + Encode4(subs, I32Bytes)
      + c.chars + Encode4(c.freqs, F32Bytes) + Encode4(c.topWords, F32Bytes) + c.subVecs + Encode4(c.minsMaxs, F32Bytes)
  {
    var head, w, s := HeaderBytes(c.header), Encode4(words, I32Bytes), Encode4(subs, I32Bytes);
    Encode4Append(words, subs, I32Bytes);
    Flatten7(head, Encode4(c.hash2id, I32Bytes), c.chars, Encode4(c.freqs, F32Bytes),
      Encode4(c.topWords, F32Bytes), c.subVecs, Encode4(c.minsMaxs, F32Bytes));
    SeqAssoc(head, w, s);
  }

  /** The section sizes that writeCompact produces. */
  ghost predicate WellSized(c: Compact)
  {
    var h := c.header;
    && h.nrwords >= 0 && h.nwordsBucket >= 0 && h.nsubsBucket >= 0 && h.ndim >= 0
    && |c.hash2id| == h.nwordsBucket + h.nsubsBucket
    && |c.chars| == h.nchars
    && |c.freqs| == h.nrwords + h.nsubsBucket
    && |c.topWords| == h.nrwords * h.ndim
    && |c.subVecs| == h.nsubsBucket * (h.ndim / 2)
    && |c.minsMaxs| == 2 * h.nsubsBucket
  }

  // ---------------------------------------------------------------------
  // What the reader reads

  /**
   * fread(buf, 1, n) at file position pos into a buffer resize made zero:
   * the bytes the file still has, the rest of the buffer left 0.
   */
  function Fread(data: seq<byte>, pos: nat, n: nat): (r: seq<byte>)
    ensures |r| == n
    ensures forall k :: 0 <= k < n ==> r[k] == if pos + k < |data| then data[pos + k] else 0
  {
    if pos >= |data| then ZeroBytes(n)
    else
      var avail := if n <= |data| - pos then n else |data| - pos;
      data[pos..pos + avail] + ZeroBytes(n - avail)
  }

  lemma FreadWithin(data: seq<byte>, pos: nat, n: nat)
    requires pos + n <= |data|
    ensures Fread(data, pos, n) == data[pos..pos + n]
  {
  }

  /** fread of n int32 values. */
  function ReadI32s(data: seq<byte>, pos: nat, n: nat): (r: seq<int32>)
    ensures |r| == n
  {
    Decode4(Fread(data, pos, 4 * n), I32Of4)
  }

  /** fread of n float values. */
  function ReadF32s(data: seq<byte>, pos: nat, n: nat): (r: seq<F32>)
    ensures |r| == n
  {
    Decode4(Fread(data, pos, 4 * n), F32Of4)
  }

  lemma ReadBackI32s(data: seq<byte>, pos: nat, xs: seq<int32>)
    requires pos + 4 * |xs| <= |data| && data[pos..pos + 4 * |xs|] == Encode4(xs, I32Bytes)
    ensures ReadI32s(data, pos, |xs|) == xs
  {
    FreadWithin(data, pos, 4 * |xs|);
    assert Fread(data, pos, 4 * |xs|) == Encode4(xs, I32Bytes);
    I32Codec();
    Decode4Encode4(xs, I32Bytes, I32Of4);
  }

  lemma ReadBackF32s(data: seq<byte>, pos: nat, xs: seq<F32>)
    requires pos + 4 * |xs| <= |data| && data[pos..pos + 4 * |xs|] == Encode4(xs, F32Bytes)
    ensures ReadF32s(data, pos, |xs|) == xs
  {
    FreadWithin(data, pos, 4 * |xs|);
    assert Fread(data, pos, 4 * |xs|) == Encode4(xs, F32Bytes);
    F32Codec();
    Decode4Encode4(xs, F32Bytes, F32Of4);
  }

  /** The vectors of Dictionary after load. */
  datatype Image = Image(
    header: Header,
    hash2id: seq<int32>,
    chars: seq<byte>,
    freqs: seq<F32>,
    topWords: seq<F32>,
    subVecs: seq<byte>,
    minsMaxs: seq<F32>,
    words: seq<nat>)

  /** The number of frequencies load reads: nwords_bucket + nsubs_bucket as written, nrwords + nsubs_bucket corrected. */
  function FreqCount(h: Header, corrected: bool): int
  {
    if corrected then h.nrwords + h.nsubsBucket else h.nwordsBucket + h.nsubsBucket
  }

  /**
   * The resize calls of load, none of which may be given a negative size
   * (converted to size_t it is too large, and resize throws).
   */
  predicate SizesNonNegative(h: Header, corrected: bool)
  {
    && h.nwordsBucket + h.nsubsBucket >= 0
    && h.nchars >= 0
    && h.nrwords >= 0
    && FreqCount(h, corrected) >= 0
    && h.nrwords * h.ndim >= 0
    && h.nsubsBucket * 2 >= 0
    && h.nsubsBucket * h.ndim >= 0
  }

  /** Where load's freads of each section start: each fread advances the file position by what it asked for. */
  function CharsPos(h: Header): int
  {
    HEADER_SIZE + 4 * (h.nwordsBucket + h.nsubsBucket)
  }

  function FreqsPos(h: Header): int
  {
    CharsPos(h) + h.nchars
  }

  function TopWordsPos(h: Header, corrected: bool): int
  {
    FreqsPos(h) + 4 * FreqCount(h, corrected)
  }

  function SubVecsPos(h: Header, corrected: bool): int
  {
    TopWordsPos(h, corrected) + 4 * (h.nrwords * h.ndim)
  }

  function MinsMaxsPos(h: Header, corrected: bool): int
  {
    SubVecsPos(h, corrected) + h.nsubsBucket * h.ndim / 2
  }

  /** The freads of load after the header, at the positions they advance to. */
  function ReadSections(data: seq<byte>, h: Header, corrected: bool): (r: Image)
    requires SizesNonNegative(h, corrected)
  {
    var ns := h.nsubsBucket * h.ndim / 2;
    Image(h,
      ReadI32s(data, HEADER_SIZE, h.nwordsBucket + h.nsubsBucket),
      Fread(data, CharsPos(h), h.nchars),
      ReadF32s(data, FreqsPos(h), FreqCount(h, corrected)),
      ReadF32s(data, TopWordsPos(h, corrected), h.nrwords * h.ndim),
      Fread(data, SubVecsPos(h, corrected), ns) + ZeroBytes(h.nsubsBucket * h.ndim - ns),
      ReadF32s(data, MinsMaxsPos(h, corrected), 2 * h.nsubsBucket),
      [])
  }

  /**
   * Dictionary::load on the bytes of a data file.  A file shorter than the
   * header leaves the fields unread, a negative size makes resize throw,
   * nrwords == 0 makes `words[0] = ...` write past an empty vector, and a
   * string table with too few '\0' bytes makes the scan read past chars.
   */
  function ParseWith(data: seq<byte>, corrected: bool): Result<Image>
  {
    if |data| < HEADER_SIZE then Err(Truncated)
    else
      var h := ParseHeader(data);
      if !SizesNonNegative(h, corrected) then Err(NegativeSize)
      else
        var img := ReadSections(data, h, corrected);
        if h.nrwords == 0 then Err(BadHeader)
        else match StringTable.Offsets(img.chars, h.nrwords as nat)
          case None => Err(BadStringTable)
          case Some(w) => Ok(img.(words := w))
  }

  /** load as written: nwords_bucket + nsubs_bucket frequencies. */
  function ParseImageAsWritten(data: seq<byte>): Result<Image>
  {
    ParseWith(data, false)
  }

  /** load reading the nrwords + nsubs_bucket frequencies the encoder writes. */
  function ParseImage(data: seq<byte>): Result<Image>
  {
    ParseWith(data, true)
  }

  // ---------------------------------------------------------------------
  // Layout agreement

  lemma {:induction false} Offsets7(ss: seq<seq<byte>>)
    requires |ss| == 7
    ensures Offset(ss, 0) == 0
    ensures Offset(ss, 1) == Offset(ss, 0) + |ss[0]|
    ensures Offset(ss, 2) == Offset(ss, 1) + |ss[1]|
    ensures Offset(ss, 3) == Offset(ss, 2) + |ss[2]|
    ensures Offset(ss, 4) == Offset(ss, 3) + |ss[3]|
    ensures Offset(ss, 5) == Offset(ss, 4) + |ss[4]|
    ensures Offset(ss, 6) == Offset(ss, 5) + |ss[5]|
    ensures Offset(ss, 7) == Offset(ss, 6) + |ss[6]| == |Flatten(ss)|
  {
    assert ss[..0] == [];
    FlattenSlice(ss, 0);
    FlattenSlice(ss, 1);
    FlattenSlice(ss, 2);
    FlattenSlice(ss, 3);
    FlattenSlice(ss, 4);
    FlattenSlice(ss, 5);
    FlattenSlice(ss, 6);
    assert ss[..7] == ss;
  }

  lemma SectionLengths(c: Compact)
    requires WellSized(c)
    ensures var ss := Sections(c); var h := c.header;
      && |ss| == 7
      && |ss[0]| == HEADER_SIZE
      && |ss[1]| == 4 * (h.nwordsBucket + h.nsubsBucket)
      && |ss[2]| == h.nchars
      && |ss[3]| == 4 * (h.nrwords + h.nsubsBucket)
      && |ss[4]| == 4 * (h.nrwords * h.ndim)
      && |ss[5]| == h.nsubsBucket * (h.ndim / 2)
      && |ss[6]| == 8 * h.nsubsBucket
  {
    HeaderLength(c.header);
    Encode4Length(c.hash2id, I32Bytes);
    Encode4Length(c.freqs, F32Bytes);
    Encode4Length(c.topWords, F32Bytes);
    Encode4Length(c.minsMaxs, F32Bytes);
  }

  /** Section k of a serialized compact store, read back at its own offset. */
  lemma ReadSection(c: Compact, k: nat)
    requires k < 7
    ensures Offset(Sections(c), k) + |Sections(c)[k]| <= |Serialize(c)|
    ensures Serialize(c)[Offset(Sections(c), k)..Offset(Sections(c), k) + |Sections(c)[k]|] == Sections(c)[k]
  {
    FlattenSlice(Sections(c), k);
  }

  /** The section offsets the reader computes from the header are where the encoder put the sections. */
  lemma ReaderOffsets(c: Compact)
    requires WellSized(c)
    ensures var ss := Sections(c); var h := c.header;
      && Offset(ss, 1) == HEADER_SIZE
      && Offset(ss, 2) == HEADER_SIZE + 4 * (h.nwordsBucket + h.nsubsBucket)
      && Offset(ss, 3) == Offset(ss, 2) + h.nchars
      && Offset(ss, 4) == Offset(ss, 3) + 4 * (h.nrwords + h.nsubsBucket)
      && Offset(ss, 5) == Offset(ss, 4) + 4 * (h.nrwords * h.ndim)
      && Offset(ss, 6) == Offset(ss, 5) + h.nsubsBucket * (h.ndim / 2)
      && Offset(ss, 7) == |Serialize(c)|
  {
    SectionLengths(c);
    Offsets7(Sections(c));
  }

  lemma EvenHalf(n: int, d: int)
    requires n >= 0 && d >= 0 && d % 2 == 0
    ensures n * d / 2 == n * (d / 2) && n * d - n * (d / 2) == n * (d / 2)
  {
    var half := d / 2;
    assert d == 2 * half;
    assert n * d == 2 * (n * half);
  }

  /** The encoder puts each section where the corrected reader's position for it says. */
  lemma PositionsAgree(c: Compact)
    requires WellSized(c) && c.header.nsubsBucket * c.header.ndim / 2 == |c.subVecs|
    ensures var ss := Sections(c); var h := c.header;
      && Offset(ss, 1) == HEADER_SIZE && Offset(ss, 2) == CharsPos(h)
      && Offset(ss, 3) == FreqsPos(h) && Offset(ss, 4) == TopWordsPos(h, true)
      && Offset(ss, 5) == SubVecsPos(h, true) && Offset(ss, 6) == MinsMaxsPos(h, true)
  {
    ReaderOffsets(c);
  }

  lemma Hash2idAt(c: Compact)
    requires WellSized(c)
    ensures ReadI32s(Serialize(c), HEADER_SIZE, |c.hash2id|) == c.hash2id
  {
    var ss := Sections(c);
    ReaderOffsets(c);
    SectionLengths(c);
    FlattenSlice(ss, 1);
    ReadBackI32s(Flatten(ss), HEADER_SIZE, c.hash2id);
  }

  lemma CharsAt(c: Compact)
    requires WellSized(c)
    ensures CharsPos(c.header) >= 0 && Fread(Serialize(c), CharsPos(c.header), |c.chars|) == c.chars
  {
    var ss := Sections(c);
    ReaderOffsets(c);
    SectionLengths(c);
    FlattenSlice(ss, 2);
    FreadWithin(Flatten(ss), Offset(ss, 2), |c.chars|);
  }

  lemma FreqsAt(c: Compact)
    requires WellSized(c)
    ensures FreqsPos(c.header) >= 0 && ReadF32s(Serialize(c), FreqsPos(c.header), |c.freqs|) == c.freqs
  {
    var ss := Sections(c);
    ReaderOffsets(c);
    SectionLengths(c);
    FlattenSlice(ss, 3);
    ReadBackF32s(Flatten(ss), Offset(ss, 3), c.freqs);
  }

  lemma TopWordsAt(c: Compact)
    requires WellSized(c)
    ensures TopWordsPos(c.header, true) >= 0
    ensures ReadF32s(Serialize(c), TopWordsPos(c.header, true), |c.topWords|) == c.topWords
  {
    var ss := Sections(c);
    ReaderOffsets(c);
    SectionLengths(c);
    FlattenSlice(ss, 4);
    ReadBackF32s(Flatten(ss), Offset(ss, 4), c.topWords);
  }

  lemma SubVecsAt(c: Compact)
    requires WellSized(c) && c.header.nsubsBucket * c.header.ndim / 2 == |c.subVecs|
    ensures SubVecsPos(c.header, true) >= 0
    ensures Fread(Serialize(c), SubVecsPos(c.header, true), |c.subVecs|) == c.subVecs
  {
    var ss := Sections(c);
    PositionsAgree(c);
    SectionLengths(c);
    FlattenSlice(ss, 5);
    FreadWithin(Flatten(ss), Offset(ss, 5), |c.subVecs|);
  }

  lemma MinsMaxsAt(c: Compact)
    requires WellSized(c) && c.header.nsubsBucket * c.header.ndim / 2 == |c.subVecs|
    ensures MinsMaxsPos(c.header, true) >= 0
    ensures ReadF32s(Serialize(c), MinsMaxsPos(c.header, true), |c.minsMaxs|) == c.minsMaxs
  {
    var ss := Sections(c);
    PositionsAgree(c);
    SectionLengths(c);
    FlattenSlice(ss, 6);
    ReadBackF32s(Flatten(ss), Offset(ss, 6), c.minsMaxs);
  }

  /** ReadSections field by field, on any bytes. */
  lemma ReadSectionsOf(c: Compact, data: seq<byte>)
    requires WellSized(c) && c.header.nsubsBucket * c.header.ndim / 2 == |c.subVecs|
    requires ReadI32s(data, HEADER_SIZE, |c.hash2id|) == c.hash2id
    requires CharsPos(c.header) >= 0 && Fread(data, CharsPos(c.header), |c.chars|) == c.chars
    requires FreqsPos(c.header) >= 0 && ReadF32s(data, FreqsPos(c.header), |c.freqs|) == c.freqs
    requires TopWordsPos(c.header, true) >= 0 && ReadF32s(data, TopWordsPos(c.header, true), |c.topWords|) == c.topWords
    requires SubVecsPos(c.header, true) >= 0 && Fread(data, SubVecsPos(c.header, true), |c.subVecs|) == c.subVecs
    requires MinsMaxsPos(c.header, true) >= 0 && ReadF32s(data, MinsMaxsPos(c.header, true), |c.minsMaxs|) == c.minsMaxs
    ensures SizesNonNegative(c.header, true)
    ensures ReadSections(data, c.header, true) ==
      Image(c.header, c.hash2id, c.chars, c.freqs, c.topWords,
        c.subVecs + ZeroBytes(c.header.nsubsBucket * c.header.ndim - |c.subVecs|), c.minsMaxs, [])
  {
  }

  /** The sections the corrected reader recovers from what the encoder writes. */
  lemma SectionsRoundTrip(c: Compact)
    requires WellSized(c) && c.header.nsubsBucket * c.header.ndim / 2 == |c.subVecs|
    ensures SizesNonNegative(c.header, true)
    ensures ReadSections(Serialize(c), c.header, true) ==
      Image(c.header, c.hash2id, c.chars, c.freqs, c.topWords,
        c.subVecs + ZeroBytes(c.header.nsubsBucket * c.header.ndim - |c.subVecs|), c.minsMaxs, [])
  {
    Hash2idAt(c);
    CharsAt(c);
    FreqsAt(c);
    TopWordsAt(c);
    SubVecsAt(c);
    MinsMaxsAt(c);
    ReadSectionsOf(c, Serialize(c));
  }

  /** ParseWith once the header is known: only the string-table scan can still fail. */
  lemma ParseWithSections(data: seq<byte>, corrected: bool, h: Header, img: Image)
    requires |data| >= HEADER_SIZE && ParseHeader(data) == h
    requires SizesNonNegative(h, corrected) && h.nrwords >= 1
    requires ReadSections(data, h, corrected) == img
    ensures StringTable.Offsets(img.chars, h.nrwords as nat).None? ==> ParseWith(data, corrected) == Err(BadStringTable)
    ensures StringTable.Offsets(img.chars, h.nrwords as nat).Some? ==>
      ParseWith(data, corrected) == Ok(img.(words := StringTable.Offsets(img.chars, h.nrwords as nat).value))
  {
  }

  /**
   * Layout agreement: the corrected reader gets back every section the
   * encoder wrote (the sub-vector buffer zero-padded as resize leaves it),
   * with the word offsets of load's scan.
   */
  lemma RoundTrip(c: Compact)
    requires WellSized(c) && c.header.ndim % 2 == 0
    requires c.header.nrwords >= 1
    ensures StringTable.Offsets(c.chars, c.header.nrwords as nat).None? ==> ParseImage(Serialize(c)) == Err(BadStringTable)
    ensures StringTable.Offsets(c.chars, c.header.nrwords as nat).Some? ==>
      ParseImage(Serialize(c)) == Ok(Image(c.header, c.hash2id, c.chars, c.freqs, c.topWords,
        c.subVecs + ZeroBytes(|c.subVecs|), c.minsMaxs,
        StringTable.Offsets(c.chars, c.header.nrwords as nat).value))
  {
    var h := c.header;
    assert h.nsubsBucket * h.ndim / 2 == |c.subVecs| && h.nsubsBucket * h.ndim - |c.subVecs| == |c.subVecs| by {
      EvenHalf(h.nsubsBucket, h.ndim);
    }
    RoundTripSized(c);
  }

  /** RoundTrip for any ndim whose sub-vector section the reader reads in full. */
  lemma RoundTripSized(c: Compact)
    requires WellSized(c) && c.header.nsubsBucket * c.header.ndim / 2 == |c.subVecs|
    requires c.header.nrwords >= 1
    ensures StringTable.Offsets(c.chars, c.header.nrwords as nat).None? ==> ParseImage(Serialize(c)) == Err(BadStringTable)
    ensures StringTable.Offsets(c.chars, c.header.nrwords as nat).Some? ==>
      ParseImage(Serialize(c)) == Ok(Image(c.header, c.hash2id, c.chars, c.freqs, c.topWords,
        c.subVecs + ZeroBytes(c.header.nsubsBucket * c.header.ndim - |c.subVecs|), c.minsMaxs,
        StringTable.Offsets(c.chars, c.header.nrwords as nat).value))
  {
    SerializedHeader(c);
    SectionsRoundTrip(c);
    ParseWithSections(Serialize(c), true, c.header, ReadSections(Serialize(c), c.header, true));
  }

  lemma SerializedHeader(c: Compact)
    ensures |Serialize(c)| >= HEADER_SIZE && ParseHeader(Serialize(c)) == c.header
  {
    var ss := Sections(c);
    assert ss == [ss[0]] + ss[1..];
    FlattenAppend([ss[0]], ss[1..]);
    var one: seq<seq<byte>> := [ss[0]];
    assert Flatten(one) == ss[0] by {
      assert one[1..] == [];
    }
    HeaderRoundTrip(c.header, Flatten(ss[1..]));
  }

  /** What a successful ParseWith holds: the reads of ReadSections at the parsed header. */
  lemma ParsedSections(data: seq<byte>, corrected: bool)
    requires ParseWith(data, corrected).Ok?
    ensures |data| >= HEADER_SIZE && SizesNonNegative(ParseHeader(data), corrected)
    ensures ParseWith(data, corrected).value ==
      ReadSections(data, ParseHeader(data), corrected).(words := ParseWith(data, corrected).value.words)
  {
  }

  /**
   * As written, load reads nwords_bucket + nsubs_bucket frequencies where the
   * encoder wrote nrwords + nsubs_bucket: the frequencies come back as written
   * exactly when nrwords == nwords_bucket, and then the whole image does.
   */
  lemma AsWrittenFreqs(c: Compact)
    requires WellSized(c)
    requires ParseImageAsWritten(Serialize(c)).Ok?
    ensures ParseImageAsWritten(Serialize(c)).value.freqs == c.freqs <==> c.header.nrwords == c.header.nwordsBucket
    ensures c.header.nrwords == c.header.nwordsBucket ==> ParseImageAsWritten(Serialize(c)) == ParseImage(Serialize(c))
  {
    var data := Serialize(c);
    var h := c.header;
    SerializedHeader(c);
    ParsedSections(data, false);
    var img := ParseImageAsWritten(data).value;
    assert img.freqs == ReadF32s(data, FreqsPos(h), h.nwordsBucket + h.nsubsBucket);
    if h.nrwords == h.nwordsBucket {
      FreqsAt(c);
      SameCount(data);
    }
  }

  /** With nrwords == nwords_bucket both readers read the same sections. */
  lemma SameCount(data: seq<byte>)
    requires |data| >= HEADER_SIZE && ParseHeader(data).nrwords == ParseHeader(data).nwordsBucket
    ensures ParseWith(data, false) == ParseWith(data, true)
  {
    var h := ParseHeader(data);
    assert FreqCount(h, false) == FreqCount(h, true);
    assert SizesNonNegative(h, false) == SizesNonNegative(h, true);
    if SizesNonNegative(h, true) {
      assert TopWordsPos(h, false) == TopWordsPos(h, true);
      assert SubVecsPos(h, false) == SubVecsPos(h, true);
      assert MinsMaxsPos(h, false) == MinsMaxsPos(h, true);
      assert ReadSections(data, h, false) == ReadSections(data, h, true);
    }
  }

  /**
   * ... and when nrwords < nwords_bucket every later section is read
   * nwords_bucket - nrwords floats too late: top-word value k comes from
   * top-word value k + (nwords_bucket - nrwords) of the file.
   */
  lemma AsWrittenShiftsTopWords(c: Compact, k: nat)
    requires WellSized(c)
    requires 1 <= c.header.nrwords < c.header.nwordsBucket
    requires k + (c.header.nwordsBucket - c.header.nrwords) < |c.topWords|
    requires ParseImageAsWritten(Serialize(c)).Ok?
    ensures k < |ParseImageAsWritten(Serialize(c)).value.topWords| &&
      ParseImageAsWritten(Serialize(c)).value.topWords[k] == c.topWords[k + (c.header.nwordsBucket - c.header.nrwords)]
  {
    var h := c.header;
    SerializedHeader(c);
    ParsedTopWords(Serialize(c), false);
    assert h.nrwords * h.ndim == |c.topWords|;
    ShiftedTopWords(c, k);
  }

  lemma ParsedTopWords(data: seq<byte>, corrected: bool)
    requires ParseWith(data, corrected).Ok?
    ensures |data| >= HEADER_SIZE && TopWordsPos(ParseHeader(data), corrected) >= 0
    ensures ParseHeader(data).nrwords * ParseHeader(data).ndim >= 0
    ensures ParseWith(data, corrected).value.topWords ==
      ReadF32s(data, TopWordsPos(ParseHeader(data), corrected), ParseHeader(data).nrwords * ParseHeader(data).ndim)
  {
    ParsedSections(data, corrected);
  }

  /** The as-written top-word read starts nwords_bucket - nrwords floats into the top-word section. */
  lemma ShiftedTopWords(c: Compact, k: nat)
    requires WellSized(c)
    requires 1 <= c.header.nrwords < c.header.nwordsBucket
    requires k + (c.header.nwordsBucket - c.header.nrwords) < |c.topWords|
    ensures TopWordsPos(c.header, false) >= 0
    ensures ReadF32s(Serialize(c), TopWordsPos(c.header, false), |c.topWords|)[k] ==
      c.topWords[k + (c.header.nwordsBucket - c.header.nrwords)]
  {
    var h := c.header;
    var ss := Sections(c);
    SectionLengths(c);
    ReaderOffsets(c);
    var d := h.nwordsBucket - h.nrwords;
    assert TopWordsPos(h, false) + 4 * k == Offset(ss, 4) + 4 * (k + d);
    FlattenSlice(ss, 4);
    EncodedItem(Flatten(ss), Offset(ss, 4), c.topWords, k + d);
    ReadF32Item(Flatten(ss), TopWordsPos(h, false), |c.topWords|, k, c.topWords[k + d]);
  }

  /** Item k of a float read whose four bytes are the encoding of x is x. */
  lemma ReadF32Item(data: seq<byte>, p: nat, n: nat, k: nat, x: F32)
    requires k < n && p + 4 * k + 4 <= |data| && data[p + 4 * k..p + 4 * k + 4] == F32Bytes(x)
    ensures ReadF32s(data, p, n)[k] == x
  {
    ReadF32At(data, p, n, k);
    F32RoundTrip(x);
  }

  /** Item j of an encoded float section occupies its four bytes. */
  lemma EncodedItem(data: seq<byte>, pos: nat, xs: seq<F32>, j: nat)
    requires pos + 4 * |xs| <= |data| && data[pos..pos + 4 * |xs|] == Encode4(xs, F32Bytes)
    requires j < |xs|
    ensures pos + 4 * j + 4 <= |data| && data[pos + 4 * j..pos + 4 * j + 4] == F32Bytes(xs[j])
  {
    var q := pos + 4 * j;
    var e := F32Bytes(xs[j]);
    EncodedByte(data, pos, xs, j, 0);
    EncodedByte(data, pos, xs, j, 1);
    EncodedByte(data, pos, xs, j, 2);
    EncodedByte(data, pos, xs, j, 3);
    FourBytes(data, q, e);
  }

  lemma FourBytes(data: seq<byte>, q: nat, e: seq<byte>)
    requires |e| == 4 && q + 4 <= |data|
    requires data[q] == e[0] && data[q + 1] == e[1] && data[q + 2] == e[2] && data[q + 3] == e[3]
    ensures data[q..q + 4] == e
  {
    assert data[q..q + 4] == [data[q], data[q + 1], data[q + 2], data[q + 3]];
    assert e == [e[0], e[1], e[2], e[3]];
  }

  /** Item k of a float read that lies inside the file is the value of its four bytes. */
  lemma ReadF32At(data: seq<byte>, p: nat, n: nat, k: nat)
    requires k < n && p + 4 * k + 4 <= |data|
    ensures ReadF32s(data, p, n)[k] == F32Value(data[p + 4 * k..p + 4 * k + 4])
  {
    var raw := Fread(data, p, 4 * n);
    var q := p + 4 * k;
    assert raw[4 * k] == data[q] && raw[4 * k + 1] == data[q + 1];
    assert raw[4 * k + 2] == data[q + 2] && raw[4 * k + 3] == data[q + 3];
    assert data[q..q + 4] == [data[q], data[q + 1], data[q + 2], data[q + 3]];
  }

  /** Byte t of item j of an encoded float section. */
  lemma EncodedByte(data: seq<byte>, pos: nat, xs: seq<F32>, j: nat, t: nat)
    requires pos + 4 * |xs| <= |data| && data[pos..pos + 4 * |xs|] == Encode4(xs, F32Bytes)
    requires j < |xs| && t < 4
    ensures pos + 4 * j + t < |data| && data[pos + 4 * j + t] == F32Bytes(xs[j])[t]
  {
    Encode4At(xs, F32Bytes, j, t);
    assert data[pos + 4 * j + t] == data[pos..pos + 4 * |xs|][4 * j + t];
  }
}
