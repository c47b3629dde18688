# Compact word-vector store of boreal-is/fastText, modelled in Dafny

This project models the two programs that make up the compact embedding store
of boreal-is/fastText:

- The **encoder**, `CompactDictionary::writeCompact` in `src/compact_dictionary.cc`.
  It turns a trained model into two files:
  - a word file, which holds every vocabulary word followed by a `'\0'`;
  - a data file. The data file starts with a 26-byte header: six little-endian
    `int32_t` values and two bytes (`minn`, `maxn`). The sections follow:
    - `hash2id`: `word2int_`, then `reverse_sub_map`, the rank of every subword bucket;
    - the table of the first `nrwords` words;
    - the frequencies of those words, then the frequencies of the buckets in rank order;
    - `top_words`: the vectors of the first `nrwords` words;
    - `sub_vecs`: every bucket's vector, quantized to two 4-bit levels per byte and
      written in rank order;
    - `mins_maxs`: every bucket's minimum and maximum.
- The **reader**, class `Dictionary` in `grpc_server/wv_server.cc`.
  - `load` reads the data file back and finds the start of every word.
  - `find` looks a word up in the word half of `hash2id` by FNV-1a hashing and
    linear probing.
  - `getWordInfo` answers a query. A top word gets its stored row and
    frequency. Any other word gets the average of the dequantized vectors of the
    buckets that the n-grams of `"<" + word + ">"` hash to.

The modules follow the two programs:

| module | models |
|---|---|
| `Basics` | `int32_t`/`float` bytes, results, the float operations |
| `Hashing` | `Dictionary::hash` (32-bit FNV-1a over signed chars) |
| `Subwords` | the n-gram rule shared by `getSubwordsFrequency` and `computeSubwords` |
| `Encoder` | `getSubwordsFrequency`, `transform`, the bucket counting and ranking loops |
| `Ranking` | the descending sort of `ord_subs` and `reverse_sub_map` |
| `Quantization` | the min/max scan, the nibble packing, and the unpacking of `toFloat` |
| `StringTable` | the word tables and load's offset scan |
| `Container` | the data file layout and load's freads, as written and corrected |
| `Writer` | `writeCompact` section by section |
| `Reader` | `find`, `computeSubwords`, `getWordInfo`, `load`, and class `Dictionary` |
| `Pipeline` | the reader applied to what the encoder writes |

The modelling choices:

- **Floats.** Floats are 32-bit patterns (`F32`). Copying a float copies its bits.
  The float arithmetic of the source is the record `FloatOps`: dequantize, add,
  multiply, divide by a count, ratio, level, `<`. Its members are left
  uninterpreted and are applied in the source's own order.
- **Files.** Files are byte sequences. `fwrite` appends to the sequence and
  `fread` reads from a position.
- **The reader's vectors.** `Dictionary` is a class whose fields are the
  vectors `load` fills. `computeSubwords`, `addVector` and `divVector` update a
  caller's `array<F32>` in place.

Each method is proved against a function of the `Reader` module:

- `GetWordInfo` against `WordInfo`;
- `Find` against `FindSlot`;
- `ComputeSubwords` against `SubwordAverage`.

The lemmas are stated about those functions.

## Model

| member | source | states |
|---|---|---|
| Hashing.HashAppend | grpc_server/wv_server.cc:146-155 | The hash of the empty string is 2166136261. Appending a byte xors the hash with the byte's sign-extended `uint32_t` value and multiplies by 16777619 modulo 2^32. |
| Hashing.HashFromAppend | grpc_server/wv_server.cc:149-153 | The hash loop is a left fold: folding over `s + [c]` is one step after folding over `s`. |
| Hashing.SignExtendHighBytes | grpc_server/wv_server.cc:151 | `uint32_t(str[i])` of a signed char: bytes below 0x80 are unchanged; a byte b ≥ 0x80 becomes 0xFFFFFF00 + b. |
| Hashing.ComputeHash | grpc_server/wv_server.cc:146-155 | The loop of `hash` returns `Hash(s)`. |
| Hashing.Bucket | src/compact_dictionary.cc:44 | `hash(ngram) % bucket` lies in [0, bucket). |
| Subwords.ContinuationIsMask | src/compact_dictionary.cc:37 | The continuation test of the model is exactly `(b & 0xC0) == 0x80`. |
| Subwords.SkipContinuation | grpc_server/wv_server.cc:178-180 | The inner while loop stops at the end of the word or at the first byte that is not a continuation byte. Every byte it skips is a continuation byte. |
| Subwords.AppendCodePoint | grpc_server/wv_server.cc:177-180 | One round of `push_back` turns the n-gram `word[i..j]` into `word[i..j']`, where j' is the next code-point boundary after j. |
| Subwords.GrowSound | grpc_server/wv_server.cc:176-188 | Every n-gram that the inner loop admits from code point i is valid. |
| Subwords.GrowComplete | grpc_server/wv_server.cc:176-188 | Every valid n-gram starting at i is admitted by the inner loop. |
| Subwords.NgramsFromSound | grpc_server/wv_server.cc:172-189 | Every n-gram produced by the outer loop from position i on is valid and starts at i or later. |
| Subwords.NgramsFromComplete | grpc_server/wv_server.cc:172-189 | Every valid n-gram starting at i or later is produced. |
| Subwords.NgramsExact | src/compact_dictionary.cc:34-47 | An n-gram is produced if and only if all of these hold: it starts and ends on code-point boundaries; it spans n code points with minn ≤ n ≤ maxn; and it is not a one-code-point n-gram at the start or end of the word. Encoder and reader share this single definition. |
| Subwords.NgramsOnce | src/compact_dictionary.cc:34-47 | Each n-gram the rule admits is produced exactly once, and every other n-gram zero times: its multiplicity in the list is 1 or 0 as `ValidNgram` says. So the counter is raised once per admitted n-gram (line 43-45), and the reader's divisor counts each admitted n-gram once (grpc_server/wv_server.cc:186-190). |
| Subwords.NgramsInRange | grpc_server/wv_server.cc:176-181 | Every produced n-gram is a non-empty slice of the word. |
| Subwords.NgramBucketsAppend | grpc_server/wv_server.cc:183 | Hashing n-grams to buckets distributes over concatenation. |
| Subwords.GrowBucketsNgrams | grpc_server/wv_server.cc:176-188 | The buckets hit by the inner loop are the buckets of the n-grams it admits, in order. |
| Subwords.BucketsFromNgrams | grpc_server/wv_server.cc:172-189 | The buckets hit by the outer loop are the buckets of the n-grams from i on, in order. |
| Subwords.SubwordBucketsLength | grpc_server/wv_server.cc:183-186 | The loop hits one bucket per n-gram, so `count` grows by the number of n-grams. |
| Subwords.SubwordBucketsMeaning | grpc_server/wv_server.cc:181-183 | Entry k of the bucket list is `hash(ngram) % nsubs_bucket` of the k-th n-gram, and that n-gram is valid. |
| Encoder.TallyCounts | src/compact_dictionary.cc:44-45 | Adding 1 at each bucket of a list raises counter b by the multiplicity of b in the list. |
| Encoder.TallyAppend | src/compact_dictionary.cc:45 | Counting a + b is counting a, then counting b. |
| Encoder.TallySubwords | src/compact_dictionary.cc:32-49 | Counting what the loops hit adds, for every bucket, the multiplicity of that bucket among the word's n-grams. |
| Encoder.GetSubwordsFrequency | src/compact_dictionary.cc:32-49 | Every `sub_count[b]` rises by the number of the word's n-grams that hash to b. No other counter changes. |
| Encoder.CountCodePoint | src/compact_dictionary.cc:37-47 | One round of the outer loop counts the n-grams starting at code point i. It keeps the loop's invariant: counters = start + tally of the buckets so far. |
| Encoder.CountNgramsAt | src/compact_dictionary.cc:38-47 | The inner loop counts exactly the buckets of the n-grams admitted from i. |
| Encoder.CountNgram | src/compact_dictionary.cc:39-46 | One round of the inner loop extends the n-gram by one code point. If the n-gram is admitted, it counts that n-gram's bucket. |
| Encoder.CountBucket | src/compact_dictionary.cc:44-45 | `sub_count[h] += 1` tallies one more bucket. |
| Encoder.CountSubwords | src/compact_dictionary.cc:77-81 | The counting loop over the vocabulary yields `SubCounts`: per bucket, how many n-grams of the vocabulary hash to it. |
| Encoder.SumTally | src/compact_dictionary.cc:116 | Tallying k in-range buckets raises the sum of the counters by k. |
| Encoder.TotalSubs | src/compact_dictionary.cc:112-117 | `total_subs` is the number of n-gram occurrences in the vocabulary. |
| Encoder.RankBuckets | src/compact_dictionary.cc:112-118 | The loop builds `ord_subs`, the pairs (count, bucket) in sorted order, and sums `total_subs`. |
| Ranking.Pairs | src/compact_dictionary.cc:113-116 | Entry b of the pushed list is (sub_count[b], b). |
| Ranking.Insert | src/compact_dictionary.cc:118 | Insertion adds exactly one element (as a multiset). |
| Ranking.SortDescending | src/compact_dictionary.cc:118 | The sort returns a permutation of its input. |
| Ranking.InsertDecreasing | src/compact_dictionary.cc:118 | Inserting a new pair into a strictly decreasing list keeps the list strictly decreasing. |
| Ranking.SortDecreasing | src/compact_dictionary.cc:118 | The sort of distinct pairs is strictly decreasing under `std::greater`. |
| Ranking.RankedIsSorted | src/compact_dictionary.cc:112-118 | `ord_subs` is a permutation of the pairs. Its counts never increase, and equal counts come in decreasing bucket order. |
| Ranking.HeadIsGreatest | src/compact_dictionary.cc:118 | The head of a strictly decreasing list is greater than every other element. |
| Ranking.SortedUnique | src/compact_dictionary.cc:118 | Two strictly decreasing permutations of the same pairs are equal. Any sorting algorithm therefore yields the order modelled here. |
| Ranking.Position | src/compact_dictionary.cc:127-128 | The rank found for bucket b holds b. When no rank holds b, none is returned. |
| Ranking.PositionOf | src/compact_dictionary.cc:127-128 | With distinct buckets, the position of the bucket at rank k is k. |
| Ranking.BuildReverseSubMap | src/compact_dictionary.cc:125-128 | The loop `reverse_sub_map[it->second] = rit` yields `ReverseSubMap`. |
| Ranking.ReverseSubMapInverts | src/compact_dictionary.cc:125-128 | `reverse_sub_map[b]` is a rank whose pair is (sub_count[b], b). No two buckets share a rank, so the map is a permutation of the buckets. |
| Ranking.RankedBuckets | src/compact_dictionary.cc:113-118 | Every entry of `ord_subs` is (sub_count[i], i) for an in-range i, and the buckets are distinct. |
| Quantization.LevelsInRange | grpc_server/wv_server.cc:211-212 | `v[i] % 16` and `v[i] / 16` are levels 0..15. |
| Quantization.UnpackPack | src/compact_dictionary.cc:189-194 | Packing two levels below 16 and unpacking them with `% 16` and `/ 16` returns both levels. |
| Quantization.PackUnpack | grpc_server/wv_server.cc:211-212 | Repacking the two unpacked levels of a byte gives back the byte. |
| Quantization.PackLosesWideLevels | src/compact_dictionary.cc:193 | For every pair of levels, the `uint8_t` sum keeps only hi % 16: packing hi is packing hi % 16, and with a low level below 16 the reader gets back hi % 16. |
| Quantization.DequantizeLevels | grpc_server/wv_server.cc:205-215 | Coordinate 2i of `toFloat` dequantizes the low nibble of byte i and coordinate 2i+1 the high nibble, each with (min, max). |
| Quantization.MinMaxFromBounds | src/compact_dictionary.cc:179-185 | The scan keeps, for each prefix, bounds that are members of the vector, below and above every coordinate seen. |
| Quantization.MinMaxScanBounds | src/compact_dictionary.cc:177-185 | For a strict order, the scan's (min, max) are coordinates of v, with no coordinate below min or above max. |
| Quantization.MinMax | src/compact_dictionary.cc:177-185 | The min/max loop computes `MinMaxScan`. |
| Quantization.PackLevels | src/compact_dictionary.cc:186-196 | The packing loop writes \|v\|/2 bytes. Byte k packs the level of v[2k] with the level of v[2k+1]. |
| Quantization.DecodeRecoversLevels | src/compact_dictionary.cc:186-196 | Reading level k of the packed bytes the way `toFloat` does gives the level the encoder computed for coordinate k, if both levels of its byte are below 16. |
| StringTable.TableSizeIsLength | src/compact_dictionary.cc:88-89 | `nchars`, the sum of `w.size() + 1`, is the length of the word table. |
| StringTable.TableAppend | src/compact_dictionary.cc:84-90 | The table of a + b is the table of a followed by the table of b. |
| StringTable.WriteWords | src/compact_dictionary.cc:84-90 | The word file is every word followed by `'\0'`. `nchars` is the table size of the first nrwords words. |
| StringTable.Clamp | src/compact_dictionary.cc:88 | The restriction `i < nrwords` keeps min(nrwords, nwords) words, none when nrwords < 0. |
| StringTable.NextNul | grpc_server/wv_server.cc:137-138 | The scan stops at the first `'\0'` at or after pos, or finds none. |
| StringTable.ScanStep | grpc_server/wv_server.cc:135-141 | One round of the scan records the byte after the next `'\0'`. |
| StringTable.ScanWords | grpc_server/wv_server.cc:133-141 | The scan succeeds exactly when `Offsets` does, and then returns those offsets. |
| StringTable.NulCountSplit | grpc_server/wv_server.cc:137-139 | Counting `'\0'` bytes in [a, c) is counting them in [a, b), then in [b, c). |
| StringTable.ScanFromCounts | grpc_server/wv_server.cc:135-141 | The j-th offset follows a `'\0'` and is preceded by exactly j + 1 of them since the scan began. |
| StringTable.ScanFromFails | grpc_server/wv_server.cc:137 | A scan that runs off the table found fewer `'\0'` bytes than it needed. |
| StringTable.ScanFromSucceeds | grpc_server/wv_server.cc:137 | A scan that succeeds found at least as many `'\0'` bytes as it needed. |
| StringTable.OffsetsAfterNuls | grpc_server/wv_server.cc:133-141 | The scan succeeds if and only if the table holds at least nrwords − 1 `'\0'` bytes after position 1. Offset 0 is 0, and offset i follows the i-th `'\0'` counted from position 1. |
| StringTable.TableSplit | src/compact_dictionary.cc:133-137 | The table is the words before j, then word j and its `'\0'`, then the rest. |
| StringTable.NulAfterWord | src/compact_dictionary.cc:136 | Within word j, the next `'\0'` is the terminator of word j, and the C string at the start of word j is word j. |
| StringTable.StartsFrom | grpc_server/wv_server.cc:140 | Entry t is the start of word j + t. |
| StringTable.ScanTable | grpc_server/wv_server.cc:135-141 | On a written table whose words hold no `'\0'`, the scan from word j yields the starts of the later words. |
| StringTable.OffsetsOfTable | grpc_server/wv_server.cc:133-141 | Load's scan of the table written at compact_dictionary.cc:133-137 returns the start of every word, if the first word is non-empty. |
| StringTable.WordsOfTable | grpc_server/wv_server.cc:140 | The C string at each offset of the scan is that word. |
| StringTable.EmptyFirstWordSkips | grpc_server/wv_server.cc:134 | The scan starts at position 1, so an empty first word's terminator is skipped. On `"\0a\0b\0"` with two words it returns offsets [0, 3], not [0, 1]. |
| Basics.U32RoundTrip | src/compact_dictionary.cc:101-105 | Four little-endian bytes give back the 32-bit value they encode. |
| Basics.I32RoundTrip | grpc_server/wv_server.cc:111-116 | Reading back a written `int32_t` gives the same value, two's complement included. |
| Basics.F32RoundTrip | grpc_server/wv_server.cc:130 | Reading back a written float gives the same bit pattern. |
| Basics.ConcatSlice | grpc_server/wv_server.cc:99 | The ndim floats at idx * ndim of concatenated rows are row idx. |
| Basics.ConcatAt | src/compact_dictionary.cc:161 | Entry r * d + j of concatenated rows of width d is entry j of row r. |
| Basics.ConcatLength | src/compact_dictionary.cc:157-164 | n rows of width d concatenate to n * d values. |
| Container.Encode4At | src/compact_dictionary.cc:129 | Item i of a 4-byte encoding occupies bytes 4i..4i+3. |
| Container.Decode4Encode4 | grpc_server/wv_server.cc:126 | Decoding any 4-byte codec's encoding returns the items. |
| Container.I32Codec | grpc_server/wv_server.cc:126 | `int32_t` bytes form a codec. |
| Container.F32Codec | grpc_server/wv_server.cc:130 | `float` bytes form a codec. |
| Container.FlattenSlice | src/compact_dictionary.cc:101-201 | Each part of a file of consecutive parts sits at the sum of the lengths before it. |
| Container.HeaderLength | src/compact_dictionary.cc:101-108 | The header is 26 bytes. |
| Container.HeaderOffsets | grpc_server/wv_server.cc:111-118 | The six `int32_t` fields start at 0, 4, …, 20, `minn` at 24 and `maxn` at 25. |
| Container.HeaderRoundTrip | grpc_server/wv_server.cc:111-118 | The header freads read back the header fwrites, whatever follows. |
| Container.HeaderMinn | grpc_server/wv_server.cc:117 | Byte 24 is `minn`. |
| Container.HeaderMaxn | grpc_server/wv_server.cc:118 | Byte 25 is `maxn`. |
| Container.Encode4Append | src/compact_dictionary.cc:123-129 | Writing a then b writes the encoding of a + b. |
| Container.SerializeParts | src/compact_dictionary.cc:101-201 | The data file is the header, word2int_, reverse_sub_map, the table, the frequencies, top_words, sub_vecs and mins_maxs, in that order. |
| Container.Fread | grpc_server/wv_server.cc:126-132 | n bytes from pos. Bytes past the end of the file are the zeros of the resized vector. |
| Container.FreadWithin | grpc_server/wv_server.cc:126-132 | Inside the file, fread is a slice. |
| Container.ReadBackI32s | grpc_server/wv_server.cc:126 | Reading encoded `int32_t` values at their position returns them. |
| Container.ReadBackF32s | grpc_server/wv_server.cc:129-132 | Reading encoded floats at their position returns them. |
| Container.SectionLengths | src/compact_dictionary.cc:101-201 | Section lengths follow the header: 26; 4 (nwords_bucket + nsubs_bucket); nchars; 4 (nrwords + nsubs_bucket); 4 nrwords ndim; nsubs_bucket (ndim/2); 8 nsubs_bucket. |
| Container.ReaderOffsets | grpc_server/wv_server.cc:126-132 | Each section starts where the previous freads leave the file position. |
| Container.PositionsAgree | grpc_server/wv_server.cc:126-132 | The positions at which the corrected load reads are where the encoder wrote each section. |
| Container.Hash2idAt | grpc_server/wv_server.cc:126 | The hash2id fread reads back hash2id. |
| Container.CharsAt | grpc_server/wv_server.cc:127 | The chars fread reads back the word table. |
| Container.FreqsAt | grpc_server/wv_server.cc:129 | The frequency fread, with nrwords + nsubs_bucket items, reads back the frequencies. |
| Container.TopWordsAt | grpc_server/wv_server.cc:130 | The top_words fread reads back top_words. |
| Container.SubVecsAt | grpc_server/wv_server.cc:131 | The sub_vecs fread reads back the packed bytes. |
| Container.MinsMaxsAt | grpc_server/wv_server.cc:132 | The mins_maxs fread reads back mins_maxs. |
| Container.ReadSectionsOf | grpc_server/wv_server.cc:119-132 | Reading every section back, with the resize of sub_vecs to nsubs_bucket * ndim, gives the written sections. The buffer is padded with zeros. |
| Container.SectionsRoundTrip | grpc_server/wv_server.cc:119-132 | The corrected section reads of a well-sized file give back what was written. |
| Container.ParseWithSections | grpc_server/wv_server.cc:133-141 | Load fails with BadStringTable when the scan fails. Otherwise it returns the sections with the scanned offsets. |
| Container.RoundTrip | grpc_server/wv_server.cc:108-144 | The corrected load (`ParseImage`) of a written data file with even ndim returns the written sections: the sub_vecs buffer zero-padded, plus the scanned offsets. If the scan fails, load reports BadStringTable. |
| Container.RoundTripSized | grpc_server/wv_server.cc:108-144 | The same round trip of the corrected load (`ParseImage`) for any ndim whose sub_vecs has the length load asks for. |
| Container.SerializedHeader | grpc_server/wv_server.cc:111-118 | Load reads back the header of any written file. |
| Container.ParsedSections | grpc_server/wv_server.cc:108-144 | A successful load holds what the section freads read at the positions they advance to. |
| Container.AsWrittenFreqs | grpc_server/wv_server.cc:122-129 | Load as written gets back the written frequencies if and only if nrwords == nwords_bucket. In that case it agrees with the corrected load. |
| Container.SameCount | grpc_server/wv_server.cc:129 | When nrwords == nwords_bucket, both frequency counts read identical images. |
| Container.AsWrittenShiftsTopWords | grpc_server/wv_server.cc:129-130 | When nrwords < nwords_bucket, load as written reads float k of top_words from float k + (nwords_bucket − nrwords) of the written top_words. |
| Container.ShiftedTopWords | grpc_server/wv_server.cc:130 | The top_words fread, started nwords_bucket − nrwords floats late, reads shifted floats. |
| Container.ParsedTopWords | grpc_server/wv_server.cc:130 | The loaded top_words are the nrwords * ndim floats at load's top_words position. |
| Container.ReadF32Item | grpc_server/wv_server.cc:130 | Item k of a float read is the float encoded at p + 4k. |
| Container.EncodedItem | src/compact_dictionary.cc:161 | Item j of an encoding is the 4 bytes at 4j. |
| Writer.Emit4 | src/compact_dictionary.cc:123-124 | The fwrite loop of `int32_t` or float items appends their 4-byte encodings. |
| Writer.WriteFreqs | src/compact_dictionary.cc:142-151 | The file gains the nrwords word frequencies count/ntokens_, then each ranked bucket's count/total_subs. |
| Writer.WordRows | src/compact_dictionary.cc:157-161 | Row i is transform of getWordVector(word i). |
| Writer.WriteTopWords | src/compact_dictionary.cc:155-164 | The file gains the rows of the first nrwords words. |
| Writer.SubBlocks | src/compact_dictionary.cc:171-196 | Block r is the packed levels of the bucket at rank r. |
| Writer.BoundRows | src/compact_dictionary.cc:177-185 | Row r is the (min, max) of the bucket at rank r. |
| Writer.WriteSubVectors | src/compact_dictionary.cc:168-197 | The file gains every bucket's packed block in rank order. `vmm` is every bucket's (min, max) in rank order. |
| Writer.RankTableAt | src/compact_dictionary.cc:125-128 | reverse_sub_map[b] is a rank r < bucket whose ord_subs entry is (sub_count[b], b). |
| Writer.OrdOf | src/compact_dictionary.cc:112-118 | ord_subs has one pair per bucket, each pair (sub_count[k], k) with the buckets distinct. |
| Writer.WriteCompact | src/compact_dictionary.cc:51-204 | The word file is the table of all words. The data file is the header, then every section in order (`CompactOf`). |
| Writer.CompactLayout | src/compact_dictionary.cc:101-201 | The data file's bytes, section by section, with hash2id split into word2int_ and reverse_sub_map. |
| Writer.CompactWellSized | src/compact_dictionary.cc:66-73 | The header holds nwords_, nrwords, word2int_.size(), bucket and the number of columns. minn and maxn are truncated to a byte (`int8_t`). Each section has the length the header gives it. |
| Writer.TopWordAt | src/compact_dictionary.cc:18-22 | top_words[i * ndim + j] is coordinate j of transform of word i's vector, which for ndim ≠ 1 is the coordinate itself (the map is never loaded). |
| Writer.WordFreqAt | src/compact_dictionary.cc:142-146 | Frequency i is count_i / ntokens_. |
| Writer.BlockAt | src/compact_dictionary.cc:171-196 | The ndim/2 bytes at r (ndim/2) of sub_vecs are the packed block of the bucket at rank r. |
| Writer.BoundsAt | src/compact_dictionary.cc:177-185 | mins_maxs[2r], mins_maxs[2r+1] are the bounds of the bucket at rank r. |
| Writer.BucketFreq | src/compact_dictionary.cc:147-151 | Frequency nrwords + r is the count of the bucket at rank r over total_subs. |
| Writer.Hash2idSub | src/compact_dictionary.cc:125-129 | hash2id[nwords_bucket + b] is reverse_sub_map[b]. |
| Writer.RankLookup | src/compact_dictionary.cc:125-201 | For r = reverse_sub_map[b], ord_subs[r] is b's pair, and the bounds and the block that writeCompact stores at rank r are bucket b's. |
| Writer.BucketLookup | src/compact_dictionary.cc:123-201 | For r = hash2id[nwords_bucket + b], rank r holds bucket b, frequency nrwords + r is b's share of total_subs, and mins_maxs and sub_vecs at rank r hold b's bounds and packed levels. |
| Writer.EncodeDecode | src/compact_dictionary.cc:101-201 | The corrected load reads back the written data file. It returns every section and the start of every restricted word, and each start spells its word. |
| Writer.AsWrittenReadsCompact | src/compact_dictionary.cc:142-151 | Load as written gets back the encoder's frequencies if and only if nrwords == word2int_.size(). |
| Reader.CPrefix | grpc_server/wv_server.cc:166 | `w.c_str()` is the prefix of w before its first `'\0'`. |
| Reader.NextSlot | grpc_server/wv_server.cc:160 | `(id + 1) % nwords_bucket` wraps to 0 after the last slot. |
| Reader.Slot | grpc_server/wv_server.cc:158-160 | The t-th probe slot from id is in range. |
| Reader.SlotStep | grpc_server/wv_server.cc:160 | Probe slot t from the next slot is probe slot t + 1 from id. |
| Reader.SlotValue | grpc_server/wv_server.cc:158-160 | Probe slot t, for t < nwords_bucket, is id + t modulo nwords_bucket. |
| Reader.ProbeFrom | grpc_server/wv_server.cc:159-160 | A probe that stops returns a slot in range. |
| Reader.ProbeReaches | grpc_server/wv_server.cc:159-160 | A probe stops within its fuel if one of the slots it visits does not pass. |
| Reader.ProbeStops | grpc_server/wv_server.cc:159 | The slot a probe returns ends the loop: it is -1, an id ≥ nrwords, or a word equal to the query. |
| Reader.ProbePasses | grpc_server/wv_server.cc:159-160 | Every slot visited before the returned one passes: it holds a top word different from the query. |
| Reader.StopperReached | grpc_server/wv_server.cc:157-162 | Assuming only what find reads (`Findable`): if some word slot is -1 or holds an id ≥ nrwords, the probe stops within nwords_bucket steps from any start. |
| Reader.FindSlot | grpc_server/wv_server.cc:164-167 | find(w) returns a slot < nwords_bucket. It needs only `Findable`: '\0'-terminated top words, word slots ≥ −1 and one blank word slot, and nothing about the subword half. |
| Reader.FindSlotStops | grpc_server/wv_server.cc:157-162 | hash2id at the found slot is -1, an id ≥ nrwords, or the id of a top word spelled as the query. |
| Reader.FindSlotMeaning | grpc_server/wv_server.cc:157-167 | The found slot is probe slot k < nwords_bucket from hash(w) % nwords_bucket. Every earlier probe slot passes, and the found slot stops. |
| Reader.Dictionary.FindHashed | grpc_server/wv_server.cc:157-162 | On fields that are `Findable`, the probing loop returns `FindFrom` and changes nothing. |
| Reader.Dictionary.Find | grpc_server/wv_server.cc:164-167 | On fields that are `Findable`, find(w) is find(w.c_str(), hash(w)). It returns `FindSlot` and changes nothing. |
| Reader.HalfOffset | grpc_server/wv_server.cc:184 | For a rank h < nsubs_bucket, the ndim/2 bytes at h * ndim / 2 lie inside the resized sub_vecs. |
| Reader.SubVectorOf | grpc_server/wv_server.cc:183-184 | The vector added for bucket b is toFloat of the ndim/2 bytes at h * ndim / 2 with bounds mins_maxs[2h], mins_maxs[2h+1], for the rank h = hash2id[b + nwords_bucket]. |
| Reader.AccumulateSnoc | grpc_server/wv_server.cc:183-185 | Adding one more bucket adds its sub vector to the sum. |
| Reader.AccumulateAppend | grpc_server/wv_server.cc:172-189 | Accumulating a + b is accumulating a, then b. |
| Reader.AverageOf | grpc_server/wv_server.cc:186-190 | computeSubwords divides the accumulated sum by count plus the number of n-grams. |
| Reader.ShortWordHasNoNgrams | grpc_server/wv_server.cc:181 | A word of fewer than minn code points has no n-grams. |
| Reader.EmptyWordAverage | grpc_server/wv_server.cc:104 | For the empty query with minn ≥ 3, "<>" has no n-grams. The answer is every zero coordinate divided by 0. |
| Reader.TopWordRow | grpc_server/wv_server.cc:99 | The row of top word idx has ndim floats. |
| Reader.WordInfo | grpc_server/wv_server.cc:84-106 | getWordInfo's answer has ndim coordinates and carries ndim. |
| Reader.StoredInfo | grpc_server/wv_server.cc:97-99 | The stored answer has ndim coordinates. |
| Reader.AverageInfo | grpc_server/wv_server.cc:92-93 | The subword answer has ndim coordinates. |
| Reader.TopWordInfo | grpc_server/wv_server.cc:90-99 | When find's slot holds a top word id idx, the word at idx is the query (up to its first `'\0'`), the frequency is freqs[idx] and the vector is row idx of top_words. |
| Reader.SubwordInfo | grpc_server/wv_server.cc:90-104 | Otherwise the found slot is blank (-1 or ≥ nrwords) and the frequency is freqs[nrwords − 1]. The vector is the sum of the sub vectors of the n-gram buckets of "<" + w + ">", divided by the number of n-grams. |
| Reader.LoadSteps | grpc_server/wv_server.cc:108-141 | For the corrected load (nrwords + nsubs_bucket frequencies): once the header is read and the sizes are non-negative, it fails exactly when the offset scan fails, and otherwise returns the sections with the offsets. |
| Reader.Dictionary.constructor | grpc_server/wv_server.cc:51 | Construction runs the corrected load. A file that loads gives the loaded image; when nrwords equals nwords_bucket, that is also the image of load as written. A loaded image that is `Servable` leaves the Dictionary `Valid()` for the queries. |
| Reader.Dictionary.Load | grpc_server/wv_server.cc:108-144 | The corrected load: it succeeds exactly when `ParseImage` does, then fills the fields with that image, and otherwise leaves them unchanged. When nrwords equals nwords_bucket, it succeeds exactly when load as written (`ParseImageAsWritten`) does, with the same fields. A successful load of a `Servable` image leaves the Dictionary `Valid()`. |
| Reader.Dictionary.ToFloat | grpc_server/wv_server.cc:205-215 | toFloat at offset off is `Dequantize` of the ndim/2 bytes at off. |
| Reader.Dictionary.AddVector | grpc_server/wv_server.cc:193-197 | `v1[i] += v2[i]` for i < ndim. Nothing else changes. |
| Reader.Dictionary.DivVector | grpc_server/wv_server.cc:199-203 | `v[i] /= div` for i < ndim. Nothing else changes. |
| Reader.Dictionary.AddBucket | grpc_server/wv_server.cc:183-185 | Adding the sub vector of bucket b keeps r equal to the accumulation of the buckets so far. |
| Reader.Dictionary.AddNgram | grpc_server/wv_server.cc:177-187 | One round of the inner loop grows the n-gram by a code point. If the n-gram is admitted, its bucket's vector is added and count rises by one. |
| Reader.Dictionary.AddNgramsAt | grpc_server/wv_server.cc:176-188 | The inner loop adds the vectors of the buckets of the n-grams admitted from i. |
| Reader.Dictionary.AddSubwords | grpc_server/wv_server.cc:172-189 | The loops hit exactly the word's n-gram buckets, add their sub vectors to r, and raise count by their number. |
| Reader.Dictionary.ComputeSubwords | grpc_server/wv_server.cc:170-191 | r becomes `SubwordAverage`: (r + the sub vectors of the word's n-gram buckets) / (count + number of n-grams). |
| Reader.Dictionary.StoredAnswer | grpc_server/wv_server.cc:95-99 | The top-word branch returns `StoredInfo`: row idx of top_words (memcpy of ndim floats) and freqs[idx]. |
| Reader.Dictionary.SubwordAnswer | grpc_server/wv_server.cc:92-104 | The other branch returns `AverageInfo`: computeSubwords of "<" + word + ">" on a zero vector with count 0, and freqs[nrwords − 1]. |
| Reader.Dictionary.GetWordInfo | grpc_server/wv_server.cc:84-106 | getWordInfo returns `WordInfo` of the loaded image. |
| Pipeline.LoadedImage | grpc_server/wv_server.cc:108-144 | The corrected load of the encoder's data file for a readable model returns `ImageOf`. Each offset spells its word. |
| Pipeline.AsWrittenLoadedImage | grpc_server/wv_server.cc:122-129 | Load as written returns `ImageOf` of the encoder's data file if and only if nrwords equals the number of word slots, word2int_.size(). |
| Pipeline.ImageShaped | grpc_server/wv_server.cc:119-125 | That image has the sizes its header gives, and each offset starts a C string. |
| Pipeline.ImageSlots | src/compact_dictionary.cc:123-129 | The word half of the loaded hash2id is word2int_. The subword half holds ranks below nsubs_bucket. |
| Pipeline.EncodedServable | grpc_server/wv_server.cc:84-191 | A readable model whose word2int_ holds only -1 or ids, with one blank slot, loads by the corrected load into an image the queries can serve. |
| Pipeline.ServedRank | grpc_server/wv_server.cc:183 | The rank the reader looks up for bucket b is reverse_sub_map[b]. |
| Pipeline.ServedBytes | grpc_server/wv_server.cc:184 | In the image of the corrected load, the ndim/2 bytes that the reader takes for bucket b are the levels the encoder packed for b. |
| Pipeline.ServedBounds | grpc_server/wv_server.cc:184 | In the image of the corrected load, the two floats that the reader takes for bucket b are b's min and max. |
| Pipeline.ServedSubVector | grpc_server/wv_server.cc:183-184 | In the image of the corrected load, the sub vector computeSubwords adds for bucket b is toFloat of b's packed levels with b's bounds. The lookup lands on the bucket's block. |
| Pipeline.ServedRow | grpc_server/wv_server.cc:99 | In the image of the corrected load, row idx of top_words is the row written for word idx. |
| Pipeline.ServedTopWord | grpc_server/wv_server.cc:90-99 | In the image of the corrected load, a query answered from top_words gets transform of its own word vector and count/ntokens_, and the stored word is the query. |
| Pipeline.FindsPlaced | grpc_server/wv_server.cc:157-162 | A probe from hash(w) that reaches the slot of top word k, spelled as w, through slots holding other top words stops at that slot. |
| Pipeline.FindsTopWord | grpc_server/wv_server.cc:157-162 | In the image of the corrected load, with distinct words and word2int_ filled in id order, find of restricted word k stops at the slot holding k. |
| Pipeline.ServedEveryTopWord | grpc_server/wv_server.cc:84-99 | In the image of the corrected load, with distinct words and word2int_ filled in id order, every restricted word k is answered from top_words: find gives k, with transform of word k's vector and count/ntokens_. |
| Pipeline.ServedBlock | grpc_server/wv_server.cc:125-131 | Reading a block inside the written bytes from the zero-padded buffer gives the written bytes. |

## Left out

- The map branch of `transform`. writeCompact opens the map file only when its name is empty (`map_fn == "" ? fopen(...) : NULL`), which never yields a file. So the map is the single value 0.0, and only the copy branch, plus the `ndim == 1` product with the zero map, is reachable. The `ndim x ndim` product is not modelled.
- Floating point. Float values are bit patterns, and every arithmetic operation is an uninterpreted `FloatOps` member. Rounding, NaN, and `uint8_t` of an out-of-range float are not modelled.
- The float `count` of computeSubwords is an exact integer, and `total_subs` an exact integer instead of a `double`.
- Encoder.GetSubwordsFrequency: the `int32_t` counters of `sub_count` are unbounded integers; overflow past 2^31 − 1 is not modelled.
- Reader.Dictionary.Load, Reader.Dictionary.constructor and Reader.LoadSteps model the corrected load of the Findings row: they read nrwords + nsubs_bucket frequencies where grpc_server/wv_server.cc:122 and 129 read nwords_bucket + nsubs_bucket. They agree with load as written only when nrwords equals nwords_bucket, which their contracts state. For nrwords < nwords_bucket, the fields load as written fills are `Container.ParseImageAsWritten`, with top_words shifted as `Container.AsWrittenShiftsTopWords` states.
- Pipeline.LoadedImage, Pipeline.EncodedServable, Pipeline.ServedBytes, Pipeline.ServedBounds, Pipeline.ServedSubVector, Pipeline.ServedRow, Pipeline.ServedTopWord, Pipeline.FindsTopWord and Pipeline.ServedEveryTopWord are about the image of the corrected load. For load as written they hold only when nrwords equals word2int_.size() (`Pipeline.AsWrittenLoadedImage`).
- Container.ReadSections: the sizes `nwords_bucket+nsubs_bucket`, `nrwords*ndim`, `nsubs_bucket*2`, `nsubs_bucket*ndim` and `nsubs_bucket*ndim/2` (grpc_server/wv_server.cc:119-132) are unbounded integers. load computes them in `int32_t` and then converts them to `size_t`, so a header whose products pass 2^31 − 1 wraps in the source and not in the model. `ModelOk` bounds each header field, not these products.
- Reader.Dictionary.StoredAnswer: the row offset `idx*ndim` (grpc_server/wv_server.cc:99) is an unbounded integer, not the `int32_t` product of the source.
- Writer.SubRow: the input-row offset `i*n_` (src/compact_dictionary.cc:173-176) is not modelled; the model indexes the row of the input matrix directly, so an `int32_t` overflow of `i*n_` for large matrices (e.g. 4M rows of 600 floats) is not captured. Nor are the encoder's other `int32_t` products: the size `nsubs_bucket*2` of vmm and of its fwrite (src/compact_dictionary.cc:169, 201) and the indices `ii*2` and `ii*2+1` (src/compact_dictionary.cc:177-186) are unbounded integers in `Writer.BoundRows` and `Writer.WriteSubVectors`.
- Reader.Dictionary.AddBucket: `h*ndim/2` is computed on unbounded integers, not in 32-bit `int32_t` arithmetic, which could overflow for large tables.
- Header values are required to fit `int32_t` (`ModelOk`), so the encoder's truncating casts of sizes are not modelled. minn and maxn are naturals, truncated to a byte only where the header stores them.
- Odd ndim. The reader locates bucket h at `h*ndim/2` while the encoder writes blocks of `ndim/2` bytes, so the two offsets differ for odd ndim. The end-to-end lemmas assume an even ndim. `Container.RoundTripSized` covers any ndim whose sub_vecs length matches what load reads.
- `Vector vec(300)`, `ft.getWordVector` and the input matrix are inputs of the model (`wordVectors`, `input`). The fastText library is not part of this model.
- The encoder counts the n-grams of `words_[i].word` without `<` and `>`, while the reader brackets the query. The model follows the code as written on both sides.
- Files and I/O are byte sequences. fopen, fclose and printf are left out, and so are the progress prints.
- Load's error results stand in for what the code leaves undefined: a file shorter than the header, a negative size given to resize, nrwords == 0, and an offset scan that runs past `chars`. Past those, fread beyond the end of the file leaves the zeros of the resized vector, as `Fread` models.
- `std::list::sort` is modelled as a functional insertion sort. `Ranking.SortedUnique` shows that the result does not depend on the algorithm.
- `Reader.Accumulate` ignores a bucket outside [0, nsubs_bucket). The loops only produce in-range buckets (`Hashing.Bucket`), so no reachable case is lost.
- memcpy of the stored row is a sequence slice.
- Writer.WriteCompact, Encoder.GetSubwordsFrequency, Encoder.CountSubwords, Reader.WordInfo, Reader.Dictionary.ComputeSubwords and Reader.Dictionary.GetWordInfo do not cover no-subword stores (bucket == nsubs_bucket == 0). With maxn == 0 the source admits no n-gram, so it never reaches `% args_->bucket` (src/compact_dictionary.cc:38-44). Its loops at src/compact_dictionary.cc:113-129 and 171-197 then run zero times. load resizes the subword sections to 0, and getWordInfo divides zeros by 0 for a word that is not a top word (grpc_server/wv_server.cc:176, 190). The model asks for at least one bucket in `Encoder.InputOk`, and through `ModelOk` in Writer.WriteCompact and every Writer and Pipeline lemma. It also asks for one in Encoder.GetSubwordsFrequency (`subCount.Length > 0`) and Encoder.CountSubwords (`m.bucket > 0`). Through `Servable`, `Reader.Shaped` asks for one in Reader.WordInfo, Reader.Dictionary.ComputeSubwords and Reader.Dictionary.GetWordInfo. find and its lemmas (Reader.FindSlot, Reader.FindSlotMeaning, Reader.Dictionary.FindHashed, Reader.Dictionary.Find) ask only for `Findable`, which says nothing about the subword half, so they do cover such stores.
- Reader.Dictionary.GetWordInfo and Reader.Dictionary.FindHashed require `Servable` and `Findable` respectively; both ask for a blank word slot. The source's find (grpc_server/wv_server.cc:159-160) has no such guard: when every word slot holds a top word other than the query, its while loop never ends. The model does not capture that non-terminating case.
- Pipeline.FindsTopWord and Pipeline.ServedEveryTopWord take the way word2int_ was built as a premise (`Pipeline.FilledInOrder`): fastText's Dictionary, which fills it, is not part of this model.
- Pipeline.ServedSubVector requires `Servable` of the loaded image; `Pipeline.EncodedServable` gives conditions under which it holds.
- The gRPC service (`WordVectorImpl`, `main`) and the language detection in wv_server.cc are not part of this model, and neither is the client.

## Findings

| source | as written | input that shows it | evidently intended | confidence | as-written member | corrected member |
|---|---|---|---|---|---|---|
| grpc_server/wv_server.cc:129 | load reads `nwords_bucket + nsubs_bucket` frequencies (resized at line 122), while writeCompact writes `nrwords + nsubs_bucket` (src/compact_dictionary.cc:142-151) | any model with nrwords < word2int_.size(), e.g. 1 restricted word and 2 word slots: the frequencies read past their section into top_words, and top_words read shifted by 1 float | read `nrwords + nsubs_bucket` frequencies, so every later section starts where it was written (the reader's own resize and fread, grpc_server/wv_server.cc:122 and 129, ask for `nwords_bucket + nsubs_bucket` frequencies, so the encoder could instead be fixed to write that many) | not executed | Container.ParseImageAsWritten, Container.AsWrittenFreqs, Container.AsWrittenShiftsTopWords, Pipeline.AsWrittenLoadedImage | Container.ParseImage, Container.RoundTrip, Container.RoundTripSized, Reader.LoadSteps, Reader.Dictionary.Load, Reader.Dictionary.constructor, Pipeline.LoadedImage, Pipeline.EncodedServable, Pipeline.ServedBytes, Pipeline.ServedBounds, Pipeline.ServedSubVector, Pipeline.ServedRow, Pipeline.ServedTopWord, Pipeline.FindsTopWord, Pipeline.ServedEveryTopWord |
