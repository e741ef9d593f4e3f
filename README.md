# fpga_perfect_hash in Dafny

This project models the combinatorial core of fpga_perfect_hash in Dafny and proves properties of the model. fpga_perfect_hash synthesises perfect hash functions offline for FPGA lookup tables (LUTs). A hash has one LUT per output bit, and each LUT is addressed by a few selected input bits.

The model covers these parts of the system:

- **Keys.** Ternary bit vectors (1, 0 or don't care) and the key/value collection built from them.
- **Structure.** The canonicalisation and validity checks of the tap selections (the input bits each LUT reads), and the `BitHash` structure with its evaluation, `is_solution`, text form and structural hash.
- **Search.** The incremental evaluator `EntryToKey`, the exhaustive greedy descents, path relinking and randomised greedy.
- **SAT.** The CNF encoding and its substitution back into the structure, the Tseitin expression builder, and the polish step that unbinds clashing LUT entries and hands them to a SAT solver.
- **History.** The tabu signatures and their counting filter.

Each C++ header of the core is one Dafny module:

| module | header | flavour |
|---|---|---|
| `BitVectors` (bit_vector.dfy) | include/bit_vector.hpp | values, plus the iterator class and the parse loops as methods |
| `KeyValueSets` (key_value_set.dfy) | include/key_value_set.hpp | a class whose `SetupProperties` loop fills the caches, and a line-reading parser loop |
| `Shuffles` (shuffle.dfy) | include/shuffle.hpp | sort/dedupe, coverage and metric loops as methods |
| `BitHashes`, `BitHashText` (bit_hash.dfy, bit_hash_text.dfy) | include/bit_hash.hpp | value functions, `is_solution` and the table builders as loops, print/parse on word sequences |
| `BucketCounts`, `Anneal` (bucket_counts.dfy, bit_hash_anneal.dfy) | include/bit_hash_anneal.hpp | the `EntryToKey` class updated in place, and greedy flip/undo loops |
| `Relink` (bit_hash_relink.dfy) | include/bit_hash_relink.hpp | local-search loops over an `EntryToKey` |
| `Cnf`, `CnfEncoding`, `CnfMeaning` (bit_hash_cnf*.dfy) | include/bit_hash_cnf.hpp | clause checking and substitution as functions, `to_cnf` as a method, and its meaning as lemmas |
| `CnfHelpers` (cnf_helpers.dfy) | include/cnf_helpers.hpp | a `Solver` class that holds clauses and a variable counter |
| `Polish` (bit_hash_polish.dfy) | include/bit_hash_polish.hpp | rankings as functions, and the retry loop as methods |
| `History` (bit_hash_history.dfy) | include/bit_hash_history.hpp | signature classes and a counting table |

`Wrappers`, `Arith` and `Decimal` hold shared helpers:

- `Option`/`Result`;
- powers of two and bit arithmetic;
- decimal text for messages.

A C++ exception becomes the `Err` case of a `Result`, carrying the exception's message text. An `assert` of the source becomes a `requires`. Integers are unbounded unless the source's wrap-around matters; where it does, the modulus is written out (for example the 64-bit structural hash and the signatures).

## Model

| member | source | states |
|---|---|---|
| `BitVectors.Make` | include/bit_vector.hpp:29-67 | Construction succeeds exactly when every element is -1, 0 or 1, and otherwise fails with the invalid-argument message. A built vector reads the given element at every index, and 0 beyond the end. |
| `BitVectors.SetCounts` | include/bit_vector.hpp:29-49 | The descending validation and counting pass gives exactly the vector `Make` describes. |
| `BitVectors.Trimmed` | include/bit_vector.hpp:35-48 | The stored digits are no longer than the input and read the same value at every index. |
| `BitVectors.TrimmedLength` | include/bit_vector.hpp:31-48 | The storage length is 1 + the index of the highest non-zero element: every element from it on is 0, and the last kept one is not. |
| `BitVectors.TrimmedLengthUnique` | include/bit_vector.hpp:31-48 | Those three properties determine the trimmed length. |
| `BitVectors.Extensionality` | include/bit_vector.hpp:29-97 | Two well-formed vectors that read the same at every index are equal, so trimming makes the representation canonical. |
| `BitVectors.Count` | include/bit_vector.hpp:72-77 | `count()` fails with "Vector contains unknowns" exactly when some index reads -1. Otherwise it is the number of ones. |
| `BitVectors.ConcreteIff` | include/bit_vector.hpp:89-97 | `is_concrete` holds exactly when no index reads -1. |
| `BitVectors.LessIrreflexive` | include/bit_vector.hpp:99-113 | No vector is below itself. |
| `BitVectors.LessAsymmetric` | include/bit_vector.hpp:99-113 | `a < b` excludes `b < a`. |
| `BitVectors.LessTransitive` | include/bit_vector.hpp:99-113 | The shorter-first, MSB-down order is transitive. |
| `BitVectors.LessConnected` | include/bit_vector.hpp:99-113 | Two distinct trimmed vectors are ranked one way or the other, so `operator<` is a strict total order. |
| `BitVectors.OverlapsIff` | include/bit_vector.hpp:115-126 | `overlaps` holds exactly when, at every index where both vectors are concrete, they agree. |
| `BitVectors.OverlapsSymmetric` | include/bit_vector.hpp:115-126 | `overlaps` is symmetric. |
| `BitVectors.OverlapsReflexive` | include/bit_vector.hpp:115-126 | Every vector overlaps itself. |
| `BitVectors.ConcreteMask` | include/bit_vector.hpp:128-138 | Mask bit i is 1 exactly when i < w and the vector is concrete at i. The mask is concrete. |
| `BitVectors.VariantsCount` | include/bit_vector.hpp:140-141 | `variants_count` is 2 to the number of don't cares. |
| `BitVectors.FillAt` | include/bit_vector.hpp:150-161 | Offset o writes bit k of o into the don't care of rank k and keeps every concrete element. |
| `BitVectors.VariantAt` | include/bit_vector.hpp:150-182 | Variant o reads the concrete bits of the pattern, and bit k of o at the k-th don't care, counted in ascending position. |
| `BitVectors.VariantIsConcrete` | include/bit_vector.hpp:150-182 | Every variant is concrete. |
| `BitVectors.VariantOverlaps` | include/bit_vector.hpp:150-182 | Every variant lies in its pattern's variant set. |
| `BitVectors.VariantsDistinct` | include/bit_vector.hpp:140-182 | The variants 0 .. `variants_count()`-1 are pairwise distinct. |
| `BitVectors.VariantIterator.Current` | include/bit_vector.hpp:179-182 | `operator*` yields the variant at the iterator's offset. |
| `BitVectors.VariantIterator.SameOffset` | include/bit_vector.hpp:163-167 | Over one pattern and within range, iterators compare equal exactly when they yield the same variant. |
| `BitVectors.VariantIterator.Next` | include/bit_vector.hpp:169-177 | `operator++` requires an offset below the end. It advances the offset by one and rewrites each don't care from the new offset. |
| `BitVectors.VariantsBegin` | include/bit_vector.hpp:185-186 | The begin iterator is at offset 0 over the vector's digits. |
| `BitVectors.VariantsEnd` | include/bit_vector.hpp:188-189 | The end iterator is at offset `variants_count()`. |
| `BitVectors.BinaryLoop` | include/bit_vector.hpp:192-200 | The shift-and-push loop writes the binary digits of x, least significant first. |
| `BitVectors.ToUnsigned` | include/bit_vector.hpp:202-211 | `to_unsigned` fails with "Value is abstract." exactly when the vector has a don't care. |
| `BitVectors.UnsignedRoundTrip` | include/bit_vector.hpp:192-211 | `to_unsigned(to_bit_vector(x)) == x`. |
| `BitVectors.VectorRoundTrip` | include/bit_vector.hpp:192-211 | A concrete vector is rebuilt from its value. |
| `BitVectors.Digits` | include/bit_vector.hpp:213-226 | The text has one character per digit, most significant first: '1', '0' or 'u'. |
| `BitVectors.Trim` | include/bit_vector.hpp:235-251 | The result is a lower-cased slice of the input with only blanks outside it, and it neither starts nor ends with a blank. |
| `BitVectors.ParseBinaryLoop` | include/bit_vector.hpp:277-291 | The `0b` loop reads character `|t|-1-i` into element i, and fails on any character other than 0, 1 and u. |
| `BitVectors.WriteNibble` | include/bit_vector.hpp:305-308 | The inner loop writes the four bits of a hex digit at i..i+3 and nothing else. |
| `BitVectors.ParseHexLoop` | include/bit_vector.hpp:292-309 | The `0x` loop computes the as-written hex entries, stepping its index by 4 while it is below the string length. |
| `BitVectors.HexReadsOnlyLowDigits` | include/bit_vector.hpp:292-309 | The hex branch as written reads only about a quarter of the digits: "0x1f" gives 0b1111. |
| `BitVectors.ParseBitVector` | include/bit_vector.hpp:271-326 | `parse_bit_vector` trims, then takes the `0b`, `0x` or decimal branch. Only the decimal branch's whole-string check is modelled, with an `strtoull` oracle. |
| `BitVectors.ParseToString` | include/bit_vector.hpp:213-291 | `parse_bit_vector(to_string(v)) == v` through the `0b` branch, including "0b0" for the empty vector. |
| `BitVectors.ParseRejectsBadBinary` | include/bit_vector.hpp:277-291 | In the `0b` branch any character other than 0, 1 and u raises. |
| `KeyValueSets.KeyValueSet.constructor` | include/key_value_set.hpp:51-55 | The default set is empty, with zero widths and `has_concrete_keys` false. |
| `KeyValueSets.KeyValueSet.SetupProperties` | include/key_value_set.hpp:29-49 | The entries are kept. The call fails with "Two keys in different groups overlap." exactly when two keys overlap. Otherwise the caches are valid. |
| `KeyValueSets.OverlapsAny` | include/key_value_set.hpp:38-42 | The inner loop reports whether some key seen so far overlaps the new key. |
| `KeyValueSets.RecordedSummary` | include/key_value_set.hpp:37-48 | Recording the entries one by one yields their summary: the key set, the maxima of key and value sizes, all-concrete, and the sum of variant counts. |
| `KeyValueSets.Build` | include/key_value_set.hpp:57-61 | The map constructor fails exactly on overlapping key groups. Otherwise it holds the given entries with valid caches. |
| `KeyValueSets.KeyValueSet.KeysSize` | include/key_value_set.hpp:72-73 | `keys_size() == size()` after construction. |
| `KeyValueSets.KeyValueSet.KeysSizeDistinct` | include/key_value_set.hpp:75-76 | `keys_size_distinct` is the sum of `variants_count` over the keys, at least the number of entries. |
| `KeyValueSets.KeyValueSet.HasConcreteKeys` | include/key_value_set.hpp:81-82 | `has_concrete_keys` holds exactly when every key is concrete. |
| `KeyValueSets.KeyValueSet.KeyWidth` | include/key_value_set.hpp:84-85 | `getKeyWidth` is the largest key `size()`, or 0 when there are no entries. |
| `KeyValueSets.KeyValueSet.ValueWidth` | include/key_value_set.hpp:87-88 | `getValueWidth` is the largest value `size()`, or 0 when there are no entries. |
| `KeyValueSets.MaxSizeIsMax` | include/key_value_set.hpp:44-46 | The cached width bounds every size and is attained. |
| `KeyValueSets.AscendingCardinality` | include/key_value_set.hpp:43 | The key set has one element per entry. |
| `KeyValueSets.Insert` | include/key_value_set.hpp:199-201 | `std::map::insert` refuses a present key. Otherwise it places the new pair at its position in key order. |
| `KeyValueSets.FindColon` | include/key_value_set.hpp:191 | Finds the first colon, or the length when there is none. |
| `KeyValueSets.ReadEntry` | include/key_value_set.hpp:189-197 | A line is split at its first colon and key and value are parsed in that order. A line without a colon is a key with the empty value. |
| `KeyValueSets.Step` | include/key_value_set.hpp:178-208 | A blank trimmed line is skipped and any other line adds one entry. A failing line yields its own line number and the failure cause. |
| `KeyValueSets.ReadLine` | include/key_value_set.hpp:178-208 | The loop body computes `Step`. |
| `KeyValueSets.ParseFrom` | include/key_value_set.hpp:178-209 | Lines from i on add one entry per non-blank line in key order. A failure names a line after i. |
| `KeyValueSets.ParseKeyValueSet` | include/key_value_set.hpp:173-212 | A failing line is rethrown as "Exception while parsing line N" with the cause. Otherwise the gathered map goes to the constructor, with its overlap check. |
| `KeyValueSets.ParseLinesEntries` | include/key_value_set.hpp:178-209 | A successful read has exactly one entry per non-blank line, and each such line's entry is present. |
| `KeyValueSets.DuplicateRejected` | include/key_value_set.hpp:199-208 | Two non-blank lines with the same key make the read fail. |
| `KeyValueSets.ParsePrint` | include/key_value_set.hpp:90-95 | Reading back what `print` writes with an empty indent gives the entries. |
| `Shuffles.Canon` | include/shuffle.hpp:44-48 | The canonical form of an address is strictly ascending and reads the same taps. |
| `Shuffles.AscendingUnique` | include/shuffle.hpp:44-48 | Two canonical addresses with the same taps are equal, so the canonical form is unique. |
| `Shuffles.CanonOfCanonical` | include/shuffle.hpp:44-48 | Canonicalising a canonical address changes nothing. |
| `Shuffles.SortAddress` | include/shuffle.hpp:46 | `std::sort` gives a non-decreasing permutation. |
| `Shuffles.Unique` | include/shuffle.hpp:47 | `unique` and `erase` on a sorted address give a strictly ascending address with the same taps. |
| `Shuffles.CanonicaliseAddress` | include/shuffle.hpp:44-48 | `canonicaliseShuffleAddress` yields the canonical form. |
| `Shuffles.LexTotal` | include/shuffle.hpp:51-56 | `lexicographical_compare` ranks any two different addresses one way or the other. |
| `Shuffles.LexTransitive` | include/shuffle.hpp:51-56 | `lexicographical_compare` is transitive. |
| `Shuffles.LexIrreflexive` | include/shuffle.hpp:51-56 | No address is below itself. |
| `Shuffles.SortShuffle` | include/shuffle.hpp:63 | `std::sort` with the lexicographic comparator gives a sorted permutation. |
| `Shuffles.CanonicaliseShuffle` | include/shuffle.hpp:58-64 | Every address is made canonical. The result is a lexicographically sorted permutation of the canonical addresses. |
| `Shuffles.MetricShuffleAddress` | include/shuffle.hpp:66-86 | The corrected metric, with both iterators starting at the front, is the size of the symmetric difference of two canonical addresses. |
| `Shuffles.MetricShuffleAddressAsWritten` | include/shuffle.hpp:66-86 | As written, `i1` starts at `a1.end()`, so the metric is always `|a0|`. |
| `Shuffles.MetricMerge` | include/shuffle.hpp:68-85 | The merge loop counts the symmetric difference when started at the front, and `|a0|` when started at the end of `a1`. |
| `Shuffles.MetricAsWrittenMisses` | include/shuffle.hpp:66-86 | Two equal one-tap addresses differ in nothing, yet the as-written metric gives 1. |
| `Shuffles.SymDiffZero` | include/shuffle.hpp:66-86 | The corrected metric is 0 exactly when the two addresses read the same taps. |
| `Shuffles.EvaluateShuffle` | include/shuffle.hpp:106-115 | `evaluateShuffle` as written needs a non-empty shuffle and sums the as-written metric over all pairs i < j: each address's length, once per later address. |
| `Shuffles.RowSumAsWrittenValue` | include/shuffle.hpp:109-113 | As written, the row of address i from j on scores the length of address i times the number of later addresses. |
| `Shuffles.EvaluationAsWrittenZero` | include/shuffle.hpp:106-115 | As written, a shuffle scores 0 exactly when every address but the last is empty, whatever the taps. |
| `Shuffles.EvaluationAsWrittenMisses` | include/shuffle.hpp:106-115 | As written, [[0],[0]] scores 1 where the intended score is 0, and [[],[5]] scores 0 where it is 1. |
| `Shuffles.EvaluateShuffleCorrected` | include/shuffle.hpp:106-115 | With the corrected metric, on canonical addresses, the score is the symmetric-difference sizes summed over all pairs i < j. |
| `Shuffles.EvaluationZero` | include/shuffle.hpp:106-115 | With the corrected metric, a shuffle scores 0 exactly when all its addresses read the same taps. |
| `Shuffles.IsValidShuffle` | include/shuffle.hpp:88-104 | Given taps below `wI`, the shuffle is valid exactly when `wI > 0` and every input below `wI` is read by some address. |
| `Shuffles.Spread` | include/shuffle.hpp:123-126 | Input i goes to set `i % wO`, and every member is below `wI`. |
| `Shuffles.FillUp` | include/shuffle.hpp:128-133 | Each set keeps its inputs and grows to at least `min(wI, wA)` inputs below `wI`. |
| `Shuffles.Ascending` | include/shuffle.hpp:135-138 | A `std::set` copied into a vector is its elements in ascending order. |
| `Shuffles.ToAddresses` | include/shuffle.hpp:135-138 | Each set becomes the ascending list of its elements. |
| `Shuffles.MakeRandomShuffle` | include/shuffle.hpp:118-143 | `makeRandomShuffle` returns `wO` canonical addresses, lexicographically sorted. Every tap is below `wI`, each address has at least `min(wI, wA)` taps, and every input below `wI` is read. |
| `BitHashes.TableEquals` | include/bit_hash.hpp:22-23 | Table equality compares selectors and lut field-wise. It is exactly value equality. |
| `BitHashes.Equals` | include/bit_hash.hpp:106-107 | Hash equality compares the widths and the tables. It is exactly value equality. |
| `BitHashes.TableLessAsWrittenBothWays` | include/bit_hash.hpp:25-32 | As written, two tables whose selectors differ are each "less" than the other. |
| `BitHashes.TableLessTotal` | include/bit_hash.hpp:25-32 | The corrected table order ranks any two different tables one way or the other. |
| `BitHashes.TableLessTransitive` | include/bit_hash.hpp:25-32 | The corrected table order is transitive. |
| `BitHashes.TableLessIrreflexive` | include/bit_hash.hpp:25-32 | The corrected table order is irreflexive. |
| `BitHashes.LessStrictTotalOrder` | include/bit_hash.hpp:109-122 | Over the corrected table order, `BitHash::operator<` is irreflexive, transitive and total. |
| `BitHashes.Address` | include/bit_hash.hpp:67-75 | Address bit i is key bit `selectors[i]`, and the address is below 2^\|selectors\|. |
| `BitHashes.KeyAddress` | include/bit_hash.hpp:77-87 | The vector overload fails with "Cannot lookup non-concrete key." exactly when a selected bit is a don't care. A concrete key always succeeds. The address has the selected bits, below 2^\|selectors\|. |
| `BitHashes.Lookup` | include/bit_hash.hpp:96-99 | The table's value for a key is the lut entry at the key's address, failing as the address does. |
| `BitHashes.LookupUnsigned` | include/bit_hash.hpp:89-94 | The table's value for an unsigned key is the lut entry at its address, which is a trit. |
| `BitHashes.Eval` | include/bit_hash.hpp:148-160 | Hash bit i is `tables[i](x)`, and the hash is below 2^wO. It fails exactly when a table meets a don't care at a selected bit. The decided-entry assertion is a precondition. |
| `BitHashes.EvalUnsigned` | include/bit_hash.hpp:134-146 | Hash bit i is `tables[i](x)`, and the hash is below 2^wO. |
| `BitHashes.AddressAgrees` | include/bit_hash.hpp:67-87 | The two address overloads agree on the vector form of a number. |
| `BitHashes.EvalAgrees` | include/bit_hash.hpp:134-160 | The two hash overloads agree on the vector form of a number. |
| `BitHashes.LutEntryTerm` | include/bit_hash.hpp:200-207 | `hashForLutEntry` is the product reduced mod 2^64. |
| `BitHashes.TapTerm` | include/bit_hash.hpp:209-215 | `hashForTap` is the product reduced mod 2^64. |
| `BitHashes.Hash` | include/bit_hash.hpp:223-236 | `hash(bh)` is the sum of all tap and entry terms, reduced mod 2^64. |
| `BitHashes.HashSetEntry` | include/bit_hash.hpp:219-236 | Changing one lut entry shifts the hash by exactly the difference of that entry's two terms, mod 2^64. |
| `BitHashes.SetEntry` | include/bit_hash.hpp:17-20 | Writing one lut entry keeps the shape and every other table, and changes only that entry. |
| `BitHashes.GroupHashes` | include/bit_hash.hpp:174-193 | Row i holds the hashes of the `variants_count` variants of key group i. |
| `BitHashes.GroupHashesAt` | include/bit_hash.hpp:174-193 | Row i, entry o is the hash of variant o of group i. |
| `BitHashes.RestHashTo` | include/bit_hash.hpp:185-192 | The inner loop reports whether every variant after the first hashes to h. |
| `BitHashes.IsSolution` | include/bit_hash.hpp:170-195 | `is_solution` holds exactly when the first variants of all groups hash pairwise apart and every other variant hashes like its group's first. |
| `BitHashes.SolvesSeparates` | include/bit_hash.hpp:170-195 | In a solution, no variant of one group shares a hash with a variant of another group. |
| `BitHashes.SeparatedApart` | include/bit_hash.hpp:170-195 | Hashes from different rows of a separated table of hashes differ. |
| `BitHashes.Selectors` | include/bit_hash.hpp:288-292 | The selector lists of a hash, as a shuffle. |
| `BitHashes.MakeBitHash` | include/bit_hash.hpp:280-295 | A well-formed hash with the given widths. Its selectors are what `makeRandomShuffle` promises, and every lut entry is -1. |
| `BitHashes.MakeBitHashConcrete` | include/bit_hash.hpp:297-307 | Like `MakeBitHash`, but every lut entry is 0 or 1. |
| `BitHashes.ConcreteDecided` | include/bit_hash.hpp:148-160 | With every entry decided, every key the evaluation reaches is decided. |
| `BitHashText.ParseBitHashSteps` | include/bit_hash.hpp:238-278 | The parse loop computes `parse_bit_hash` on the words of the input. |
| `BitHashText.ReadTablesSteps` | include/bit_hash.hpp:252-274 | The table loop reads `wO` tables, each checked for its index. |
| `BitHashText.ReadTableSteps` | include/bit_hash.hpp:253-273 | One pass of the table loop. |
| `BitHashText.ReadSelectors` | include/bit_hash.hpp:260-267 | `wa` unsigned reads fill the selectors. |
| `BitHashText.FillLut` | include/bit_hash.hpp:261-273 | The lut has 2^wa entries, entry j being `bv[j]`, with 0 past the vector's end. |
| `BitHashText.LutOfTrimmed` | include/bit_hash.hpp:268-273 | Entries read back from the printed, trimmed lut restore the whole lut, because reads past the end give 0. |
| `BitHashText.ParsePrint` | include/bit_hash.hpp:124-132 | `parse_bit_hash` of what `print` writes gives back the well-formed hash, whatever follows it. |
| `BitHashText.ReadTableWords` | include/bit_hash.hpp:34-47 | A printed table reads back as itself. |
| `BitHashText.ParseRejectsHeader` | include/bit_hash.hpp:240-251 | Input that does not open with `BitHashBegin` is refused with the expect message. |
| `BitHashText.ParseRejectsIndex` | include/bit_hash.hpp:256-258 | A table carrying the wrong index is refused with "Persisted bit hash is corrupt.". |
| `BitHashText.ParseRejectsTableWord` | include/bit_hash.hpp:256 | A table whose header word is not `table` is refused. |
| `BucketCounts.BucketsUpdate` | include/bit_hash_anneal.hpp:114-125 | When one key's hash moves from a to b, bucket a loses exactly that key and bucket b gains it. No other bucket changes. |
| `BucketCounts.HistogramUnique` | include/bit_hash_anneal.hpp:83-96 | The trimmed histogram of bucket sizes is determined by the buckets. |
| `BucketCounts.HistogramTop` | include/bit_hash_anneal.hpp:117-119 | The top index of a trimmed histogram is the size of some bucket, so trimming at that index never drops a live count. |
| `BucketCounts.HistogramOfZeros` | include/bit_hash_anneal.hpp:83-96 | For n empty buckets the histogram is `[n]`. |
| `BucketCounts.Leave` | include/bit_hash_anneal.hpp:114-119 | `hashes[h]--` plus the three `counts` updates keep `counts` the trimmed histogram of `hashes`. |
| `BucketCounts.Enter` | include/bit_hash_anneal.hpp:123-128 | `++hashes[h]` plus the three `counts` updates keep `counts` the trimmed histogram of `hashes`. |
| `BucketCounts.Tally` | include/bit_hash_anneal.hpp:83-96 | The constructor's pass over `hashes` leaves `counts` as their trimmed histogram. |
| `BucketCounts.HistogramScore` | include/bit_hash_anneal.hpp:136-144 | `eval`'s sum over the histogram of `counts[i] * (i - 1)` is the number of keys beyond the first in each bucket. |
| `BucketCounts.ExcessSumZero` | include/bit_hash_anneal.hpp:156-164 | The total excess is zero exactly when no bucket holds more than one key. |
| `BucketCounts.BucketsAtMostOne` | include/bit_hash_anneal.hpp:146-164 | Every bucket holds at most one key exactly when the hashes are pairwise distinct. |
| `BucketCounts.NoExcessIffDistinct` | include/bit_hash_anneal.hpp:146-164 | The excess over all buckets is zero exactly when no two hashes are equal. |
| `Anneal.BitIndexInjective` | include/bit_hash_anneal.hpp:46-61 | The constructor numbers lut entries table by table. Distinct entries get distinct numbers. |
| `Anneal.BitIndexOnto` | include/bit_hash_anneal.hpp:46-61 | Every number below the entry count names some entry. |
| `Anneal.BitIndexBound` | include/bit_hash_anneal.hpp:46-61 | Every entry's number is below the entry count. |
| `Anneal.EntryOfAddress` | include/bit_hash_anneal.hpp:71 | For a concrete key, the lut entry it uses is `address(key)`, which is below the lut size. |
| `Anneal.KeyHashEval` | include/bit_hash_anneal.hpp:77 | The hash that is recorded for each key is exactly `bh(key)`, and it is below 2^wO. |
| `Anneal.ScoreZeroIffPerfect` | include/bit_hash_anneal.hpp:136-164 | The score is zero exactly when the hash sends no two keys to the same value. |
| `Anneal.ScoreDefinition` | include/bit_hash_anneal.hpp:146-164 | The score is the number of keys beyond the first in each bucket. |
| `Anneal.FlipTwice` | include/bit_hash_anneal.hpp:108 | Flipping the same entry twice restores the hash. |
| `Anneal.FlipKeepsShape` | include/bit_hash_anneal.hpp:108 | A flip keeps the shape and the concreteness of the hash. |
| `Anneal.FlipKeyHash` | include/bit_hash_anneal.hpp:110-121 | A flip of entry (t, l) toggles hash bit t of exactly the keys whose address in table t is l. |
| `Anneal.FlipHashes` | include/bit_hash_anneal.hpp:110-121 | After a flip, the keys on the entry's list have hash bit t toggled, and all other keys keep their hashes. |
| `Anneal.KeysAtMembers` | include/bit_hash_anneal.hpp:63-79 | An entry's key list holds exactly the keys addressing it, each once, ascending. |
| `Anneal.ConsistentUnique` | include/bit_hash_anneal.hpp:36-39 | The evaluator's state is determined by the hash and the keys. |
| `Anneal.LayOut` | include/bit_hash_anneal.hpp:46-61 | There is one record per lut entry, numbered in table order, each with mask `1<<ti` and no keys. The map sends each (table, offset) pair to its number. |
| `Anneal.AttachKey` | include/bit_hash_anneal.hpp:68-74 | For every table, the key joins the list of the entry it addresses. |
| `Anneal.AddKey` | include/bit_hash_anneal.hpp:65-79 | One key-loop round attaches the key, records its hash and counts it in its bucket. |
| `Anneal.IndexKeys` | include/bit_hash_anneal.hpp:65-79 | After the key loop, `keys` holds every key's hash and `hashes` holds the bucket sizes. |
| `Anneal.MoveKeys` | include/bit_hash_anneal.hpp:110-130 | Each listed key leaves its bucket, gets its hash bit toggled and enters the new bucket. The histogram stays correct. |
| `Anneal.EntryToKey.constructor` | include/bit_hash_anneal.hpp:41-98 | Records the hash and the keys, with every internal table consistent with them. |
| `Anneal.EntryToKey.Sync` | include/bit_hash_anneal.hpp:41-98 | Rebuilds the evaluator's state for the hash it currently holds. |
| `Anneal.EntryToKey.BitCount` | include/bit_hash_anneal.hpp:100-101 | One bit per lut entry of the hash. |
| `Anneal.EntryToKey.FlipBit` | include/bit_hash_anneal.hpp:103-133 | Entry i of the hash is toggled, its key list is unchanged, and each key on it has hash bit t toggled. The evaluator stays consistent with the new hash. |
| `Anneal.EntryToKey.Eval` | include/bit_hash_anneal.hpp:136-144 | The incremental score equals the from-scratch score of the current hash. |
| `Anneal.EvalFull` | include/bit_hash_anneal.hpp:146-164 | The from-scratch count of keys beyond the first per bucket. |
| `Anneal.EvalSolution` | include/bit_hash_anneal.hpp:179-220 | `evalSolution` returns `evalFull`'s score. |
| `Anneal.FlipBitTwice` | include/bit_hash_anneal.hpp:103-133 | Two flips of the same bit restore the whole evaluator state. |
| `Anneal.Probe` | include/bit_hash_anneal.hpp:300-309 | Flip, keep the flipped hash only if it beats the best score, then flip back. |
| `Anneal.SlowProbe` | include/bit_hash_anneal.hpp:266-283 | The same probe on a copy and on the evaluator. The copy's and the evaluator's scores agree, which is the source's assert. |
| `Anneal.GreedyOneBitTable` | include/bit_hash_anneal.hpp:265-284 | After one table's lut, every flip numbered so far has been tried, and the best so far is the hash or one of those flips. |
| `Anneal.GreedyOneBit` | include/bit_hash_anneal.hpp:254-288 | The result scores at most the input and at most every single-entry flip, and it is the input or one such flip. |
| `Anneal.GreedyOneBitFast` | include/bit_hash_anneal.hpp:290-313 | The result scores at most the input and at most every single-entry flip, and it is the input or one such flip. |
| `Anneal.OneFlipsCovered` | include/bit_hash_anneal.hpp:299-310 | Having tried every bit number means the best beats every single flip. |
| `Anneal.TwoBitInner` | include/bit_hash_anneal.hpp:355-368 | With bit i flipped, every pair (i, j) with j below `bitCount()-1` is tried, and bit i is restored. |
| `Anneal.GreedyTwoBitFast` | include/bit_hash_anneal.hpp:346-372 | The result scores at most the input and at most every two-entry flip whose second entry is not the last bit. It is the input or such a flip. |
| `Anneal.TwoFlipsCovered` | include/bit_hash_anneal.hpp:354-369 | Having tried every pair of bit numbers below the bound means the best beats each of those double flips. |
| `Anneal.NearTwo` | include/bit_hash_anneal.hpp:361-364 | A kept result is the input or a double flip of two distinct entries. |
| `Anneal.ThreeBitInner` | include/bit_hash_anneal.hpp:423-437 | With bit i flipped, every triple (i, j, k) is tried, and bit j is restored. |
| `Anneal.GreedyThreeBitFast` | include/bit_hash_anneal.hpp:413-443 | The result scores at most the input and at most every flip of three distinct entries, and it is the input or such a flip. |
| `Anneal.ThreeFlipsCovered` | include/bit_hash_anneal.hpp:421-440 | Having tried every triple means the best beats every triple flip. |
| `Anneal.NearThree` | include/bit_hash_anneal.hpp:430-433 | A kept result is the input or a flip of three distinct entries. |
| `Anneal.FourBitLast` | include/bit_hash_anneal.hpp:458-472 | With bits i and j flipped, every quadruple (i, j, k, m) is tried, and bit k is restored. |
| `Anneal.FourBitInner` | include/bit_hash_anneal.hpp:458-473 | With bits i and j flipped, every k and m after them are tried. |
| `Anneal.FourBitMiddle` | include/bit_hash_anneal.hpp:455-476 | With bit i flipped, every j, k and m after it are tried, and bit i is restored. |
| `Anneal.GreedyFourBitFast` | include/bit_hash_anneal.hpp:446-480 | The result scores at most the input and at most every flip of four distinct entries, and it is the input or such a flip. |
| `Anneal.FourFlipsCovered` | include/bit_hash_anneal.hpp:454-477 | Having tried every quadruple means the best beats every quadruple flip. |
| `Anneal.NearFour` | include/bit_hash_anneal.hpp:465-468 | A kept result is the input or a flip of four distinct entries. |
| `Relink.SortMovesCorrect` | include/bit_hash_relink.hpp:42 | The `std::sort` of the moves gives them in ascending order and keeps exactly the moves it was given. |
| `Relink.InsertSorted` | include/bit_hash_relink.hpp:42 | Inserting into a sorted list keeps it sorted and adds just that move. |
| `Relink.SortedEnds` | include/bit_hash_relink.hpp:44-45 | In a sorted list, the front holds the least score and the back the greatest. |
| `Relink.KeepWithinMembers` | include/bit_hash_relink.hpp:63-67 | A move survives the cut exactly when it was present and its score is not above the cut. |
| `Relink.Prune` | include/bit_hash_relink.hpp:62-67 | The erase loop keeps the front move and, of the rest, exactly those within the cut, in order. |
| `Relink.RotationCovers` | include/bit_hash_relink.hpp:31-33 | Starting the scan at any offset still reaches every bit number. |
| `Relink.ProbeScore` | include/bit_hash_relink.hpp:34-39 | Flip, score and flip back: the evaluator is unchanged and the score is that of the flipped hash. |
| `Relink.ScanStep` | include/bit_hash_relink.hpp:32-40 | One scan step appends the move of bit `(i+offset) % bitCount()`. |
| `Relink.ScanMoves` | include/bit_hash_relink.hpp:28-40 | Move i is the flip of bit `(i+offset) % bitCount()` with its score, and the evaluator is unchanged. |
| `Relink.ScanComplete` | include/bit_hash_relink.hpp:31-40 | Every bit's move is in the scan, and every move carries its true score. |
| `Relink.RankedMoves` | include/bit_hash_relink.hpp:42-45 | After the sort, `eMin` is the least and `eMax` the greatest score of the scan. |
| `Relink.RankMoves` | include/bit_hash_relink.hpp:28-45 | The sorted moves of the current hash, whose front is its best single-bit move. |
| `Relink.FlipCoins` | include/bit_hash_relink.hpp:17-20 | Bit i is flipped when draw i is odd, and the evaluator stays consistent. |
| `Relink.Survivors` | include/bit_hash_relink.hpp:62-67 | At least one move always survives. |
| `Relink.RandomStep` | include/bit_hash_relink.hpp:62-76 | The move taken is the front move or one within the cut, chosen by the draw. The hash is flipped there, and its score is that move's. |
| `Relink.GreedyRound` | include/bit_hash_relink.hpp:28-78 | The best hash only improves. An improvement resets the stall counter. Otherwise the counter rises by one, and the loop stops once it passes 1000. |
| `Relink.RandomisedGreedy` | include/bit_hash_relink.hpp:12-83 | The hash left in the evaluator is no worse than the one after the opening coin flips, and it keeps the shape. |
| `Relink.DifferenceIndices` | include/bit_hash_relink.hpp:93 | The bits where the hash differs from `dst`, ascending. |
| `Relink.FlipShortens` | include/bit_hash_relink.hpp:104-130 | Flipping a differing bit takes exactly that bit off the path, so the walk gets one step shorter. |
| `Relink.PathEnd` | include/bit_hash_relink.hpp:96-97 | With no differing bits left, the walk has arrived at `dst`. |
| `Relink.PathProbe` | include/bit_hash_relink.hpp:105-123 | One probe keeps the ties for the best flip so far and never loses the best hash met. |
| `Relink.ScanPath` | include/bit_hash_relink.hpp:99-124 | `eBest` is the least next-step score. `flipBest` holds exactly the differing bits that reach it. The best total never gets worse. |
| `Relink.RelinkPath` | include/bit_hash_relink.hpp:85-135 | The walk ends, and the evaluator is left with a hash no worse than both the start and `dst`. |
| `Cnf.ClauseTrueSplit` | include/bit_hash_cnf.hpp:42-52 | A clause holds exactly when its first literal holds or the rest of it does. |
| `Cnf.ClauseSolved` | include/bit_hash_cnf.hpp:40-55 | The literal scan reports that the clause is true under the solution. It throws from `at` only if some variable of the clause has no value, and never when all of them do. |
| `Cnf.IsSolution` | include/bit_hash_cnf.hpp:38-58 | `is_solution` holds exactly when every clause is true. It throws only when the solution misses a variable of some clause. |
| `Cnf.Substitute` | include/bit_hash_cnf.hpp:60-72 | The shape and the selectors are kept. An entry whose variable has a value takes it, and every other entry is unchanged. The call throws exactly when a mapped position that has a value lies outside the tables. |
| `Cnf.Index` | include/bit_hash_cnf.hpp:153-158 | `get_idx` returns the position's number. It adds the position with the next number when it is new, and keeps each number distinct from 1 up. |
| `Cnf.AddrDefinition` | include/bit_hash_cnf.hpp:172 | The address `calcHash` uses is the table's address of the concrete key. |
| `Cnf.CalcHash` | include/bit_hash_cnf.hpp:168-186 | Each code is 0 for a decided 0, -1 for a decided 1, and the position's number for a -1 entry. Positions that are new get fresh numbers in output-bit order. |
| `Cnf.HashStep` | include/bit_hash_cnf.hpp:171-184 | One output bit of `calcHash` extends the codes and the numbering consistently. |
| `Cnf.HashedNew` | include/bit_hash_cnf.hpp:179-180 | An entry read for the first time gets the next number. |
| `Cnf.HashedSeen` | include/bit_hash_cnf.hpp:179-180 | An entry already numbered keeps its number. |
| `Cnf.HashedDecided` | include/bit_hash_cnf.hpp:175-178 | A decided entry gives a constant code and no new position. |
| `Cnf.CodeFrame` | include/bit_hash_cnf.hpp:168-186 | A code depends on the numbering only at the position it reads. |
| `CnfEncoding.LitCode` | include/bit_hash_cnf.hpp:164-167 | A variable code taken as a literal holds exactly when the code is true. Its negation holds exactly when the code is false. |
| `CnfEncoding.EachOrMeaning` | include/bit_hash_cnf.hpp:264-271 | Appending a literal to every clause of the accumulator gives the CNF of "acc or that literal". |
| `CnfEncoding.AgreeMeaning` | include/bit_hash_cnf.hpp:201-210 | With the constants folded, one output bit's equality clauses hold exactly when the two codes have the same truth. |
| `CnfEncoding.AgreeBitsMeaning` | include/bit_hash_cnf.hpp:201-210 | The equality clauses of a variant hold exactly when every bit of its codes has the truth of the group's first variant. |
| `CnfEncoding.AgreeBitsAsWrittenDecidedZero` | include/bit_hash_cnf.hpp:203-210 | As written, two codes that are both a decided 0 give the clause `[0, 0]` twice. That clause is false under every assignment, and `is_solution` throws on it. |
| `CnfEncoding.AgreeBitsAsWrittenUnknown` | include/bit_hash_cnf.hpp:203-210 | Where every code is a variable, the clauses as written and the corrected clauses coincide. |
| `CnfEncoding.GroupAgreeAsWrittenUnknown` | include/bit_hash_cnf.hpp:196-212 | For a group whose variants read only undecided entries, the equality clauses as written and the corrected ones coincide. |
| `CnfEncoding.VariantPartAsWrittenUnknown` | include/bit_hash_cnf.hpp:190-213 | Where every group with more than one variant reads only undecided entries, all the equality clauses as written coincide with the corrected ones. A group of one variant has none in either encoding. |
| `CnfEncoding.ToCnfAsWrittenCoincides` | include/bit_hash_cnf.hpp:146-306 | When every key is concrete, or reads only undecided entries, the clauses `to_cnf` writes are exactly the corrected clauses. |
| `CnfEncoding.AgreeLoop` | include/bit_hash_cnf.hpp:202-210 | The equality loop for one variant yields the corrected equality clauses. |
| `CnfEncoding.DoubledMeaning` | include/bit_hash_cnf.hpp:273-292 | Doubling the accumulator with (x \| y) and (-x \| -y) gives the CNF of "acc or x differs from y". |
| `CnfEncoding.PairFromMeaning` | include/bit_hash_cnf.hpp:231-294 | From bit k on, the accumulator's clauses hold exactly when the accumulator holds or the two hashes differ at some bit from k. |
| `CnfEncoding.PairClausesMeaning` | include/bit_hash_cnf.hpp:218-299 | The clauses for a pair of keys hold exactly when their hashes differ in some bit. |
| `CnfEncoding.PairClausesCount` | include/bit_hash_cnf.hpp:235-292 | A pair known apart at some bit gets no clause. Otherwise it gets 2^n clauses, n being the number of bits undecided on both sides. |
| `CnfEncoding.PairClausesKnownEqual` | include/bit_hash_cnf.hpp:235-246 | Two fully decided, equal hashes give the single empty clause, which no assignment satisfies. |
| `CnfEncoding.AppendToEach` | include/bit_hash_cnf.hpp:264-271 | `c.push_back(t)` over the accumulator is "acc or t". |
| `CnfEncoding.DoubleAcc` | include/bit_hash_cnf.hpp:280-292 | The in-place doubling loop builds exactly the doubled accumulator. |
| `CnfEncoding.PairLoop` | include/bit_hash_cnf.hpp:220-298 | The bit loop for one pair of keys yields that pair's clauses. |
| `CnfEncoding.KeyCodes` | include/bit_hash_cnf.hpp:192-214 | There is one code vector per variant of each key, each of width wO. |
| `CnfEncoding.UnboundStep` | include/bit_hash_cnf.hpp:179-180 | Only undecided entries are ever numbered. |
| `CnfEncoding.GroupStep` | include/bit_hash_cnf.hpp:199-213 | Each further variant adds its codes and its equality clauses against the first variant. |
| `CnfEncoding.GroupEnd` | include/bit_hash_cnf.hpp:192-214 | The last variant closes the group, and `hashes` gains the first variant's codes. |
| `CnfEncoding.KeysEnd` | include/bit_hash_cnf.hpp:192-214 | After the key loop, `hashes` holds each group's first codes, and the clauses are the variant equality clauses. |
| `CnfEncoding.KeyHash` | include/bit_hash_cnf.hpp:168-186 | `calcHash` is the code vector of the key under the extended numbering, which numbers only undecided entries. |
| `CnfEncoding.PairsLoop` | include/bit_hash_cnf.hpp:216-300 | The pair loops yield the pair clauses of every key against every later key. |
| `CnfEncoding.ToCnf` | include/bit_hash_cnf.hpp:146-306 | `to_cnf` numbers, from 1 up, every undecided entry that some variant reads, and numbers nothing but undecided entries. Its clauses are the corrected variant equality clauses followed by the pair clauses. When every key is concrete, they are exactly the clauses `to_cnf` writes. |
| `CnfMeaning.SameTruthIff` | include/bit_hash_cnf.hpp:226-227 | Two code vectors differ in truth exactly when they differ at some bit. |
| `CnfMeaning.SubstituteWellFormed` | include/bit_hash_cnf.hpp:60-72 | Substituting a Boolean assignment for undecided entries succeeds and keeps the hash well-formed. |
| `CnfMeaning.SubstitutedEval` | include/bit_hash_cnf.hpp:160-167 | After substitution, a key's hash is the number whose bits are the truths of its codes. |
| `CnfMeaning.SubstitutedSame` | include/bit_hash_cnf.hpp:160-167 | After substitution, two keys hash alike exactly when their codes have the same truths. |
| `CnfMeaning.GroupAgreeMeaning` | include/bit_hash_cnf.hpp:138-139 | A group's equality clauses hold exactly when every variant's codes have the truths of its first variant. |
| `CnfMeaning.VariantPartMeaning` | include/bit_hash_cnf.hpp:192-214 | All the equality clauses hold exactly when each group's variants agree with its first. |
| `CnfMeaning.PairPartMeaning` | include/bit_hash_cnf.hpp:216-300 | All the pair clauses hold exactly when the first variants are pairwise apart in truth. |
| `CnfMeaning.FirstsApart` | include/bit_hash_cnf.hpp:218-219 | The pairs the loops visit (iK below `keys.size()-1`) are all pairs. |
| `CnfMeaning.ClausesMeaning` | include/bit_hash_cnf.hpp:146-306 | The clauses of the corrected encoding hold exactly when variants agree within groups and first variants are apart across groups. |
| `CnfMeaning.SeparatedIff` | include/bit_hash.hpp:170-195 | The substituted hash separates the groups exactly when their codes' truths do. |
| `CnfMeaning.SubstitutedHashes` | include/bit_hash_cnf.hpp:60-72 | After substitution, every variant is decided, and its hash is the value of its codes' truths. |
| `CnfMeaning.ToCnfMeaning` | include/bit_hash_cnf.hpp:128-142 | For a Boolean assignment, the substituted hash is well-formed. All clauses hold exactly when it is a solution in the sense of `BitHash::is_solution`, and in particular whenever `is_solution` on the CNF accepts the assignment. |
| `CnfHelpers.Not` | include/cnf_helpers.hpp:57-64 | `~lit` names the same variable with the opposite sign. |
| `CnfHelpers.ModelsAppend` | include/cnf_helpers.hpp:50-52 | The models of two clause lists together are the models of both. |
| `CnfHelpers.ModelsPrefix` | include/cnf_helpers.hpp:50-52 | Adding clauses only removes models. |
| `CnfHelpers.AndGateDefines` | include/cnf_helpers.hpp:48-52 | The three AND clauses hold exactly when c is a AND b. |
| `CnfHelpers.OrGateDefines` | include/cnf_helpers.hpp:77-81 | The three OR clauses hold exactly when c is a OR b. |
| `CnfHelpers.Solver.constructor` | include/cnf_helpers.hpp:12 | A solver with no variables and no clauses. |
| `CnfHelpers.Solver.NewVar` | include/cnf_helpers.hpp:48 | `newVar` returns the next variable number and adds no clause. |
| `CnfHelpers.Solver.AddClauses` | include/cnf_helpers.hpp:50-52 | `addClause` appends the clauses and adds no variable. |
| `CnfHelpers.And` | include/cnf_helpers.hpp:37-55 | False with a false operand, the other operand when one is true, and otherwise a fresh variable with the AND clauses. In every model the result is the conjunction. |
| `CnfHelpers.Negate` | include/cnf_helpers.hpp:57-64 | In every model the result is the negation. |
| `CnfHelpers.Or` | include/cnf_helpers.hpp:66-84 | True with a true operand, the other operand when one is false, and otherwise a fresh variable with the OR clauses. In every model the result is the disjunction. |
| `CnfHelpers.RequireTrue` | include/cnf_helpers.hpp:86-95 | Throws "Constraint cannot be satisfied." exactly for the false constant, and adds the literal as a unit clause. Every later model makes the expression true. |
| `CnfHelpers.RequireFalse` | include/cnf_helpers.hpp:97-106 | The mirror image: it throws exactly for the true constant, and every later model makes the expression false. |
| `CnfHelpers.CompareTop` | include/cnf_helpers.hpp:122-125 | `x <= val` on the low i+1 bits: for a 1 in val, either `x[i]` is 0 or the lower bits compare. For a 0, `x[i]` is 0 and the lower bits compare. |
| `CnfHelpers.MakeLessThanOrEqual` | include/cnf_helpers.hpp:109-130 | Throws "Bits must be concrete." exactly when some bit of val up to i is a don't care. Otherwise, in every model the result is true exactly when the number x's low i+1 bits spell is at most val's. |
| `CnfHelpers.RequireLessThanOrEqual` | include/cnf_helpers.hpp:132-136 | Throws exactly on a don't care in `val`. Otherwise every later model spells, in `x`, a number at most `val`. |
| `Polish.SortByCount` | include/bit_hash_polish.hpp:46-48 | The ranking keeps exactly the given entries and orders them by descending count. |
| `Polish.SortByCountDistinct` | include/bit_hash_polish.hpp:44-48 | Ranking a listing whose names are distinct keeps them distinct. |
| `Polish.KeyHashes` | include/bit_hash_polish.hpp:29-33 | `bh(kv.first)` for every key, in order. It throws exactly when some key meets a don't care at a selected bit. |
| `Polish.BucketFull` | include/bit_hash_polish.hpp:27-33 | A bucket holds two keys exactly when two keys have its hash, and holds one exactly when some key does. |
| `Polish.BucketClash` | include/bit_hash_polish.hpp:36-37 | A key's own bucket is over-full exactly when the key clashes with another. |
| `Polish.ClashCountsAt` | include/bit_hash_polish.hpp:35-42 | A key is counted exactly when its bucket is over-full, and then its count is 1. |
| `Polish.ListedMembers` | include/bit_hash_polish.hpp:44 | The listing of the map holds each counted key once, with its count. |
| `Polish.ClashingKeysMeaning` | include/bit_hash_polish.hpp:25-51 | `find_clashing_keys` throws exactly when some key meets a don't care. Otherwise it ranks by descending count exactly the keys that share a hash with another key, each once with count 1. |
| `Polish.Addresses` | include/bit_hash_polish.hpp:58-64 | Row i holds each table's address of key i, in table order. |
| `Polish.HitsAt` | include/bit_hash_polish.hpp:58-64 | `hits[(ti, li)]` is the sum of the counts of the keys whose address in table ti is li. Only such entries appear. |
| `Polish.ListingSound` | include/bit_hash_polish.hpp:66 | The listing holds only entries of `hits` inside the tables, each with its count. |
| `Polish.ListingComplete` | include/bit_hash_polish.hpp:66 | The listing holds every entry of `hits` inside the tables, with its count. |
| `Polish.ClashingEntriesErr` | include/bit_hash_polish.hpp:58-64 | `find_clashing_entries` throws exactly when some table cannot address some listed key. |
| `Polish.ClashingEntriesRanked` | include/bit_hash_polish.hpp:66-69 | The ranking names each entry once and is ordered by descending count. |
| `Polish.ClashingEntriesEntry` | include/bit_hash_polish.hpp:54-72 | Each ranked entry is read by some listed key and carries the sum of the counts of the keys that read it. |
| `Polish.ClashingEntriesHas` | include/bit_hash_polish.hpp:54-72 | Every entry some listed key reads is ranked, with that sum. |
| `Polish.ClashingEntriesMeaning` | include/bit_hash_polish.hpp:54-72 | The whole contract of `find_clashing_entries`: the error case, descending order, distinct names, soundness and completeness. |
| `Polish.ClashingEntriesInRange` | include/bit_hash_polish.hpp:54-72 | For a well-formed hash, the ranked entries are lut entries of its tables. |
| `Polish.KeyTouchesEachTable` | include/bit_hash_polish.hpp:58-63 | Every listed key reads exactly one in-range entry of each table. |
| `Polish.RelaxesTransitive` | include/bit_hash_polish.hpp:11-22 | Relaxing, that is turning entries into don't cares, composes. |
| `Polish.RelaxesWellFormed` | include/bit_hash_polish.hpp:117-137 | A relaxed copy of a well-formed hash is well-formed. |
| `Polish.EntryCountAtLeast` | include/bit_hash_polish.hpp:82-85 | A well-formed hash has at least as many lut entries as tables. |
| `Polish.CountEntries` | include/bit_hash_polish.hpp:82-85 | `nEntries` is the total lut size. |
| `Polish.UnbindFirstAt` | include/bit_hash_polish.hpp:119-125 | After unbinding the first n ranked entries, each of them is -1 and every other entry is unchanged. |
| `Polish.UnbindFirstRelaxes` | include/bit_hash_polish.hpp:119-125 | Unbinding ranked entries only relaxes the hash. |
| `Polish.UnbindClashes` | include/bit_hash_polish.hpp:115-125 | The clash loop unbinds a prefix of the ranking. It stops at the first count reaching `todo`, or at the ranking's end, and unbinds at least one entry when there is one. |
| `Polish.RandomLutMeaning` | include/bit_hash_polish.hpp:129-136 | Within a lut, an entry changes only to -1, only under a draw below `extra`, and only at or after the start. The pass stops early only once the count reaches `todo`. |
| `Polish.RandomLutPass` | include/bit_hash_polish.hpp:129-136 | The inner loop of the random pass computes the lut-level pass. |
| `Polish.RandomTablesRelaxes` | include/bit_hash_polish.hpp:128-137 | The random pass only relaxes the hash, and it takes at least one draw per table. |
| `Polish.RandomTablesDraws` | include/bit_hash_polish.hpp:128-137 | Every entry the random pass changes belongs to a table it visits and took a draw below `extra`. |
| `Polish.RandomUnbind` | include/bit_hash_polish.hpp:128-137 | The loop over the tables computes the random pass, starting each table afresh. |
| `Polish.ClashesStayUnbound` | include/bit_hash_polish.hpp:119-137 | The clash entries unbound first are still don't cares after the random pass. |
| `Polish.Budget` | include/bit_hash_polish.hpp:109 | `todo` is never negative for a non-negative share. |
| `Polish.AnsweredMeaning` | include/bit_hash_polish.hpp:139-148 | An answered attempt keeps the shape. Under a Boolean model, the result decides every variant and is a solution exactly when the model satisfies every clause of the corrected encoding. |
| `Polish.Attempt` | include/bit_hash_polish.hpp:109-149 | An attempt that the solver answers relaxes the hash, unbinds the first clash entries, encodes the relaxed hash with the corrected clauses and substitutes the model. When every key is concrete, those clauses are exactly the ones `to_cnf` writes. An unanswered attempt leaves the hash alone. |
| `Polish.Attempts` | include/bit_hash_polish.hpp:107-152 | A share from 0.01 below 1, growing by half each round, until the solver answers. Otherwise the hash unchanged. |
| `Polish.BitHashPolish` | include/bit_hash_polish.hpp:74-155 | A solution comes back unchanged. A key that meets a don't care throws. An answered attempt is the substitution of the solver's model into a relaxed copy encoded by the corrected `to_cnf`. Otherwise the hash comes back unchanged. |
| `History.XorCancels` | include/bit_hash_history.hpp:27-47 | XORing with the same word twice gives back the original. |
| `History.XorBound` | include/bit_hash_history.hpp:42-47 | The XOR of two n-bit words is an n-bit word. |
| `History.XorCommutes` | include/bit_hash_history.hpp:42-47 | XOR commutes. |
| `History.XorAssociates` | include/bit_hash_history.hpp:42-47 | XOR associates. |
| `History.Offset` | include/bit_hash_history.hpp:44-45 | The 32-bit Gray code of `1+bit*Skip`, with its low bit forced on, is odd and below 2^32. |
| `History.BitSignature.constructor` | include/bit_hash_history.hpp:22-25 | A new signature is 0. |
| `History.BitSignature.HashWithFlip` | include/bit_hash_history.hpp:42-47 | `m_a ^ (off*A)` in 64-bit arithmetic, which is below 2^64. |
| `History.BitSignature.Flip` | include/bit_hash_history.hpp:27-30 | After `flip` the signature is what `hash_with_flip` predicted. |
| `History.FlipInvolution` | include/bit_hash_history.hpp:27-47 | Flipping a bit twice restores the signature. |
| `History.FlipsCommute` | include/bit_hash_history.hpp:27-47 | Two flips give the same signature in either order. |
| `History.WalkPull` | include/bit_hash_history.hpp:27-47 | A flip anywhere along a sequence of flips can be moved to the front. |
| `History.WalkOrderFree` | include/bit_hash_history.hpp:8-47 | The signature depends on which bits were flipped, with their multiplicity, and not on the order. |
| `History.BitSignatureTable.constructor` | include/bit_hash_history.hpp:84-87 | A new signature is 0. |
| `History.BitSignatureTable.HashWithFlip` | include/bit_hash_history.hpp:104-107 | `m_a ^ lut(bit)` in 32-bit arithmetic. |
| `History.BitSignatureTable.Flip` | include/bit_hash_history.hpp:89-92 | After `flip` the signature is what `hash_with_flip` predicted. |
| `History.SumHash` | include/bit_hash_history.hpp:146-150 | The sum of the component hashes, wrapped to 32 bits. |
| `History.FlipWords` | include/bit_hash_history.hpp:135-150 | Each component word XORed with its own table's word for the bit, each still 32-bit. |
| `History.BitSigMulti.constructor` | include/bit_hash_history.hpp:126-131 | All components start at 0. |
| `History.BitSigMulti.PartsWithFlip` | include/bit_hash_history.hpp:149-150 | Every component's word with the bit flipped. |
| `History.BitSigMulti.Flip` | include/bit_hash_history.hpp:135-139 | `flip` flips every component. The summed hash becomes what `hash_with_flip` predicted. |
| `History.LexLessIrreflexive` | include/bit_hash_history.hpp:152-159 | No signature is below itself. |
| `History.LexLessAsymmetric` | include/bit_hash_history.hpp:155-159 | The component order is never true both ways round. |
| `History.ShiftLeft32` | include/bit_hash_history.hpp:179 | `h << k` on a 32-bit word drops the bits shifted past bit 31. |
| `History.Slot` | include/bit_hash_history.hpp:179 | `((h<<shift)^h)>>shift` leaves `32 - shift` bits, so it is below the table size. |
| `History.Slots` | include/bit_hash_history.hpp:171-181 | The slot of every component, in component order. |
| `History.Occupied` | include/bit_hash_history.hpp:258-262 | The number of occupied counters is at most the table size. |
| `History.AddSlots` | include/bit_hash_history.hpp:195-209 | Every counter rises by the number of components that land on it. |
| `History.RemoveSlots` | include/bit_hash_history.hpp:211-225 | Every counter falls by the number of components that land on it. |
| `History.BitSigMultiSet.constructor` | include/bit_hash_history.hpp:229-236 | `2^log2m` zero counters, a count of 0, and the shift `32 - log2m`. |
| `History.BitSigMultiSet.Contains` | include/bit_hash_history.hpp:171-181 | `contains` holds exactly when every component's slot is occupied. |
| `History.BitSigMultiSet.Add` | include/bit_hash_history.hpp:244-248 | `m_n` rises by one, mod 2^32, and each counter rises by the number of components landing on it. No counter may pass 255. |
| `History.BitSigMultiSet.Remove` | include/bit_hash_history.hpp:250-254 | `m_n` falls by one, mod 2^32, and each counter falls by the number of components landing on it. Each counter must hold at least the number of components landing on it. |
| `History.BitSigMultiSet.AddThenRemove` | include/bit_hash_history.hpp:244-254 | `remove(s)` right after `add(s)` restores every counter and the count. |
| `History.BitSigMultiSet.AddThenContains` | include/bit_hash_history.hpp:238-248 | After `add(s)`, `contains(s)` holds, so the filter has no false negatives. |
| `History.BitSigMultiSet.Load` | include/bit_hash_history.hpp:256-264 | The share of counters in use. |
| `Arith.XorBit` | include/bit_hash_anneal.hpp:121 | `key ^= info.mask` toggles bit t of the hash and keeps every other bit. |
| `Decimal.ParseNat` | include/bit_hash.hpp:252-265 | Reading an unsigned accepts exactly a non-empty run of decimal digits. |
| `Decimal.ParseNatToString` | include/bit_hash.hpp:124-132 | A printed unsigned reads back as itself. |

## Left out

- The drivers, file and stream I/O, verbose diagnostics and timing are not modelled. The solver orchestration (`solver_anneal.hpp`, `solver_grasp.hpp`, `solver_cnf.hpp`) is left out too: it schedules temperatures and CPU budgets in floating point.
- `minisat_solve` and `printStats` belong to the external SAT engine. They are the oracle parameter `sat`, which returns an assignment, with the empty map meaning that no model was found. The model assumes nothing about what the oracle returns.
- Random number generators become explicit draw streams or chosen values: `rand`, `uniform` and `udist` are functions from the draw number. The distribution itself is left out.
- `perturbHash` and `BitHash::table::bind_random` are left out, because they are driven by floating-point uniform draws. So are `weighted_shuffle.hpp` (entropy weights, `std::discrete_distribution`), the code generators `bit_hash_cpp.hpp` and `bit_hash_vhdl.hpp`, `solve_context.hpp` (thread-local context) and `family_hash.hpp`, which holds only design notes and an unfinished class.
- The random key generators of `key_value_set.hpp` (lines 99-171) are rng-driven and need not terminate. `print` of a key/value set is modelled only for the empty indent.
- `greedyTwoBit` and `greedyThreeBit` (include/bit_hash_anneal.hpp:315-411), the slow variants that score every candidate from scratch, are not modelled. `greedyThreeBit`'s innermost loop tests and advances `j` instead of `k` (line 387), so it does not search the triples its name promises. The fast variants, which the rest of the system uses, are modelled in full.
- Scores are typed `double` in the source but are always integer counts, and they are modelled as `nat`. `evalSolution` returns `evalFull`'s score. Its commented-out alternative metric is not part of the model.
- `double` arithmetic elsewhere (`alpha * (eMax - eMin)` in `randomised_greedy`, the share `extra` and its budget in `bit_hash_polish`, `load`) is exact `real` arithmetic. Rounding is not modelled.
- `randomised_greedy` and `relink_path` call `eval(groupSize)`, `sync()` and `getDifferenceIndices(dst)`, which are not in the `EntryToKey` shown. They are modelled as `eval()`, a rebuild from scratch, and the ascending list of bits whose entries differ from `dst`.
- `nEntries` in `bit_hash_polish` and the counters in the search loops are unbounded. Their 32-bit overflow is not modelled.
- The decimal branch of `parse_bit_vector` calls `strtoull` with base 0. That is an oracle parameter, and only the whole-string check and the range error are modelled.
- The hex branch of `parse_bit_vector` is modelled as written. Its loop reads only about a quarter of the digits (`BitVectors.HexReadsOnlyLowDigits`), and no corrected hex parser is part of this model.
- `bit_signature` is modelled for its default `uint64_t` type only. `str`, `dump`, the `std::hash` specialisations and `contains_with_flip`/`containsWithFlipL` are left out; the last two do not type-check as written (include/bit_hash_history.hpp:187-193,241-242). `bit_signature_table::lut` is a function parameter standing for the seeded `mt19937` table.
- `bit_sig_multi` nests a first signature and the rest. It is flattened to a sequence of component words, each with its own lut function. The lexicographic order is proved irreflexive and asymmetric, but not transitive.
- `std::sort` is not stable, and ties are left in an arbitrary order. The rankings in `Polish` and `Relink` are therefore specified by order and contents only, and the model fixes one tie order.
- `Anneal.EntryToKey.constructor` requires concrete keys and a hash whose every lut entry is 0 or 1. With a non-concrete key the source throws from `address`. A -1 entry would make `flipBit` write 2.
- `Anneal.GreedyTwoBitFast`, `Anneal.GreedyThreeBitFast` and `Anneal.GreedyFourBitFast` require at least 1, 2 or 3 lut bits in total. With fewer, the unsigned bounds `bitCount()-1`, `-2` and `-3` wrap, and the flips go out of range. `GreedyTwoBitFast` is proved only over the pairs it visits: its inner bound `bitCount()-1` skips every pair whose second bit is the last bit.
- `Relink.RandomisedGreedy` requires at least one lut bit unless the score is already 0, because `urng() % bitCount()` is undefined for zero bits. Its contract promises a score no worse than the one after the opening coin flips. That the result is the best hash seen is stated round by round in `Relink.GreedyRound`.
- `Relink.RelinkPath` requires `dst` to have the same shape and only 0/1 entries. A don't care in `dst` could never be reached by flips, and the walk would not end.
- `CnfHelpers.RequireLessThanOrEqual` requires a non-empty `x`. With an empty one, `makeLessThanOrEqual` starts at `i = -1` and calls itself again before it reads `x`, so the call never ends.
- `CnfMeaning.ToCnfMeaning`, the end-to-end theorem, is proved for `to_cnf` with the corrected variant clauses (see Findings). With the clauses as written, it holds whenever every code of the variant clauses is a variable (`CnfEncoding.AgreeBitsAsWrittenUnknown`), and `CnfEncoding.ToCnfAsWrittenCoincides` lifts that to whole key sets.
- `Decimal.ParseNat` accepts only tokens made entirely of digits. `operator>>` on an `unsigned` also takes a sign and stops at the first non-digit, leaving the rest in the stream; those inputs are rejected here. It also accepts a run of digits whose value is 2^32 or more. `operator>>` into an `unsigned` fails on such a value, and `parse_bit_hash` then throws at its next `expect`.
- `CnfEncoding.ToCnf` emits the corrected variant clauses (see Findings), not the unconditional `[h0, -hx]`, `[-h0, hx]` of `to_cnf` as written. It is proved equal to the clauses as written (`CnfEncoding.ToCnfClausesAsWritten`) only when every key is concrete, and `CnfEncoding.ToCnfAsWrittenCoincides` extends that to keys that read only undecided entries. Where a variant reads a decided entry, the clauses as written can hold `[0, 0]`, which no model satisfies.
- `CnfEncoding.ToCnf` requires at least one key. With none, the pair loop's bound `keys.size()-1` wraps, the inner loop never runs, and `iK` counts up without end (include/bit_hash_cnf.hpp:218).
- `CnfMeaning.ClausesMeaning` is proved for the corrected clauses of `CnfEncoding.ToCnfClauses`. For the clauses as written it holds under the conditions of `CnfEncoding.ToCnfAsWrittenCoincides`.
- `Polish.Attempt` encodes the relaxed hash with `CnfEncoding.ToCnf`, so it uses the corrected variant clauses. Its result is `bit_hash_polish`'s as written only where the two encodings coincide. Its contract states that they coincide when every key is concrete. With the clauses as written, a decided entry read by two variants of one key can give the clause `[0, 0]`, which no model satisfies.
- `Polish.AnsweredMeaning` speaks of the corrected encoding that `Polish.Attempt` builds, for the same reason.
- `Polish.BitHashPolish` inherits the corrected encoding from `Polish.Attempt`. It agrees with the source where the encodings coincide.
- `Polish.BitHashPolish` requires, as `BitHash::operator()` asserts, that every entry a key variant addresses is decided.

## Findings

| source | as written | input that shows it | evidently intended | confidence | as-written member | corrected member |
|---|---|---|---|---|---|---|
| include/shuffle.hpp:66-86 | `i1` starts at `a1.end()`, so the merge loop never runs and the metric is `\|a0\|`; `evaluateShuffle` (lines 106-115) inherits it | `a0 = a1 = [0]` gives 1; the shuffle `[[0],[0]]` scores 1 and `[[],[5]]` scores 0 | `i1 = a1.begin()`: the number of taps read by exactly one of the two addresses, 0 here | high, not executed | `Shuffles.MetricShuffleAddressAsWritten`, `Shuffles.MetricAsWrittenMisses`, `Shuffles.EvaluateShuffle`, `Shuffles.EvaluationAsWrittenMisses` | `Shuffles.MetricShuffleAddress`, `Shuffles.EvaluateShuffleCorrected`, `Shuffles.EvaluationZero` |
| include/bit_hash.hpp:25-32 | `table::operator<` returns true when the selectors differ, in either direction | selectors `[0]` and `[1]` with equal luts: each table is "less" than the other | compare the selectors lexicographically, then the luts | high, not executed | `BitHashes.TableLessAsWrittenBothWays` | `BitHashes.TableLessIrreflexive`, `BitHashes.TableLessTransitive`, `BitHashes.TableLessTotal`, `BitHashes.LessStrictTotalOrder` |
| include/bit_hash_cnf.hpp:175-179,203-210 | the variant clauses `(h0 \| -hx)` and `(-h0 \| hx)` are pushed even when a code is a constant, 0 for false or -1 for true | a group whose two variants both read a decided 0 entry gives the clause `[0, 0]` twice, which no assignment satisfies and on which `is_solution` throws | fold the constants: nothing for two equal constants, a unit clause for one constant and one variable | high, not executed | `CnfEncoding.AgreeBitsAsWritten`, `CnfEncoding.AgreeBitsAsWrittenDecidedZero`, `CnfEncoding.ToCnfClausesAsWritten` | `CnfEncoding.AgreeBitsMeaning`, `CnfEncoding.AgreeLoop`, `CnfEncoding.ToCnf`, `CnfMeaning.ToCnfMeaning` |
