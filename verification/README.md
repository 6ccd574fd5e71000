# Verified core of the storage engine

The storage engine compresses every column pack, keeps decompressed packs in a shared cache, and rewrites
query conditions before it evaluates them. This project models the parts of it whose correctness is least
evident from the code, and proves what they promise.

* **Numeric packs.** `RangeCoding`, `Uniform` and `RangeCoder` are the carryless 32-bit range coder; `KeyTable`,
  `FreqTable`, `TableCoding`, `Dictionary`, `PartDict` and `TopBitDict` the dictionaries on it; `MinFilter`,
  `GcdFilter`, `DiffFilter` and `UniformFilter` the other filters; `Pipeline` and `NumCompressor` the chain of
  seven. The main result is `NumCompressors.NumCompressor.RoundTrip`.
* **Bit strings.** `ArithCoding` and `ArithCoder` are the 16-bit arithmetic coder with underflow bits, `BitStream`
  the bit buffer that is cleared lazily, `BitstreamCompressor` header, differentiation and count tables. The main
  result is `BitstreamCompressors.RoundTrip`.
* **Cache.** `DataCache` holds a step system of any number of concurrent `GetObject` calls and the class whose
  methods are its steps. The main results are `CacheProtocol.SingleFlight`, `NoStrandedWaiter`,
  `CachedIffStored` and `AllCallsReturn`.
* **Conditions.** `Conditions` says what a condition selects, `ConditionEncoder`, `DecimalCodes` and
  `LookupConditions` how it is rewritten, `SetChecks` how an IN that is left in place is checked. The main
  results are `ConditionEncoding.EncodeKeeps` and `EncodeEvaluable`.
* **Text packs.** `NodeTables` and `WordGraphCoding` are the adaptive tables and counters of the word graph,
  `Permutation` and `TextEscapes` the joining of records, `IncAlloc` the allocator.

A coder's method that appends is specified by the symbols it adds to a ghost history; a decoder's by the symbols
it is still in step with (`InSync`). An exception or error code of the program is a `Fail` of `Outcome`. Choices that
the program makes by floating-point estimates are arbitrary here, so the results hold for all of them.

Where the code does not do what its documentation, or SQL, would have it do, the code is modelled and the exact
condition is proved:

* the rewrite of numeric conditions changes the rows selected in exactly six cases: an ordering comparison or a
  bound with a constant strictly between -1 and 0, at row 0; "greater than" a constant at or below the least 64-bit
  code, whose successor stands for null; NOT BETWEEN with a null first bound, which is answered before the branch
  meant for it; IN over values with fractions that fill the span of their truncations; a null under NOT IN or
  `<> ALL` over a subquery without rows, which becomes NOT NULL; IS NULL on a column of an empty table whose nulls
  come from an outer join (`ConditionEncoding.Exception`);
* an IN over a subquery that the rewrite leaves in place is checked by the row's code, which the subquery takes for a
  number of its own scale: this is the check of the value if and only if the scales are equal or the row is null or 0
  (`SetChecks.AgreesIff`, `SetChecks.FifteenTaken`);
* a symbol of count zero passes the arithmetic coder unnoticed when its lower bound wraps to zero
  (`ArithCoders.ArithCoder.ScaleRange`, `ArithCoders.ZeroCountPasses`);
* a byte put into a bit stream is checked against the end by its first bit only (`BitStreams.BitStream.PutByte`,
  `BitStreams.ByteRunsOver`);
* the allocator's first block is not enlarged for its first fragment, which fits it if and only if it is no larger
  than the size set for it (`IncAllocs.FirstFitsIff`, `IncAllocs.LargestFirst`); the word graph, the only user, keeps
  the default size (`src/storage/brighthouse/compress/IncWGraph.cpp`, line 27), which is enough for any fragment;
* the GCD filter restores the bound only if the divisor divides it (`GcdFilter.BoundRecoveredIff`); the data come
  back all the same.

To verify the project, run `dafny verify dfyconfig.toml`.

## Model

| member | source | states |
|---|---|---|
| `RangeCoding.NormTurn` | src/storage/brighthouse/compress/RangeCoder.h:64-71 | In 32-bit words, the carryless branch neither empties nor enlarges the interval, and a turn of the loop keeps the invariant that low + range stays within 2^32, touching it only above a nonzero top byte |
| `RangeCoding.NormEmitsAtMostThree` | src/storage/brighthouse/compress/RangeCoder.h:69-70 | Normalising any interval a symbol can leave shifts out at most three bytes, at most two, one or none as the interval is wider |
| `RangeCoding.NarrowKeepsInv` | src/storage/brighthouse/compress/RangeCoder.h:67-68 | A symbol's part of the interval is never empty, never reaches beyond it, and the products do not wrap |
| `RangeCoding.XorBelowTop` | src/storage/brighthouse/compress/RangeCoder.h:69 | The exclusive or is below 2^24 if and only if the top bytes agree |
| `RangeCoding.AfterThenEmit` | src/storage/brighthouse/compress/RangeCoder.h:64-71 | At every point of every run, what has been written followed by what is still to be written is the same string |
| `RangeCoding.EmitStaysInside` | src/storage/brighthouse/compress/RangeCoder.h:84-91 | For every state and every sequence of symbols, the first four bytes of the code lie in the interval of the first symbol |
| `RangeCoding.CountFindsSymbol` | src/storage/brighthouse/compress/RangeCoder.h:73-82 | The count computed from the code falls into the range of the symbol that was coded |
| `RangeCoding.WindowFindsSymbol` | src/storage/brighthouse/compress/RangeCoder.h:77-80 | The same in the decoder's wrapping arithmetic, so that the corruption test never fires on a sound stream |
| `RangeCoders.RangeCoder.InitCompress` | src/storage/brighthouse/compress/RangeCoder.h:56 | The coder starts with the full interval and nothing written |
| `RangeCoders.RangeCoder.EndCompress` | src/storage/brighthouse/compress/RangeCoder.h:57 | Succeeds if and only if the code of all symbols fits, and then the buffer from its start holds exactly that |
| `RangeCoders.RangeCoder.InitDecompress` | src/storage/brighthouse/compress/RangeCoder.h:58-60 | Fails exactly for fewer than four bytes; on the code of some symbols the decoder is in step with them |
| `RangeCoders.RangeCoder.Encode` | src/storage/brighthouse/compress/RangeCoder.h:64-71 | Appends the symbol to the history that the buffer codes, or fails because the bytes of that history no longer fit |
| `RangeCoders.RangeCoder.EncodeShift` | src/storage/brighthouse/compress/RangeCoder.h:93-100 | The same for a total that is a power of two |
| `RangeCoders.RangeCoder.WroteIffFits` | src/storage/brighthouse/compress/RangeCoder.h:48 | A coding call passes if and only if the bytes of all its symbols fit |
| `RangeCoding.AfterPrefix` | src/storage/brighthouse/compress/RangeCoder.h:64-71 | More symbols never take fewer bytes |
| `RangeCoders.RangeCoder.GetCount` | src/storage/brighthouse/compress/RangeCoder.h:73-82 | In step with symbols to come, never fails and returns a count inside the next one; otherwise fails only as corrupt |
| `RangeCoders.RangeCoder.Decode` | src/storage/brighthouse/compress/RangeCoder.h:84-91 | Takes the decoder to the interval the encoder had, and stays in step with the remaining symbols |
| `RangeCoders.RangeCoder.NothingLeft` | src/storage/brighthouse/compress/RangeCoder.h:58-60 | When no symbol is left, exactly the bytes written have been read |
| `RangeCoders.RangeCoder.EncodeUniform` | src/storage/brighthouse/compress/RangeCoder.h:122-141 | A number below a bound of at most the given number of bits becomes its groups of 16 bits, or a first part of them no longer fits |
| `RangeCoders.RangeCoder.DecodeUniform` | src/storage/brighthouse/compress/RangeCoder.h:148-173 | Returns the number whose groups lie ahead, for any number of bits the bound does not exceed |
| `RangeCoders.RangeCoder.EncodeBelow` | src/storage/brighthouse/compress/RangeCoder.h:143-146 | The same with the exact number of bits of the bound |
| `RangeCoders.RangeCoder.DecodeBelow` | src/storage/brighthouse/compress/RangeCoder.h:175-178 | The same with the exact number of bits of the bound |
| `Uniform.WithinExactly` | src/storage/brighthouse/compress/RangeCoder.h:122-146 | With the exact number of bits there are no more groups than the bound needs |
| `RangeCoders.RangeCoder.EncodeUniShift` | src/storage/brighthouse/compress/RangeCoder.h:181-188 | A number of a given width becomes its groups of 16 bits, or a first part of them no longer fits |
| `RangeCoders.RangeCoder.DecodeUniShift` | src/storage/brighthouse/compress/RangeCoder.h:190-202 | Returns the number whose groups lie ahead |
| `Uniform.ShiftIsUniform` | src/storage/brighthouse/compress/RangeCoder.h:181-188 | Coding by shift writes the very symbols of coding below the all-ones bound |
| `Uniform.UniInjective` | src/storage/brighthouse/compress/RangeCoder.h:122-141 | Different numbers have different codes |
| `Uniform.UniSymsAt` | src/storage/brighthouse/compress/RangeCoder.h:122-141 | Symbol k is the k-th group of 16 bits, with equal chances for all that the bound leaves it |
| `Uniform.UniSymsMany` | src/storage/brighthouse/compress/RangeCoder.h:122-141 | There are as many symbols as the bound has groups |
| `Arith.GetBitLen` | src/storage/brighthouse/compress/tools.h:51-54 | The loop counts the significant bits |
| `KeyTables.KeyTable.Find` | src/storage/brighthouse/compress/PartDict.h:151-163 | Finds a key's index, or tells that the key was never inserted, by walking its chain |
| `KeyTables.KeyTable.Insert` | src/storage/brighthouse/compress/Dictionary.h:86-102 | The counts are the multiplicities of what was inserted; a key is refused only when it is new and the table is full |
| `FreqTable.Table.OwnerIsUnique` | src/storage/brighthouse/compress/Dictionary.cpp:88-94 | No count belongs to two keys |
| `FreqTable.Table.OwnerExists` | src/storage/brighthouse/compress/Dictionary.cpp:88-94 | Every count below the sum belongs to some key |
| `FreqTable.Table.CountFits` | src/storage/brighthouse/compress/Dictionary.cpp:115-121 | Because counts descend, every saved count fits the bound under which it is saved, which is below all the counts before it |
| `FreqTable.MapsFindsOwner` | src/storage/brighthouse/compress/Dictionary.cpp:135-143 | The loaded map from counts to keys gives the owner of each count |
| `TableCoding.SortByCount` | src/storage/brighthouse/compress/Dictionary.cpp:99-105 | The order lists each key once, by descending count |
| `TableCoding.SaveEntries` | src/storage/brighthouse/compress/Dictionary.cpp:114-121 | Keys and counts are written as the symbols of the table |
| `TableCoding.LoadEntries` | src/storage/brighthouse/compress/Dictionary.cpp:131-143 | The same keys, counts, lows and map from counts to keys come back |
| `Dictionaries.WidenAddsRest` | src/storage/brighthouse/compress/Dictionary.cpp:88-94 | Widening adds exactly the missing rest to the sum |
| `Dictionaries.WidenDescends` | src/storage/brighthouse/compress/Dictionary.cpp:88-94 | Widening shrinks no count and keeps descending counts descending |
| `Dictionaries.WidenEvenly` | src/storage/brighthouse/compress/Dictionary.cpp:88-94 | Every one of n counts grows by the n-th part of the rest or one more |
| `Dictionaries.SpreadRest` | src/storage/brighthouse/compress/Dictionary.cpp:88-94 | The loop from the rarest key up widens the counts and hands out stretches that end exactly at zero |
| `Dictionaries.Dictionary.SetLows` | src/storage/brighthouse/compress/Dictionary.cpp:57-97 | The counts sum to the least power of two that holds the number of insertions, each is its key's multiplicity and an even share of the rest, every inserted key is in the table, and each key's low is its place in the partition |
| `Dictionaries.Dictionary.Save` | src/storage/brighthouse/compress/Dictionary.cpp:107-122 | Writes the number of keys and the table |
| `Dictionaries.Dictionary.Load` | src/storage/brighthouse/compress/Dictionary.cpp:124-150 | Rebuilds the same keys, lows, counts and shift |
| `Dictionaries.Dictionary.Encode` | src/storage/brighthouse/compress/Dictionary.h:104-117 | Codes the stretch of the key that is given |
| `Dictionaries.Dictionary.Decode` | src/storage/brighthouse/compress/Dictionary.h:119-127 | Returns the key that was coded |
| `MinFilter.FindMin` | src/storage/brighthouse/compress/BasicDataFilt.cpp:161-166 | The least record |
| `MinFilter.DataFiltMin.Encode` | src/storage/brighthouse/compress/BasicDataFilt.cpp:155-181 | Subtracts the least record from all, the bound included, and sends it; leaves everything as it was if and only if some record is 0 |
| `MinFilter.DataFiltMin.Decode` | src/storage/brighthouse/compress/BasicDataFilt.cpp:182-188 | On any stream, refuses a minimum of 0 and moves the bound; on what Encode wrote, recovers the least record and the bound of what follows |
| `MinFilter.DataFiltMin.Merge` | src/storage/brighthouse/compress/BasicDataFilt.cpp:189-197 | Restores the records, and the bound if it was given the right one |
| `GcdFilter.GCD` | src/storage/brighthouse/compress/tools.h:133-148 | Its divisors are exactly the common divisors of the two numbers |
| `GcdFilter.FindGcd` | src/storage/brighthouse/compress/BasicDataFilt.cpp:207-211 | The greatest common divisor of all records |
| `GcdFilter.GcdBounded` | src/storage/brighthouse/compress/BasicDataFilt.cpp:214-215 | A divisor above 1 never exceeds a bound on the records, so the parameter error does not occur |
| `GcdFilter.BoundRecoveredIff` | src/storage/brighthouse/compress/BasicDataFilt.cpp:234-242 | The bound comes back if and only if the divisor divides it |
| `GcdFilter.BoundCanBeLost` | src/storage/brighthouse/compress/BasicDataFilt.cpp:223-241 | An instance where the bound does not come back |
| `GcdFilter.DataFiltGcd.Encode` | src/storage/brighthouse/compress/BasicDataFilt.cpp:201-226 | Divides all records by their greatest common divisor and sends it; leaves everything as it was if the divisor is at most 1 |
| `GcdFilter.DataFiltGcd.Decode` | src/storage/brighthouse/compress/BasicDataFilt.cpp:227-233 | On any stream, refuses a divisor of at most 1 and divides the bound; on what Encode wrote, recovers the divisor |
| `GcdFilter.DataFiltGcd.Merge` | src/storage/brighthouse/compress/BasicDataFilt.cpp:234-242 | Restores the records in wrapping arithmetic |
| `DiffFilter.DeltaIsExact` | src/storage/brighthouse/compress/BasicDataFilt.cpp:315-354 | For every bound of the type, the largest included, a difference stays within the bound and gives the record back |
| `DiffFilter.DeltaIsDifference` | src/storage/brighthouse/compress/BasicDataFilt.cpp:315-329 | It is the difference modulo the bound plus one |
| `DiffFilter.DifferenceAll` | src/storage/brighthouse/compress/BasicDataFilt.cpp:315-327 | The loop replaces each record by its difference from the one before |
| `DiffFilter.IntegrateAll` | src/storage/brighthouse/compress/BasicDataFilt.cpp:339-354 | The loop undoes that in place |
| `DiffFilter.DataFiltDiff.Encode` | src/storage/brighthouse/compress/BasicDataFilt.cpp:300-329 | Differences the records, whatever the measurement says, or leaves everything as it was |
| `DiffFilter.DataFiltDiff.Decode` | src/storage/brighthouse/compress/BasicDataFilt.cpp:331-337 | On any stream, passes only version 0; the code of another version is refused as corrupt, that of version 0 accepted |
| `DiffFilter.DataFiltDiff.Merge` | src/storage/brighthouse/compress/BasicDataFilt.cpp:339-354 | Restores the records |
| `UniformFilter.DataFiltUniform.Encode` | src/storage/brighthouse/compress/BasicDataFilt.cpp:358-379 | Codes every remaining record and leaves none |
| `UniformFilter.DataFiltUniform.Decode` | src/storage/brighthouse/compress/BasicDataFilt.cpp:380-403 | On any stream, passes only version 0; the code of another version is refused as corrupt; on what Encode wrote, returns the records |
| `PartDicts.PickFrequent` | src/storage/brighthouse/compress/PartDict.cpp:100-102 | Exactly the values that occur at least four times are picked |
| `PartDicts.FrequentFits` | src/storage/brighthouse/compress/PartDict.cpp:80-172 | The picked values with their true counts make a valid table, and the escape has room if any record needs it |
| `PartDicts.ShiftLeast` | src/storage/brighthouse/compress/PartDict.cpp:166-171 | The total is the least power of two that holds the number of records |
| `PartDicts.PartDict.Create` | src/storage/brighthouse/compress/PartDict.cpp:80-172 | Counts are multiplicities; frequent ranges and the escape partition the total |
| `PartDicts.PartDict.GetRange` | src/storage/brighthouse/compress/PartDict.h:185-204 | The range of a value, or the escape's exactly when the value is not frequent |
| `PartDicts.PartDict.GetVal` | src/storage/brighthouse/compress/PartDict.h:206-221 | The value whose range holds the count, or the escape |
| `PartDicts.PartDict.Save` | src/storage/brighthouse/compress/PartDict.cpp:182-199 | Writes the frequent values, their counts and the total |
| `PartDicts.PartDict.Load` | src/storage/brighthouse/compress/PartDict.cpp:201-228 | Rebuilds the same dictionary |
| `PartDicts.EncodeAll` | src/storage/brighthouse/compress/PartDict.cpp:268-281 | Packs the escaped records to the front in place, overwriting none that is still to be read |
| `PartDicts.PartDict.Encode` | src/storage/brighthouse/compress/PartDict.cpp:252-284 | Writes the dictionary and the codes and leaves the escaped records, whatever the prediction says, or changes nothing |
| `PartDicts.PartDict.Decode` | src/storage/brighthouse/compress/PartDict.cpp:286-312 | Recovers which records were escaped and the values of the others |
| `PartDicts.Unpack` | src/storage/brighthouse/compress/PartDict.cpp:314-324 | Merging from the back in place restores all records |
| `PartDicts.PartDict.Merge` | src/storage/brighthouse/compress/PartDict.cpp:314-324 | Restores the records and their number |
| `TopBitDicts.SplitIsExact` | src/storage/brighthouse/compress/TopBitDict.cpp:266-360 | For every width, the full one included, the two parts of a record stay within their bounds and determine it |
| `TopBitDicts.SplitReachesBounds` | src/storage/brighthouse/compress/TopBitDict.cpp:266-317 | The bounds of the two parts are reached |
| `TopBitDicts.CountKeys` | src/storage/brighthouse/compress/TopBitDict.cpp:121-136 | With no record skipped, the counts are the multiplicities of the keys of all records |
| `TopBitDicts.FindOptimum` | src/storage/brighthouse/compress/TopBitDict.cpp:44-119 | However it samples, breaks off and swaps dictionaries, a returned dictionary counts the key of every record |
| `TopBitDicts.TopBitDict.Encode` | src/storage/brighthouse/compress/TopBitDict.cpp:266-317 | Every key is found, under counts that are multiplicities with an even share of the rest; the other bits are left, or everything as it was |
| `TopBitDicts.TopBitDict.Decode` | src/storage/brighthouse/compress/TopBitDict.cpp:319-346 | Recovers the keys and the bound of what follows |
| `TopBitDicts.TopBitDict.Merge` | src/storage/brighthouse/compress/TopBitDict.cpp:348-360 | Restores records and bound |
| `CopyCoding.CopyOut` | src/storage/brighthouse/compress/NumCompressor.h:255-263 | The bytes of the records in memory order |
| `CopyCoding.LeBytesAt` | src/storage/brighthouse/compress/NumCompressor.h:260 | Byte j of a record is its j-th from the least significant |
| `CopyCoding.CopyIn` | src/storage/brighthouse/compress/NumCompressor.h:265-271 | The records whose bytes these are |
| `Pipeline.BitOfId` | src/storage/brighthouse/compress/NumCompressor.h:302-308 | Bit f of the identification is set if and only if filter f was applied |
| `Pipeline.ChainShrinks` | src/storage/brighthouse/compress/NumCompressor.h:302-308 | No filter adds records |
| `NumCompressors.NumCompressor.constructor` | src/storage/brighthouse/compress/NumCompressor.h:203-234 | Seven filters that share no memory |
| `NumCompressors.NumCompressor.EncodeStage` | src/storage/brighthouse/compress/NumCompressor.h:304-305 | Filter f, in the constructor's order, declines or applies with a decision that fits the data; it fails only when what that decision sends does not fit |
| `NumCompressors.NumCompressor.RunFilters` | src/storage/brighthouse/compress/NumCompressor.h:302-308 | A complete run of the filters, stopping when no record is left, and its identification |
| `NumCompressors.NumCompressor.RunDecode` | src/storage/brighthouse/compress/NumCompressor.h:346-350 | The decoding pass takes the same filters and stops at the same place, with nothing left to read |
| `NumCompressors.NumCompressor.RunMerge` | src/storage/brighthouse/compress/NumCompressor.h:353-357 | The merging pass undoes them in reverse |
| `NumCompressors.NumCompressor.CompressFiltered` | src/storage/brighthouse/compress/NumCompressor.h:285-316 | The code of a complete run, or a run whose symbols do not fit the buffer |
| `NumCompressors.NumCompressor.CopyCompress` | src/storage/brighthouse/compress/NumCompressor.h:255-263 | A copy, if and only if it fits |
| `NumCompressors.TooBigIff` | src/storage/brighthouse/compress/NumCompressor.h:319 | The size test in whole numbers |
| `NumCompressors.NumCompressor.CompressT` | src/storage/brighthouse/compress/NumCompressor.h:273-324 | Succeeds whenever a copy fits, and returns a pack of the data: the code of the filters' complete run, unless only copies are asked for, its symbols do not fit, or it takes 98 percent of the data or more, and then a copy exactly if it fits; the error cases |
| `NumCompressors.NumCompressor.DecompressT` | src/storage/brighthouse/compress/NumCompressor.h:326-363 | Gives back the data of any pack, whatever filters made it |
| `NumCompressors.NumCompressor.RoundTrip` | src/storage/brighthouse/compress/NumCompressor.h:273-363 | Decompression undoes compression for all data of up to 65536 records and every choice of the heuristics |
| `ArithCoding.NarrowKeepsWord` | src/storage/brighthouse/compress/ArithCoder.cpp:30-33 | With a total of at most 16383, a part with a positive count is never empty |
| `ArithCoding.PendingSettles` | src/storage/brighthouse/compress/ArithCoder.cpp:37-42 | A settled bit releases the pending ones |
| `ArithCoding.PendingPostpones` | src/storage/brighthouse/compress/ArithCoder.cpp:45-49 | Postponing a bit is having one more pending |
| `ArithCoding.EmitStaysInside` | src/storage/brighthouse/compress/ArithCoder.cpp:117-177 | For all symbols and across any run of underflow steps, the code followed by any bits at all lies in the interval of the first symbol |
| `ArithCoding.CountFindsPart` | src/storage/brighthouse/compress/ArithCoder.cpp:268-272 | The count computed from a code inside a symbol's interval falls in the symbol |
| `ArithCoders.ArithCoder.InitCompress` | src/storage/brighthouse/compress/ArithCoder.cpp:20-25 | Full interval, nothing pending |
| `ArithCoders.ArithCoder.Narrow` | src/storage/brighthouse/compress/ArithCoder.cpp:30-33 | The new bounds in 16-bit words; an empty part gives crossed bounds unless low wraps to zero |
| `ArithCoders.ArithCoder.Settle` | src/storage/brighthouse/compress/ArithCoder.cpp:38-42 | Sends the bit and all pending ones |
| `ArithCoders.ArithCoder.ScaleRange` | src/storage/brighthouse/compress/ArithCoder.cpp:28-56 | What is sent and still to be sent for any symbols to come stays the same; a symbol of count zero is refused if and only if its low does not wrap to zero |
| `ArithCoders.ZeroCountPasses` | src/storage/brighthouse/compress/ArithCoder.cpp:28-33 | An instance: a fresh coder passes part 0 to 0 of a total of 1 and is as fresh as before |
| `ArithCoders.ArithCoder.EndCompress` | src/storage/brighthouse/compress/ArithCoder.cpp:89-95 | The code is complete, if and only if it fits |
| `ArithCoders.ArithCoder.CompressBits` | src/storage/brighthouse/compress/ArithCoder.cpp:117-135 | Writes the code of every bit string whose bits have positive counts, if and only if it fits |
| `ArithCoders.ArithCoder.InitDecompress` | src/storage/brighthouse/compress/ArithCoder.cpp:137-150 | On any source, the padding is what is missing of 16 bits; on a code, the window holds its front |
| `ArithCoders.ArithCoder.GetCount` | src/storage/brighthouse/compress/ArithCoder.cpp:268-272 | Lands in the symbol that was sent |
| `ArithCoders.ArithCoder.RemoveSymbol` | src/storage/brighthouse/compress/ArithCoder.cpp:153-177 | Stays in step, never reports an overrun, and never pads more than the window holds |
| `ArithCoders.NextWindow` | src/storage/brighthouse/compress/ArithCoder.cpp:161-175 | The flip and the shift turn a postponed pair of bits into its first bit |
| `ArithCoders.ArithCoder.DecompressBits` | src/storage/brighthouse/compress/ArithCoder.cpp:239-266 | Returns every bit string whose code begins the source, whatever follows it |
| `BitStreams.BitStream.constructor` | src/storage/brighthouse/compress/DataStream.h:79-80 | A stream over a buffer that may hold anything |
| `BitStreams.BitStream.ZeroBits` | src/storage/brighthouse/compress/DataStream.cpp:19-38 | Exactly the bits from beg to end are cleared |
| `BitStreams.BitStream.ClearBits` | src/storage/brighthouse/compress/DataStream.cpp:40-48 | Fails exactly at the end; otherwise the bits ahead are clear and all others unchanged |
| `BitStreams.BitStream.PutBit` | src/storage/brighthouse/compress/DataStream.h:137-142 | Appends the bit to the abstract bit list whatever the buffer held, fails exactly at the end, and changes nothing from the end on |
| `BitStreams.BitStream.GetBit` | src/storage/brighthouse/compress/DataStream.h:129-135 | Takes the next bit, fails exactly at the end |
| `BitStreams.BitStream.PutByte` | src/storage/brighthouse/compress/DataStream.h:157-167 | Appends eight bits; only the first is checked against the end |
| `BitStreams.ByteRunsOver` | src/storage/brighthouse/compress/DataStream.h:157-167 | An instance: with one bit left before the end, a byte passes and ends seven bits past it |
| `BitStreams.BitStream.GetByte` | src/storage/brighthouse/compress/DataStream.h:169-180 | Takes eight bits, fails exactly when fewer are left |
| `BitStreams.BitStream.PutUInt` | src/storage/brighthouse/compress/DataStream.h:182-190 | Appends the bits of a number, lowest first |
| `BitStreams.BitStream.GetUInt` | src/storage/brighthouse/compress/DataStream.h:192-202 | The number whose bits these are |
| `BitStreams.NatBitsRoundTrip` | src/storage/brighthouse/compress/DataStream.h:182-202 | A number that fits comes back from its bits |
| `BitStreams.NatBitsAt` | src/storage/brighthouse/compress/DataStream.h:182-202 | Bit i of a number that is put is its i-th from the least significant |
| `BitstreamCompressors.SumTableFits` | src/storage/brighthouse/compress/BitstreamCompressor.cpp:30-50 | The reduced total fits and a count is positive exactly where the number is |
| `BitstreamCompressors.SumTableReduces` | src/storage/brighthouse/compress/BitstreamCompressor.cpp:39-45 | From any number of halvings that was not enough, the table is that of the least number that is |
| `BitstreamCompressors.GetSumTable` | src/storage/brighthouse/compress/BitstreamCompressor.cpp:30-50 | The loop ends with that table: both numbers halved the least number of times that makes the total fit, and positive ones kept at 1 at least |
| `BitstreamCompressors.SumsUndoDiffs` | src/storage/brighthouse/compress/BitstreamCompressor.cpp:52-73 | Summing undoes differencing |
| `BitstreamCompressors.DiffsAt` | src/storage/brighthouse/compress/BitstreamCompressor.cpp:52-62 | A difference tells whether a bit differs from the one before it |
| `BitstreamCompressors.OnesAre` | src/storage/brighthouse/compress/BitstreamCompressor.cpp:52-62 | The ones are counted |
| `BitstreamCompressors.Differ` | src/storage/brighthouse/compress/BitstreamCompressor.cpp:52-64 | Writes the differences and counts their ones; fails exactly when the destination is too short |
| `BitstreamCompressors.Integrt` | src/storage/brighthouse/compress/BitstreamCompressor.cpp:66-73 | Writes the sums; fails exactly when the destination is too short |
| `BitstreamCompressors.NumberLength` | src/storage/brighthouse/compress/BitstreamCompressor.cpp:131-140 | A number of ones of 16 bits takes 17 bits, a larger one 33 |
| `BitstreamCompressors.CountedIsCodable` | src/storage/brighthouse/compress/BitstreamCompressor.cpp:75-87 | If the number of ones says which bits occur, either form can be coded |
| `BitstreamCompressors.CompressData` | src/storage/brighthouse/compress/BitstreamCompressor.cpp:75-87 | The code under the table of the counts |
| `BitstreamCompressors.Compress` | src/storage/brighthouse/compress/BitstreamCompressor.cpp:89-152 | Header and code, if and only if they fit, for either choice of differentiation; the error cases |
| `BitstreamCompressors.DecompressData` | src/storage/brighthouse/compress/BitstreamCompressor.cpp:154-166 | The bits that were coded |
| `BitstreamCompressors.Decompress` | src/storage/brighthouse/compress/BitstreamCompressor.cpp:168-200 | The bits of either format and either choice, whatever follows; the version and overrun errors |
| `BitstreamCompressors.CompressBuffer` | src/storage/brighthouse/compress/BitstreamCompressor.cpp:227-235 | The same on byte buffers, with the bytes used |
| `BitstreamCompressors.DecompressBuffer` | src/storage/brighthouse/compress/BitstreamCompressor.cpp:237-243 | The same on byte buffers |
| `BitstreamCompressors.RoundTrip` | src/storage/brighthouse/compress/BitstreamCompressor.cpp:89-243 | Decompression undoes compression whenever the number of ones is the true one |
| `CacheProtocol.StepKeeps` | src/storage/brighthouse/core/DataCache.h:316-404 | Every step of every call keeps the protocol's invariant |
| `CacheProtocol.FetchedKeeps` | src/storage/brighthouse/core/DataCache.h:388-400 | The assertion before the insertion holds |
| `CacheProtocol.RunKeeps` | src/storage/brighthouse/core/DataCache.h:316-404 | So does every interleaving of steps |
| `CacheProtocol.SingleFlight` | src/storage/brighthouse/core/DataCache.h:316-404 | In every reachable state a coordinate has at most one fetcher, and one in flight is pending and not cached |
| `CacheProtocol.FailureLeavesNothing` | src/storage/brighthouse/core/DataCache.h:374-385 | A failed fetch leaves its coordinate neither pending nor cached nor fetched |
| `CacheProtocol.NoStrandedWaiter` | src/storage/brighthouse/core/DataCache.h:341-401 | In every reachable state the two counters tell the waiting calls and the pending fetches, and a parked call waits for a fetch under way or a broadcast owed |
| `CacheProtocol.CachedIffStored` | src/storage/brighthouse/core/DataCache.h:171-400 | After any run, an object is cached if and only if the last step on its coordinate that fetched, put or dropped one fetched or put this one |
| `CacheProtocol.CallsBegun` | src/storage/brighthouse/core/DataCache.h:316-401 | In every run, a call under way is about the coordinate it was last begun for |
| `CacheProtocol.NotStuck` | src/storage/brighthouse/core/DataCache.h:341-356 | While a call is under way, some call can go on |
| `CacheProtocol.GoingOnDescends` | src/storage/brighthouse/core/DataCache.h:341-401 | Each step of a call brings the calls closer to their end |
| `CacheProtocol.AllCallsReturn` | src/storage/brighthouse/core/DataCache.h:316-404 | From every reachable state, however the calls go on, they all return within a bounded number of steps |
| `DataCaches.DataCache.BeginGet` | src/storage/brighthouse/core/DataCache.h:325-372 | GetObject up to its wait, fetch or return is that step; the answer and the counters of hits, misses and waits tell which |
| `DataCaches.DataCache.ResumeGet` | src/storage/brighthouse/core/DataCache.h:349-372 | GetObject after a wait is that step |
| `DataCaches.DataCache.FetchFailure` | src/storage/brighthouse/core/DataCache.h:374-385 | The error path is that step: the call is gone, exactly the calls parked on its condition are awake, the cache is as it was |
| `DataCaches.DataCache.FetchSuccess` | src/storage/brighthouse/core/DataCache.h:388-400 | The insertion is that step: the object is cached under the coordinate of the call, and nothing else changes in the cache |
| `DataCaches.DataCache.BroadcastOwed` | src/storage/brighthouse/core/DataCache.h:401 | The broadcast is that step: exactly the calls parked on its condition are awake |
| `DataCaches.DataCache.DropObject` | src/storage/brighthouse/core/DataCache.h:192-212 | A drop is that step, takes out this coordinate only, and counts a release exactly if there was something |
| `DataCaches.DataCache.PutObject` | src/storage/brighthouse/core/DataCache.h:171-190 | A put on a coordinate that is not in flight is that step, replaces what was there, and counts the release |
| `DataCaches.DataCache.HasObject` | src/storage/brighthouse/core/DataCache.h:274-281 | Whether the coordinate is cached |
| `Conditions.ExtremesBound` | src/storage/brighthouse/core/Descriptor.cpp:1410-1446 | The least and greatest rows bound all rows and are among them |
| `Conditions.CheckedAsSql` | src/storage/brighthouse/core/Descriptor.cpp:1347-1451 | Rows are selected as SQL has it for ALL and ANY, for all sets and rows, nulls and empty sets included |
| `ConditionEncoding.WithNullsKeeps` | src/storage/brighthouse/core/ConditionEncoder.cpp:172-205 | Keeps the meaning if and only if it is not IS NULL on an empty table |
| `ConditionEncoding.ReshapeKeeps` | src/storage/brighthouse/core/ConditionEncoder.cpp:82-170 | Keeps the meaning if and only if it is not NOT BETWEEN with a null first bound and a row above the second |
| `ConditionEncoding.ToIntervalKeeps` | src/storage/brighthouse/core/ConditionEncoder.cpp:282-372 | A comparison keeps its meaning if and only if the constant is not strictly between -1 and 0 at row 0, nor at or below the least code under "greater than" |
| `ConditionEncoding.ToRangeKeeps` | src/storage/brighthouse/core/ConditionEncoder.cpp:305-315 | BETWEEN and NOT BETWEEN keep their meaning if and only if no bound strictly between -1 and 0 decides row 0 |
| `ConditionEncoding.PivotDecides` | src/storage/brighthouse/core/ConditionEncoder.cpp:244-251 | A comparison with all or any rows is one with the least or greatest row |
| `ConditionEncoding.InsKeeps` | src/storage/brighthouse/core/ConditionEncoder.cpp:587-658 | IN and NOT IN keep their meaning if and only if the row does not lie in a gap of a run that only looks unbroken, nor is a null under NOT IN over no rows |
| `ConditionEncoding.UnbrokenIffIntegers` | src/storage/brighthouse/core/ConditionEncoder.cpp:634-655 | Such a run has no gap, for any row, if and only if all its values are integers |
| `ConditionEncoding.EncodeKeeps` | src/storage/brighthouse/core/ConditionEncoder.cpp:42-58 | The whole rewrite selects the same rows except in exactly the six cases |
| `ConditionEncoding.EncodeEvaluable` | src/storage/brighthouse/core/RCAttr_exeq.cpp:37-82 | Every condition comes out as a range of 64-bit codes, a set, a null test or a constant; no comparison is left, no set that is empty, single or an unbroken run, and no null test that the column settles |
| `ConditionEncoding.RunsBecomeRanges` | src/storage/brighthouse/core/ConditionEncoder.cpp:634-655 | An unbroken run of fewer than 65536 integers becomes the range from its least to its greatest |
| `ConditionEncoding.FractionTaken` | src/storage/brighthouse/core/ConditionEncoder.cpp:293-303 | An instance: a <= -0.5 selects 0 |
| `ConditionEncoding.LeastCodeLosesAll` | src/storage/brighthouse/core/ConditionEncoder.cpp:332-336 | An instance: a > c selects nothing for the least code c |
| `ConditionEncoding.NullBoundLosesRows` | src/storage/brighthouse/core/ConditionEncoder.cpp:96-99 | An instance: a NOT BETWEEN NULL AND 5 does not select 7 |
| `ConditionEncoding.GapTaken` | src/storage/brighthouse/core/ConditionEncoder.cpp:634-655 | An instance: a IN (1.5, 2) selects 1 |
| `ConditionEncoding.NullOutOfNothingLost` | src/storage/brighthouse/core/ConditionEncoder.cpp:599-607 | An instance: a null is not selected by NOT IN or <> ALL over a subquery without rows |
| `ConditionEncoding.JoinedNullLost` | src/storage/brighthouse/core/ConditionEncoder.cpp:184-186 | An instance: a null from an outer join with an empty table is not selected by IS NULL |
| `ConditionEncoders.ConditionEncoder.TransformWithRespectToNulls` | src/storage/brighthouse/core/ConditionEncoder.cpp:172-205 | The update in place is the function proved about |
| `ConditionEncoders.ConditionEncoder.DescriptorTransformation` | src/storage/brighthouse/core/ConditionEncoder.cpp:82-170 | The update in place is the function proved about |
| `ConditionEncoders.ConditionEncoder.TransformINs` | src/storage/brighthouse/core/ConditionEncoder.cpp:587-658 | The update in place is the function proved about |
| `ConditionEncoders.ConditionEncoder.TransformOtherThanINsOnNumerics` | src/storage/brighthouse/core/ConditionEncoder.cpp:236-372 | The update in place is the function proved about |
| `ConditionEncoders.ConditionEncoder.DoEncode` | src/storage/brighthouse/core/ConditionEncoder.cpp:42-58 | For every row the column can have, the new condition selects it as the old one did, except in exactly the six cases; and it is in the form that packs are evaluated in |
| `DecimalCodes.EncodeDecimal` | src/storage/brighthouse/core/RCAttr.cpp:1436-1451 | The two loops compute the truncated, saturated code of the constant and whether a fraction was lost |
| `DecimalCodes.ConstantsAreDecimals` | src/storage/brighthouse/core/RCAttr.cpp:1414-1451 | Every 64-bit constant with a scale is a decimal as the rewrite supposes |
| `SetChecks.AgreesIff` | src/storage/brighthouse/core/Descriptor.cpp:1353-1373 | On encoded conditions, IN and NOT IN select a row as its value has it, for all subqueries, if and only if the scales are equal or the row is null or 0 |
| `SetChecks.FifteenTaken` | src/storage/brighthouse/vc/SubSelectColumn.cpp:265-278 | An instance: a IN (1.5, 2.5, 9) is left in place on an integer column and selects 15 |
| `LookupConditions.Collect` | src/storage/brighthouse/core/ConditionEncoder.cpp:512-562 | Of two sets capped at about half the dictionary, the smaller one is chosen and complete |
| `LookupConditions.CmpOrders` | src/storage/brighthouse/core/ConditionEncoder.cpp:518-528 | The sign of a comparison tells the order of strings by the first place where they part |
| `LookupConditions.OneWay` | src/storage/brighthouse/core/ConditionEncoder.cpp:518-528 | That order holds one way only, and neither way exactly for equal strings |
| `LookupConditions.MatchesSatisfies` | src/storage/brighthouse/core/ConditionEncoder.cpp:530-537 | The test on signs is the comparison read from the order of strings |
| `LookupConditions.SetOfCodesKeeps` | src/storage/brighthouse/core/ConditionEncoder.cpp:587-658 | Rewriting a set of codes further never changes which rows with a string are selected, and changes a null exactly under NOT IN over no codes |
| `LookupConditions.EncodeOnLookup` | src/storage/brighthouse/core/ConditionEncoder.cpp:482-563 | A comparison on a lookup column selects exactly the rows whose string satisfies it in the order of strings, and a set that is left has between two members and half the dictionary |
| `LookupConditions.EncodeInsOnLookup` | src/storage/brighthouse/core/ConditionEncoder.cpp:460-480 | IN and NOT IN over strings select exactly the rows whose string is listed or not; a null is lost exactly under NOT IN over nothing; a list that names no string of the dictionary becomes FALSE or NOT NULL |
| `NodeTables.RescaledKeeps` | src/storage/brighthouse/compress/IncWGraph.cpp:404-413 | Rescaling ends with a total that fits 16 bits, and keeps counts positive, descending and with their symbols |
| `NodeTables.RescaledLeast` | src/storage/brighthouse/compress/IncWGraph.cpp:404-413 | All counts are halved the least number of times, once at least, that makes the total fit, and kept at 1 at least |
| `NodeTables.Node.constructor` | src/storage/brighthouse/compress/IncWGraph.cpp:595-604 | A new node has only the escape |
| `NodeTables.Node.Nil` | src/storage/brighthouse/compress/IncWGraph.cpp:60-68 | The NIL node has every byte once and no escape |
| `NodeTables.NilKnowsAll` | src/storage/brighthouse/compress/IncWGraph.cpp:60-68 | At the NIL node every symbol is found and every count is an edge's, so that escapes end there |
| `NodeTables.Node.Insert` | src/storage/brighthouse/compress/IncWGraph.cpp:415-434 | A node put on an edge starts with that edge's count |
| `NodeTables.Node.Rescale` | src/storage/brighthouse/compress/IncWGraph.cpp:404-413 | The counts are those, the total is theirs and the escape's |
| `NodeTables.Node.AddEdge` | src/storage/brighthouse/compress/IncWGraph.cpp:493-508 | The new edge comes last; total, order and distinct symbols are kept without wrap-around |
| `NodeTables.Node.UpdateCount` | src/storage/brighthouse/compress/IncWGraph.cpp:521-542 | The edges are the same but for the one count, in descending order again, and the edge is where the result says |
| `NodeTables.Node.FindSymbol` | src/storage/brighthouse/compress/IncWGraph.cpp:446-465 | The first edge of the symbol and its low, or the escape's low; at the NIL node too |
| `NodeTables.Node.FindCount` | src/storage/brighthouse/compress/IncWGraph.cpp:466-483 | The owner of the count and its low; at the NIL node too |
| `NodeTables.OneOwner` | src/storage/brighthouse/compress/IncWGraph.cpp:446-483 | No count belongs to two edges, or to an edge and the escape |
| `NodeTables.SearchesInverse` | src/storage/brighthouse/compress/IncWGraph.cpp:446-483 | Searching by symbol and by count are inverses |
| `NodeTables.ChoiceValid` | src/storage/brighthouse/compress/IncWGraph.h:67-76 | What is sent for an edge or an escape is valid for the range coder |
| `WordGraphCoding.RepetitionCounters.EncodeFlag` | src/storage/brighthouse/compress/IncWGraph.cpp:91-104 | For up to 65536 records the choice at every call is valid, with shares of one more than the repeated and the other records so far |
| `WordGraphCoding.RepetitionCounters.DecodeFlag` | src/storage/brighthouse/compress/IncWGraph.cpp:128-146 | The decoder's counters follow, and the flag comes back |
| `WordGraphCoding.EncodeMatch` | src/storage/brighthouse/compress/IncWGraph.cpp:571-582 | Writes the symbols of a match length |
| `WordGraphCoding.MatchesShare` | src/storage/brighthouse/compress/IncWGraph.cpp:571-582 | Every count belongs to some match length |
| `WordGraphCoding.DecodeMatch` | src/storage/brighthouse/compress/IncWGraph.cpp:583-592 | Returns the match length that was written |
| `Permutation.NextRank` | src/storage/brighthouse/compress/TextCompressor.h:46 | A step goes to the next place, and from the last place to the first record |
| `Permutation.WalkIsPermutation` | src/storage/brighthouse/compress/TextCompressor.h:42-46 | The walk meets every record exactly once and returns to the first |
| `Permutation.OrderBegins` | src/storage/brighthouse/compress/TextCompressor.h:44-46 | An instance: the first records of 5000 |
| `Permutation.SameSum` | src/storage/brighthouse/compress/TextCompressor.cpp:253-298 | A sum over all records does not depend on the order |
| `TextEscapes.CountMemory` | src/storage/brighthouse/compress/TextCompressor.cpp:253-261 | The size of the joined text |
| `TextEscapes.EscapedSize` | src/storage/brighthouse/compress/TextCompressor.cpp:253-261 | Escaping adds a byte for each 1 and 2 and leaves no zero byte |
| `TextEscapes.TextAt` | src/storage/brighthouse/compress/TextCompressor.cpp:265-298 | Every record lies behind those whose place in the order comes before its own |
| `TextEscapes.EscapesAre` | src/storage/brighthouse/compress/TextCompressor.cpp:265-298 | An instance of each escape |
| `TextEscapes.JoinRecords` | src/storage/brighthouse/compress/TextCompressor.cpp:263-298 | The joined text exactly fills the memory counted, and the walk is back at the start |
| `TextEscapes.SplitRecords` | src/storage/brighthouse/compress/TextCompressor.cpp:336-362 | Each index entry points at its record's bytes; without room the call fails; on any input the bytes from dlen on stay as they were |
| `IncAllocs.FragmentsApart` | src/storage/brighthouse/compress/IncAlloc.h:73-100 | Live fragments overlap neither each other nor free ones, and none lies outside its block or past what is used |
| `IncAllocs.CutKeeps` | src/storage/brighthouse/compress/IncAlloc.h:85-89 | Cutting from the current block keeps that |
| `IncAllocs.SkipKeeps` | src/storage/brighthouse/compress/IncAlloc.cpp:57-61 | Leaving a block keeps that |
| `IncAllocs.FirstFitsIff` | src/storage/brighthouse/compress/IncAlloc.cpp:70-79 | The first fragment lies inside the first block if and only if it is no larger than the size set for it |
| `IncAllocs.LargestFirst` | src/storage/brighthouse/compress/IncAlloc.h:30-49 | An instance: the largest fragment fits a first block of the default size and not one of 100 bytes |
| `IncAllocs.ReuseKeeps` | src/storage/brighthouse/compress/IncAlloc.h:76-82 | Reusing a freed fragment keeps that |
| `IncAllocs.ReleaseKeeps` | src/storage/brighthouse/compress/IncAlloc.h:95-100 | Freeing a fragment keeps that |
| `IncAllocs.IncAlloc.constructor` | src/storage/brighthouse/compress/IncAlloc.cpp:23-29 | Nothing is live, for any first size |
| `IncAllocs.IncAlloc.Alloc` | src/storage/brighthouse/compress/IncAlloc.h:73-93 | One more live fragment: a freed one of that size if there is one, else a place in the first block with room, from the current one on, else in a new block of the size that is due |
| `IncAllocs.IncAlloc.AllocSearch` | src/storage/brighthouse/compress/IncAlloc.cpp:55-83 | The place is in the first block with room, from the current one on, or at the start of a new block, which has the size set for the first, or a fifth more than the last rounded up, and enough |
| `IncAllocs.IncAlloc.Free` | src/storage/brighthouse/compress/IncAlloc.h:95-100 | The fragment is no longer live and waits in the list of its size |
| `IncAllocs.IncAlloc.FreeAll` | src/storage/brighthouse/compress/IncAlloc.cpp:31-36 | Nothing is live, the blocks stay |
| `IncAllocs.IncAlloc.Clear` | src/storage/brighthouse/compress/IncAlloc.cpp:38-47 | Nothing is live, the blocks are gone |
| `IncAllocs.IncAlloc.GetMemUsg` | src/storage/brighthouse/compress/IncAlloc.cpp:85-94 | Memory used is that of live fragments and of the tails of filled blocks |

## Left out

- Floating-point estimates (entropies, predicted sizes) decide nothing here: the difference filter and the dictionaries may apply or not. The test against 98 percent of the data is exact, without rounding.
- NumCompressors.NumCompressor.DecompressT: says what comes out only for packs of some data, because on other input the dictionaries divide by zero or read unset memory; the range coder's own calls and the other filters are modelled on all streams.
- ArithCoders.ArithCoder.DecompressBits: asks for a source that begins with the code of some bits, for the same reason.
- BitstreamCompressors.Decompress: likewise behind a well-formed header; missing and unknown versions are modelled.
- ArithCoders.ArithCoder.GetCount: asks for a window in step, as does RemoveSymbol, for the same reason.
- ArithCoders.ArithCoder.RemoveSymbol: see GetCount.
- BitstreamCompressors.DecompressData: asks for a source that begins with the code of some bits.
- BitstreamCompressors.DecompressBuffer: asks for a buffer that holds a compressed bit string.
- Dictionaries.Dictionary.Load: asks for a saved dictionary ahead, since on other input the map from counts to keys is left unset in part.
- Dictionaries.Dictionary.Decode: asks for a coded key ahead, for the same reason.
- TableCoding.LoadEntries: asks for saved entries ahead.
- PartDicts.PartDict.Load: asks for a saved dictionary ahead.
- PartDicts.PartDict.Decode: asks for what Encode wrote.
- TopBitDicts.TopBitDict.Decode: asks for what Encode wrote.
- LookupConditions.EncodeOnLookup: asks for the second string of a range when the first is there; a null bound has been dealt with before.
- DataCaches.DataCache.PutObject: asks for a coordinate that is not in flight.
- BitStreams.BitStream.PutByte: asks that the buffer itself has room for the byte, since with fewer than eight bits before the end the program writes beyond it.
- BitStreams.BitStream.PutUInt: asks for the same of every byte it puts.
- BitstreamCompressors.Compress: asks, if the bits are differentiated, for five bytes of room or one spare byte behind the destination, for that reason, and for a source of at least the given number of bits.
- BitstreamCompressors.CompressBuffer: asks for the same room.
- BitstreamCompressors.RoundTrip: asks for five bytes if the bits are differentiated.
- ArithCoders.ArithCoder.CompressBits: says what is written only for bits with a positive count; ScaleRange says exactly when a count of zero is noticed.
- Dictionaries.Dictionary.Encode: asks for a key of the dictionary, as the program asserts; escapes are not implemented there.
- IncAllocs.IncAlloc.Alloc: asks that the first fragment fit the first block, since the program cuts beyond it otherwise; block sizes are unbounded numbers and the growth factor is the fraction 12/10; 32-bit overflow of sizes is not modelled.
- BitStreams.BitStream.ClearBits: positions are unbounded, so the 32-bit wrap-around of the clearing length is not modelled.
- KeyTables.KeyTable.Insert: the hash is any function of the key.
- TableCoding.SortByCount: stands for the library's sort, of whose order among equal counts nothing is assumed.
- Buffers of the range coder are byte sequences with a length, and bits joined by `|` are added where they share none.
- The branch of the partial dictionary for more than 65536 records and its limit on frequent values cannot be reached with packs of that size.
- Null pointers, allocation failures, statistics and dumps.
- The type cast of constants, LIKE patterns, collations, floating-point columns and constants, scalar subqueries as operands, lookup expressions, and the NULL flag kept for later simplification of a condition.
- Conditions.Check: gives an IN that is left in place the meaning of its values; where it is checked by code over a subquery of another scale, `SetChecks.CheckCode` applies instead.
- ConditionEncoding.Reshape: counts distinct rows as subqueries do; a list may count one more than asked for, which matters only under `<> ANY`, where lists do not occur.
- ConditionEncoding.Ins: takes the rows as a subquery gives them; a constant list on an integer column loses its values with fractions before it gets there.
- Locking order, object ownership, access tracking, a put or a move that races with a fetch of the same coordinate, and memory-manager eviction; a drop stands for all releases.
- NodeTables.Node.UpdateCount: asks for a node other than NIL, whose counts the program never changes; so do AddEdge and Rescale.
- The graph of the word graph (suffix links, duplication, canonisation), its symbol masks, and the coding of whole records; the suffix trees and prediction models of the older text format.
- The run-length and date-time filters, which are not in the pipeline, byte strings under the arithmetic coder, and uniform numbers under it.
