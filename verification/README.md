# heimdall-py core, modelled in Dafny

This project models the core of heimdall-py. heimdall-py decompiles EVM
bytecode into contract ABIs and is written in Rust in two crates.

- **The cache builder** (`crates/cache_builder`) reads contracts from Parquet
  files and drops repeated bytecodes. It sends each new bytecode to a pool of
  workers, and each worker does the following:
  - checks a content-addressed LMDB cache;
  - decompiles the bytecode under a deadline and, if asked, extracts the
    storage layout;
  - converts the result to the crate's own ABI record, with selector and name
    indices;
  - writes that record back to the cache, failures included;
  - records run statistics.
- **The Python binding** (`crates/python`) does three things:
  - builds the same kind of ABI record from a JSON ABI file;
  - looks functions up by name, by `0x` hex selector or by selector bytes;
  - runs the decompiler on a thread under a timeout.

The Dafny modules follow the source files:

| module | file | models |
|---|---|---|
| `Wrappers`, `Text`, `Bytes`, `Hex` | wrappers.dfy, text.dfy, bytes.dfy, hex.dfy | Option/Result, the `str` methods used, bytes and selectors, the `hex` crate |
| `Indexing` | indexing.dfy | the last-insert-wins `IndexMap` both crates build from a function list |
| `Alloy` | alloy.dfy | the decompiler's `alloy_json_abi` output, reduced to the fields that are read |
| `AbiTypes` | abi_types.dfy | crates/cache_builder/src/types.rs |
| `AbiCache` | cache.dfy | crates/cache_builder/src/cache.rs |
| `RunStats` | stats.dfy | crates/cache_builder/src/stats.rs |
| `Processor` | processor.dfy | crates/cache_builder/src/processor.rs |
| `ParquetReader` | parquet.dfy | `extract_contracts_from_batch` in crates/cache_builder/src/parquet_reader.rs |
| `PathOrder`, `StreamProcessor` | sorting.dfy, stream.dfy | crates/cache_builder/src/stream_processor.rs |
| `PyBinding` | binding.dfy | crates/python/src/lib.rs |

Side effects become explicit parameters and results.

- **Hashes.** BLAKE3 and Keccak-256 are parameters of type `string -> Digest`.
- **Observable outcomes.** These are datatype inputs:
  - an LMDB transaction: it opened, a `get` or `put` failed, or the commit
    failed;
  - the decompiler's result or error text;
  - the storage thread's message, and whether it arrived before the deadline,
    in the grace period, or never;
  - reading a file and parsing its JSON.
- **Cache state.** The cache is a `map` from key to stored value, plus its four
  counters.
- **The reader thread** is a fold over the per-file read results.
  - The cache can change while workers run, so its answer to `exists` is an
    oracle. The oracle is indexed by how many contracts were examined before
    the call.
  - The fold keeps a model-only trace of every contract examined and its
    verdict, so that dedup properties can be stated over it.

## Model

| member | source | states |
|---|---|---|
| `Hex.Encode` | crates/cache_builder/src/parquet_reader.rs:61-81 | `hex::encode` writes two lower-case hex digits per byte: high nibble first, then low nibble |
| `Hex.Decode` | crates/cache_builder/src/processor.rs:223-229 | `hex::decode` reads the UTF-8 bytes of its text. It succeeds exactly on even-length all-hex text, giving one byte per digit pair. An odd BYTE length is reported before any bad byte, and a bad byte is reported at the first byte position where it occurs |
| `Hex.DecodePairsSpec` | crates/cache_builder/src/processor.rs:224-228 | the pairwise decoder over bytes succeeds iff every byte is a hex digit. On failure it names the first non-hex byte and its position in the whole input |
| `Hex.DecodeBytes` | crates/cache_builder/src/processor.rs:224-228 | decoding bytes: an odd length is an `OddLength` error whatever the bytes. Otherwise success iff all bytes are hex digits, with each output byte the value of its pair; a failure names the first non-hex byte |
| `Hex.Utf8HexIsAsciiHex` | crates/cache_builder/src/processor.rs:224 | the UTF-8 bytes of a string are all hex digits iff its characters are, and then byte i is character i |
| `Hex.DecodeAscii` | crates/cache_builder/src/processor.rs:224-228 | on ASCII text, byte positions are character positions: an odd length is reported first, then the first non-hex character |
| `Hex.NonAsciiLengthCountsBytes` | crates/cache_builder/src/processor.rs:224 | the length test counts bytes: the two characters "é0" are three bytes, so they are an odd-length input |
| `Hex.EscapeDebug` | crates/cache_builder/src/processor.rs:226 | `{:?}` of the offending byte as a `char`: \0, \t, \n, \r, \\ and \' escaped, the unprintable Latin-1 characters written `\u{..}` in short lower-case hex, every other character as itself |
| `Hex.EscapeDebugExamples` | crates/cache_builder/src/processor.rs:226 | concrete renderings: a letter as itself, the UTF-8 lead byte 0xC3 as "Ã", DEL as `\u{7f}`, 0x01 as `\u{1}`, the quote and newline escaped |
| `Hex.DecodeEncode` | crates/cache_builder/src/parquet_reader.rs:95-108 | decoding the hex text of any bytes gives the bytes back |
| `Hex.EncodeHasNo0x` | crates/cache_builder/src/parquet_reader.rs:126-130 | hex-encoded text never starts with "0x", so the reader's prefixing always adds one |
| `Indexing.IndexBy` | crates/cache_builder/src/types.rs:104-114 | a key is in the index iff some entry has it, and it maps to the LAST position that has it. `None` keys (empty names) are never inserted |
| `Indexing.IndexByAppend` | crates/python/src/lib.rs:489-497 | inserting one more key at the end updates only that key, which then maps to the new position |
| `Bytes.SelectorOf` | crates/python/src/lib.rs:224-233 | a selector is the first four bytes of the Keccak-256 digest |
| `Text.StripPrefixOnce` | crates/cache_builder/src/cache.rs:64 | `strip_prefix(..).unwrap_or(..)` removes exactly one leading copy of the prefix, and leaves text without it unchanged |
| `Text.ContainsTail` | crates/cache_builder/src/processor.rs:66 | text that contains `a + b` contains `b` |
| `Text.NatToString` | crates/cache_builder/src/processor.rs:69 | `{}` formatting of an unsigned integer gives decimal digits whose value is the number, with no leading zero except for 0 itself |
| `Text.NatToStringInjective` | crates/cache_builder/src/processor.rs:69 | distinct numbers are formatted differently |
| `AbiTypes.NewAbi` | crates/cache_builder/src/types.rs:88-102 | `ABI::new()` has every list, option and index empty and no error text |
| `AbiTypes.SelectorIndex` | crates/cache_builder/src/processor.rs:190-198 | `by_selector` holds exactly the selectors of the functions. Each maps to the last function carrying it |
| `AbiTypes.NameIndex` | crates/cache_builder/src/processor.rs:190-198 | `by_name` holds exactly the non-empty names. Each maps to the last function carrying it, and "" is never a key |
| `AbiTypes.RebuildIndices` | crates/cache_builder/src/types.rs:104-114 | `rebuild_indices` recomputes both maps from `functions` alone, with last-position semantics, and changes no other field |
| `AbiTypes.RebuildIndicesIdempotent` | crates/cache_builder/src/types.rs:104-114 | rebuilding twice equals rebuilding once, and a rebuilt ABI has consistent indices |
| `AbiTypes.IndicesDetermined` | crates/cache_builder/src/types.rs:104-114 | two ABIs with consistent indices and the same function list have the same maps |
| `AbiTypes.MutabilityNameInjective` | crates/cache_builder/src/types.rs:117-124 | distinct state mutabilities get distinct names |
| `AbiTypes.ConvertParam` | crates/cache_builder/src/types.rs:126-138 | name and type are copied, and the internal type is mapped through `MapInternalType`: absent stays absent, present becomes its kind text |
| `AbiTypes.InternalTypeText` | crates/cache_builder/src/types.rs:130-136 | AddressPayable becomes "address payable", Contract "contract", Enum "enum", Struct "struct", and Other its type name |
| `AbiTypes.MapInternalType` | crates/cache_builder/src/types.rs:129-136 | an absent internal type stays absent, a present one becomes its kind text |
| `AbiTypes.KindTextsDistinct` | crates/cache_builder/src/types.rs:130-135 | the four non-`Other` kinds get four distinct texts |
| `AbiTypes.ConvertParamKeepsOnlyKind` | crates/cache_builder/src/types.rs:130-136 | parameters whose internal types differ only in alloy's display text are stored alike. A non-`Other` kind becomes one of the four kind words, and `Other` becomes exactly its type name |
| `AbiTypes.ConvertEventParam` | crates/cache_builder/src/types.rs:140-153 | like `convert_param`, and `indexed` is copied |
| `AbiTypes.ResolveSelector` | crates/cache_builder/src/types.rs:166-184 | a name `Unresolved_` + 8 hex digits carries its own selector. Every other name, including longer or non-hex suffixes, gets alloy's computed selector |
| `AbiTypes.ConvertFunction` | crates/cache_builder/src/types.rs:155-206 | `convert_function`: the signature is `name(types)` built from the converted inputs. Constant iff pure or view, payable iff payable, never both. The selector follows the rule above |
| `AbiCache.Open` | crates/cache_builder/src/cache.rs:19-28 | a new handle starts with all four counters at zero over the existing store |
| `AbiCache.Suffix` | crates/cache_builder/src/cache.rs:66-70 | the suffix is "_unresolved" (11 bytes) when resolving is skipped, "_resolved" (9 bytes) otherwise |
| `AbiCache.CacheKey` | crates/cache_builder/src/cache.rs:63-75 | the key is the 32-byte BLAKE3 digest of the bytecode without ONE leading "0x", then the mode suffix. It is 43 or 41 bytes long |
| `AbiCache.KeyIgnoresOnePrefix` | crates/cache_builder/src/cache.rs:64 | "0x"+s and s share a key whenever s does not itself start with "0x" |
| `AbiCache.ModesNeverCollide` | crates/cache_builder/src/cache.rs:66-74 | a resolved and an unresolved key never collide, for any hash |
| `AbiCache.SameModeKeysAgreeIffDigestsAgree` | crates/cache_builder/src/cache.rs:63-75 | within one mode, two keys are equal iff the digests of the stripped bytecodes are equal |
| `AbiCache.Exists` | crates/cache_builder/src/cache.rs:77-95 | `exists` is true iff the read transaction opens and the key is stored. It never changes the store. It counts exactly one of hit, miss, or error (when the transaction failed) |
| `AbiCache.Put` | crates/cache_builder/src/cache.rs:97-109 | `put` succeeds iff every step commits; then the key maps to the value and `writes` rises by one. Any failure leaves the cache unchanged, with a serialisation or a storage error |
| `AbiCache.PutThenExists` | crates/cache_builder/src/cache.rs:77-109 | after a committed put, `exists` finds the bytecode and the stored value is the one put |
| `AbiCache.LastWriteWins` | crates/cache_builder/src/cache.rs:97-109 | two committed puts of one bytecode and mode leave the second value, and count two writes |
| `AbiCache.PutBatch` | crates/cache_builder/src/cache.rs:112-124 | the store changes only when the whole batch commits. `writes` rises per item put, even when a later item or the commit fails |
| `AbiCache.PutBatchIsSequentialPuts` | crates/cache_builder/src/cache.rs:112-124 | a committed batch leaves the cache exactly as committed single puts of its items, in order |
| `AbiCache.Clear` | crates/cache_builder/src/cache.rs:126-142 | a successful clear empties the store and zeroes all four counters. A failed one changes nothing |
| `AbiCache.ClearThenNothingExists` | crates/cache_builder/src/cache.rs:77-142 | after a clear nothing is found, and the lookup counts exactly one miss |
| `AbiCache.DefaultCacheDir` | crates/cache_builder/src/cache.rs:165-200 | `HEIMDALL_CACHE_DIR` wins on every platform. Otherwise: macOS joins "Library/Caches/heimdall" under HOME or /tmp; Linux joins "heimdall" under XDG_CACHE_HOME, else ".cache/heimdall" under HOME or /tmp; Windows joins "heimdall\cache" under LOCALAPPDATA, else under TEMP or C:\Temp; any other platform uses /tmp/heimdall_cache |
| `AbiCache.CacheDirectory` | crates/cache_builder/src/cache.rs:38-39 | an explicit directory wins over the default, which is used otherwise |
| `AbiCache.OverrideIsPlatformIndependent` | crates/cache_builder/src/cache.rs:166-168 | with the override set, every platform gives the same directory |
| `RunStats.New` | crates/cache_builder/src/stats.rs:17-28 | new statistics have every counter at zero, and they are consistent |
| `RunStats.RecordResult` | crates/cache_builder/src/stats.rs:30-53 | each call counts one item in exactly one of cached, successes or errors, with `cached` winning. A timeout is counted only for an uncached failure. The time total grows by the duration modulo 2^64, exactly so while the sum stays below 2^64. Consistency is preserved |
| `RunStats.ReplayKeepsConsistent` | crates/cache_builder/src/stats.rs:30-53 | from consistent counters, any sequence of calls keeps cached + successes + errors = processed and timeouts <= errors |
| `RunStats.ReplayCountsEachRecord` | crates/cache_builder/src/stats.rs:37 | each call raises `processed` by exactly one |
| `RunStats.AverageMillis` | crates/cache_builder/src/stats.rs:70-75 | the average shown is 0 when nothing was processed. Otherwise it is the time total per item in whole milliseconds, rounded down |
| `RunStats.AverageBounds` | crates/cache_builder/src/stats.rs:72 | two truncating divisions, by p then by 1000, equal one truncating division by 1000·p |
| `RunStats.SuccessRateOf` | crates/cache_builder/src/stats.rs:83-92 | the rate is a ratio exactly when something uncached was processed. Its numerator is the success count, its denominator processed − cached, and it never exceeds 100% for consistent counters |
| `RunStats.OtherErrors` | crates/cache_builder/src/stats.rs:155 | the "Other" line is the errors that were not timeouts |
| `RunStats.FinalSummaryOf` | crates/cache_builder/src/stats.rs:109-161 | for consistent counters (every state reached from `new()`), each line shows its counter, "other" is errors − timeouts without underflow, the rate is `SuccessRateOf`, and cached + successes + timeouts + other = processed |
| `Processor.ConvertSlot` | crates/cache_builder/src/processor.rs:270 | a slot keeps its index and type, and its offset is cast to u32: reduced modulo 2^32, unchanged below it |
| `Processor.KnownSlots` | crates/cache_builder/src/processor.rs:263-271 | the reported slots are the converted slots whose type is not "unknown", in order and with repeats: a single slot gives itself or nothing |
| `Processor.KnownSlotsAppend` | crates/cache_builder/src/processor.rs:263-271 | filtering distributes over concatenation, so order and multiplicity follow the input |
| `Processor.ThreadMessage` | crates/cache_builder/src/processor.rs:247-298 | the storage thread sends the known slots on success. An analysis error containing "StoppedByWatchdog" is reported as a timeout, any other as "Storage extraction failed: ". A panic is reported as "Storage extraction panicked: " followed by its text |
| `Processor.PanicText` | crates/cache_builder/src/processor.rs:288-294 | a `String` or `&str` panic payload is shown as its text, any other as "Unknown panic during storage extraction" |
| `Processor.ExtractStorage` | crates/cache_builder/src/processor.rs:222-338 | undecodable hex and empty bytecode are reported before any thread runs. A message before the deadline or within the grace period is used as sent. No message abandons the thread and reports a timeout. An error-free result needs a found layout |
| `Processor.GraceIsLikeDeadline` | crates/cache_builder/src/processor.rs:300-324 | a message in the grace period is treated exactly like one before the deadline |
| `Processor.TimeoutTestIsContainsTimedOut` | crates/cache_builder/src/processor.rs:66 | the second disjunct of the timeout test ("Execution timed out") adds nothing to "timed out" |
| `Processor.FailureAbi` | crates/cache_builder/src/processor.rs:64-77 | a failed decompile is cached as an empty ABI whose `decompile_error` is the fixed timeout text for a timeout, and the error text otherwise |
| `Processor.ConvertEvent` | crates/cache_builder/src/processor.rs:120-127 | an event keeps its name and anonymity, with parameters converted in order |
| `Processor.ConvertError` | crates/cache_builder/src/processor.rs:129-135 | an error keeps its name, with parameters converted in order |
| `Processor.ConstructorEntry` | crates/cache_builder/src/processor.rs:137-161 | the constructor is named "constructor", has the zero selector, no outputs, never constant, the source's mutability name, payable iff payable, and signature `constructor(types)` |
| `Processor.FallbackEntry` | crates/cache_builder/src/processor.rs:163-174 | the fallback has no parameters and no input or output types, the zero selector, signature "fallback()", the source's mutability name, and is payable iff payable |
| `Processor.ReceiveEntry` | crates/cache_builder/src/processor.rs:176-187 | the receive function is always payable with mutability "payable", the zero selector, and no input or output types |
| `Processor.AssembleAbi` | crates/cache_builder/src/processor.rs:115-220 | a decompiled ABI holds the converted functions, events and errors in order, the converted constructor and fallback when present, and receive iff the decompiler found one. Its indices are those `rebuild_indices` would build. It has no decompile error. Its storage part is empty when storage extraction is off, and otherwise the storage phase's result |
| `Processor.ConvertEvents` | crates/cache_builder/src/processor.rs:121-128 | one event per decompiled event, in order, each converted |
| `Processor.ConvertErrors` | crates/cache_builder/src/processor.rs:130-136 | one error per decompiled error, in order, each converted |
| `Processor.ProcessContract` | crates/cache_builder/src/processor.rs:43-92 | `process_contract` always returns Ok. A hit returns cached success and writes nothing. A miss is successful iff decompiling succeeded, reports the error text otherwise, and always tries to store an ABI; after a successful decompile the stored ABI is the assembled one, and the abandoned count rises by one exactly when the storage thread was abandoned |
| `Processor.WriteFailureIsOnlyLogged` | crates/cache_builder/src/processor.rs:80-83 | the result does not depend on whether the cache write succeeded |
| `Processor.MissIsMemoised` | crates/cache_builder/src/processor.rs:80-83 | after a miss with a committed write the bytecode is cached, failures included |
| `Processor.HitIgnoresAnalysis` | crates/cache_builder/src/processor.rs:50-59 | on a hit, nothing the decompiler, the storage thread or the writer would do affects the outcome |
| `Processor.StorageFailureKeepsSuccess` | crates/cache_builder/src/processor.rs:200-219 | the storage phase never changes the result: a decompiled contract succeeds whatever its storage thread did |
| `Processor.AbandonOnlyOnSilentStorageThread` | crates/cache_builder/src/processor.rs:311-333 | a thread is abandoned only on a cache miss, with a successful decompile, storage enabled, and no message ever arriving |
| `ParquetReader.ColumnByName` | crates/cache_builder/src/parquet_reader.rs:40-46 | a column is found iff some field has that name, and the one found is the FIRST field with that name |
| `ParquetReader.AddressTexts` | crates/cache_builder/src/parquet_reader.rs:52-84 | addresses accept text and all three binary kinds, fixed-size included. Every other kind is unsupported |
| `ParquetReader.CodeTexts` | crates/cache_builder/src/parquet_reader.rs:86-111 | codes accept text, binary and large binary. Fixed-size binary and every other kind are unsupported |
| `ParquetReader.With0x` | crates/cache_builder/src/parquet_reader.rs:121-130 | the result starts with "0x", is unchanged when the input already does, and is "0x" + input otherwise |
| `ParquetReader.Combine` | crates/cache_builder/src/parquet_reader.rs:114-132 | the combine loop emits at most one contract per zipped row, each with a "0x"-prefixed address and code |
| `ParquetReader.KeptRows` | crates/cache_builder/src/parquet_reader.rs:114-118 | kept positions lie among the rows combined |
| `ParquetReader.KeptRowsSpec` | crates/cache_builder/src/parquet_reader.rs:114-118 | kept positions are increasing, and a row is kept iff its code is neither "" nor "0x" |
| `ParquetReader.CombineIsKeptRows` | crates/cache_builder/src/parquet_reader.rs:114-132 | the output is exactly the kept rows, in order, each normalised: an order-preserving subsequence of the zipped columns |
| `ParquetReader.ExtractContracts` | crates/cache_builder/src/parquet_reader.rs:36-135 | a missing address column is reported before a missing code column. Success holds iff both columns exist and are of supported kinds; then the contracts are exactly the zipped rows whose code is neither "" nor "0x", in order, with "0x" added where missing |
| `ParquetReader.UnsupportedKindsAreErrors` | crates/cache_builder/src/parquet_reader.rs:82-111 | an unsupported address kind is reported first, naming its type. Otherwise an unsupported code kind (fixed-size binary included) is reported |
| `ParquetReader.EmptyBinaryCodeDropped` | crates/cache_builder/src/parquet_reader.rs:95-117 | an empty binary code renders as "" and its row is dropped |
| `ParquetReader.BinaryCodeRoundTrip` | crates/cache_builder/src/parquet_reader.rs:95-130 | a non-empty binary code is kept as "0x" + hex, and stripping the prefix and decoding gives the original bytes |
| `PathOrder.LexTotal` | crates/cache_builder/src/stream_processor.rs:278 | the path order is total |
| `PathOrder.LexTransitive` | crates/cache_builder/src/stream_processor.rs:278 | the path order is transitive |
| `PathOrder.LexAntisymmetric` | crates/cache_builder/src/stream_processor.rs:278 | the path order is antisymmetric |
| `PathOrder.LexReflexive` | crates/cache_builder/src/stream_processor.rs:278 | the path order is reflexive |
| `PathOrder.Insert` | crates/cache_builder/src/stream_processor.rs:278 | inserting into a sorted list keeps it sorted and adds exactly the element |
| `PathOrder.Sort` | crates/cache_builder/src/stream_processor.rs:278 | `sort()` returns a sorted permutation of its input |
| `PathOrder.SortedPairwise` | crates/cache_builder/src/stream_processor.rs:278 | in a sorted list, every earlier element is at most every later one |
| `PathOrder.SortedUnique` | crates/cache_builder/src/stream_processor.rs:277-278 | two sorted permutations of the same paths are equal |
| `PathOrder.SameHead` | crates/cache_builder/src/stream_processor.rs:278 | sorted permutations of each other start with the same path |
| `PathOrder.SortIgnoresInputOrder` | crates/cache_builder/src/stream_processor.rs:277-278 | sorting two listings of the same paths gives the same order |
| `StreamProcessor.ParquetEntries` | crates/cache_builder/src/stream_processor.rs:268-275 | listing succeeds iff every entry reads. The kept paths are exactly the listed paths with a "parquet" extension, which a file named just ".parquet" does not have |
| `StreamProcessor.ParquetExtensionExamples` | crates/cache_builder/src/stream_processor.rs:273 | a file named ".parquet" is skipped while "a.parquet" and "..parquet" are kept, as `Path::extension` decides |
| `StreamProcessor.FindParquetFiles` | crates/cache_builder/src/stream_processor.rs:261-282 | a missing directory and an unreadable listing are errors. Otherwise the result is the paths with a "parquet" extension, sorted |
| `StreamProcessor.DiscoveryIgnoresListingOrder` | crates/cache_builder/src/stream_processor.rs:268-280 | the files found do not depend on the order `read_dir` lists them in |
| `StreamProcessor.ParquetEntriesKeepsCounts` | crates/cache_builder/src/stream_processor.rs:268-275 | each parquet path is kept as often as it is listed, and every other path never |
| `StreamProcessor.Classify` | crates/cache_builder/src/stream_processor.rs:114-129 | a contract is a repeat iff its code is in `seen`. Otherwise it is already cached iff the cache says so, and sent otherwise |
| `StreamProcessor.Examine` | crates/cache_builder/src/stream_processor.rs:113-137 | one dedup step adds the code to `seen` even when the cache drops it, and counts exactly one of unique or duplicate. Unique is counted iff the contract is sent |
| `StreamProcessor.MaybeClear` | crates/cache_builder/src/stream_processor.rs:160-168 | `seen` is cleared iff the processed-file count is a multiple of 1000 and `seen` holds over 1,000,000 codes. Nothing else changes |
| `StreamProcessor.SentPositions` | crates/cache_builder/src/stream_processor.rs:131-136 | the sent positions are increasing and each is a contract sent |
| `StreamProcessor.SentPositionsComplete` | crates/cache_builder/src/stream_processor.rs:131-136 | every contract sent has its position listed |
| `StreamProcessor.SentPositionsAppend` | crates/cache_builder/src/stream_processor.rs:131-136 | one more examined contract adds its position iff it was sent |
| `StreamProcessor.InitialInv` | crates/cache_builder/src/stream_processor.rs:83-100 | the reader starts with empty `seen`, zero counters, and the loop invariant |
| `StreamProcessor.ExamineKeepsCacheVerdicts` | crates/cache_builder/src/stream_processor.rs:125-129 | every "already cached" verdict was the cache's answer at that point, and every send followed a negative answer |
| `StreamProcessor.ExamineKeepsSeenVerdicts` | crates/cache_builder/src/stream_processor.rs:114-123 | a contract dropped as a repeat had its code examined earlier |
| `StreamProcessor.ExamineKeepsSeenFromTrace` | crates/cache_builder/src/stream_processor.rs:115-118 | `seen` holds only codes already examined |
| `StreamProcessor.ExamineKeepsExact` | crates/cache_builder/src/stream_processor.rs:114-123 | before any clear, `seen` holds every examined code, and only first occurrences escape the repeat check |
| `StreamProcessor.ExamineKeepsInv` | crates/cache_builder/src/stream_processor.rs:113-137 | one dedup step keeps the whole loop invariant |
| `StreamProcessor.InvIgnoresCounters` | crates/cache_builder/src/stream_processor.rs:110-155 | the file and contract totals do not affect the invariant |
| `StreamProcessor.ExamineAllKeepsInv` | crates/cache_builder/src/stream_processor.rs:113-137 | the inner loop keeps the invariant |
| `StreamProcessor.ExamineAllAppendsContracts` | crates/cache_builder/src/stream_processor.rs:113-137 | the inner loop examines a file's contracts in row order |
| `StreamProcessor.ExamineAllKeepsCounters` | crates/cache_builder/src/stream_processor.rs:113-137 | the inner loop leaves the file count, the contract total and the clears alone |
| `StreamProcessor.MaybeClearKeepsInv` | crates/cache_builder/src/stream_processor.rs:160-168 | the periodic clear keeps the invariant |
| `StreamProcessor.AfterFileKeepsInv` | crates/cache_builder/src/stream_processor.rs:105-169 | one file, read or not, keeps the invariant |
| `StreamProcessor.AfterFileCounts` | crates/cache_builder/src/stream_processor.rs:107-157 | every file counts as processed, readable or not. Its contracts are added to the total and examined in order |
| `StreamProcessor.ReadFilesKeepsInv` | crates/cache_builder/src/stream_processor.rs:102-170 | the reader keeps the invariant over any number of files |
| `StreamProcessor.ReadFilesCounts` | crates/cache_builder/src/stream_processor.rs:102-170 | over any files, the counters and the examined contracts grow by the files' share, in file-then-row order |
| `StreamProcessor.RunReaderInv` | crates/cache_builder/src/stream_processor.rs:98-179 | the reader thread ends in a state satisfying the invariant |
| `StreamProcessor.RunReaderCounts` | crates/cache_builder/src/stream_processor.rs:98-179 | the reader ends having processed every file and examined the readable files' contracts, in order |
| `StreamProcessor.InvCounts` | crates/cache_builder/src/stream_processor.rs:109-137 | under the invariant, unique + duplicate is the contract total, and unique is the number sent |
| `StreamProcessor.UniqueAreSent` | crates/cache_builder/src/stream_processor.rs:131-136 | the unique counter equals the number of contracts sent to the workers |
| `StreamProcessor.ReaderCounts` | crates/cache_builder/src/stream_processor.rs:98-179 | every contract read is counted once as unique or duplicate. Every file counts. The unique ones are exactly those sent |
| `StreamProcessor.SentWereUncached` | crates/cache_builder/src/stream_processor.rs:125-136 | no contract the cache reported at its check is sent |
| `StreamProcessor.SeenDropsAreRepeats` | crates/cache_builder/src/stream_processor.rs:114-123 | a contract is dropped as seen only when an earlier contract had the same code |
| `StreamProcessor.NoClearMeansExactDedup` | crates/cache_builder/src/stream_processor.rs:114-168 | without a clear, a contract is dropped as seen iff an earlier one had its code, and the contracts sent have distinct codes |
| `StreamProcessor.ExactDedup` | crates/cache_builder/src/stream_processor.rs:114-137 | the same, for any reader state satisfying the invariant that never cleared |
| `StreamProcessor.DistinctSentCodes` | crates/cache_builder/src/stream_processor.rs:114-136 | when only first occurrences are sent, the sent codes are pairwise distinct |
| `StreamProcessor.FewFilesNeverClear` | crates/cache_builder/src/stream_processor.rs:160-168 | a run of fewer than 1000 files never clears `seen` |
| `StreamProcessor.RecordOf` | crates/cache_builder/src/stream_processor.rs:218-245 | a worker result is recorded with its cached, success and duration, and counts as a timeout iff its error contains "timed out". An `Err` is recorded as an uncached failure with no duration |
| `StreamProcessor.DrainCountsEachResult` | crates/cache_builder/src/stream_processor.rs:200-248 | each received contract is recorded exactly once, and the statistics stay consistent |
| `StreamProcessor.DecompileTimeoutIsCounted` | crates/cache_builder/src/stream_processor.rs:220-224 | a decompile failure the processor classifies as a timeout is counted as a timeout in the statistics, and only then |
| `StreamProcessor.ProcessAll` | crates/cache_builder/src/stream_processor.rs:49-259 | discovery errors are returned, and an empty directory ends early. Otherwise the reader runs over the sorted files, and `processed` grows by exactly the unique count, with consistent statistics |
| `PyBinding.LastMember` | crates/python/src/lib.rs:151-153 | an object member lookup finds the last member with the key (serde_json keeps the last duplicate), or reports the key absent |
| `PyBinding.LastMemberAt` | crates/python/src/lib.rs:151-153 | a key present at a position and nowhere after it is found there |
| `PyBinding.CollapseIfTupleCases` | crates/python/src/lib.rs:150-179 | the type text is returned unchanged unless it starts with "tuple" and has a non-empty `components` array. Then it is "(" … ")" followed by the text after "tuple" |
| `PyBinding.CollapseGivesCanonical` | crates/python/src/lib.rs:150-179 | collapsing the JSON of any type tree gives its canonical ABI text, for nested tuples and array dimensions |
| `PyBinding.StripKeepsType` | crates/python/src/lib.rs:151-153 | a stripped component has the same "type" member |
| `PyBinding.StripKeepsComponents` | crates/python/src/lib.rs:159-160 | a stripped component has the same "components" member, with array items stripped in turn |
| `PyBinding.CollapseReadsOnlyTypeAndComponents` | crates/python/src/lib.rs:150-179 | `collapse_if_tuple` reads only "type" and "components" at every level: "name", "internalType" and other members never change its result |
| `PyBinding.CollapseRealComponent` | crates/python/src/lib.rs:150-179 | a real ABI component whose type skeleton is the JSON of a type tree collapses to that tree's canonical text |
| `PyBinding.ParseParam` | crates/python/src/lib.rs:181-198 | the name defaults to "", the type is the collapsed type, and a non-string internal type is dropped |
| `PyBinding.ParseEventParam` | crates/python/src/lib.rs:200-222 | as `parse_param`, with `indexed` true only for a JSON `true` |
| `PyBinding.ParseParamRoundTrip` | crates/python/src/lib.rs:181-198 | parsing the JSON of an elementary parameter gives it back |
| `PyBinding.ParamsAt` | crates/python/src/lib.rs:245-257 | a missing or non-array list gives no parameters. Otherwise each item is parsed, in order |
| `PyBinding.EventParamsAt` | crates/python/src/lib.rs:302-310 | the same for event parameters |
| `PyBinding.EmptyAbi` | crates/python/src/lib.rs:443-455 | the binding's `ABI::new()` is empty throughout |
| `PyBinding.ComputeSelector` | crates/python/src/lib.rs:224-233 | the selector is the first four bytes of Keccak-256 of `name(type1,...)` |
| `PyBinding.ParseFunctionEntry` | crates/python/src/lib.rs:235-290 | an entry with a missing or empty name gives nothing. Otherwise mutability defaults to "nonpayable", constant iff view/pure, payable iff payable, never both. The signature is `name(input types)` and the selector is its Keccak prefix |
| `PyBinding.ParseEventEntry` | crates/python/src/lib.rs:292-321 | nothing for a missing or empty name. Otherwise the parameters in order, and anonymous only for a JSON `true` |
| `PyBinding.ParseErrorEntry` | crates/python/src/lib.rs:323-347 | nothing for a missing or empty name. Otherwise the parameters in order |
| `PyBinding.ParseConstructorEntry` | crates/python/src/lib.rs:349-382 | always an entry named "constructor", with the zero selector, no outputs, never constant, payable iff "payable", and signature `constructor(types)` |
| `PyBinding.ParseFallbackEntry` | crates/python/src/lib.rs:384-402 | always an entry without parameters, with the zero selector and signature "fallback()" |
| `PyBinding.ParseReceiveEntry` | crates/python/src/lib.rs:404-415 | the entry's content is ignored, and receive is always payable |
| `PyBinding.ParseEntry` | crates/python/src/lib.rs:484-521 | each of the six known types runs its own parser: "function", "event", "error", "constructor", "fallback" and "receive". An entry is skipped iff its type is none of these |
| `PyBinding.AddFunction` | crates/python/src/lib.rs:490-497 | a function is appended at the end, and no field except the list and the two maps changes |
| `PyBinding.AbiEntries` | crates/python/src/lib.rs:467-478 | an array document is used as-is. An object needs an `abi` array, and lacking one is a ValueError. Any other document is a ValueError |
| `PyBinding.FromJson` | crates/python/src/lib.rs:458-525 | an unreadable file is an IOError, and malformed JSON or a wrong shape a ValueError. Otherwise the result is the loop's ABI |
| `PyBinding.MatchingIndicesInRange` | crates/python/src/lib.rs:535-553 | indices built from the list never point past it, so `functions[idx]` cannot panic |
| `PyBinding.AddFunctionKeepsIndices` | crates/python/src/lib.rs:490-497 | appending and indexing a function keeps both maps equal to the index of the longer list |
| `PyBinding.StepKeepsIndices` | crates/python/src/lib.rs:488-521 | every loop step keeps the maps equal to the index of the function list |
| `PyBinding.ReplayIndicesMatch` | crates/python/src/lib.rs:480-524 | whatever the entries, the loaded ABI's maps index its function list with last-position semantics |
| `PyBinding.LoadIndicesMatch` | crates/python/src/lib.rs:458-525 | `from_json` builds maps that index its functions and stay in range |
| `PyBinding.StepAppends` | crates/python/src/lib.rs:488-521 | one step appends what the entry adds to each list, and keeps the storage layout |
| `PyBinding.ReplayKeepsNamedEntries` | crates/python/src/lib.rs:480-524 | the loaded lists are exactly the named function, event and error entries, in document order. The storage layout stays empty |
| `PyBinding.KeptFunctionsContains` | crates/python/src/lib.rs:489-497 | every named function entry ends up in the function list |
| `PyBinding.LastWhere` | crates/python/src/lib.rs:509-517 | finds the last entry of a kind, or reports there is none |
| `PyBinding.StepReplacesSpecial` | crates/python/src/lib.rs:509-517 | a constructor, fallback or receive entry replaces only its own field |
| `PyBinding.LastSpecialEntryWins` | crates/python/src/lib.rs:509-517 | the last constructor, fallback and receive entries win, and without one the field stays empty |
| `PyBinding.SkippedEntryIgnored` | crates/python/src/lib.rs:518-520 | a skipped entry can be removed anywhere without changing the result |
| `PyBinding.ParseEntriesAppend` | crates/python/src/lib.rs:483 | parsing distributes over concatenation of entry lists |
| `PyBinding.UnknownEntryIgnored` | crates/python/src/lib.rs:484-520 | an entry of unknown type can be dropped anywhere in a document without changing the ABI loaded |
| `PyBinding.FunctionEntryKeptIffNamed` | crates/python/src/lib.rs:489-497 | a function entry is kept iff its name is present and non-empty |
| `PyBinding.LookupSelector` | crates/python/src/lib.rs:533-537 | keys of at least four bytes are looked up by their first four. Shorter keys find nothing |
| `PyBinding.GetFunction` | crates/python/src/lib.rs:527-559 | a "0x" text finds what its hex-decoded bytes find as a selector, and nothing if the rest is not hex. Any other text is looked up as a name, a byte key as a selector. Anything else finds nothing |
| `PyBinding.GetByNameFindsLast` | crates/python/src/lib.rs:540-545 | a name finds the last function with that name, nothing when none has it, and the empty name never finds anything |
| `PyBinding.GetBySelectorFindsLast` | crates/python/src/lib.rs:548-556 | a byte key finds the last function whose selector is its first four bytes, and nothing when there is none |
| `PyBinding.HexTextAndBytesAgree` | crates/python/src/lib.rs:529-556 | "0x" + the hex of some bytes finds the same function as the bytes themselves |
| `PyBinding.BindingSelector` | crates/python/src/lib.rs:629-636 | for `Unresolved_` names only the first eight suffix characters are decoded, and used when all eight are hex digits. Otherwise alloy's selector is used |
| `PyBinding.SelectorRulesAgreeOnEightCharacters` | crates/python/src/lib.rs:629-636 | with a suffix of exactly eight characters, the binding and the cache builder assign the same selector |
| `PyBinding.SelectorRulesDifferOnLongerSuffix` | crates/python/src/lib.rs:629-636 | with a longer suffix starting with eight hex digits, the binding uses them and the cache builder does not |
| `PyBinding.SelectorRulesDifferExample` | crates/python/src/lib.rs:629-636 | "Unresolved_0000000000" gets the zero selector in the binding and keeps the computed one in the cache builder |
| `PyBinding.ConvertParamShown` | crates/python/src/lib.rs:123-129 | the binding keeps an internal type as alloy displays it |
| `PyBinding.ConvertEventParamShown` | crates/python/src/lib.rs:131-138 | the same for event parameters, with `indexed` copied |
| `PyBinding.ParamConversionsAgree` | crates/python/src/lib.rs:123-129 | the binding's and the cache builder's parameter conversions agree on names, types and presence of an internal type |
| `PyBinding.ConvertToPyFunction` | crates/python/src/lib.rs:628-649 | the binding's `convert_function`: constant iff pure or view, payable iff payable, alloy's signature, and the binding's selector rule |
| `PyBinding.ConversionsAgree` | crates/python/src/lib.rs:628-649 | both crates give a decompiled function the same name, parameter types, mutability and flags. Selectors agree for names of at most 19 characters |
| `PyBinding.TimeoutMillis` | crates/python/src/lib.rs:653 | the timeout defaults to 25 s and is converted to milliseconds, saturating at the u64 maximum |
| `PyBinding.TimeoutSecondsReported` | crates/python/src/lib.rs:699-704 | the timeout message gives the requested seconds, except when the milliseconds saturate |
| `PyBinding.DecompiledConstructor` | crates/python/src/lib.rs:731-747 | a decompiled constructor is named "constructor", with the zero selector, no outputs, never constant, the mutability name, payable iff payable, and signature `constructor(types)` |
| `PyBinding.DecompiledFallback` | crates/python/src/lib.rs:749-758 | a decompiled fallback has no parameters, the zero selector, the mutability name, and is payable iff payable |
| `PyBinding.DecompiledFunctions` | crates/python/src/lib.rs:709-712 | one function per decompiled function, in order, each converted |
| `PyBinding.DecompiledEvents` | crates/python/src/lib.rs:714-721 | one event per decompiled event, in order, with name, shown parameters and the anonymous flag |
| `PyBinding.DecompiledErrors` | crates/python/src/lib.rs:723-729 | one error per decompiled error, in order, with name and shown parameters |
| `PyBinding.IndexFunctions` | crates/python/src/lib.rs:771-779 | the index loop builds exactly the last-position index of the selectors and the non-empty names |
| `PyBinding.IndexOneMore` | crates/python/src/lib.rs:774-778 | one more iteration updates both maps at the new position only |
| `PyBinding.DecompileCode` | crates/python/src/lib.rs:652-794 | the four failures raise RuntimeError or TimeoutError with the source's messages. A success holds the converted functions, events and errors in order, the converted constructor and fallback when present, an always-payable receive iff one was found, no storage layout, and indices that match the function list |

## Left out

- LMDB, bincode serialisation and pickling (`__getstate__`/`__setstate__`): the store is a map of values, and each transaction step's outcome is an input. No byte-level compatibility between the crates' serialised records is claimed. The two crates' records have different fields (types.rs:7-85 against lib.rs:16-121), so the source's claim that they store "exactly as Python bindings do" is not modelled.
- BLAKE3 and Keccak-256 internals: hashes are parameters.
- Threads, channels, the Rayon pool, Tokio runtimes, atomics and the clock: outcomes and arrival times are inputs. The workers' results are recorded in send order, although the source records them in completion order; the counters' final values do not depend on the order.
- Counters: the run statistics' `AtomicUsize` counters (stats.rs:7-12) and the cache's `AtomicU64` counters (cache.rs:11-16) are unbounded naturals, since a run of 2^64 contracts is out of reach and wrap-around is never observed. Only the time total is reduced modulo 2^64, because a single duration can already exceed it after the `as u64` cast.
- Floating-point fields of the summaries (throughput, progress and rate percentages, elapsed time) and log and progress-bar output; the summaries keep their integer content only.
- `read_contracts`, `read_all_parquets` and Arrow decoding: a batch is a list of named columns, and a null value is not distinguished from its default.
- The reader's early return when the worker channel is closed, and the panic of `reader_handle.join()`.
- pyo3 registration, `__repr__`, `__deepcopy__`, the `StorageSlot` constructor, and the trivial getters (`input_types`, `output_types`, `selector`, `signature`).
- `rpc_url` and `skip_resolving` are passed to the decompiler unread. The decompiler's output is an input.
- The cache-statistics side effect of the reader's `exists` calls: the reader's oracle answers without counting.
- `Path` formatting with `{:?}`: the missing-directory message quotes the path without escaping.
- AbiCache.CacheKey: strips ONE leading "0x", as the code does; a bytecode starting "0x0x" keeps its second prefix. The property that a bytecode and its stripped form share a key therefore holds only for text that does not itself start with "0x" (`AbiCache.KeyIgnoresOnePrefix`).
- PyBinding.GetFunction: requires indices within the function list, as every ABI the binding builds has (`PyBinding.LoadIndicesMatch`, `PyBinding.DecompileCode`); an ABI restored from a corrupted pickle could hold others, and the source would panic.
- PyBinding.BindingSelector: strings are character sequences; the source slices `Unresolved_` suffixes by bytes and would panic on a multi-byte character within the first eight bytes.
- PyBinding.CollapseIfTupleCases: `collapse_if_tuple` returns a `PyResult` but never fails; the model returns the text directly.
- PyBinding.TimeoutMillis: the argument is a u64 in the source, hence the requires bound.
- PyBinding.DecompileCode: a decompiler thread that dies without sending is reported like a late one (the channel's disconnect is a receive timeout error); the late thread is not joined.
- RunStats.OtherErrors: requires timeouts <= errors, which every state reached from `new()` satisfies (`RunStats.ReplayKeepsConsistent`); the source subtracts without a check.
- Processor.ProcessContract: the decompile timeout test reads the error's `{:?}` text, which is an input; which texts tokio and the decompiler produce is outside the model.
