# ndctl and the CXL command generator, modelled in Dafny

This project models the pure logic at the heart of **ndctl**, the Linux
NVDIMM management library and tools, and of **cligen**, the Python
generator that turns a CXL vendor mailbox-command schema into C code for
the `cxl` tool and `libcxl`. Every component is a module of immutable
datatypes and pure functions. Lemmas relate each operation to a partner:
an inverse, an invariant it keeps, or an independent reference definition.

Modules, one per file:

- `Wrappers`, `Errno`, `Machine`: shared infrastructure. `Machine` holds
  bytes, the wrap-around of C's fixed-width unsigned integers,
  little-endian field codecs and bitwise operators on naturals.
- `CStr`: the C string conversions the code relies on (`strtoull`,
  `strtol`, `sscanf("%d")`, `strtok_r`, space-terminated field walks).
- `Log` (util/log.c), `Size` (util/size.c), `Fletcher` (util/fletcher.c).
- `LabelIndex` (ndctl/builtin-dimm.c): the namespace label index. Covers
  the sequence-number cycle, index sizing, validation, selection of the
  active block, and the writing and initialisation of index blocks.
- `BttCheck` (ndctl/check.c, ndctl/check.h): the BTT arena checks.
- `Inject` (ndctl/lib/inject.c): error-injection translation and the
  sorted, merged list of injected bad blocks.
- `Libndctl`, `Lbasize`, `CmdXfer` (ndctl/lib/libndctl.c):
  - `Libndctl`: the command mask, NFIT handle fields, enforce-mode names,
    region generations, and region ways and type;
  - `Lbasize`: the supported-sector-size list;
  - `CmdXfer`: the config-data accessor and the chunked transfer loop of
    `do_cmd`.
- `Ars` (ndctl/lib/ars.c): the address-range-scrub and clear-error
  commands.
- `Nfit` (builtin-create-nfit.c): the NFIT built by `create-nfit`, with
  its checksum.
- `Filters` (util/filter.c), `CxlFilter` (cxl/filter.c): the object
  filters.
- `NamespaceOpts` (ndctl/namespace.c): `set_defaults`, mode validation
  and the size-alignment advice.
- `IntelSmart` (ndctl/lib/intel.c, ndctl/lib/intel.h): SMART and
  threshold payloads, and the translation of their flags.
- `CligenPayload`, `CligenEmit`, `CligenRun` (cligen/cligen.py):
  - payload normalisation and type inference;
  - the emitted fragments, kept as records of fields, flags and
    arguments rather than text;
  - the `run` pipeline.

Fixed-width C arithmetic is written out where it matters. `Machine.Wrap32`
and `Machine.Wrap64` give the wrap-around. Each defect under Findings has
an as-written member, a counterexample and a corrected member. The
composite operations follow the source as written (`set_defaults`,
`parse_add_spa`, the cligen payload names and option flags) except for
two. The bad-block merge and the chunked transfer are built on the
corrected step. For each of these, "## Left out" names the member and
gives the lemma that says where it agrees with the source.

## Model

| member | source | states |
|---|---|---|
| CStr.Strtoull | util/size.c:10 | the `strtoull(str, &end, 0)` value is an unsigned 64-bit number and the end lies inside the string |
| CStr.Strtol | util/log.c:41 | the `strtol(priority, &endptr, 10)` value lies between LONG_MIN and LONG_MAX and the end lies inside the string |
| CStr.DecimalRoundTrip | util/size.c:10 | the decimal numeral of a 64-bit number, followed by text that does not continue it, converts back to that number and stops right after the numeral |
| CStr.ScanDecimalNumeral | util/filter.c:71 | a `%ld` conversion reads back a numeral placed at its position |
| CStr.ScanInt | ndctl/lib/libndctl.c:3929 | a `%d` conversion stores a 32-bit `int` |
| CStr.Tokens | cxl/filter.c:38-39 | the `strtok_r` tokens are non-empty and contain no delimiter |
| CStr.TokensOfJoin | cxl/filter.c:38-39 | joining such tokens with the delimiter and splitting again gives them back |
| CStr.Fields | ndctl/lib/libndctl.c:695-703 | the fields a `strchr` loop visits contain no delimiter |
| CStr.FieldsOfTerminated | ndctl/lib/libndctl.c:695-703 | splitting delimiter-terminated fields gives them back, whatever delimiter-free text trails the last one |
| Log.LogPriority | util/log.c:36-51 | the result is the `int` conversion of the `strtol` value when the numeral is followed by the end of the string or white space; otherwise "err", "info" and "debug" prefixes select LOG_ERR, LOG_INFO and LOG_DEBUG and anything else gives 0 |
| Log.NumeralPriority | util/log.c:41-43 | a decimal numeral in `int` range, alone or followed by white space, is its own priority |
| Log.NoDigits | util/log.c:41 | `strtol` converts nothing from a string that starts with a letter, so the name branches decide |
| Log.NamedPriorities | util/log.c:44-49 | "err…", "info…" and "debug…" give LOG_ERR, LOG_INFO and LOG_DEBUG, whatever follows the name |
| Log.UnknownNameIsZero | util/log.c:44-50 | a word starting with a letter that has none of the three prefixes gives 0 |
| Log.LogInit | util/log.c:53-65 | the threshold is LOG_ERR without the environment variable and the parsed value of the variable when it is set |
| Log.DefaultLogsErrorsOnly | util/log.h:37-41 | with the default threshold, error messages are emitted and informational and debug messages are not |
| Log.DebugLogsEverything | util/log.h:37-41 | with the variable set to "debug…", every priority up to LOG_DEBUG is emitted |
| Size.Unit | util/size.c:14-37 | the multiplier is 2^10, 2^20, 2^30 or 2^40 exactly for the suffixes k, m, g, t in either case, and 1 for any other character |
| Size.ParseSize64 | util/size.c:5-42 | the result never exceeds ULLONG_MAX; a converted value of ULLONG_MAX is returned as is; any result other than ULLONG_MAX has the end of the string right after the numeral and its optional suffix |
| Size.ParseSize64Checked | util/size.c:5-42 | the corrected parser: any result other than ULLONG_MAX is the exact (unwrapped) product of the number and the unit |
| Size.CheckedParsesNumerals | util/size.c:10-41 | a decimal numeral with an optional suffix parses to the number times the unit when that is below ULLONG_MAX, and to ULLONG_MAX otherwise |
| Size.ParsersAgreeWithoutWrap | util/size.c:13-40 | whenever the product does not exceed 2^64 - 1, the parser as written and the corrected parser agree on the string |
| Size.PlainNumeral | util/size.c:10-41 | a plain decimal numeral below ULLONG_MAX parses to its own value under both parsers |
| Size.TrailingTextRejected | util/size.c:39-40 | any text after the numeral other than a lone suffix gives ULLONG_MAX under both parsers |
| Size.WrapUndetected | util/size.c:32-40 | "16777217T" wraps to 2^40 and passes the as-written check, while the corrected parser reports ULLONG_MAX |
| Size.TeraWraps | util/size.c:30-40 | any numeral with suffix T whose product wraps to a value not below the numeral is accepted with the wrapped value as written, and rejected by the corrected parser |
| Fletcher.Word | util/fletcher.c:30 | word i is below 2^32: the little-endian reading with conversion (or on a little-endian host), the big-endian reading of the raw word otherwise |
| Fletcher.Checksum | util/fletcher.c:22-35 | the closed form fits in 64 bits: high half the running-sum total modulo 2^32, low half the word sum modulo 2^32 |
| Fletcher.Fletcher64 | util/fletcher.c:22-35 | the loop with lo32 wrapping at 2^32, hi32 wrapping at 2^64 and the final `hi32 << 32 \| lo32` computes the closed form; the invariants tie each accumulator to its reference sum |
| Fletcher.Step | util/fletcher.c:30-31 | one loop step keeps lo32 and hi32 equal to the wrapped reference sums |
| Fletcher.Combine | util/fletcher.c:34 | the u64 expression `hi32 << 32 \| lo32` equals the closed-form combination |
| Fletcher.ShiftWrap | util/fletcher.c:34 | the 64-bit shift by 32 keeps only the low 32 bits of hi32 |
| Fletcher.ShortInputIsZero | util/fletcher.c:29 | input shorter than 4 bytes holds no whole word, so the checksum is 0 |
| Fletcher.TrailingBytesIgnored | util/fletcher.c:29 | bytes past the last whole word never change the checksum: replacing them by anything gives the same value |
| Fletcher.SumsAgree | util/fletcher.c:29-32 | buffers whose first n words agree have the same word sum and running sum over them |
| Fletcher.LittleEndianHost | util/fletcher.c:30 | on a little-endian host the raw and the converted reads give the same checksum |
| LabelIndex.IncSeq | ndctl/builtin-dimm.c:389-394 | the successor is always one of the four two-bit values |
| LabelIndex.IncSeqCycle | ndctl/builtin-dimm.c:389-394 | only the low two bits matter; 0 is the only fixed point; 1, 2, 3 form a cycle of length three (three steps return to the start, one step never does) |
| LabelIndex.BestSeq | ndctl/builtin-dimm.c:396-409 | the choice is one of the two masked inputs; a zero input loses to the other; between two live different values the second wins exactly when it is the successor of the first |
| LabelIndex.BestSeqSymmetric | ndctl/builtin-dimm.c:396-409 | between two live sequence numbers the choice does not depend on argument order |
| LabelIndex.SizeofNamespaceIndex | ndctl/builtin-dimm.c:411-431 | a nonzero cached size is returned unchanged; a freshly computed size is a multiple of 256 and is what gets cached |
| LabelIndex.SizeCacheStable | ndctl/builtin-dimm.c:415-428 | once computed and cached, later queries return the same size whatever the configuration size passed |
| LabelIndex.LayoutFits | ndctl/builtin-dimm.c:426-436 | with config_size/129 slots, both index blocks and every label slot fit in the area; the index size is at least 256 exactly when the area holds at least 129·512 bytes |
| LabelIndex.View | ndctl/builtin-dimm.c:438-448 | the bytes of index block i start at i·size and cover at least the fixed 72-byte header |
| LabelIndex.LabelValidate | ndctl/builtin-dimm.c:450-570 | -1 exactly when neither block passes all checks (signature, checksum, live sequence, myoff, otheroff, mysize, nslot); a returned block is valid; with both valid, 1 is returned exactly when best_seq picks block 1's sequence number |
| LabelIndex.ChecksumProbeRestores | ndctl/builtin-dimm.c:498-501 | zeroing the checksum field to recompute it and storing the saved value back leaves the area byte-for-byte unchanged |
| LabelIndex.LabelNextNsindex | ndctl/builtin-dimm.c:594-599 | -1 for a negative index and the other member of the pair otherwise |
| LabelIndex.NextNsindexToggles | ndctl/builtin-dimm.c:594-599 | on 0 and 1 the successor is the other block and applying it twice returns the start |
| LabelIndex.Header | ndctl/builtin-dimm.c:621-638 | the fixed part of an index block is 72 bytes long |
| LabelIndex.UnsummedBlock | ndctl/builtin-dimm.c:618-640 | the block before its checksum is stored is exactly one index size long |
| LabelIndex.IndexBlock | ndctl/builtin-dimm.c:641-642 | the block sent to the device is exactly one index size long |
| LabelIndex.LabelWriteIndex | ndctl/builtin-dimm.c:611-645 | writing an index block keeps the configuration area's length |
| LabelIndex.InitLabels | ndctl/builtin-dimm.c:701-705 | initialisation keeps the configuration area's length |
| LabelIndex.HeaderValues | ndctl/builtin-dimm.c:621-637 | each header field written with an in-range value reads back as that value; major and minor read 1 |
| LabelIndex.UnsummedHeader | ndctl/builtin-dimm.c:621-638 | the first 72 bytes of the unsummed block are the header with a zero checksum field |
| LabelIndex.ChecksumRoundTrip | ndctl/builtin-dimm.c:638-642 | storing the fletcher64 of a block whose checksum field is zero gives a block that passes the checksum comparison of validation |
| LabelIndex.FieldsSurviveChecksum | ndctl/builtin-dimm.c:642 | storing the checksum changes no other header field |
| LabelIndex.IndexBlockChecksum | ndctl/builtin-dimm.c:638-642 | the checksum stored in a written block equals fletcher64 of that block with the checksum field zeroed |
| LabelIndex.IndexBlockFields | ndctl/builtin-dimm.c:621-637 | a written block carries the signature, seq mod 2^32, myoff = index·size, mysize = size, otheroff = (1 - index)·size, labeloff = 2·size, nslot = config_size/129, and major = minor = 1 |
| LabelIndex.OffsetsOfBlocks | ndctl/builtin-dimm.c:624-631 | the other block of index i lies at (1 - i)·size, and both offsets are at most one size |
| LabelIndex.LowBitsSurviveWrap | ndctl/builtin-dimm.c:623 | truncating the sequence number to 32 bits keeps its two sequence bits |
| LabelIndex.LayoutBound | ndctl/builtin-dimm.c:426-428 | the two index blocks never exceed the configuration area |
| LabelIndex.WrittenBlockInPlace | ndctl/builtin-dimm.c:643-644 | after the write, the area holds the written block at that block's offset |
| LabelIndex.OtherBlockUntouched | ndctl/builtin-dimm.c:643-644 | writing one block leaves the other block's bytes unchanged |
| LabelIndex.ValidFromFields | ndctl/builtin-dimm.c:493-544 | a block with the signature, a matching checksum, a live sequence number, the expected offsets, its own size and fitting slots passes validation |
| LabelIndex.WrittenIndexValid | ndctl/builtin-dimm.c:450-645 | a block written with a sequence number whose low two bits are nonzero passes every validation check, in an area of at least 129·512 bytes |
| LabelIndex.InitSelectsIndexOne | ndctl/builtin-dimm.c:701-705 | after initialisation index 0 (sequence 0) never validates and validation selects index 1 |
| BttCheck.MapMasks | ndctl/check.h:23-26 | a raw map entry has one of the two top bits (MAP_ENT_NORMAL) set exactly when it is at least 2^30, and MAP_LBA_MASK keeps its low 30 bits |
| BttCheck.MapLookup | ndctl/check.c:202-211 | an entry with a top bit set maps to its low 30 bits; an entry in the initial state (both top bits clear) maps the block to itself |
| BttCheck.InitialMapBounds | ndctl/check.c:202-211 | a map whose entries are all in the initial state passes the map check exactly when external_nlba ≤ internal_nlba |
| BttCheck.LogGetOld | ndctl/check.c:253-275 | a zero sequence in entry 0 makes entry 0 the older one and rewrites its sequence to 1; otherwise the pair is unchanged and the older index is 0 or 1 |
| BttCheck.LogGetOldFollowsCycle | ndctl/check.c:253-275 | for two distinct sequence numbers in 1..3, entry 0 is older exactly when entry 1's sequence follows it in the cycle 1 → 2 → 3 → 1, and symmetrically for entry 1 |
| BttCheck.LanePair | ndctl/check.c:242-246 | the lane's pair is log[2·lane] and log[2·lane + 1] |
| BttCheck.LogRead | ndctl/check.c:277-288 | the entry read is one of the lane's two entries, and entry 1 when entry 0 has sequence 0 |
| BttCheck.LogReadNewer | ndctl/check.c:277-288 | with distinct sequence numbers in 1..3, the entry read is the newer one: its sequence follows the other's in the cycle |
| BttCheck.CheckLogEntries | ndctl/check.c:407-441 | 0 exactly when every lane's sequence numbers are distinct and at most 3 and every lane's newer entry has lba < external_nlba and old and new map < internal_nlba; BTT_LOG_EQL_SEQ and BTT_LOG_OOB_SEQ each name a lane showing that fault; the first lane whose sequence numbers fail decides between those two codes, and once every sequence check has passed the first out-of-bounds lane decides between the lba, old and new codes in that order |
| BttCheck.CheckMapEntries | ndctl/check.c:444-455 | 0 exactly when every external block's lookup is below internal_nlba, BTT_MAP_OOB otherwise |
| BttCheck.MapRefs | ndctl/check.c:517-527 | the blocks the map references are the lookups of external blocks 0 .. external_nlba - 1 in order |
| BttCheck.LogRefs | ndctl/check.c:529-544 | the free blocks are each lane's newer entry's old_map, lane by lane |
| BttCheck.ChecksEstablishRefsInBounds | ndctl/check.c:407-552 | an arena that passed the log and map checks references only internal blocks, so the bitmap check can index its bitmap |
| BttCheck.MarkRefs | ndctl/check.c:518-544 | marking references one by one either finds a block already marked, and then the references are not distinct, or ends with the bitmap set exactly at the references seen, which are distinct |
| BttCheck.CheckBitmap | ndctl/check.c:507-552 | as written: 0 exactly when nfree ≥ 1 and the map and flog together reference every internal block exactly once; BTT_BITMAP_ERROR otherwise |
| BttCheck.CheckBitmapFixed | ndctl/check.c:500-552 | corrected: 0 exactly when every internal block is referenced exactly once by the map and the flog, with or without free blocks |
| BttCheck.PerfectMapWithoutFreeBlocks | ndctl/check.c:511-548 | one external block mapped to itself with nfree = 0 references every block exactly once, yet the as-written check reports BTT_BITMAP_ERROR for it |
| BttCheck.ParseMeta | ndctl/check.c:598-633 | success exactly when internal_nlba - external_nlba (as u32) equals nfree, the two lbasizes agree and the error flag is clear; every failure is -ENXIO; success copies the counts and versions and puts the info block at arena_off |
| BttCheck.ParseMetaGeometry | ndctl/check.c:607-625 | below 2^64, each absolute offset is arena_off plus the stored one, internal blocks are external plus free blocks, and the size is nextoff when nonzero and info2off + 4096 otherwise |
| BttCheck.ExpectedOffset | ndctl/check.c:811-824 | version 1.1 gives BTT1_START_OFFSET, 2.0 gives BTT2_START_OFFSET, and any other version gives -ENXIO |
| Inject.BlockToSpaOffset | ndctl/lib/inject.c:61-79 | as written, in u64 arithmetic: offset = ns_offset + 512·block and length = 512·count, each wrapping at 2^64; -EINVAL exactly when the wrapped end exceeds the wrapped namespace end |
| Inject.HugeCountPassesBoundsCheck | ndctl/lib/inject.c:70-73 | 2^55 blocks wrap to length 0, so the request passes the bounds check of a one-block namespace |
| Inject.BlockToSpaOffsetChecked | ndctl/lib/inject.c:61-79 | corrected: accepted exactly when (block + count)·512 ≤ ns_size, and then the byte range lies inside the namespace |
| Inject.BoundsChecksAgree | ndctl/lib/inject.c:69-73 | where no sum or product reaches 2^64 the as-written and corrected checks give the same result |
| Inject.TranslateStatus | ndctl/lib/inject.c:81-90 | -EOPNOTSUPP exactly for NOT_SUPP, -EINVAL exactly for INVALID_PARAM, and 0 for every other status |
| Inject.InsertRecord | ndctl/lib/inject.c:187-229 | the insertion walk keeps the list sorted by first block, adds the new range once and keeps every old range |
| Inject.InsertPosition | ndctl/lib/inject.c:193-229 | the walk's insertion point has no later-starting range before it and no earlier-starting range after it |
| Inject.InsertedSorted | ndctl/lib/inject.c:187-229 | inserting at such a point keeps the list sorted |
| Inject.MergeStep | ndctl/lib/inject.c:248-276 | corrected: two ranges merge exactly when they overlap or adjoin, and the merged range keeps the first start and covers exactly the blocks of both |
| Inject.MergeStepU64 | ndctl/lib/inject.c:248-276 | as written with u64 ends: a merged range keeps the first start and its count fits in 64 bits |
| Inject.MergeStepsAgree | ndctl/lib/inject.c:248-276 | for non-empty ranges ending below 2^64 the u64 step and the corrected step agree |
| Inject.EmptyRangeAtZeroSwallowsNext | ndctl/lib/inject.c:250-268 | a zero-count range at block 0 has cur_end = 2^64 - 1, so the as-written step swallows [7, 8) and loses block 7, which the corrected step keeps apart |
| Inject.SpliceCovers | ndctl/lib/inject.c:257-275 | replacing two neighbours by a range holding exactly their blocks keeps the set of covered blocks |
| Inject.SpliceSorted | ndctl/lib/inject.c:257-275 | replacing two neighbours by a range with the first one's start keeps the list sorted |
| Inject.MergeRecords | ndctl/lib/inject.c:231-278 | corrected: the cascading merge pass yields a sorted list in which no two neighbours overlap or adjoin, covering exactly the blocks it was given; its result is the pass `MergePass` |
| Inject.MergePassU64 | ndctl/lib/inject.c:231-278 | the merge pass as written, with the u64 step: it keeps the entries before the one it starts from and never lengthens the list; on a sorted list the result stays sorted and every block it covers was covered before, so it may lose blocks but never invents one |
| Inject.MergeStepU64Sound | ndctl/lib/inject.c:250-268 | on ranges in block order, every block of the u64 merge lies in one of the two ranges, whatever wraps |
| Inject.SpliceU64Sound | ndctl/lib/inject.c:258-268 | replacing a sorted list's two entries by their u64 merge keeps it sorted and covers no new block |
| Inject.MergePassesAgree | ndctl/lib/inject.c:231-278 | on a sorted list with no empty range and none reaching block 2^64, the pass as written returns exactly what the corrected pass returns |
| Inject.EmptyRangeAtZeroLosesBlocks | ndctl/lib/inject.c:250-268 | the list `bb_add_record(7, 1)` inserts into from [(0, 0)] is [(0, 0), (7, 1)]; the pass as written turns it into [(0, 0)], so block 7 is no longer covered, while the corrected pass keeps both ranges |
| Inject.BbAddRecord | ndctl/lib/inject.c:170-281 | corrected: after adding count blocks from block, the list is sorted, no neighbours overlap or adjoin, and the covered blocks are the old ones plus [block, block + count) |
| Inject.SeparatedHasNoMerge | ndctl/lib/inject.c:253-276 | in a list that is already separated the corrected step merges nothing, and so does the u64 step when no range is empty or reaches 2^64 |
| Inject.StatusBlocks | ndctl/lib/inject.c:293-306 | a record is kept exactly when its base lies in [ns_spa, ns_spa + ns_size) (the end wrapping as u64); then the first block is the one holding the base's namespace offset |
| Inject.StatusBlocksCoverBytes | ndctl/lib/inject.c:302-306 | without wrap-around, the blocks hold every reported byte, and the last block holds at least one of them |
| Inject.EmptyRecordAtStart | ndctl/lib/inject.c:302-306 | a reported range of zero bytes at the namespace's first byte becomes the empty range at block 0, the range the u64 merge mishandles |
| Inject.InjectionStatusToBb | ndctl/lib/inject.c:283-312 | corrected merge: after folding the records in, the list stays sorted (and separated if it was), covering its old blocks plus the blocks of every in-range record |
| Inject.BbGetBlock | ndctl/lib/inject.c:379-384 | ULLONG_MAX for no record, the first block otherwise |
| Inject.BbGetCount | ndctl/lib/inject.c:386-391 | ULLONG_MAX for no record, the count otherwise |
| Ars.PowerOf2Iff | ndctl/lib/ars.c:46-49 | the test `v && !(v & (v - 1))` holds exactly for the powers of two |
| Ars.ValidArsCapMeans | ndctl/lib/ars.c:51-65 | a capability command is valid exactly when it is a completed ARS_CAP command, the low 16 bits of its firmware status are zero and its clear unit is a power of two |
| Ars.ArsCapGetSize | ndctl/lib/ars.c:151-163 | a nonzero size comes only from a completed capability command and is its `max_ars_out` |
| Ars.NewArsStart | ndctl/lib/ars.c:75-112 | a scrub start is built only for a supported bus and a valid capability, covers the capability's address range, carries the requested type and starts unsubmitted |
| Ars.ArsStartSingleType | ndctl/lib/ars.c:91-94 | a single-bit scrub type is accepted exactly when that bit is set in the extended (upper 16-bit) firmware status |
| Ars.NewArsStatus | ndctl/lib/ars.c:114-149 | a status command is built only for a supported bus and a valid capability with a nonzero `max_ars_out` |
| Ars.StatusSizedByCap | ndctl/lib/ars.c:130-146 | the status command's output length is the size the capability getter reports, and it is positive |
| Ars.ArsInProgress | ndctl/lib/ars.c:198-237 | the answer is 1 exactly when the status command is valid and its firmware status is 1 << 16, and only then is the command marked unsubmitted; otherwise it is unchanged |
| Ars.InProgressRepeats | ndctl/lib/ars.c:227-234 | marking the command unsubmitted (status 1) does not invalidate it, so asking again still answers 1 |
| Ars.NumRecords | ndctl/lib/ars.c:239-247 | a valid status command reports the firmware's `num_records`, an invalid one no records |
| Ars.RecordAddr | ndctl/lib/ars.c:249-263 | below the firmware's record count, for a record the buffer holds, the accessor returns that record's error address |
| Ars.RecordLen | ndctl/lib/ars.c:265-279 | below the firmware's record count, for a record the buffer holds, the accessor returns that record's length |
| Ars.RecordsPastCountAreZero | ndctl/lib/ars.c:257-260 | at or past the firmware's `num_records` both accessors return 0, whatever the buffer holds |
| Ars.NewClearErrorU64 | ndctl/lib/ars.c:281-328 | clear-error as written, with the range ends computed modulo 2^64: an accepted request starts inside the capability's range |
| Ars.NewClearError | ndctl/lib/ars.c:281-328 | an accepted clear-error request carries the given address and length and starts unsubmitted |
| Ars.ClearErrorMeans | ndctl/lib/ars.c:292-311 | a request is accepted exactly when the bus supports it, the capability is valid, the request lies inside the capability's range and both address and length are multiples of the clear unit |
| Ars.ClearErrorAgreesWithoutWrap | ndctl/lib/ars.c:301-302 | when neither end reaches 2^64 the 64-bit test and the exact test decide alike |
| Ars.ClearErrorWrapAccepted | ndctl/lib/ars.c:301-302 | a request running from the start of the range to 2^64 wraps its end to 0 and passes the 64-bit test, although it lies outside the range |
| Libndctl.DsmIndexFrom | ndctl/lib/libndctl.c:678-686 | the scan from command i returns the first command number up to `end` whose table name equals `name`, or 0 when none in that range has it |
| Libndctl.ToDsmIndex | ndctl/lib/libndctl.c:663-687 | the result is the first command in 1..end named `name`, and it is 0 exactly when no command in that range carries the name |
| Libndctl.MaskFromBits | ndctl/lib/libndctl.c:695-703 | after the loop, bit i of the mask is set exactly when it was set before or some field resolves to command i (command 0 never sets a bit) |
| Libndctl.ParseCommandsSelects | ndctl/lib/libndctl.c:689-705 | with a table of distinct names, a space-terminated list of names yields a mask whose bit i is set exactly when command i is in range, has a name and that name is listed |
| Libndctl.DecodeHandle | ndctl/lib/libndctl.c:1573-1596 | the five getters give node, socket, controller, channel and DIMM fields that fit 12, 4, 4, 4 and 4 bits |
| Libndctl.DecodeEncode | ndctl/lib/libndctl.c:1573-1596 | fields that fit their widths are read back unchanged from the handle packed from them, and that handle is below 2^28 |
| Libndctl.EncodeDecode | ndctl/lib/libndctl.c:1573-1596 | re-packing the decoded fields gives the handle's low 28 bits back, so the getters lose no bit below 28 |
| Libndctl.EnforceIdToName | ndctl/lib/libndctl.c:2951-2964 | every id outside the known modes is named "<unknown>" |
| Libndctl.NameToIdFrom | ndctl/lib/libndctl.c:2970-2973 | the search from mode i returns the first mode whose name is `name`, or UNKNOWN when no later mode has it |
| Libndctl.EnforceNameToId | ndctl/lib/libndctl.c:2966-2974 | the result names `name` when below UNKNOWN, and is UNKNOWN exactly when no known mode has that name |
| Libndctl.ModeNameRoundTrip | ndctl/lib/libndctl.c:2951-2974 | naming a mode and looking the name up gives back every mode up to UNKNOWN, and UNKNOWN for any other id |
| Libndctl.AddChild | ndctl/lib/libndctl.c:2994 | a new namespace, btt, pfn or dax child carries the region's current generation, so it is valid, and goes on the live list without changing the rest |
| Libndctl.RegionDisable | ndctl/lib/libndctl.c:2615-2643 | a disabled region is left alone with 0; a region still bound after the unbind gives -EBUSY and is unchanged; otherwise it is disabled, its live children move to the stale list (freed when `cleanup` is set), its lists are marked unpopulated and its generation goes up by one |
| Libndctl.DisableInvalidates | ndctl/lib/libndctl.c:3308-3313 | after a successful disable of an enabled region no child added before it is valid while a child added afterwards is; a failed disable keeps every child's validity |
| Libndctl.ValidUntilDisabled | ndctl/lib/libndctl.c:3308-3313 | a valid child stays valid through any number of later additions |
| Libndctl.InterleaveWays | ndctl/lib/libndctl.c:1880-1883 | the interleave ways are the number of mappings, but at least 1 |
| Libndctl.RegionType | ndctl/lib/libndctl.c:1934-1943 | IO and PMEM namespace types give a PMEM region; every other type gives a BLK region |
| Nfit.FirstComma | builtin-create-nfit.c:79-81 | `strchr(arg, ',')`: when a comma is found it is the first one; when none is found the string holds no comma |
| Nfit.ParseAddSpa | builtin-create-nfit.c:67-100 | a missing comma or an unparsable size or offset gives -EINVAL; success appends exactly one range at the tail and keeps the earlier ones |
| Nfit.ParseAddSpaRoundTrip | builtin-create-nfit.c:78-90 | "size,offset" written as two decimal numerals below ULLONG_MAX appends exactly the range (size, offset) |
| Nfit.NfitChecksum | builtin-create-nfit.c:102-110 | the returned byte brings the sum of all bytes of the buffer to 0 modulo 256 (the loop keeps the running unsigned-char sum) |
| Nfit.Checksum | builtin-create-nfit.c:102-110 | the checksum byte as a value: byte sum plus checksum is 0 modulo 256 |
| Nfit.Table | builtin-create-nfit.c:149-151 | the table is 40 + 56·n bytes for n ranges |
| Nfit.CreateNfit | builtin-create-nfit.c:140-183 | the finished table has length 40 + 56·n |
| Nfit.ChecksumOnlyAtByte9 | builtin-create-nfit.c:153-180 | the finished table equals the one built with a zero checksum byte everywhere but byte 9, which holds that table's checksum |
| Nfit.TableSum | builtin-create-nfit.c:180 | storing checksum c at byte 9 raises the byte sum of the table by exactly c |
| Nfit.TableChecksums | builtin-create-nfit.c:153-180 | all bytes of the finished table sum to 0 modulo 256, so the checksum of section 5.2.6 of ACPI 6 holds |
| Nfit.LengthField | builtin-create-nfit.c:160 | the header length field reads back as the table size, truncated to 32 bits |
| Nfit.EntryAt | builtin-create-nfit.c:168-178 | entry k of the structure list is the range structure for the k-th range, numbered first + k |
| Nfit.SpaAt | builtin-create-nfit.c:168-178 | the structure for range k sits at byte 40 + 56k of the finished table and is numbered k + 1 |
| Nfit.SpaEntryFields | builtin-create-nfit.c:171-176 | a range structure reads back type 0, length 56, its 16-bit index, and the range's base and length |
| Nfit.SpaFields | builtin-create-nfit.c:169-178 | in the finished table, structure k has type 0, length 56, index (k + 1) mod 2^16, base = offset and length = size of the k-th range, in list order |
| Nfit.SpaHeadAt | builtin-create-nfit.c:171-174 | type, length and range index of structure k, read through the whole table |
| Nfit.SpaRangeAt | builtin-create-nfit.c:175-176 | base and length of structure k, read through the whole table, are the k-th range's offset and size |
| CmdXfer.CfgReadGetData | ndctl/lib/libndctl.c:2319-2332 | the read fails with -EINVAL for a command that is not a completed config-data read, for an offset past the buffer or for a u32 `len + offset` that wraps, and with the command's own status when that is negative; otherwise it returns the buffer's bytes from `offset`, `len` of them or as many as remain |
| CmdXfer.CfgReadSplit | ndctl/lib/libndctl.c:2326-2330 | two adjacent reads inside the buffer return together the same bytes as one read of both ranges |
| CmdXfer.ChunkPlan | ndctl/lib/libndctl.c:2452-2455 | the loop issues at least one chunk exactly when the offset is below the total, and the last chunk ends at the total |
| CmdXfer.PlanShape | ndctl/lib/libndctl.c:2453-2454 | every chunk moves between 1 and `max_xfer` bytes and ends inside the transfer, and every chunk but the last moves exactly `max_xfer` |
| CmdXfer.PlanSpacing | ndctl/lib/libndctl.c:2452 | chunk k starts k times `max_xfer` past the first offset |
| CmdXfer.PlanStep | ndctl/lib/libndctl.c:2452-2455 | the first chunk starts at the offset and moves the smaller of what is left and `max_xfer`; the rest is the plan from the next offset |
| CmdXfer.PlanContiguous | ndctl/lib/libndctl.c:2452-2455 | the chunks follow one another without gap or overlap from the offset to the end of the transfer |
| CmdXfer.SentCovers | ndctl/lib/libndctl.c:2456-2458 | the bytes a WRITE copies out, chunk after chunk, are the buffer from the offset on: each byte is sent once and in order |
| CmdXfer.SentTiles | ndctl/lib/libndctl.c:2456-2458 | any chunks that tile the buffer from a point to its end send exactly the buffer from that point |
| CmdXfer.DoCmd | ndctl/lib/libndctl.c:2425-2481 | at least one ioctl is issued; a command with nothing to transfer is one ioctl whose value or -errno is returned as it is, and any other runs the chunk loop over the plan from offset 0 |
| CmdXfer.FirmwareStatusOnlyStopsTransfers | ndctl/lib/libndctl.c:2439-2472 | a reply with no error but a firmware status gives 0 for a command with nothing to transfer, while a transfer whose first chunk gets it stops after that chunk and returns the chunk's length |
| CmdXfer.ChunkLoop | ndctl/lib/libndctl.c:2452-2472 | the loop returns 0 after every chunk when all succeed; otherwise it stops at the first chunk whose ioctl failed or whose firmware status or residue is nonzero and returns -errno or the bytes done less the residue |
| CmdXfer.ReadInto | ndctl/lib/libndctl.c:2465-2467 | the READ copies leave the buffer's length unchanged |
| CmdXfer.ReadFirst | ndctl/lib/libndctl.c:2465-2467 | a READ whose first chunk succeeded stores that chunk's bytes at its offset and continues with the rest of the plan |
| CmdXfer.StorePrefix | ndctl/lib/libndctl.c:2466-2467 | storing the device's bytes of the next chunk extends the assembled prefix by exactly those bytes |
| CmdXfer.ReadTiles | ndctl/lib/libndctl.c:2452-2472 | contiguous READ chunks from a point to the end that all deliver the device's bytes keep the buffer before that point and hold the device's bytes after it |
| CmdXfer.ReadAssembles | ndctl/lib/libndctl.c:2425-2480 | a chunked READ whose every chunk delivers the device's bytes leaves exactly the device's config area in the buffer, and the loop returns 0 |
| CmdXfer.DeliversAllOk | ndctl/lib/libndctl.c:2468 | chunks that all deliver their bytes all pass the firmware status and residue test |
| CmdXfer.OffsetsAsWritten | ndctl/lib/libndctl.c:2428-2452 | the u32 offset of the loop as written, advanced by `max_xfer` modulo 2^32, visits at most as many offsets as rounds |
| CmdXfer.PlanOffsets | ndctl/lib/libndctl.c:2452-2455 | the offsets of the plan, one per chunk, in order |
| CmdXfer.OffsetWrapRestarts | ndctl/lib/libndctl.c:2428-2452 | a transfer of 2^32 - 1 bytes in chunks of 2^31 wraps its u32 offset back to 0 and starts over instead of ending |
| CmdXfer.OffsetsAgree | ndctl/lib/libndctl.c:2428-2452 | while the total plus `max_xfer` stays below 2^32 the u32 loop visits exactly the offsets of the plan |
| Lbasize.Bracketed | ndctl/lib/libndctl.c:3925 | a field counts as a selection only when it starts with an opening bracket followed by a number |
| Lbasize.ParseFields | ndctl/lib/libndctl.c:3921-3944 | the loop ends with 0 and a well-formed result that extends the sizes read so far and keeps an earlier selection, or with -ENXIO, no sizes and no selection |
| Lbasize.ParseLbasizeSupported | ndctl/lib/libndctl.c:3907-3955 | the parse returns 0 with one size per count and the selection, if any, among them, or -ENXIO with no sizes and no selection |
| Lbasize.FormatFrom | ndctl/lib/libndctl.c:3921-3944 | the attribute text for a list of sizes has one field per size |
| Lbasize.FormatHasNoSpace | ndctl/lib/libndctl.c:3918-3943 | no field of the attribute text contains the space that separates fields |
| Lbasize.PlainField | ndctl/lib/libndctl.c:3925-3929 | a plain size is not taken for a selection and reads back as itself |
| Lbasize.SelectedField | ndctl/lib/libndctl.c:3925 | a bracketed size reads back as itself |
| Lbasize.ParseFormatFrom | ndctl/lib/libndctl.c:3921-3944 | reading the fields from position i on, after the first i sizes, gives all the sizes, the selection and the count |
| Lbasize.FormatStep | ndctl/lib/libndctl.c:3925-3943 | reading the field of the size at i adds that size, and makes it the selection when it is bracketed |
| Lbasize.ParseFormatted | ndctl/lib/libndctl.c:3907-3948 | reading back the attribute written for a list of sizes with at most one selected gives the sizes, the selection and the count, whatever space-free text follows the last field |
| Lbasize.TwoSelectionsRejected | ndctl/lib/libndctl.c:3926-3954 | a second bracketed size gives -ENXIO and discards the sizes read, leaving the count at 1 |
| Lbasize.WordEndsList | ndctl/lib/libndctl.c:3931-3932 | a field that is not a number ends the list: the sizes before it are kept and nothing after it is read |
| Lbasize.ParseStopsAt | ndctl/lib/libndctl.c:3931-3932 | fields after one that is neither bracketed nor a number do not change the result |
| Filters.IdentNumber | util/filter.c:17-19 | the identifier read as a number is at most ULONG_MAX, the value that stands for "not a number" |
| Filters.BusFilter | util/filter.c:8-31 | a bus passes unchanged or not at all, and every bus passes when there is no identifier or it is "all" |
| Filters.RegionFilter | util/filter.c:33-57 | a region passes unchanged or not at all, and every region passes when there is no identifier or it is "all" |
| Filters.DimmFilter | util/filter.c:79-102 | a DIMM passes unchanged or not at all, and every DIMM passes when there is no identifier or it is "all" |
| Filters.NamespaceFilter | util/filter.c:59-77 | a namespace passes unchanged or not at all, and every namespace passes when there is no identifier or it is "all" |
| Filters.AnyDimmMatches | util/filter.c:119-128 | the DIMM loop answers yes exactly when some DIMM of the list matches the identifier by id or by name |
| Filters.BusFilterByDimm | util/filter.c:104-131 | a bus passes unchanged or not at all, and every bus passes when there is no identifier or it is "all" |
| Filters.RegionFilterByDimm | util/filter.c:133-160 | a region passes unchanged or not at all, and every region passes when there is no identifier or it is "all" |
| Filters.NumericIdentSelectsId | util/filter.c:88-101 | a decimal identifier below ULONG_MAX selects exactly the DIMM with that id, whatever its name |
| Filters.NameIdentSelectsName | util/filter.c:88-101 | an identifier that starts with a letter is a name and selects exactly the DIMM of that name |
| Filters.ByDimmMeansSomeDimm | util/filter.c:104-131 | filtering a bus by DIMM passes it exactly when one of its DIMMs passes the DIMM filter |
| Filters.ScanDottedNumerals | util/filter.c:71 | the "%ld.%ld" scan reads both numerals of "R.N" back |
| Filters.DottedIdentSelectsIds | util/filter.c:59-77 | "R.N", when it is not the namespace's own name, selects exactly the namespace with id N in the region with id R |
| CxlFilter.WhichSep | cxl/filter.c:15-22 | the separator is a comma exactly when the list has no space but has a comma, and a space otherwise |
| CxlFilter.SerialValue | cxl/filter.c:40-42 | a serial token counts only when `strtoull` consumes all of it, and its value is then at most 2^64 - 1 |
| CxlFilter.SomeSerialMatches | cxl/filter.c:38-45 | the serial loop breaks exactly when some token reads as the device's serial |
| CxlFilter.TokenId | cxl/filter.c:73-74 | the id a token names, read by "%d" or else "mem%d", is a 32-bit int |
| CxlFilter.SomeNameMatches | cxl/filter.c:68-80 | the identifier loop breaks exactly when some token is "all", names the device's id or equals its name |
| CxlFilter.MemdevFilter | cxl/filter.c:53-86 | a device passes unchanged or not at all, only when the serial filter passes it, and without an identifier list exactly when the serial filter passes it |
| CxlFilter.ParamsToFlags | cxl/filter.c:88-99 | each display flag is set exactly when its option is set |
| CxlFilter.SerialNumeral | cxl/filter.c:40 | the decimal numeral of a 64-bit serial reads back as that serial |
| CxlFilter.SerialListSelects | cxl/filter.c:24-51 | a comma-separated list of serial numbers passes exactly the devices whose serial is listed |
| CxlFilter.MatchesListedValue | cxl/filter.c:38-45 | when each token reads as its listed value, a serial matches some token exactly when it is among the listed values |
| CxlFilter.ListTokensOfNumerals | cxl/filter.c:15-39 | a comma-joined list of numerals uses the comma as separator and splits back into the numerals |
| CxlFilter.MemNameSelects | cxl/filter.c:68-84 | "memN" selects the device with id N when no serial list is given |
| CxlFilter.MemNameSelectsOnly | cxl/filter.c:68-84 | without a serial list, "memN" selects a device exactly when its id is N or its name is "memN" |
| CxlFilter.MemNameIsOneToken | cxl/filter.c:68-69 | "memN" is a single token under its own separator |
| CxlFilter.MemNameReadsId | cxl/filter.c:73-74 | "memN" fails the "%d" scan and reads N through "mem%d" |
| CxlFilter.NoDigitsAtLetter | cxl/filter.c:73 | a token starting with a letter is not a "%d" number |
| CxlFilter.AllSelectsEverything | cxl/filter.c:70-71 | "all" selects exactly the devices the serial filter lets through |
| NamespaceOpts.ModeAlias | ndctl/namespace.c:174-192 | a mode string stands for a library mode name: "sector", "fsdax" and "devdax" for "safe", "memory" and "dax", the library names for themselves, and every other string for nothing |
| NamespaceOpts.FinalType | ndctl/namespace.c:161-172 | a given type is kept; with none, a new namespace that is not a reconfiguration gets "pmem" and everything else stays without a type |
| NamespaceOpts.FinalMode | ndctl/namespace.c:174-199 | a given mode is replaced by the name it stands for (an unknown one is kept); with none, a type and no reconfiguration give "memory" for pmem and "safe" for any other type |
| NamespaceOpts.SetDefaults | ndctl/namespace.c:157-261 | the result is 0, -EINVAL or -ENXIO, and the size, alignment, uuid and reconfiguration options come back unchanged |
| NamespaceOpts.AcceptedIffChecksPass | ndctl/namespace.c:157-261 | the options are accepted exactly when every check passes |
| NamespaceOpts.LastErrorWins | ndctl/namespace.c:220-258 | with no early return the last failing check decides: -ENXIO exactly when a blk namespace asks for a direct-access mode and none of the later checks fails, -EINVAL exactly when a later check fails or an earlier one fails without the blk/dax clash |
| NamespaceOpts.AcceptedIsNormal | ndctl/namespace.c:157-261 | accepted options come back with a known type and mode name, a memmap location unless reconfiguring, a type and a mode for a new namespace, a sector size that `parse_size64` as written accepts for a blk namespace or sector mode, and no blk namespace in a direct-access mode |
| NamespaceOpts.WrappedSizePassesCheck | ndctl/namespace.c:228-232 | a `--size` of "16777217T", whose product wraps undetected in `parse_size64`, passes the size check: the outcome is the one without the size |
| NamespaceOpts.ModeDefaultRecorded | ndctl/namespace.c:193-199 | the default-mode flag is set exactly when no mode was given and one was chosen |
| NamespaceOpts.ScanDefaults | ndctl/namespace.c:157-261 | with no options a new namespace is a pmem namespace in memory mode with its memmap on the device and no sector size |
| NamespaceOpts.BlkFallbackDefaults | ndctl/namespace.c:157-261 | with only the blk type a new namespace is in sector mode with 4096-byte sectors and a memmap location it does not use |
| NamespaceOpts.NotIdempotent | ndctl/namespace.c:201-218 | running the defaults again on their own output can fail: the memmap filled in for a sector-mode namespace fails the map check the second time |
| NamespaceOpts.ModeId | ndctl/namespace.c:516-526 | "memory" selects memory mode, "sector" and "safe" sector mode, "dax" dax mode, and every other string raw mode |
| NamespaceOpts.AliasesResolve | ndctl/namespace.c:516-526 | the aliases reach the validation as the mode they mean only because the defaults rewrite them; the raw aliases "fsdax" and "devdax" would select raw mode |
| NamespaceOpts.RegionMode | ndctl/namespace.c:516-535 | memory and dax mode on a region that is not pmem give -EAGAIN; every other case gives the selected mode |
| NamespaceOpts.Suffix | ndctl/namespace.c:642-651 | the recommendation is written with the suffix whose unit is the size's unit, and with none for plain bytes |
| NamespaceOpts.SizeAdviceAsWritten | ndctl/namespace.c:639-667 | the check as written, in 64-bit arithmetic: no advice exactly when the size is a multiple of the wrapped align times ways, and any advice is below 2^64 |
| NamespaceOpts.SizeAdvice | ndctl/namespace.c:639-667 | with exact products: no advice exactly when the size is a multiple of align times ways |
| NamespaceOpts.NextMultipleBounds | ndctl/namespace.c:659-661 | the rounded size lies above the size by at most one step and no multiple of the step lies in between |
| NamespaceOpts.AdviceIsNextMultiple | ndctl/namespace.c:657-662 | the advice times its units is the next multiple of max(units, align) times ways above the size, when one of units and align divides the other |
| NamespaceOpts.AdviceAccepted | ndctl/namespace.c:641-662 | the advised size, in bytes, passes the same alignment check |
| NamespaceOpts.AdviceAgreesWithoutWrap | ndctl/namespace.c:657-662 | while the step and the rounded size stay below 2^64 the 64-bit advice is the exact one |
| NamespaceOpts.AdviceWrapsToZero | ndctl/namespace.c:659-662 | a size just below 2^64 that is not 2 MiB aligned is advised to become 0, because the next multiple wraps to zero |
| IntelSmart.SmartFieldAt | ndctl/lib/intel.h:28-50 | each health field lies, 1, 2 or 4 bytes wide, before the vendor data of the packed 132-byte reply |
| IntelSmart.ThreshFieldAt | ndctl/lib/intel.h:52-64 | each threshold field lies inside the packed 12-byte threshold reply |
| IntelSmart.SetFieldAt | ndctl/lib/intel.h:66-72 | each threshold lies before the status of the packed set-threshold command and has the width it has in the threshold reply |
| IntelSmart.Translate | ndctl/lib/intel.c:93-199 | a generic flag is reported exactly when the Intel bit paired with it in the table is set |
| IntelSmart.EncodeBit | ndctl/lib/intel.h:10-26 | bit k of the encoding of a set of flags is set exactly when some listed flag of the set is paired with bit k |
| IntelSmart.TranslateEncode | ndctl/lib/intel.c:93-199 | with a one-to-one table, translating the encoding of a set of listed flags gives the set back |
| IntelSmart.AllocIntelCmd | ndctl/lib/intel.c:19-57 | a command exists exactly when the DIMM supports the call and the function; it is an unsubmitted ND_CMD_CALL of the Intel family for that function with the given transfer sizes and a zeroed payload |
| IntelSmart.NewSmart | ndctl/lib/intel.c:59-72 | the health request asks for function ND_INTEL_SMART, sends nothing and reads the 132-byte reply |
| IntelSmart.NewSmartThreshold | ndctl/lib/intel.c:205-219 | the threshold request asks for function ND_INTEL_SMART_THRESHOLD, sends nothing and reads the 12-byte reply |
| IntelSmart.ReplyValid | ndctl/lib/intel.c:74-170 | a reply is valid (0) exactly for a completed Intel call of the function; otherwise the result is the command's own failure status when negative, else -EINVAL |
| IntelSmart.GetFlags | ndctl/lib/intel.c:93-126 | an invalid reply has no flags; a valid one has exactly the generic flags whose Intel validity bit is set |
| IntelSmart.GetHealth | ndctl/lib/intel.c:128-143 | an invalid reply has no health bits; a valid one has exactly those whose Intel health bit is set |
| IntelSmart.GetSmartField | ndctl/lib/intel.c:85-152 | a getter returns UINT_MAX for an invalid reply and the little-endian field of the reply otherwise |
| IntelSmart.GetVendorData | ndctl/lib/intel.c:154-159 | vendor data exists exactly for a valid reply and is the 92 bytes after the vendor size |
| IntelSmart.GetAlarmControl | ndctl/lib/intel.c:181-199 | an invalid reply has no trips; a valid one has exactly the trips whose alarm-control bit is set |
| IntelSmart.GetThreshField | ndctl/lib/intel.c:172-203 | a threshold getter returns UINT_MAX for an invalid reply and the 16-bit field of the reply otherwise |
| IntelSmart.NewSetThreshold | ndctl/lib/intel.c:221-249 | a set-threshold command exists exactly for a valid threshold reply on a DIMM that supports it; it is unsubmitted, sends the 7 bytes before the status and reads 4 |
| IntelSmart.SetThreshField | ndctl/lib/intel.c:251-270 | a setter succeeds exactly on an unsubmitted set-threshold command; on failure it returns -EINVAL and changes nothing, and it never changes the command's type, status or family |
| IntelSmart.SupportedAlarms | ndctl/lib/intel.c:272-279 | a set-threshold command supports the spare, media-temperature and controller-temperature trips; any other command supports none |
| IntelSmart.FlagsRoundTrip | ndctl/lib/intel.c:93-126 | a valid reply whose validity bits encode a set of generic flags reads back as that set |
| IntelSmart.UnlistedBit | ndctl/lib/intel.c:93-126 | a single bit that no table entry uses translates to no flag |
| IntelSmart.ReservedBitIgnored | ndctl/lib/intel.h:10-20 | bit 8 and every bit above 11 of the validity flags set no generic flag |
| IntelSmart.HealthRoundTrip | ndctl/lib/intel.c:128-143 | a valid reply whose health byte encodes a set of health flags reads back as that set |
| IntelSmart.AlarmControlRoundTrip | ndctl/lib/intel.c:181-199 | a valid threshold reply whose alarm control encodes a set of trips reads back as that set |
| IntelSmart.NarrowFieldMarksInvalid | ndctl/lib/intel.c:85-91 | for a one- or two-byte field, UINT_MAX comes back exactly when the reply is invalid |
| IntelSmart.SetThresholdCopies | ndctl/lib/intel.c:240-245 | a fresh set-threshold command is settable and holds each threshold of the reply it was built from |
| IntelSmart.SetterStores | ndctl/lib/intel.c:262-270 | a setter on a settable command stores the value truncated to the field, leaves the other thresholds alone and keeps the command settable |
| IntelSmart.SubmittedRefusesSetters | ndctl/lib/intel.c:255-276 | a command that is no longer unsubmitted refuses every setter and supports no alarms |
| IntelSmart.FreshSetThresholdAlarms | ndctl/lib/intel.c:233-279 | a set-threshold command built from a valid reply supports the three trips |
| CligenPayload.SubChar | cligen/cligen.py:191-198 | removing or replacing one character rewrites each of its occurrences in place and leaves none behind |
| CligenPayload.TokenSubs | cligen/cligen.py:121-198 | `re.sub("__le", "u", t)` turns each token into the unsigned type of the same number of bits, and removing underscores gives "u8" or "le" followed by the bit count |
| CligenPayload.HostType | cligen/cligen.py:118-121 | the host type of a token is "u" followed by the token's width in bits |
| CligenPayload.Conversion | cligen/cligen.py:190-202 | a value is passed through exactly for the one-byte token; every other token is converted by the helpers named after its own width |
| CligenPayload.TokenOfWidth | cligen/cligen.py:153-158 | the table has a token exactly for 1, 2, 4 and 8 bytes, and that token has the given width |
| CligenPayload.Types | cligen/cligen.py:146-169 | with a unit size: an array of the unit's token holding the whole units that fit; otherwise a scalar exactly for the four token widths, else an array of the widest token that divides the size, which covers it exactly |
| CligenPayload.TypesExamples | cligen/cligen.py:146-169 | 3 bytes give three u8, 12 bytes three __le32, 16 bytes two __le64, 0 bytes an empty __le64 array, 6 bytes in 4-byte units one __le32, and 4 bytes in 3-byte units one element of no type |
| CligenPayload.FormatSpecifier | cligen/cligen.py:135-144 | the format is `%lx` exactly for __le64 and `%x` for every other type, an unknown one included |
| CligenPayload.InsertByValue | cligen/cligen.py:110 | inserting into enumerators sorted by value keeps them sorted and adds exactly the new one |
| CligenPayload.SortByValue | cligen/cligen.py:110 | the enumerators come out in ascending value order and as a permutation of the input |
| CligenPayload.Lower | cligen/cligen.py:590-592 | lower-casing keeps the length and maps each character on its own |
| CligenPayload.LowerIdempotent | cligen/cligen.py:69-82 | a lower-cased name has no upper-case letter, so lower-casing it again changes nothing |
| CligenPayload.NamesAsWrittenFrom | cligen/cligen.py:79-88 | each name as written is the lower-cased mnemonic, or that mnemonic with the byte offset appended |
| CligenPayload.NamesAsWritten | cligen/cligen.py:79-88 | the deduplication as written gives one name per parameter |
| CligenPayload.RenamedNameCollides | cligen/cligen.py:85-88 | parameters "a12" at offset 0, "a" at 4 and "a" at 12 are named "a12", "a", "a12": the renamed mnemonic is not checked again and collides |
| CligenPayload.Unused | cligen/cligen.py:85-88 | appending the offset until the name is free gives a name not yet taken that starts with the mnemonic, and the mnemonic itself when it is free |
| CligenPayload.NamesFrom | cligen/cligen.py:79-88 | the corrected naming gives pairwise distinct names, none of them already taken, each starting with its lower-cased mnemonic |
| CligenPayload.Names | cligen/cligen.py:79-88 | the corrected names of a payload's parameters are pairwise distinct and each starts with its lower-cased mnemonic |
| CligenPayload.NamesAgreeFrom | cligen/cligen.py:85-88 | where the names as written are distinct from one another and from those taken, the correction gives exactly the same names |
| CligenPayload.NamesAgree | cligen/cligen.py:79-88 | on every schema whose names as written are distinct, the corrected naming equals the naming as written |
| CligenPayload.MakeParam | cligen/cligen.py:89-122 | a parameter fails to build exactly when its unit size has no token; otherwise it keeps its name, size and offset, its enumerators are sorted by value, its format is `%s` exactly with enumerators and `%lx` exactly for an __le64 element without them, and its storage covers the size (exactly without a unit size, to within one unit with one) |
| CligenPayload.MakeParams | cligen/cligen.py:81-122 | the parameters fail to build exactly when one of them does; otherwise each is built from its schema entry under its name |
| CligenPayload.NewPayload | cligen/cligen.py:59-76 | a text size gives a variable-sized payload without parameters that still counts as simple; a built payload keeps the size and the lower-cased mnemonic |
| CligenPayload.PayloadBuilt | cligen/cligen.py:59-133 | a fixed-size payload fails exactly when some unit size has no token; once built it has one parameter per schema entry, built under its name as written, it is simple exactly when every parameter is 1, 2, 4 or 8 bytes, and `params_used` holds exactly when some lower-cased mnemonic is not "rsvd" |
| CligenPayload.PayloadNamesDistinct | cligen/cligen.py:79-88 | a built payload declares every member name once exactly when the names as written are distinct, and then the names are the corrected ones |
| CligenPayload.PayloadRepeatsMember | cligen/cligen.py:79-88 | the schema "a12"@0, "a"@4, "a"@12 builds a payload whose first and third members are both named "a12" |
| CligenPayload.MnemonicsKeepNamesFrom | cligen/cligen.py:79-88 | mnemonics distinct from one another and from those taken are never renamed |
| CligenPayload.MnemonicsKeepNames | cligen/cligen.py:79-88 | a payload whose lower-cased mnemonics are distinct names every parameter by its mnemonic, so its names are distinct |
| CligenPayload.SimpleMeansScalars | cligen/cligen.py:127-169 | without unit sizes a payload is simple exactly when every parameter is one scalar, and every parameter's storage takes exactly its size |
| CligenEmit.UserParams | cligen/cligen.py:247-250 | the exposed parameters are exactly the parameters whose name is not "rsvd" followed by digits |
| CligenEmit.ParamStruct | cligen/cligen.py:204-219 | the parameter struct has one member per exposed input parameter, named after it, in schema order, then `verbose` last |
| CligenEmit.StorageHolds | cligen/cligen.py:213-216 | a member holds every value of its parameter exactly when the parameter is at most eight bytes wide |
| CligenEmit.NextFlag | cligen/cligen.py:262-265 | the next candidate flag never passes 'z', and past 'z' it is 'A' |
| CligenEmit.NextFree | cligen/cligen.py:261-265 | a flag the loop stops at is not taken and is the start or a character up to 'z' |
| CligenEmit.PickFlag | cligen/cligen.py:260-265 | a chosen flag is not taken and is the mnemonic's first character or a character up to 'z' |
| CligenEmit.PickFinds | cligen/cligen.py:261-265 | the flag loop ends whenever some character from 'A' to 'z' is free |
| CligenEmit.FreeLetter | cligen/cligen.py:261-265 | with fewer than 58 flags taken some character from 'A' to 'z' is free |
| CligenEmit.AssignFlags | cligen/cligen.py:239-266 | assigned flags are one per mnemonic, none of them taken at the start, pairwise distinct, and the first is the first mnemonic's first character when that is free |
| CligenEmit.FlagsAssigned | cligen/cligen.py:260-266 | every option gets a flag when no mnemonic is empty and at most 58 characters are needed or taken |
| CligenEmit.OptionsFrom | cligen/cligen.py:235-269 | no options macro exactly without `params_used`; otherwise one option per exposed input parameter, with pairwise distinct flags none of which was taken |
| CligenEmit.OptionsAsWritten | cligen/cligen.py:235-269 | the options as written, whose flag loop starts with no flag taken, have pairwise distinct flags |
| CligenEmit.DefOptions | cligen/cligen.py:231-269 | the corrected options never use the base option's 'v' and have pairwise distinct flags |
| CligenEmit.VerboseClash | cligen/cligen.py:233-266 | an input parameter "vdd_bias" gets the flag 'v' as written, the flag `verbose` already has in the same table; the corrected loop gives it 'w' |
| CligenEmit.NextFreeAvoids | cligen/cligen.py:260-266 | taking one more flag that the walk never stops at leaves the chosen flag unchanged |
| CligenEmit.AssignAvoids | cligen/cligen.py:255-266 | flags assigned without ever choosing x are assigned alike when x is taken from the start |
| CligenEmit.OptionsAsWrittenFail | cligen/cligen.py:260-265 | the options as written are not produced exactly when the flag loop stops short; an empty exposed mnemonic always makes it (`mn[0]` raises), and with no empty mnemonic and at most 58 exposed parameters it never does |
| CligenEmit.OptionsAgree | cligen/cligen.py:235-269 | where the options as written hand out no 'v', they are exactly the corrected options |
| CligenEmit.OptionsProduced | cligen/cligen.py:235-269 | with no empty mnemonic and at most 57 exposed parameters the corrected options are always produced |
| CligenEmit.OptionsMatchStruct | cligen/cligen.py:213-267 | each option names the struct member it fills, and it is an `OPT_UINTEGER` exactly when that member is a `u32` |
| CligenEmit.NumberedReservedOnly | cligen/cligen.py:249-250 | a payload whose only parameter is "rsvd1" counts as using parameters and defines an options macro with no option in it |
| CligenEmit.ReservedFiltered | cligen/cligen.py:249-250 | a parameter named "rsvd1" is not exposed |
| CligenEmit.OptionStruct | cligen/cligen.py:222-229 | the option table starts with the base options and ends with the end marker |
| CligenEmit.OptionTableUsesDefinedMacro | cligen/cligen.py:226-237 | the option table refers to the options macro exactly when that macro is defined |
| CligenEmit.Prototype | cligen/cligen.py:452-474 | the prototype takes one argument per exposed input parameter, typed with the host type of its element |
| CligenEmit.ActionCall | cligen/cligen.py:271-294 | the command passes one argument per exposed input parameter |
| CligenEmit.CallMatchesPrototype | cligen/cligen.py:279-293 | each argument of the call is the struct member of the prototype's parameter of the same position, cast to a pointer exactly where the prototype takes one, and each such member exists in the parameter struct |
| CligenEmit.MemCmdInfo | cligen/cligen.py:307-316 | the command info starts with the id and the opcode |
| CligenEmit.SizeMacros | cligen/cligen.py:312-315 | an input-size macro is defined exactly for a present non-zero input size, with that size; likewise for the output size |
| CligenEmit.Declaration | cligen/cligen.py:171-185 | a declaration carries the parameter's name and takes as many bytes as its storage |
| CligenEmit.Mbox | cligen/cligen.py:319-327 | there is no mailbox struct exactly for a payload without parameters; otherwise one member per parameter, reserved ones included, in order |
| CligenEmit.TilesBytes | cligen/cligen.py:319-327 | declarations of parameters laid end to end, each covering its bytes, add up to the span they cover |
| CligenEmit.MboxMatchesSize | cligen/cligen.py:319-327 | when the parameters tile the payload and each type covers its bytes, the packed mailbox struct is exactly the payload's size |
| CligenEmit.EnumNames | cligen/cligen.py:356-359 | the description array lists the enumerator names in their sorted order |
| CligenEmit.Descriptions | cligen/cligen.py:352-359 | there is at most one description array per output parameter |
| CligenEmit.CxlExport | cligen/cligen.py:330-449 | the exported function takes the prototype's arguments, declares the query and input when `params_used` and the output when the output has parameters, stores each exposed input when `params_used`, and prints a heading and each exposed output exactly when the output has parameters |
| CligenEmit.ExportConversions | cligen/cligen.py:385-443 | each store converts to the width of its parameter and loops exactly over arrays; each print uses the descriptions exactly for a scalar with enumerators and otherwise converts back with the same width |
| CligenEmit.DescriptionByValue | cligen/cligen.py:435 | indexing the descriptions by the raw value names the right enumerator when the values are 0, 1, 2, … in order |
| CligenEmit.DescribeAsWritten | cligen/cligen.py:435 | `descriptions[value]` gives the name at that position exactly when the value is an index of the array, and nothing (a read past it) otherwise |
| CligenEmit.Describe | cligen/cligen.py:103-110 | the intended print gives a name exactly when some enumerator has the value, and then that enumerator's name |
| CligenEmit.DescriptionIndexIff | cligen/cligen.py:435 | with distinct names, indexing by the raw value prints every enumerator's own name exactly when the values are 0, 1, 2, … in order |
| CligenEmit.DescribesAgree | cligen/cligen.py:435 | for values 0, 1, 2, … in order, the print as written shows the intended name for every value |
| CligenEmit.DescribeFirst | cligen/cligen.py:103-110 | the intended print names the first enumerator with the value |
| CligenEmit.DescriptionShifted | cligen/cligen.py:435 | with values 1 and 2, value 1 prints the name of value 2 and value 2 reads past the array, where the intended print names "one" and "two" |
| CligenEmit.Repeat | cligen/cligen.py:420-422 | Python's `n * c` gives n copies of the character, none for n of zero or less |
| CligenEmit.HeadingShape | cligen/cligen.py:420-423 | the heading is 80 columns wide, or just the name and its two spaces when longer; a name of up to 78 characters sits in the middle with a right `=` run as long as the left one or one longer |
| CligenRun.Put | cligen/cligen.py:599-632 | storing under a key on a Python dict puts a new key at the end and leaves an existing key in its place; the key then maps to the new value and every other key keeps its value |
| CligenRun.PutKeepsDistinct | cligen/cligen.py:599-632 | storing under a key keeps every key listed once |
| CligenRun.Generate | cligen/cligen.py:601-632 | the command-table name is the mnemonic with every underscore turned into a dash, of the same length; the options are those of the flag loop as written |
| CligenRun.ClassifyOutcomes | cligen/cligen.py:594-611 | a command is dropped exactly when its input payload builds and is not simple; skipped only when a payload size is a text, with both sizes recorded; generated only from fixed-size payloads whose input parameters are all 1, 2, 4 or 8 bytes wide and whose flag loop ends; its pass never finishes exactly when a payload fails to build or, for a command about to be generated, the flag loop raises or never ends |
| CligenRun.EmptyMnemonicFails | cligen/cligen.py:594-611 | a command about to be generated with an exposed parameter of empty mnemonic does not finish its pass |
| CligenRun.EmptyMnemonicStopsRun | cligen/cligen.py:589-611 | such a command anywhere in the schema stops the run |
| CligenRun.UnnamedParameterStopsRun | cligen/cligen.py:82-84 | a parameter without a mnemonic gets "", counts as used, and stops the run at the flag loop |
| CligenRun.GeneratedFits | cligen/cligen.py:594-632 | a generated command's parameter struct holds every exposed input parameter in full, and its options carry distinct flags; when none of them is the `verbose` flag 'v' they are exactly the corrected options |
| CligenRun.SimpleParamsNarrow | cligen/cligen.py:127-133 | every exposed parameter of a simple payload is at most eight bytes wide |
| CligenRun.FoldDefined | cligen/cligen.py:589-632 | the loop completes exactly when no command raised |
| CligenRun.RunDefined | cligen/cligen.py:571-632 | the run completes exactly when every command's pass finishes: its payloads build and, for a generated command, the flag loop neither raises on an empty mnemonic nor runs out of flags |
| CligenRun.FoldTables | cligen/cligen.py:589-632 | after the loop each table lists every key once, with the last generated entry and the last skipped sizes under that key |
| CligenRun.RunTables | cligen/cligen.py:571-632 | each table lists every key once; a key's entry is that of the last generated command of that name and its skipped sizes those of the last skipped one, and a dropped command leaves no trace |
| CligenRun.FoldKeepsOrder | cligen/cligen.py:589-632 | a later pass never reorders the tables: the keys after a prefix of the passes lead the keys after all of them |
| CligenRun.RunKeepsOrder | cligen/cligen.py:571-632 | the keys after a prefix of the commands lead the keys after all of them |
| CligenRun.DroppedIgnoresOutput | cligen/cligen.py:594-597 | a command whose input payload is not simple is dropped whatever its output payload holds |

## Left out

- Kernel and file I/O are parameters, not effects. This covers ioctls,
  sysfs reads, `pread`/`pwrite`/`mmap`, the environment variable of
  `log_init`, and the firmware replies of the transfer loop.
  `ndctl_unbind` is represented only by whether the region is still
  enabled afterwards.
- cligen's YAML loading, `build_results`, the anchor-based rewriting of
  the template files, and `base()` (a file path) are left out: they are
  file I/O.
- Emitted C text is not byte-exact. Fragments are records of members,
  options, macros, declarations and call arguments. Whitespace,
  indentation and the fixed text of `generate_cmd_def` and
  `generate_libcxl_sym`, which only splice in the command name, are left
  out.
- `get_variable_length` in cligen/cligen.py has an empty body and is
  never called, so it has no model.
- CligenPayload.Lower: lower-cases ASCII letters only, not Python's full
  Unicode `str.lower()`. The schema mnemonics are ASCII.
- CligenEmit.NumberedReservedOnly: the reserved-name pattern `^rsvd\d*$`
  is matched with ASCII digits only, where Python's `\d` also matches
  other Unicode digits.
- CligenPayload.SortByValue: proved sorted and a permutation. Python's
  sort is also stable, and stability is not proved.
- CligenEmit.PickFlag: the `while flag in flags` loop is cut off after
  122 steps and returns no flag. When every letter is taken, the source
  loops for ever. When a free letter exists, 122 steps always reach it
  (`NextFreeReaches`). A loop with no flag left counts, like the
  `IndexError` of an empty mnemonic, as a pass that never finishes:
  `CligenRun.Classify` gives no outcome and the run gives no tables
  (`ClassifyOutcomes`, `RunDefined`). The model does not tell a raise
  from a hang.
- CmdXfer.ChunkPlan: requires `max_xfer > 0`. With zero, the C loop
  never advances, and its callers always take `max_xfer` from the
  firmware's non-zero size reply. `CmdXfer.DoCmd` requires the same for
  a non-empty transfer.
- CmdXfer.ChunkPlan: chunk offsets are unbounded naturals, whereas the
  source's loop offset is a `u32`. The two visit the same offsets while
  total + max_xfer stays at or below 2^32 (`OffsetsAgree`). Beyond that
  the source's offset wraps and the transfer restarts (see Findings),
  which the plan does not follow.
- CmdXfer.ChunkLoop, CmdXfer.ReadAssembles, CmdXfer.DoCmd: they run over
  `ChunkPlan`, so the same limit holds.
- Inject.MergeRecords: the pass is built on the corrected unbounded
  step. The source's u64 pass is `Inject.MergePassU64`. The two return
  the same list when no range is empty and none reaches block 2^64
  (`MergePassesAgree`). Otherwise the source can lose blocks
  (`EmptyRangeAtZeroLosesBlocks`).
- Inject.BbAddRecord: merges with `MergeRecords`, so its coverage
  promise holds for the source only under that same condition.
- Inject.InjectionStatusToBb: adds records through `BbAddRecord`. A
  zero-length record at a block-aligned offset gives an empty range
  (`EmptyRecordAtStart`), and for such a list the source's merge can
  lose blocks.
- Ars.RecordAddr, Ars.RecordLen: a firmware count above the number of
  records the output buffer holds makes the source read past the
  buffer. For such an index the model returns 0.
- NamespaceOpts.SizeAdviceAsWritten: requires align·ways and
  max(units, align)·ways to be non-zero after 64-bit wrap-around. The
  source divides by them, and a zero (align 0, or a product that wraps
  to 0) is a division by zero, which is not modelled.
- CligenRun.GeneratedFits: does not promise that the options avoid the
  `verbose` flag 'v'. The flag loop as written can hand out 'v' (see
  Findings). The lemma promises the corrected options wherever it does
  not.
- CligenPayload.PayloadNamesDistinct: promises distinct member names
  only where the names as written are distinct. The source can repeat a
  name (see Findings, `PayloadRepeatsMember`).
- CmdXfer.CfgReadGetData: requires the buffer to be shorter than 2^32
  bytes, which the `u32` length field of the C structure already
  guarantees.
- IntelSmart.SetterStores: the stored value is stated only when the
  command payload is long enough to hold the set-threshold fields.
  Commands built by `NewSetThreshold` always are.
- Allocation failures (`-ENOMEM`, a NULL from `calloc`) are not modelled
  as outcomes, except where the source's result depends on them:
  `alloc_intel_cmd` takes an `available` flag. This covers `parse_add_spa`,
  the BTT bitmap allocation and the sector-size list copy.
- Strings carry no embedded NUL bytes beyond what `CStr` treats as the
  terminator, and there is no locale.
- The unit multipliers that `__parse_size64` returns for the
  size-alignment advice are an input, because that function is not part
  of this model.
- Constants that live in headers outside this model are restated by
  value: ND_CMD_ARS_STATUS (3), ND_CMD_CLEAR_ERROR (4), ND_CMD_CALL (10),
  NVDIMM_FAMILY_INTEL (0), ARS_STATUS_MASK (0xffff),
  ARS_EXT_STATUS_SHIFT (16), BTT1_START_OFFSET (4096), BTT2_START_OFFSET
  (0), and the NDCTL_NS_MODE order MEMORY, SAFE, RAW, DAX, UNKNOWN.
- The kernel's command-name table is a parameter of the command-mask
  parser. The host byte order is a parameter of `fletcher64`.
- The bit `1 << i` of the command mask is a natural, without the C
  `int` width. Every command index of the table is below 32.
- `uuid_parse` of libuuid is not part of this model. The namespace
  options accept the 36-character 8-4-4-4-12 hexadecimal form.
- The older duplicate files (builtin-read-labels.c, builtin-zero-labels.c,
  builtin-xaction-namespace.c, lib/libndctl-ars.c) and `acpi_checksum`
  repeat logic that is modelled once, by the modules above.
- Two functions repeat another file's code line for line, so each is
  modelled once:
  - the `fletcher64` of ndctl/builtin-dimm.c:374-387 is `Fletcher`;
  - the `parse_size64` of builtin-create-nfit.c:28-65 is `Size`.
- Concurrency and locking, JSON rendering, floating point (SMART
  temperatures), and event loops and polling are outside the modelled
  core.

## Findings

| source | as written | input that shows it | evidently intended | confidence | as-written member | corrected member |
|---|---|---|---|---|---|---|
| ndctl/check.c:507-552 | the bitmap check treats a map with no free blocks as an error, because its "every block referenced once" test relies on the log lanes | an arena of one internal and one external block, nfree = 0, whose map sends block 0 to block 0 | a perfect map passes | not executed | BttCheck.PerfectMapWithoutFreeBlocks | BttCheck.CheckBitmapFixed |
| ndctl/lib/inject.c:69-73 | the bounds check adds offset and length in 64 bits, so a huge block count wraps and passes | ns_offset 0, ns_size 512, block 0 and count 2^55: the length 512·2^55 wraps to 0 | a range past the namespace end gives -EINVAL | not executed | Inject.HugeCountPassesBoundsCheck | Inject.BlockToSpaOffsetChecked |
| ndctl/lib/inject.c:250-268 | the merge computes cur_end = block + count - 1 in u64, so an empty record at block 0 wraps to ULLONG_MAX and swallows the next record | records (block 0, count 0) then (block 7, count 1) | an empty record covers nothing and merges with nothing | not executed | Inject.EmptyRangeAtZeroLosesBlocks | Inject.MergeRecords |
| util/size.c:32-40 | wrap-around is detected only when the scaled value is below the unscaled one | "16777217T": 16777217·2^40 wraps to 2^40, which is not smaller | ULLONG_MAX for any value that does not fit in 64 bits | not executed | Size.WrapUndetected | Size.ParseSize64Checked |
| ndctl/lib/ars.c:301-302 | address + len is compared in u64, so a wrapping range passes the upper-bound check | an aligned capability address a > 0 and a request at a of length 2^64 - a, so that address + len wraps to 0 | a range outside the capability is refused | not executed | Ars.ClearErrorWrapAccepted | Ars.NewClearError |
| ndctl/lib/libndctl.c:2428-2452 | the loop offset is a u32, so a total near 2^32 wraps the offset back to the start | total_xfer 2^32 - 1 and max_xfer 2^31: the offsets run 0, 2^31, 0 | each chunk starts where the previous one ended | not executed | CmdXfer.OffsetWrapRestarts | CmdXfer.ChunkPlan |
| ndctl/namespace.c:657-662 | the recommended size is computed in u64 and wraps to 0 for a size near the top of the range | size 2^64 - 2, units 1, align 2 MiB, one way: the advice is 0 instead of 2^64 | the next multiple of align·ways above size | not executed | NamespaceOpts.AdviceWrapsToZero | NamespaceOpts.SizeAdvice |
| cligen/cligen.py:233-266 | the taken-flag set starts empty, so a mnemonic starting with 'v' gets the flag 'v' that the base `verbose` option already has (cxl/memdev.c:1129-1135) | an input parameter named "vdd_bias" is given flag 'v' instead of 'w' | generated flags never clash with 'v' | not executed | CligenEmit.VerboseClash | CligenEmit.DefOptions |
| cligen/cligen.py:85-88 | a repeated mnemonic is renamed to mnemonic + offset without checking the new name, which may already be taken | mnemonics "a12" at offset 0, "a" at offset 4 and "a" at offset 12: the third becomes "a12" | every parameter name in a payload is unique | not executed | CligenPayload.RenamedNameCollides | CligenPayload.Names |
| cligen/cligen.py:435 | the generated print indexes the description array, sorted by value, with the raw field value, which names the right enumerator only for values 0, 1, 2, … | enumerators of values 1 and 2: value 1 prints the name of value 2, and value 2 reads past the two-entry array | each value prints its own enumerator's name | not executed | CligenEmit.DescriptionShifted | CligenEmit.Describe |

The corrected member is the definition the rest of the model uses. A
lemma ties each one to its as-written twin where the two agree:
`Size.ParsersAgreeWithoutWrap`, `Inject.BoundsChecksAgree`,
`Inject.MergePassesAgree`, `Ars.ClearErrorAgreesWithoutWrap` (with the
acceptance condition in `Ars.ClearErrorMeans`), `CmdXfer.OffsetsAgree`,
`NamespaceOpts.AdviceAgreesWithoutWrap` (with `AdviceIsNextMultiple`),
`CligenEmit.OptionsAgree`, `CligenPayload.NamesAgree` and
`CligenEmit.DescribesAgree`.
