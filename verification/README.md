# Verified models of ChibiHash64, a kernel symbol scan, a hash table and a decimal printer

This project models the four pieces of the repository that have loops, modular arithmetic and state of their own, and
proves what they promise. `Common` holds what they share.

* **ChibiHash64 v2** (`Words`, `Casts`, `ChibiHash`, `KnownHashes`, `HashLanes`, `HashCollisions`,
  `HashStreaming`). A recursive specification over the message, the four-lane in-place algorithm proved to compute it,
  and the theorems: every lane evolves on its own and reversibly; the stripe loop has a closed form; which changes to a
  message the hash must notice; the output is a bijection; the hash can be fed in pieces; and the hash of a few keys,
  worked out to the number. 64-bit words are `bv64`, so every sum and product wraps as in C; the conversion of a length
  is spelt out from its binary digits and proved to be reduction modulo 2^64.
* **Kernel symbol scan** (`Numerals`, `KernelText`, `SymbolText`, `SymbolScan`, `PageHunt`). The kernel is a set of
  disjoint named address intervals, a partial map of readable words and an abstract instruction decoder. The module
  only sees the *text* of symbols; the text lemmas show that its cuts and parses recover exactly the numbers behind
  that text. The scans are specified twice, by the symbols alone and by what the printed text says, with lemmas that
  the two agree. Addresses are modulo 2^64 throughout.
* **Hash table** (`CString`, `HashTable`). A growable array that stays the first-occurrence list of the hashes
  inserted.
* **Decimal text** (`Numerals`, `Decimal`). Fixed-width printer and parser that undo each other, and the benchmark's
  reused template line.

Check everything with `dafny verify dfyconfig.toml`; under the default limits a slow machine may need
`--verification-time-limit 0`.

## Assumptions about the environment

* `sprint_symbol` prints `name+0xOFFSET/0xSIZE` in lower-case hexadecimal without leading zeros, followed by
  ` [module]` for a symbol of a loadable module, and `0xADDRESS` for an address no symbol covers. `kstrtoul` with base
  0 takes an optional plus sign, a radix prefix, digits and at most one newline. Both live in the kernel.
* `WellFormed`: symbol and module names contain neither `+` nor `/`, no two symbols cover one address, and no symbol
  reaches the top of the address space.
* A C object is shorter than 2^63 bytes. `unsigned long` has 64 bits.

## What the proofs found

* The comment on the stride (`lkm_template/main.c:81`) asks for at least 32 instructions; the stride is 64 bytes, so
  16 instructions are enough (`SymbolScan.StrideCannotMiss`).
* The page scan reads 513 words, one beyond the page's 512 (`lkm_template/main.c:298-308`), so it can report a word of
  the next page: `PageHunt.ScanLeavesPage` is such a kernel. Of the words it tries exactly the first 512 lie in the page
  the ADRP addresses (`PageHunt.SlotInPage`), and the word reported lies there exactly when the page holds a table slot
  at all (`PageHunt.ReportInPage`).
* `hunt_sct_adrp` need not terminate. If the range ends in the last bytes of the address space, so that the aligned
  position at or beyond its end has already wrapped to low addresses, only a hit stops the loop: a kernel whose
  `do_el0_svc` has 7 bytes from 2^64 - 8 on and leads to no table keeps the search going for ever, whatever the scan
  depth (`PageHunt.ResolveNeedNotReturn`). `PageHunt.WhenHuntReturns` is the exact condition and all that
  `PageHunt.HuntSctAdrp` requires; a built-in function made of whole instructions meets it
  (`PageHunt.WholeInstructionsReturn`).
* A symbol of a loadable module never yields a size: the module's name after the number makes the parse fail, and
  `get_ksym_size` answers its fallback (`PageHunt.SizeAtSymbolStart`).
* Two lengths below 2^64 share a length word only if they are equal or add up to 0xEAEA477CA5D24AE9 modulo 2^64
  (`HashCollisions.LengthWordsTwoToOne`); messages that reach the same h[1] collide exactly for such a pair
  (`HashCollisions.SameCombineCollides`).
* A byte of the tail that only one of the two tail words depends on cannot be changed unnoticed
  (`HashCollisions.OneTailByteNeverCollides`).
* `dumb_atoi` accumulates in an `int` and overflows, undefined in C, exactly when the leading digits exceed `INT_MAX`;
  the model answers `None` there. The sentinel is ambiguous for the text of `INT_MAX` itself
  (`Decimal.SentinelMeaning`).

## Model

The main results come first, marked in bold; the rows after them are what they rest on, module by module.

| member | source | states |
|---|---|---|
| `ChibiHash.ChibiHash64` | hashing/chibihash64.h:26-80 | **Main result.** For every signed length: the pointer-walking hash equals the specification on the first len bytes, reading each of them and nothing else; a negative length reads nothing and hashes the initial lanes with the wrapped length |
| `HashLanes.LaneIndependence` | hashing/chibihash64.h:44-63 | **Main result.** A lane after any message depends on the message and that lane's own start only |
| `HashLanes.AbsorbReversible` | hashing/chibihash64.h:44-63 | **Main result.** For a fixed message every lane can be run backwards: absorption is a permutation of each lane |
| `HashCollisions.OneStripeChangesTwoLanes` | hashing/chibihash64.h:44-63 | **Main result.** Changing exactly one 8-byte stripe i changes lanes i and (i+1)&3 of the final state and no other, whatever follows |
| `HashCollisions.OneByteShows` | hashing/chibihash64.h:29-63 | **Main result.** Changing any single byte of a message changes the final lanes: no byte is read in vain |
| `HashCollisions.OneWordNeverCollides` | hashing/chibihash64.h:52-79 | **Main result.** Two equal-length messages differing only inside one aligned 4-byte word of the 8-byte region never collide, for any seed |
| `HashCollisions.OneTailWordNeverCollides` | hashing/chibihash64.h:57-79 | **Main result.** Two equal-length messages that differ in their tails only, and there in one of the two tail words only, never collide, for any seed and length |
| `HashCollisions.CollideIff` | hashing/chibihash64.h:26-80 | **Main result.** Any two messages, of whatever lengths, collide exactly when their length word plus the seed, xored with their h[1], agree |
| `HashCollisions.SameCombineCollides` | hashing/chibihash64.h:26-80 | **Main result.** Two messages that reach the same h[1] collide exactly when their lengths are equal or add up to 0xEAEA477CA5D24AE9 |
| `HashCollisions.LengthWordsTwoToOne` | hashing/chibihash64.h:70-71 | **Main result.** Two lengths below 2^64 have the same length word exactly when they are equal or have one particular sum modulo 2^64 |
| `HashStreaming.HashStreams` | hashing/chibihash64.h:26-80 | **Main result.** The hash of a message can be computed by feeding it as any list of whole-block chunks and a remainder, the total length supplied at the end |
| `HashStreaming.StripeLoopClosedForm` | hashing/chibihash64.h:44-50 | **Main result.** After n blocks a lane is K^n times its start plus the blocks' terms weighted by powers of K |
| `SymbolScan.Lkm.CandidateStart` | lkm_template/main.c:72-119 | **Main result.** All checks at one address together report v exactly when the address is readable and belongs to a symbol named kallsyms_lookup_name that starts at v |
| `SymbolScan.Lkm.Bootstrap` | lkm_template/main.c:43-124 | **Main result.** Succeeds exactly when some readable address a multiple of 64 bytes and less than 25600000 bytes away, modulo 2^64, belongs to a symbol named kallsyms_lookup_name; stores that symbol's start, found at a nearest step; cannot miss a readable 64-byte symbol in the window; on failure has probed all 799999 addresses and changed nothing |
| `PageHunt.LookupSizeOffset` | lkm_template/main.c:129-167 | **Main result.** For every built-in symbol that covers the nonzero address, recovers that symbol's size and the address's offset in it; fails for address 0, uncovered addresses and module symbols |
| `PageHunt.HuntSctAdrp` | lkm_template/main.c:274-336 | **Main result.** Reports an ADRP and the nearest of the 513 words from its page that points to readable memory whose printed symbol contains sys_io_setup; over a range that ends before addresses wrap, no aligned ADRP before it, or before the end, has such a word, and failing is -ERANGE (34); terminates whenever any step stops the scan |
| `PageHunt.WhenHuntReturns` | lkm_template/main.c:280-334 | **Main result.** The scan returns exactly when its range ends before aligned positions wrap or some position it visits is a hit |
| `PageHunt.ReportInPage` | lkm_template/main.c:288-330 | **Main result.** The word the page scan reports lies in the page the ADRP addresses exactly when that page holds a table slot at all |
| `PageHunt.ResolveHandler` | lkm_template/main.c:338-352 | **Main result.** The search from any handler name, whenever it returns: -ENOENT (2) exactly when the lookup yields 0, as for an unknown name; otherwise the range starts at a symbol of that name and ends behind it, or at the fallback depth for a module's symbol or one of size zero; on a range that ends before addresses wrap it succeeds exactly when some aligned position leads to the table, reporting the lowest with the first slot of its page; on any other range it succeeds |
| `HashTable.TableIsDeduplication` | hashing/test.c:17-50 | **Main result.** Any run of insertions appends the nonzero hashes not yet present in order of first occurrence |
| `HashTable.NoFalseHit` | hashing/test.c:69-81 | **Main result.** In any table, the query's hash is there exactly when it is nonzero and some inserted string that is not one word away from the query has it: a string that differs inside one word of the 8-byte region, or through one tail word, is never the cause of a hit |
| `HashTable.InsertThenFind` | hashing/test.c:52-89 | **Main result.** The program's run: on a new table, after any insertions, the query is found exactly when some inserted string has its nonzero hash, and refused exactly when it is missing or its hash is zero |
| `Decimal.PrintThenParse` | syscall_shit/syscall_backports_test/syscall_test.c:12-30 | **Main result.** Parsing a printed number gives it modulo 10^len exactly when that fits an int |
| `Decimal.Bench.RunSuite` | syscall_shit/syscall_bench_nocrt0/bench.c:206-241 | **Main result.** The program's whole sequence writes 32 strings: newline, the setresuid title and line, newline, and four rounds of the newfstatat, faccessat and execve titles numbered 1 to 4, each followed by the line of its own run's average, and a newline |
| `Words.RotlIsRotation` | hashing/chibihash64.h:21-24 | the two-shift expression is a rotation for each amount the hash uses |
| `Words.MixersAsWritten` | hashing/chibihash64.h:71-77 | the three xor mixers the theorems use are the source's xors of rotations |
| `Words.TimesKIsProduct` | hashing/chibihash64.h:47-47 | the product by the spelt-out literal is the product by K |
| `Words.TimesKBijective` | hashing/chibihash64.h:32-32 | multiplication by the odd K is undone by a multiplication, in both directions |
| `Words.MixBeforeBijective` | hashing/chibihash64.h:75-75 | xor with rotations by 15 and 42 has an explicit two-sided inverse |
| `Words.MixAfterBijective` | hashing/chibihash64.h:77-77 | xor with rotations by 13 and 31 has an explicit two-sided inverse |
| `Words.FoldDownBijective` | hashing/chibihash64.h:67-67 | folding down by 31 four times is the identity |
| `Words.CrossInjective` | hashing/chibihash64.h:65-66 | two words with the same upper half cross over alike exactly when they are equal |
| `Words.MixLengthTwoToOne` | hashing/chibihash64.h:71-71 | xor with the rotation by 29 confuses two words exactly when they are equal or complements |
| `Casts.ToWordAdds` | hashing/chibihash64.h:70-70 | the conversion of a length turns sums of numbers into sums of words |
| `Casts.ToWordIsModulo` | hashing/chibihash64.h:70-70 | two numbers convert to one word exactly when they agree modulo 2^64 |
| `ChibiHash.AbsorbStripe` | hashing/chibihash64.h:46-48 | the in-place update of lanes i and (i+1)&3 is one stripe step |
| `ChibiHash.Reader.ReadByte` | hashing/chibihash64.h:61-62 | one byte of the key, entered in the log of positions read |
| `ChibiHash.PackBytes` | hashing/chibihash64.h:12-16 | byte i of the packed word is the i-th byte |
| `ChibiHash.Reader.Read32` | hashing/chibihash64.h:12-16 | the little-endian word of four bytes read one by one: bits 8i to 8i+7 are byte i; all four are entered in the log |
| `ChibiHash.Reader.Read64` | hashing/chibihash64.h:17-20 | the same for eight bytes, as two 32-bit reads, the first of which is the lower half |
| `ChibiHash.Load64Halves` | hashing/chibihash64.h:17-20 | the halves of a 64-bit load are the loads of its first and last four bytes |
| `ChibiHash.AbsorbBlock` | hashing/chibihash64.h:44-50 | the inner loop computes the block's four stripe steps; its reads add exactly the block's 32 positions to the log |
| `ChibiHash.AbsorbPair` | hashing/chibihash64.h:52-55 | one 8-byte step; its reads add exactly its 8 positions to the log |
| `ChibiHash.AbsorbTail` | hashing/chibihash64.h:57-63 | the 0 to 7 last bytes enter lanes 2 and 3; the overlapping and repeated reads add exactly their positions to the log |
| `ChibiHash.TailEnters` | hashing/chibihash64.h:57-63 | lane 2 is xored with the first byte itself and lane 3 with the middle and last byte for 1 to 3 bytes, and with the first and last four bytes for 4 to 7; lanes 0 and 1 stay |
| `ChibiHash.AbsorbBlocks` | hashing/chibihash64.h:44-50 | the stripe loop computes all whole blocks, for a negative length none |
| `ChibiHash.AbsorbMessage` | hashing/chibihash64.h:44-63 | the three loops compute the recursive specification; the positions read are exactly those of the message |
| `ChibiHash.Finish` | hashing/chibihash64.h:65-79 | the in-place finalizer computes the output as a function of the final lanes, length and seed |
| `HashLanes.Load32Injective` | hashing/chibihash64.h:12-16 | two loads agree exactly when their four bytes do |
| `HashLanes.Load64Injective` | hashing/chibihash64.h:17-20 | two loads agree exactly when their eight bytes do |
| `HashLanes.BlockLanes` | hashing/chibihash64.h:45-49 | the sequential sweep over the stripes amounts to four independent lane updates |
| `HashCollisions.SuffixAfterBlocks` | hashing/chibihash64.h:44-63 | a common suffix after whole blocks keeps equal lanes equal and different lanes different |
| `HashCollisions.SuffixAfterPairs` | hashing/chibihash64.h:52-63 | the same for a common suffix inside the 8-byte region |
| `HashCollisions.OneWordChangesOneLane` | hashing/chibihash64.h:52-63 | changing one aligned 4-byte word of the 8-byte region changes exactly its own lane |
| `HashCollisions.TailWordsInjective` | hashing/chibihash64.h:57-63 | the two tail words determine all tail bytes, overlapping and repeated reads included |
| `HashCollisions.TailChangeShows` | hashing/chibihash64.h:57-63 | messages that agree up to the tail reach the same lanes exactly when they are equal |
| `HashCollisions.OutputBijective` | hashing/chibihash64.h:70-79 | for fixed length and seed the output is a bijection of h[1], with an explicit inverse |
| `HashCollisions.CollideIffCombineEqual` | hashing/chibihash64.h:65-79 | equal-length messages collide exactly when their h[1] after the last addition agree |
| `HashCollisions.OutputsMeet` | hashing/chibihash64.h:70-79 | for any two lengths the outputs agree exactly when length word plus seed, xored with h[1], agree |
| `HashCollisions.LengthsMeet` | hashing/chibihash64.h:70-79 | for one h[1] two lengths give the same output exactly when they have the same length word |
| `HashCollisions.OneLaneReachesOutput` | hashing/chibihash64.h:65-68 | a difference in lane 0 alone or lane 1 alone survives the folding of the lanes |
| `HashCollisions.TailLaneReachesOutput` | hashing/chibihash64.h:65-68 | of states that differ at most in lane 2, or lane 3, exactly those meet whose tail lanes cross over alike; for two messages with a common prefix they never do, see OneTailWordNeverCollides |
| `HashCollisions.OneTailWordChangesOneLane` | hashing/chibihash64.h:57-63 | a tail change that only one tail word sees changes exactly that lane, and its lower half only |
| `HashCollisions.OneTailByteNeverCollides` | hashing/chibihash64.h:57-79 | changing one byte of a tail of 2 or 3 bytes, or one outside the overlap of the two loads of a longer tail, always changes the hash |
| `HashCollisions.SmallLengthsDistinct` | hashing/chibihash64.h:70-71 | lengths up to 0x757523BE52E92574 have pairwise different length words |
| `HashStreaming.AbsorbResumes` | hashing/chibihash64.h:44-63 | absorbing whole blocks and resuming from the lanes equals absorbing everything |
| `HashStreaming.ChunksAbsorbAsOne` | hashing/chibihash64.h:44-63 | the same for any list of whole-block chunks and a remainder |
| `KernelText.HexRoundTrip` | lkm_template/main.c:109-110 | parsing a printed 64-bit number gives it back |
| `KernelText.HexWithSuffixRejected` | lkm_template/main.c:147-148 | a number followed by a module suffix does not parse |
| `SymbolText.CutsIsolateNumbers` | lkm_template/main.c:96-104 | the cuts at the first slash and the first plus isolate exactly the offset and the size |
| `SymbolText.StartsWithName` | lkm_template/main.c:75-79 | the prefix test holds exactly for a symbol of that whole name |
| `SymbolText.ZeroOffsetText` | lkm_template/main.c:116-117 | "+0x0" occurs in a symbol's text exactly when the offset is zero |
| `SymbolText.IoSetupText` | lkm_template/main.c:318-322 | the substring test holds exactly when the symbol's or its module's name contains sys_io_setup |
| `SymbolScan.RadiatingOrder` | lkm_template/main.c:81-93 | the probes visit every step within the bound once, nearest first, upwards before downwards |
| `SymbolScan.SamplesRadiate` | lkm_template/main.c:81-91 | the addresses probed are the anchor, then 64 bytes above, 64 below, 128 above, 128 below and so on, modulo 2^64 |
| `SymbolScan.SamplesDistinct` | lkm_template/main.c:81-93 | no address is probed twice although addresses wrap |
| `SymbolScan.StrideCannotMiss` | lkm_template/main.c:81-91 | a readable symbol of at least 64 bytes inside the window contains a probe that reports its start |
| `SymbolScan.TargetIs` | lkm_template/main.c:72-119 | the probe's result without a lookup: exactly the readable addresses of the symbol sought are hits, and each reports that symbol's start |
| `SymbolScan.HitIs` | lkm_template/main.c:72-91 | the same for the step that the probe visits |
| `SymbolScan.HitsInReach` | lkm_template/main.c:81-93 | the steps within the bound are exactly the addresses at such distances |
| `SymbolScan.FirstHitIsNearest` | lkm_template/main.c:66-93 | the first probe that hits is a nearest one, and belongs to a symbol of that name |
| `PageHunt.GetKsymSize` | lkm_template/main.c:256-269 | the size of the built-in symbol that covers the address, and the fallback for size zero, a module's symbol, an uncovered address or address 0 |
| `PageHunt.SizeAtSymbolStart` | lkm_template/main.c:256-269 | at a symbol's start the true size is recovered exactly for built-in symbols of nonzero size |
| `PageHunt.ScanPage` | lkm_template/main.c:298-330 | finds the first of the 513 words that points to readable memory of a fitting symbol, or shows there is none |
| `PageHunt.TableSlotText` | lkm_template/main.c:305-322 | a word is a table slot exactly when it and the memory it points to are readable and the symbol printed for that memory contains sys_io_setup |
| `PageHunt.HitLeads` | lkm_template/main.c:288-330 | a hit is exactly a readable ADRP with such a word among the 513 from its page |
| `PageHunt.FirstSlotLeads` | lkm_template/main.c:300-330 | the first table slot of an ADRP is the nearest such word |
| `PageHunt.ReportLeads` | lkm_template/main.c:274-336 | what a report of the scan means in the text that is read |
| `PageHunt.SlotInPage` | lkm_template/main.c:288-308 | of the 513 words tried exactly the first 512 lie in the page the ADRP addresses |
| `PageHunt.ScanLeavesPage` | lkm_template/main.c:298-330 | a well-formed kernel in which the scan of one page reports the first word of the next |
| `PageHunt.HuntStops` | lkm_template/main.c:280-282 | the scan can leave its range exactly when the range ends before aligned positions wrap |
| `PageHunt.HuntCoversRange` | lkm_template/main.c:274-336 | over such a range it succeeds exactly when some aligned position leads to the table, and reports the lowest |
| `PageHunt.HuntDecides` | lkm_template/main.c:274-336 | what the hunt found decides whether the range leads to the table; a range that does not end before addresses wrap is only ever left by a hit |
| `PageHunt.NameLookupFinds` | lkm_template/main.c:340-342 | a known name leads to the start of the first symbol of that name, an unknown one to 0 |
| `PageHunt.ResolveSvcHandler` | lkm_template/main.c:338-352 | -ENOENT for an unknown name, otherwise the hunt over the depth read back from the symbol's text |
| `PageHunt.HuntEndIs` | lkm_template/main.c:344-347 | the range ends behind a built-in symbol of nonzero size, and at the fallback depth for a module's symbol or one of size zero |
| `PageHunt.ScansFunctionBody` | lkm_template/main.c:338-347 | for a built-in symbol of nonzero size that range is exactly the function's body |
| `PageHunt.WholeInstructionsReturn` | lkm_template/main.c:280-347 | over a built-in function whose start and size are multiples of 4 the search always returns |
| `PageHunt.ResolveNeedNotReturn` | lkm_template/main.c:280-347 | a handler symbol at the top of the address space from which the search never returns, whatever the scan depth |
| `PageHunt.HandlerBodySearched` | lkm_template/main.c:344-351 | over a built-in function of nonzero size whose body ends before aligned positions wrap, the hunt succeeds exactly when an aligned instruction of the body leads to the table, and reports the lowest with the first slot of its page |
| `PageHunt.ResolveBuiltinHandler` | lkm_template/main.c:338-352 | the same for a name that leads to a built-in function of nonzero size whose body ends before aligned positions wrap (EndsBeforeWrap): the search always returns, and succeeds exactly when that body leads to the table |
| `CString.StrLen` | syscall_shit/syscall_bench_nocrt0/bench.c:118-126 | the position of the first terminator |
| `HashTable.ChibiHash64Wrapper` | hashing/test.c:12-15 | the hash of the bytes before the terminator with the seed 0xFFFFFFFFFFFFFFFF |
| `KnownHashes.HashOfKey` | hashing/chibihash64.h:26-80 | the hash, with seed 0, of 43 letters a, worked out to the number through one block, one 8-byte step, a 3-byte tail and the finish |
| `KnownHashes.HashOfAbcd` | hashing/test.c:12-57 | the hash of the test program's first string with its all-ones seed, worked out to the number |
| `KnownHashes.HashOfNothing` | hashing/chibihash64.h:26-80 | the hash of the empty key with seed 0, worked out to the number |
| `HashTable.TableMembers` | hashing/test.c:23-35 | from empty, the table holds exactly the nonzero hashes inserted |
| `HashTable.TableDistinct` | hashing/test.c:30-35 | the entries are pairwise distinct |
| `HashTable.OldPrefixKept` | hashing/test.c:40-49 | growth keeps the old table as a prefix |
| `HashTable.ReinsertionIsNoOp` | hashing/test.c:30-35 | inserting a hash inserted before changes nothing |
| `HashTable.Table.TableInsert` | hashing/test.c:17-50 | null strings, zero hashes and duplicates leave the table, any other hash is appended |
| `HashTable.Table.InsertStrings` | hashing/test.c:57-67 | a run of insertions leaves the table that inserting the strings' hashes one by one gives |
| `HashTable.Table.Append` | hashing/test.c:40-49 | reallocation by one entry keeps the old entries and adds the new one |
| `HashTable.Table.Find` | hashing/test.c:69-81 | refuses a zero hash, otherwise finds the query exactly when its hash is in the table |
| `HashTable.FoundIffInserted` | hashing/test.c:69-81 | a query's hash is in the table exactly when it is nonzero and some inserted string has it |
| `Decimal.LongToStr` | syscall_shit/syscall_bench_nocrt0/bench.c:40-52 | writes the last len decimal digits, zero-padded, and nothing else |
| `Decimal.DigitAt` | syscall_shit/syscall_bench_nocrt0/bench.c:40-52 | the digit printed at position i is the one of weight 10^(len-1-i) |
| `Decimal.DumbAtoi` | syscall_shit/syscall_backports_test/syscall_test.c:12-30 | no answer exactly when some leading digits exceed 2147483647, where the int accumulator overflows; otherwise the value of a text of digits and 2147483647 for any other text |
| `Decimal.ParseReads` | syscall_shit/syscall_backports_test/syscall_test.c:12-30 | the same of the parser's specification |
| `Decimal.DigitsValue` | syscall_shit/syscall_bench_nocrt0/bench.c:40-52 | the printed digits stand for the number modulo 10^len |
| `Decimal.ParseThenPrint` | syscall_shit/syscall_bench_nocrt0/bench.c:40-52 | printing the value of a digit text at its own width gives the text back |
| `Decimal.SentinelMeaning` | syscall_shit/syscall_backports_test/syscall_test.c:20-29 | INT_MAX is answered exactly for texts that are no number and for INT_MAX itself |
| `Decimal.Bench.RunBench` | syscall_shit/syscall_bench_nocrt0/bench.c:129-145 | a run writes its title and the result template, which then reads ( seven digits and " ns avg)": the digits are the last seven of the difference of the two clock readings, wrapped or not, divided by a million |
| `Decimal.Bench.RunAll` | syscall_shit/syscall_bench_nocrt0/bench.c:129-145 | any sequence of runs on the shared template writes, for each run in order, its own title and a line that shows its own average |
| `Decimal.SetTitle` | syscall_shit/syscall_bench_nocrt0/bench.c:228-230 | writing one digit turns a title into that of another test |
| `Decimal.Bench.RunRound` | syscall_shit/syscall_bench_nocrt0/bench.c:227-236 | one round renumbers the three titles in place, runs the three tests and ends with a newline |
| `Decimal.SuiteReads` | syscall_shit/syscall_bench_nocrt0/bench.c:206-241 | the same of the specified output, spelt out string by string |
| `Decimal.ReportReads` | syscall_shit/syscall_bench_nocrt0/bench.c:129-145 | in the report of any runs title and line of run i stand at positions 2i and 2i+1, and the line shows that run's average |
| `Decimal.RunLineShows` | syscall_shit/syscall_bench_nocrt0/bench.c:143-143 | the line of a run shows the difference of its clock readings, modulo 2^64, divided by a million and cut to seven digits |
| `Decimal.LineLength` | syscall_shit/syscall_bench_nocrt0/bench.c:198-198 | a line with any seven digits is a terminated string of length 17 |

## Left out

- HashTable.Table.TableInsert: every allocation succeeds; after a failed reallocation the original keeps its count but loses the array.
- Decimal.Bench.RunBench: the clock readings are parameters, the timed system calls and the writes to standard output are a list of strings written.
- Decimal.Bench.RunSuite: the 32-bit ARM build's extra setresuid16 run and the header lines before line 206, which no loop or state decides.
- ChibiHash.Reader.ReadByte: Dafny has no private fields, so that only the three reads write the log is a discipline of the code, not a type rule.
- CString.StrLen: also stands for the C library's strlen in hashing/test.c, which is not part of the repository.
- HashCollisions.OneTailByteNeverCollides: says nothing of a tail byte that both tail words depend on (a tail of one byte, the overlap of the two loads), nor does OneTailWordNeverCollides of tails that differ in both words: two lanes change, and whether they can cancel is not decided.
- Injectivity of the whole hash or of a full 32-byte block, and statistical quality: the code does not promise them.
- Kprobe registration, module entry points, version conditionals, the three handler names tried in turn, logging and the recorded scan range of lkm_template/main.c.
- The truncation of symbol text to the kernel's buffer length.
- System call stubs, inline assembly and the I/O programs of the repository: foreign code without state of its own.
