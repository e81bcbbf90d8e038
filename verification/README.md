# Verified models of the vana C library and kernel path parser

A Dafny 4.11 project that models the hard parts of the bundled C library (`example_libc/src`) and
of the kernel's path parser (`src/fs/pparser.c`) and proves what they promise.  `dafny verify
dfyconfig.toml` checks all of it.  Nothing here executes the original program.

What is modelled, by file:

| files | system |
|---|---|
| `DesStandard`, `DesBoxes`, `DesWords`, `DesKnown`, `DesInverse`, `DesMasks`, `DesCircuits`, `DesCode`, `BitStrings` | the DES engine of `crypt.c` against FIPS PUB 46-3: OR-mask tables, merged S-boxes, inlined E expansion, cached key and salt schedules; the S-box tables by their known properties and two known answers |
| `RegexAlternation`, `RegexExpand`, `RegexReading`, `RegexRewrite`, `RegexParse`, `RegexCoincidence` | alternation in `regex.c`: the rewriting of `expand_alts`, how it reads a pattern, and when that is right |
| `RegexRanges`, `RegexRangeMeaning`, `RegexRangePatterns`, `RegexRangeLanguage`, `RegexRangeExact` | repetition ranges in `regex.c`: `expand_ranges` and when it keeps the meaning of a pattern |
| `RegexCompile`, `RegexMatcher`, `RegexAnchors`, `RegexCaptures` | tokens, the backtracking matcher, the whole path through `regcomp` and `regexec`, with and without anchors, and the room for captures |
| `ReadWriteLock`, `ReadWriteProgress`, `Barrier`, `BarrierProgress` | the read-write lock, and the barrier on its mutex and ticket condition variable, as step machines over any number of threads |
| `Allocator`, `AllocatorCode`, `AllocatorSession`, `ByteMemory` | the first-fit allocator with aligned allocation of `memory.c` (the sbrk branch), headers and links in byte memory, and whole sessions of a client |
| `Rand48` | the 48-bit linear congruential generator |
| `Calendar`, `TimeText` | `gmtime_r`, `localtime_r`, `timegm`, `mktime`, `strftime`, `strptime` |
| `Stdio` | buffered descriptor streams under short transfers |
| `SearchTrees`, `SearchTreeCode` | `tsearch`, `tfind`, `tdelete`, `twalk` on linked nodes |
| `HashSearch`, `SearchSessions` | `hcreate`, `hsearch`; sequences of calls on the table and on the tree |
| `RealPath` | the in-place component loop of `realpath` |
| `Numerals`, `Strto`, `Printf` | `strtol`, `strtoul`, and the integer conversions of `vsnprintf` |
| `Ipv6`, `Ipv6Mixed`, `Ipv6Code` | IPv6 text in `inet_ntop.c` and `inet_pton.c` |
| `PathParser` | the kernel path parser under arbitrary allocation failure |
| `Division`, `Powers` | facts about quotients, remainders and powers of two |

Code that changes things step by step is written as methods, loops, arrays and classes and is proved
against specification functions; the laws are then proved about those functions.  Concurrent code is
a machine whose steps are the atomic operations, sequentially consistent.  The environment enters as
parameters: answers of `sbrk` and `calloc`, scripts of short writes, short reads and refused kernel
allocations, the zone offset, the answer of `fsync`.  Widths are explicit wherever they
matter: 64-bit `size_t`, `long`, `intptr_t` and `time_t`, 32-bit `int`.  The program break stays below 2^63.

Where the code does not do what its documentation or its caller would expect, the code is kept and
the condition is proved, exactly unless a line says otherwise:

- A reader that unlocks while a writer is announced clears the writer's flag and never returns its own
  increment; exclusion still holds, but no writer gets in again.  A writer can still get in exactly if no
  reader is bound to do that (`ReadWriteProgress.WriterPossibleIff`).
- The search of `expand_alts` for the end of a group does not know bracket expressions.  It is right at a
  group exactly if it stands at depth 1 at the closing parenthesis, or deeper and the group ends the text
  (`RegexReading.ScanIsRightIff`).  If the routine reads a pattern as the grammar does, it expands it rightly.
  Conversely: where the pattern or the routine's reading has no alternation, only then; a text without a bar
  comes back unchanged exactly if no group it visits drops a character; a different number of alternatives, or
  a last branch that ends open, is always wrong.  `([(]a)b` loses its b and `([)]|b)` keeps its bar.  Where both readings have
  alternatives, in equal number, a misread pattern can come out right (`RegexCoincidence.MisreadButRight`).
- Ranges are written out only at the outermost level directly behind their item, and an omitted upper bound
  counts as 0.  So an open range {0,} drops its item, and {m,} with m > 0 keeps it once, as reversed bounds do
  (`RegexRangeExact.OpenRangeWrong`).  Alternative by alternative the meaning is kept exactly if every range
  is closed, has its bounds in order and stands outside groups, alone directly behind its unit
  (`RegexRangeExact.RangesRightIff`); only where an alternative has both an open range and a unit with a star or
  plus can a wrong range go unnoticed, as in `a{0,}a*` (`RegexRangeExact.CoveredByStar`).
- `regcomp` reports the groups of its last alternative, and `regexec` keeps that many captures.  Storing captures
  stays in bounds exactly if the last alternative has no group or no alternative has more
  (`RegexCaptures.StoresInBoundsIff`); `((a)|b)` does not qualify.
- A size from 2^63 - 16 on is negative as the argument of `sbrk`: `malloc` lowers the break and hands out memory
  above it.  `malloc(100)`, `malloc(2^64 - 116)` and the next request overlap
  (`AllocatorSession.LoweredBreakOverlaps`); everything is right exactly if no such size reaches `sbrk`.
- `free` of a plain block whose size is the alignment magic modulo 2^32 does not return the block
  (`AllocatorSession.MagicBlockIsLost` for a heap with such a block).
- `timegm` is the inverse of `gmtime_r` exactly from the epoch on while the day count fits an `int`;
  `timegm` and `mktime` store days since the epoch in `tm_yday`, which is right only in 1970.
- `strptime` restores what `strftime` printed exactly if each mentioned field is in range; `%Y` drops
  signs and prints years over 9999 in five digits.
- A flush that fails after some bytes were taken keeps them in the buffer, so they are sent again.
- `hsearch` may refuse a new key although a slot is free when hash plus table size wraps and the size
  does not divide 2^64.
- `strtol` and `strtoul` take a 0 for a base prefix although no digit of that base follows it, and then read
  nothing: `0`, `08` and `0x` in base 0, `0x` in base 16.  They read what ISO C says exactly on all other texts.
- `inet_ntop` writes three colons when the elided run ends the address, and `parse_ipv6` rejects that.
  A dotted tail is read from its first dot on, and its first number becomes a hexadecimal word: the address is
  the one denoted exactly if that number and all words between the double colon and the tail are zero.
- The comment on `pathparser_free` calls a null argument safe; the code loads from it, and that load faults at
  null and only there (`PathParser.Kernel.FreePath`).

## Model

| member | source | states |
|---|---|---|
| DesCode.Engine.constructor | example_libc/src/crypt.c:281-289 | the thread-local state before first use satisfies the engine invariant |
| DesCode.Engine.DesInit | example_libc/src/crypt.c:281-407 | afterwards every mask table is the mask table of its permutation and every merged S-box holds the pairs of FIPS S-boxes; cached key and salt are reset |
| DesCode.InvertTable | example_libc/src/crypt.c:315-337 | the loop inverts a table of distinct entries: target[src[i]-1] == i and nothing else is set |
| DesCode.FinalTargets | example_libc/src/crypt.c:315-318 | the targets used for the final permutation are those of FP although the code derives them from IP |
| DesCode.UnscrambleBoxes | example_libc/src/crypt.c:294-298 | u_sbox entry j is the S-box entry at the row and column that FIPS reads from the six bits of j |
| DesCode.MergeBoxes | example_libc/src/crypt.c:304-309 | entry (i,j) of merged box b is the byte made of S-box 2b at i and 2b+1 at j |
| DesMasks.BuildWord | example_libc/src/crypt.c:343-359 | one mask word has exactly the output bits whose source bit is set in the index |
| DesMasks.BuildMasks | example_libc/src/crypt.c:343-388 | for any permutation of distinct sources the nested loops build its mask table |
| DesMasks.LookupIsPermutation | example_libc/src/crypt.c:557-572 | the OR of one entry per field is the permuted word, for every well-shaped mask table and every input |
| DesCode.BuildAllMasks | example_libc/src/crypt.c:343-404 | all nine tables are the mask tables of IP, FP, PC-1, PC-2 and P |
| DesInverse.PermutationsCancel | example_libc/src/crypt.c:315-318 | IP and FP cancel in both orders on every block |
| DesInverse.Pc1Form | example_libc/src/crypt.c:109-114 | permuted choice 1 in closed form, by the columns of the key |
| DesBoxes.RowsArePermutations | example_libc/src/crypt.c:133-182 | for fixed outer bits every S-box takes each of its values once |
| DesBoxes.OneBitSpreads | example_libc/src/crypt.c:133-182 | two inputs of an S-box that differ in one bit have outputs that differ in two bits at least, for all boxes and inputs |
| DesBoxes.MiddleSpreads | example_libc/src/crypt.c:133-182 | so have two inputs that differ in the two middle bits |
| DesBoxes.FirstTwoMatter | example_libc/src/crypt.c:133-182 | two inputs that differ in the first two bits and agree in the last two have different outputs |
| DesWords.RoundIsMixed | example_libc/src/crypt.c:574-622 | one round of the standard computed on named bits, with the wiring of E and P written out |
| DesWords.RoundKeyIs | example_libc/src/crypt.c:464-515 | a round key computed from the rotated halves, with the wiring of both key permutations written out |
| DesKnown.ZeroKnown | example_libc/src/crypt.c:525-638 | the zero block under the zero key gives 8CA64DE9C1B123A7 |
| DesKnown.BlockKnown | example_libc/src/crypt.c:525-638 | the block 0123456789ABCDEF under the key 133457799BBCDFF1 gives 85E813540F0AB405 |
| DesCircuits.ExpansionMasks | example_libc/src/crypt.c:586-596 | the hexadecimal masks of the inlined expansion are the bit runs the shifts assume |
| DesCircuits.ExpandIsE | example_libc/src/crypt.c:586-596 | the shifts and masks compute the two 24-bit halves of E(R) for every R |
| DesCircuits.SaltAndKey | example_libc/src/crypt.c:601-603 | swapping by saltbits and adding the key words is salted E(R) xor K |
| DesCircuits.MergedLookup | example_libc/src/crypt.c:608-611 | a merged box indexed by twelve bits gives the two S-box outputs as one byte |
| DesCircuits.RotateInWord | example_libc/src/crypt.c:489-493 | the shift pair on a 32-bit word rotates the low 28 bits (stray high bits are never used) |
| DesCircuits.SevensAreFields | example_libc/src/crypt.c:495-513 | the shift-and-mask indices into the compression tables are the seven-bit fields of the halves |
| DesCircuits.KeyBitsAreFields | example_libc/src/crypt.c:468-483 | those into the key tables are the fields of the key without its parity bits |
| DesCircuits.BytesAreFields | example_libc/src/crypt.c:554-572 | those into the IP and FP tables are the bytes of the block |
| DesCircuits.RoundKeyWords | example_libc/src/crypt.c:489-513 | the compression lookup at the indices computed from the rotated halves gives the two words of that round's FIPS key |
| DesCircuits.HalfKeyWords | example_libc/src/crypt.c:468-483 | the key permutation lookup at the computed indices gives C0 and D0 |
| DesCode.Engine.SetupSalt | example_libc/src/crypt.c:415-433 | bit 23 - i of saltbits is bit i of the salt for every i below 24, whether computed or answered from the cache |
| DesCode.Engine.ScheduleKeys | example_libc/src/crypt.c:464-515 | the sixteen encryption words are the FIPS key schedule, the decryption words its reversal |
| DesCode.Engine.DesSetkey | example_libc/src/crypt.c:440-517 | after any history, including calls answered from the cache, the schedules are those of the given key |
| DesCode.Engine.CipherFunction | example_libc/src/crypt.c:586-611 | one round's f is the cipher function f(R,K) of FIPS PUB 46-3 with salted E |
| DesCode.Engine.SixteenRounds | example_libc/src/crypt.c:574-622 | one pass of the inner loop and the swap behind it is the sixteen-round core |
| DesCode.Engine.DoDes | example_libc/src/crypt.c:525-638 | count n > 0 computes n iterations of bit-level salted DES under the current round keys and salt, -n the same under the reversed schedule, 0 returns 1 |
| DesCode.Engine.DesCipher | example_libc/src/crypt.c:646-670 | builds the tables at the first call, installs the salt and enciphers or deciphers count times, with zero round keys before any des_setkey |
| DesCode.Engine.EncryptThenDecrypt | example_libc/src/crypt.c:525-638 | do_des with count -n undoes do_des with count n for every block, key, salt and n |
| DesInverse.RoundsUnwind | example_libc/src/crypt.c:574-622 | m rounds under the reversed schedule on swapped halves undo the last m rounds |
| DesInverse.CoreUndone | example_libc/src/crypt.c:574-622 | the core under the reversed schedule is the inverse of the core |
| DesInverse.EncipherUndone | example_libc/src/crypt.c:525-638 | deciphering inverts enciphering of one block |
| DesInverse.EncipherTimesUndone | example_libc/src/crypt.c:525-638 | n decipherments invert n encipherments |
| DesInverse.PermuteOnce | example_libc/src/crypt.c:554-572 | permuting once around n cores equals n full encipherments, because FP and IP cancel in between |
| RegexAlternation.ExpansionPreservesMeaning | example_libc/src/regex.c:310-444 | under any meaning of texts, a pattern and the union of its expansions denote the same strings |
| RegexAlternation.ExpansionIsFlat | example_libc/src/regex.c:310-444 | no expansion has an alternation left |
| RegexExpand.ExpandTextIsReading | example_libc/src/regex.c:310-444 | for every text the rewriting yields, in order, the expansions of the pattern the routine takes it for |
| RegexExpand.ChoicesAreExpansions | example_libc/src/regex.c:310-444 | those strings are the printed expansions of the pattern |
| RegexReading.RightIfSameReading | example_libc/src/regex.c:310-444 | if the routine reads a pattern as the grammar does, it returns the printed expansions, in order |
| RegexReading.RightIffSameReading | example_libc/src/regex.c:310-444 | and only then, where the pattern or the routine's reading has no alternation |
| RegexReading.WrongIfCountsDiffer | example_libc/src/regex.c:310-444 | a different number of alternatives is always wrong |
| RegexReading.SameReadingIfAligned | example_libc/src/regex.c:382-391 | the readings are the same if every group's scan ends at its own closing parenthesis |
| RegexReading.ScanIsRightIff | example_libc/src/regex.c:382-389 | a scan ends there exactly if it is at depth 1 there, or deeper and nothing follows |
| RegexReading.PrintedBackIff | example_libc/src/regex.c:382-425 | the routine's reading prints back as the text exactly if every visited group ends in a parenthesis |
| RegexReading.BarFreeUnchangedIff | example_libc/src/regex.c:310-444 | every text without a bar comes back unchanged exactly under that condition |
| RegexReading.LostTextIsWrong | example_libc/src/regex.c:382-391 | a pattern whose last branch ends in a group that runs to the end without a parenthesis is expanded wrongly |
| RegexReading.EarlyEndIsWrong | example_libc/src/regex.c:382-391 | a group with a bar of its own whose scan ends in its first branch is expanded wrongly, if no other parenthesis opens |
| RegexCoincidence.MisreadButRight | example_libc/src/regex.c:310-444 | a pattern whose alternatives are misread and still come out right |
| RegexExpand.SplitIntoBranches | example_libc/src/regex.c:315-338 | the scan for bars at level 0 yields exactly the branches |
| RegexRewrite.SplitSegments | example_libc/src/regex.c:315-338 | the first loop computes the split |
| RegexRewrite.FindClassEnd | example_libc/src/regex.c:365-372 | the inner loop stops behind the bracket that closes the expression |
| RegexRewrite.FindGroupEnd | example_libc/src/regex.c:382-389 | the inner loop stops behind the parenthesis that closes the group |
| RegexRewrite.AppendToAll | example_libc/src/regex.c:355-380 | a piece of text is appended to every pattern built so far |
| RegexRewrite.CombineWithGroup | example_libc/src/regex.c:400-425 | every pattern so far with every parenthesised expansion of the group, in source order |
| RegexRewrite.ExpandAltsInto | example_libc/src/regex.c:310-350 | expand_alts computes the rewriting and terminates on pattern length |
| RegexRewrite.ExpandGroups | example_libc/src/regex.c:351-444 | the loop over groups computes the rewriting of a pattern without a top-level bar |
| RegexParse.ReadingPrints | example_libc/src/regex.c:54-152 | every balanced text is the printed form of its reading, which is well formed |
| RegexParse.BalancedPatternExpands | example_libc/src/regex.c:310-444 | every balanced text that the routine reads alike denotes the union over the returned list, all of it free of alternation |
| RegexRewrite.ParenthesisInBracketsBreaksExpansion | example_libc/src/regex.c:382-391 | a group of [)], a bar and b comes back with its bar unexpanded |
| RegexRewrite.LateEndLosesText | example_libc/src/regex.c:382-391 | ([(]a)b comes back without its b |
| RegexCompile.ScanBracket | example_libc/src/regex.c:117-142 | the bracket scan ends where the expression ends, counts the bytes it copies and tells an unclosed bracket |
| RegexCompile.CompileSingle | example_libc/src/regex.c:54-152 | the token list of a terminated pattern; leaving early on a full class buffer never drops a token; exactly the patterns with an unclosed bracket or a lone backslash are reported |
| RegexCompile.SupportedIfText | example_libc/src/regex.c:54-152 | the conditions on the text of a pattern under which compiling and searching it is right |
| RegexCompile.CompilePattern | example_libc/src/regex.c:54-152 | the tokens of an alternation-free pattern are well formed and their units are those of its texts |
| RegexCompile.ItemsLanguage | example_libc/src/regex.c:54-152 | the language of the units equals the language of the pattern |
| RegexCompile.UnitMeans | example_libc/src/regex.c:536-579 | a unit matches one character, and with ?, * or + at most one, any number of, or at least one |
| RegexCompile.CompileReference | example_libc/src/regex.c:84-86 | a backslash and a digit compile to a reference to the group of that number |
| RegexRanges.FindItemEnd | example_libc/src/regex.c:216-245 | the end of the escape, bracket expression, group or character in front |
| RegexRanges.ScanRange | example_libc/src/regex.c:246-272 | the bounds and extent of a range {m,n}, or none |
| RegexRanges.NeedIsExact | example_libc/src/regex.c:274-277 | the room the code asks for is exactly what it writes |
| RegexRanges.ExpandRangesText | example_libc/src/regex.c:207-303 | the loop with its growing buffer writes every range out and stays in bounds |
| RegexRanges.NoBraceUnchanged | example_libc/src/regex.c:207-303 | a pattern without an opening brace comes back as it is |
| RegexRangeMeaning.RangeExpands | example_libc/src/regex.c:207-303 | a unit and its range become m copies and n-m optional copies |
| RegexRangeMeaning.RangeLanguage | example_libc/src/regex.c:287-297 | those units accept exactly the runs of m to n matching characters |
| RegexRangePatterns.PatternExpands | example_libc/src/regex.c:207-303 | what expand_ranges makes of every pattern of units with a quantifier or any number of ranges, groups and bars |
| RegexRangePatterns.QuantifierRanged | example_libc/src/regex.c:216-301 | a range directly behind a quantifier repeats the quantifier, not the unit |
| RegexRangeLanguage.AllRowsCompiled | example_libc/src/regex.c:54-152 | the units each alternative of the result is compiled to |
| RegexRangeLanguage.FineRowIntended | example_libc/src/regex.c:207-303 | an alternative whose ranges are all closed, in order and written out accepts what it is meant to, quantified units included |
| RegexRangeExact.UnfineRowWrong | example_libc/src/regex.c:207-303 | for any other alternative, a matcher and a text on which it is wrong, unless it has both an open range and a unit with a star or plus |
| RegexRangeExact.RangesRightIff | example_libc/src/regex.c:207-303 | alternative by alternative the meaning is kept if every range is closed, in order, outside groups and alone behind its unit, and only then unless an alternative has both an open range and a star or plus; an open range is meant to have no upper bound |
| RegexRangeExact.OpenRangeWrong | example_libc/src/regex.c:253-297 | u{m,} is wrong for every unit and m: it becomes empty for m = 0 and u once otherwise |
| RegexRangeExact.OpenInstances | example_libc/src/regex.c:253-297 | a{0,} becomes empty and a{1,} becomes a |
| RegexRangeExact.CoveredByStar | example_libc/src/regex.c:253-297 | u{0,}u* has a wrong range and is right all the same |
| RegexRangeExact.OrderedButWrong | example_libc/src/regex.c:230-242 | a range in a group, and a range behind a range, are wrong although in order |
| RegexRangeExact.CoveredByAnother | example_libc/src/regex.c:287-301 | a wrong alternative whose strings another alternative supplies |
| RegexRangeExact.SearchRanged | example_libc/src/regex.c:637-720 | compile and execute on every pattern with such ranges and quantified units: a match exactly if some substring is one it is meant to accept, and one starts where reported |
| RegexRangeMeaning.SearchRange | example_libc/src/regex.c:637-720 | compile and execute on u{m,n}, an omitted n counting as 0: a match exactly if m to n characters in a row match u (one character if m > n), and one starts where reported |
| RegexCompile.Regcomp | example_libc/src/regex.c:637-675 | ranges written out, then one token list per expanded alternative, in order, if all are terminated; re_nsub is the number of groups of the last one |
| RegexCaptures.GroupsNumbered | example_libc/src/regex.c:99-116 | on every text the groups are numbered in order, only opened groups are closed, and the last number is used |
| RegexCaptures.StoresInBoundsIff | example_libc/src/regex.c:582-597 | for every list of alternatives, captures are stored within the room regexec makes exactly if the last alternative has no group or none has more |
| RegexCaptures.PatternStoresInBoundsIff | example_libc/src/regex.c:637-692 | the same for every supported pattern, by the groups its alternatives are written with |
| RegexCaptures.NestedStoresOutside | example_libc/src/regex.c:658-691 | a group of (u), a bar and v makes room for one group and its first alternative stores two |
| RegexCompile.AlternativeMeaning | example_libc/src/regex.c:582-634 | a compiled alternative matches at i exactly if some substring from i on is in the branch's language |
| RegexCompile.SearchPattern | example_libc/src/regex.c:637-720 | compile then execute, on every supported pattern text: a match is reported exactly if some substring is in the pattern's language, and one starts where reported |
| RegexAnchors.AnchoredAlternative | example_libc/src/regex.c:75-77 | what one alternative with ^ in front, $ behind or both matches |
| RegexAnchors.SearchAnchored | example_libc/src/regex.c:637-720 | compile then execute on every supported branch between anchors, its groups and alternations included: a match exactly if some substring of its language starts at 0, ends with the text, or both, and one starts where reported |
| RegexAnchors.SearchAnchoredUnits | example_libc/src/regex.c:637-720 | the same for every text of units, each perhaps quantified, without any other condition |
| RegexMatcher.MatchStar | example_libc/src/regex.c:536-550 | true exactly if some number of repetitions leaves a text the rest matches |
| RegexMatcher.MatchPlus | example_libc/src/regex.c:553-564 | the same with at least one repetition |
| RegexMatcher.MatchQuestion | example_libc/src/regex.c:567-579 | the same with at most one |
| RegexMatcher.MatchPattern | example_libc/src/regex.c:582-634 | sound and complete: true exactly if some prefix is in the declarative language of the tokens, the whole text if the list ends in $ |
| RegexMatcher.SearchAlternative | example_libc/src/regex.c:693-705 | the leftmost start of one alternative, position 0 only when anchored |
| RegexMatcher.Regexec | example_libc/src/regex.c:677-720 | the leftmost start of the first alternative in list order that matches anywhere, or none |
| ReadWriteLock.StepKeepsInv | example_libc/src/pthread_rwlock.c:24-57 | every atomic step of every thread keeps the counting, flag and holder invariants |
| ReadWriteLock.InvAlways | example_libc/src/pthread_rwlock.c:24-57 | the invariant holds in every state of every interleaving |
| ReadWriteLock.MutualExclusion | example_libc/src/pthread_rwlock.c:24-57 | while a thread holds the lock for writing no other thread holds it for reading or writing |
| ReadWriteLock.WriterUnlocksByFlag | example_libc/src/pthread_rwlock.c:50-57 | a writer's unlock always takes the flag branch |
| ReadWriteLock.ReaderCountIsExactIff | example_libc/src/pthread_rwlock.c:50-57 | the reader count equals the number of readers inside exactly if no reader has ever cleared an announced writer |
| ReadWriteLock.ClearedByReaderBlocksWritersForever | example_libc/src/pthread_rwlock.c:38-57 | once a reader has cleared a writer's flag no thread acquires the lock for writing in any later state |
| ReadWriteLock.ReaderCanClearAnAnnouncedWriter | example_libc/src/pthread_rwlock.c:50-57 | two threads reach that state |
| ReadWriteProgress.WriterPossibleIff | example_libc/src/pthread_rwlock.c:24-57 | from a reachable state some continuation lets a writer in exactly if no increment is lost and no reader is bound to lose one |
| Barrier.StepKeepsInv | example_libc/src/pthread_barrier.c:24-44 | every step of the wait, the mutex and the condition variable keeps the barrier invariant |
| Barrier.InvAlways | example_libc/src/pthread_barrier.c:24-44 | the invariant holds in every state of every interleaving |
| Barrier.NoEarlyReturn | example_libc/src/pthread_barrier.c:24-44 | when a wait of phase k has returned, exactly count threads have arrived in phase k, the caller among them |
| Barrier.ExactlyOneSerial | example_libc/src/pthread_barrier.c:33-39 | a returned wait has the serial value exactly if its thread completed the phase |
| Barrier.OneSerialPerPhase | example_libc/src/pthread_barrier.c:33-39 | two serial returns of one phase are the same thread |
| Barrier.NoLostWakeup | example_libc/src/pthread.c:160-218 | outside a broadcast in progress, a sleeper's ticket is below seq exactly if its phase has been passed |
| Barrier.StuckOnlyWhenShort | example_libc/src/pthread_barrier.c:24-44 | if every thread is outside or asleep with its ticket not reached, fewer than count threads are asleep |
| Barrier.HistoryOnlyGrows | example_libc/src/pthread_barrier.c:24-44 | arrivals and leaders of past phases never change |
| BarrierProgress.BlockedIff | example_libc/src/pthread.c:160-173 | every step of a thread leaves it where it is exactly if it waits for a held mutex or sleeps with its ticket not reached |
| BarrierProgress.AllBlockedIff | example_libc/src/pthread_barrier.c:24-44 | in every reachable state all threads inside are blocked exactly if all of them sleep with their tickets not reached; then fewer than count do, and nothing changes without a new call |
| BarrierProgress.CompletedPhaseReturns | example_libc/src/pthread_barrier.c:24-44 | from every reachable state some continuation lets every thread of a completed phase return |
| BarrierProgress.ReturnPossibleIff | example_libc/src/pthread_barrier.c:24-44 | from every reachable state a call that has arrived can return exactly if its phase is complete or there are at least count threads |
| Rand48.FullPeriodIff | example_libc/src/rand48.c:13-24 | from every state all 2^48 states are visited exactly if the multiplier is 1 modulo 4 and the increment odd |
| Rand48.DefaultPeriod | example_libc/src/rand48.c:13-24 | with the default constants the first 2^48 steps visit every state exactly once and return to the start |
| Rand48.NoRepetition | example_libc/src/rand48.c:19-24 | no state repeats within a period |
| Rand48.ReturnsToStart | example_libc/src/rand48.c:19-24 | after 2^48 steps the state is the starting state |
| Rand48.ReachesWithinPeriod | example_libc/src/rand48.c:19-24 | for any two states, a number of steps below 2^48 from one to the other |
| Rand48.WrapThenMask | example_libc/src/rand48.c:19-24 | reducing the 64-bit product and sum before masking to 48 bits changes nothing |
| Rand48.ArrayFollowsState | example_libc/src/rand48.c:55-67 | nrand48 on an array and lrand48 go through the same states |
| Rand48.JoinOfSplit | example_libc/src/rand48.c:26-37 | splitting into three words and joining again is reduction modulo 2^48 |
| Rand48.SeedUsesLow32Bits | example_libc/src/rand48.c:70-75 | every seed gives the sequence of its low 32 bits |
| Rand48.Generator.Step | example_libc/src/rand48.c:19-24 | the new state is m*s+a modulo 2^48 and is returned |
| Rand48.Generator.Lrand48 | example_libc/src/rand48.c:55-58 | the new state, and the number whose 2^17 multiples enclose it |
| Rand48.Generator.ArrToU64 | example_libc/src/rand48.c:26-30 | the three words joined, least significant first |
| Rand48.Generator.U64ToArr | example_libc/src/rand48.c:32-37 | the array holds the split of the value |
| Rand48.Generator.Nrand48 | example_libc/src/rand48.c:61-67 | the array holds the next state, the static state is untouched, the result is drawn from it as lrand48 does |
| Rand48.Generator.Srand48 | example_libc/src/rand48.c:70-75 | state from the seed, default multiplier and increment |
| Rand48.Generator.Seed48 | example_libc/src/rand48.c:78-84 | the new state is the array, the old one is handed back modulo 2^48 |
| Rand48.Generator.Lcong48 | example_libc/src/rand48.c:87-92 | state, multiplier and increment from seven words |
| Rand48.KnownDraws | example_libc/src/rand48.c:55-76 | the first three numbers after srand48(1) |
| Allocator.LiveRegionsDisjoint | example_libc/src/memory.c:44-146 | live regions and the 16 bytes in front of them are pairwise disjoint |
| Allocator.LiveRegionsMissHeaders | example_libc/src/memory.c:44-146 | no live region meets any block header |
| Allocator.EveryBlockAccountedFor | example_libc/src/memory.c:44-146 | every sbrk block is live, or on the free list exactly once |
| Allocator.UnlinkKeepsInv | example_libc/src/memory.c:100-113 | taking the i-th node out of the list threaded through memory keeps the allocator invariant |
| Allocator.PushKeepsInv | example_libc/src/memory.c:56-66 | pushing a live block keeps it |
| Allocator.GrowKeepsInv | example_libc/src/memory.c:117-125 | a new block at the break keeps it |
| Allocator.AlignKeepsInv | example_libc/src/memory.c:300-307 | carving an aligned pointer out of a plain block keeps it |
| Allocator.ScribbleKeepsInv | example_libc/src/memory.c:44-146 | any write of a user into their own region keeps it |
| AllocatorCode.RoundUp | example_libc/src/memory.c:301 | adding and masking gives the first multiple of a power of two from the address on |
| AllocatorCode.PlainFreedBackIff | example_libc/src/memory.c:132-146 | free of a live plain pointer pushes its block and nothing else exactly if its size is not the magic modulo 2^32 |
| AllocatorCode.AlignedFreedBack | example_libc/src/memory.c:132-146 | free of an aligned pointer pushes the block it lies in |
| AllocatorCode.FreedBack | example_libc/src/memory.c:132-146 | freeing a live pointer keeps the invariant and the data of all other live blocks |
| AllocatorCode.UnlinkKeepsData | example_libc/src/memory.c:100-113 | the header writes of a reuse touch no live region |
| AllocatorCode.Heap.constructor | example_libc/src/memory.c:50 | the empty heap satisfies the invariant |
| AllocatorCode.Heap.SearchFit | example_libc/src/memory.c:99-115 | the list walk stops at the first block that is large enough |
| AllocatorCode.Heap.TakeFirstFit | example_libc/src/memory.c:99-115 | that block becomes live with its capacity and leaves the list; nothing changes if none fits |
| AllocatorCode.Heap.Grow | example_libc/src/memory.c:117-125 | otherwise sbrk moves the break by 16 + size as an intptr_t, if it is granted: a block of exactly the size, or a lowered break |
| AllocatorCode.Heap.Malloc | example_libc/src/memory.c:72-126 | null exactly for the test hook, size 0, a refused probe, an overflowing size, or no fit and no memory, and then without effect; otherwise a first-fit or new block and all live data kept, exactly if the size does not reach sbrk as a negative number |
| AllocatorCode.Heap.FreeImpl | example_libc/src/memory.c:56-66 | the header in front of the pointer becomes the head of the list |
| AllocatorCode.Heap.FreeAny | example_libc/src/memory.c:132-146 | what free writes for any pointer, by the magic it finds |
| AllocatorCode.Heap.Free | example_libc/src/memory.c:132-146 | the owner's block goes to the front of the free list, all other live data is kept |
| AllocatorCode.Heap.PosixMemalign | example_libc/src/memory.c:278-310 | EINVAL exactly for alignments that are no power of two or no multiple of 8, success exactly if malloc grants the padded size; on success, unless malloc has lowered the break, a multiple of the alignment inside its own block; errors have no effect |
| AllocatorCode.Heap.UserWrite | example_libc/src/memory.c:44-146 | a user's write changes their region only |
| AllocatorCode.Heap.Realloc | example_libc/src/memory.c:239-262 | the common prefix is at the new place, the old block is free, other data kept; failure has no effect |
| AllocatorSession.Session | example_libc/src/memory.c:44-310 | over every sequence of malloc, posix_memalign, realloc, free and writes the client sees independent arrays: every live region reads back what was last stored in it, and none overlap; cut short only by a size that is negative for sbrk |
| AllocatorSession.OrdinarySession | example_libc/src/memory.c:44-310 | without such sizes this holds of the whole sequence |
| AllocatorSession.LoweredBreakOverlaps | example_libc/src/memory.c:117-125 | a run in which such a size makes two blocks overlap |
| AllocatorSession.MagicBlockIsLost | example_libc/src/memory.c:132-146 | a run in which free loses a block of the magic size |
| Calendar.LeapYearRule | example_libc/src/time_r.c:48-55 | is_leap and the length of a year agree with the Gregorian calendar in closed form, for every year |
| Calendar.MonthTable | example_libc/src/time_r.c:57-60 | the table of month lengths agrees with the closed form that counts days from March in fifths of 153 |
| Calendar.KnownDays | example_libc/src/time_r.c:57-60 | the numbers of 1 July 1970, 28 February 2000 and 19 January 2038 |
| Calendar.DayNumberOrder | example_libc/src/time_conv.c:83-92 | day numbers are ordered as dates are |
| Calendar.DateIsUnique | example_libc/src/time_r.c:62-88 | a day number has one date |
| Calendar.ConvertTm | example_libc/src/time_r.c:62-101 | the fields describe exactly the clamped time with its day count converted to int, by the closed form of the calendar |
| Calendar.FindYear | example_libc/src/time_r.c:73-81 | the year loop finds the year that contains the day |
| Calendar.FindMonth | example_libc/src/time_r.c:83-88 | the month loop finds the month that contains the day, by the closed form, and never overruns the table |
| Calendar.GmtimeR | example_libc/src/time_r.c:108-115 | the UTC description of the time |
| Calendar.LocaltimeR | example_libc/src/time_r.c:122-130 | the description of the time plus the zone offset |
| Calendar.Timegm | example_libc/src/time_conv.c:78-99 | the second count of any fields, by the closed form of the calendar, and the fields it rewrites |
| Calendar.Mktime | example_libc/src/time_conv.c:53-75 | the same less the zone offset |
| Calendar.GmtimeThenTimegm | example_libc/src/time_conv.c:78-99 | timegm undoes gmtime_r exactly for times from 0 on whose day count fits an int; tm_yday agrees exactly in 1970 |
| Calendar.LocaltimeThenMktime | example_libc/src/time_conv.c:53-75 | mktime undoes localtime_r under the same condition on the shifted time |
| Calendar.TimegmThenGmtime | example_libc/src/time_r.c:108-115 | gmtime_r undoes timegm on every valid date whose day number fits an int |
| TimeText.FmtInt | example_libc/src/strftime.c:21-38 | the zero-padded decimal magnitude; a short buffer gets the last digits |
| TimeText.Convert | example_libc/src/strftime.c:53-157 | one conversion: fits or fails exactly by length, and its text |
| TimeText.NamesInARow | example_libc/src/strftime.c:12-19 | the abbreviated names of days and months |
| TimeText.Strftime | example_libc/src/strftime.c:40-165 | the rendered text and its length if it fits, else 0, for every format |
| TimeText.ParseNum | example_libc/src/strptime.c:11-24 | the value of exactly width digits, or -1 |
| TimeText.Element | example_libc/src/strptime.c:31-88 | one format element against the text |
| TimeText.Strptime | example_libc/src/strptime.c:26-91 | acceptance, end position and fields are those of the parse function |
| TimeText.RoundTripIff | example_libc/src/strptime.c:26-91 | for every format of literals, %% and the six fields: all of strftime's output is consumed and every mentioned field restored, exactly if each mentioned field is in range |
| TimeText.StoredInRange | example_libc/src/strptime.c:50-86 | whatever strptime stores is in range |
| TimeText.OthersUntouched | example_libc/src/strptime.c:26-91 | fields the format does not mention keep their values, accepted or not |
| TimeText.FormatThenParse | example_libc/src/strftime.c:40-165 | the two routines composed, with the same condition |
| Stdio.Descriptor.SendAll | example_libc/src/stdio.c:78-91 | the flush loop sends exactly what the script of short writes lets through |
| Stdio.DrainSucceeds | example_libc/src/stdio.c:78-94 | short writes and interruptions alone never fail a flush |
| Stdio.Stream.constructor | example_libc/src/stdio.c:513-543 | a fresh stream with any nonempty buffer or none |
| Stdio.Stream.FlushBuffer | example_libc/src/stdio.c:28-94 | what is sent, what stays buffered and the result for every script; sent plus buffered stays the accepted bytes exactly if it did not fail after a partial send |
| Stdio.Stream.BufferSome | example_libc/src/stdio.c:262-274 | one round of fwrite keeps sent plus buffered equal to accepted |
| Stdio.Stream.Fwrite | example_libc/src/stdio.c:220-287 | accepted grows by the bytes written, at most the product modulo 2^64, the count is the number of whole items in them, and it is complete without a hard error (unbuffered: if every call transfers something) |
| Stdio.Stream.Fputc | example_libc/src/stdio.c:443-451 | the low byte is accepted, or -1 |
| Stdio.Stream.Fputs | example_libc/src/stdio.c:483-490 | the bytes are accepted and counted as int |
| Stdio.Stream.Fflush | example_libc/src/stdio.c:492-510 | afterwards, without error, everything accepted has been sent |
| Stdio.Stream.Refill | example_libc/src/stdio.c:187-199 | reading into the empty buffer loses nothing; error is set exactly if the read failed and eof exactly if it gave nothing |
| Stdio.Stream.Fread | example_libc/src/stdio.c:149-218 | delivered, buffered and unread bytes always make up the descriptor's input; the count is the number of whole items; stopping short of the product modulo 2^64 sets error exactly if a read failed and eof exactly if one gave nothing, and if every call transfers something, that all input was delivered |
| Stdio.WriteSession | example_libc/src/stdio.c:220-287 | any cutting into calls, any buffer size and any short writes: the descriptor receives exactly the bytes written |
| SearchTrees.OrderedIffIncreasing | example_libc/src/search_tree.c:101-122 | the in-order keys strictly increase exactly in search trees |
| SearchTrees.FindIsMembership | example_libc/src/search_tree.c:43-55 | find gives a node exactly if a key of that rank is there |
| SearchTrees.InsertIsSetInsert | example_libc/src/search_tree.c:23-41 | insertion keeps the order and is set insertion; an equal key leaves the tree alone |
| SearchTrees.MinIsLeast | example_libc/src/search_tree.c:86-96 | the splice removes the least key and one node |
| SearchTrees.DeleteIsSetRemove | example_libc/src/search_tree.c:57-99 | deletion keeps the order, removes the keys of that rank and one node |
| SearchTrees.FreedIffFound | example_libc/src/search_tree.c:57-99 | one node is freed if the key is found, none otherwise |
| SearchTrees.InOrderIsKeys | example_libc/src/search_tree.c:101-117 | the postorder and leaf visits list the keys in order |
| SearchTrees.WalkIsSorted | example_libc/src/search_tree.c:101-122 | strictly increasing, exactly the keys |
| SearchTrees.WalkOrders | example_libc/src/search_tree.c:101-122 | the visits before, between and after the subtrees list every node at its depth |
| SearchTrees.VisitCount | example_libc/src/search_tree.c:101-122 | three visits of every node, one of a node without children |
| SearchTreeCode.Recompose | example_libc/src/search_tree.c:57-99 | a subtree linked at a place in a linked context makes the linked whole |
| SearchTreeCode.PromotedHolds | example_libc/src/search_tree.c:86-96 | the pointer writes of the two-child case, min possibly the direct child, give the spliced tree |
| SearchTreeCode.SplicedHolds | example_libc/src/search_tree.c:80-85 | unlinking a node with at most one child gives the tree without it |
| SearchTreeCode.SearchTree.constructor | example_libc/src/search_tree.c:23-27 | the empty tree |
| SearchTreeCode.SearchTree.Tsearch | example_libc/src/search_tree.c:23-41 | the existing node, or a new one linked in; its key compares equal; null without effect if malloc refuses |
| SearchTreeCode.SearchTree.Tfind | example_libc/src/search_tree.c:43-55 | a node whose key compares equal exactly if there is one, else null |
| SearchTreeCode.SearchTree.Tdelete | example_libc/src/search_tree.c:57-99 | the linked tree is the deleted tree, one node is freed; returned is the node that pointed to the one found, or the root if that was found, or null if none was |
| SearchTreeCode.SearchTree.Successor | example_libc/src/search_tree.c:87-91 | the inner loop finds the least node of the right subtree and the place that points to it |
| SearchTreeCode.SearchTree.Twalk | example_libc/src/search_tree.c:101-122 | the visits with levels, in-order keys strictly increasing, each once |
| HashSearch.HashStr | example_libc/src/search_hash.c:46-53 | the djb2 hash modulo 2^64 |
| HashSearch.KnownHashes | example_libc/src/search_hash.c:46-53 | the hashes of the first strings |
| HashSearch.ProbesCoverIff | example_libc/src/search_hash.c:105-106 | the probe path meets every slot exactly if hash plus size does not wrap or the size divides 2^64 |
| HashSearch.AbsentIfFree | example_libc/src/search_hash.c:105-120 | a free slot on the path, or a whole path of other keys, means the key is absent |
| HashSearch.EnterKeeps | example_libc/src/search_hash.c:107-113 | entering keeps every key on its path with no free slot before it |
| HashSearch.HashTable.constructor | example_libc/src/search_hash.c:36-39 | no table |
| HashSearch.HashTable.Hcreate | example_libc/src/search_hash.c:60-76 | an empty table; refused if one exists, for size 0 or without memory |
| HashSearch.HashTable.Hdestroy | example_libc/src/search_hash.c:83-91 | back to no table |
| HashSearch.HashTable.Locate | example_libc/src/search_hash.c:104-118 | the loop stops at the first slot of the path that is free or holds the key |
| HashSearch.HashTable.EnterAt | example_libc/src/search_hash.c:108-113 | the new entry is in the map; the item count test cannot fail there |
| HashSearch.HashTable.Hsearch | example_libc/src/search_hash.c:98-120 | FIND agrees with a first-write-wins map; ENTER of a new key takes the first free slot of its path and, if the path covers the table, fails only when all slots are used |
| SearchSessions.TreeSession | example_libc/src/search_tree.c:23-122 | over every sequence of tsearch, tfind and tdelete all answers, the keys of the nodes given included, and the walk at the end, are those of a set with one key of each rank |
| SearchSessions.TableSession | example_libc/src/search_hash.c:60-120 | over every sequence of hsearch calls whose paths cover the table all answers are those of a first-write-wins map of at most that many keys |
| HashSearch.LargestHash | example_libc/src/search_hash.c:46-53 | a key whose hash is 2^64 - 1 |
| HashSearch.EnterFailsBeforeFull | example_libc/src/search_hash.c:105-106 | with such a key, ENTER fails in a table of three slots of which one is free |
| RealPath.NormalIsIdempotent | example_libc/src/realpath.c:69-113 | normalising a normalised path changes nothing |
| RealPath.NormalForm | example_libc/src/realpath.c:69-113 | the result is absolute, without dot parts and without a trailing slash |
| RealPath.DotsMean | example_libc/src/realpath.c:91-101 | a dot behind any path changes nothing, and a name followed by two dots is taken back |
| RealPath.ComponentsOfBody | example_libc/src/realpath.c:82-90 | splitting a rendered stack gives the stack back |
| RealPath.Pop | example_libc/src/realpath.c:93-101 | the backward scan cuts exactly the last name |
| RealPath.Push | example_libc/src/realpath.c:102-108 | a name is appended with its slash |
| RealPath.Realpath | example_libc/src/realpath.c:69-113 | the in-place loop equals folding the components over a stack and stays within strlen + 2 bytes; the last branch is never taken |
| Numerals.ValueOfNumeral | example_libc/src/printf.c:18-33 | the numeral of a number denotes it |
| Numerals.NumberLocated | example_libc/src/strto.c:26-55 | spaces, sign and a digit string are located exactly, in every base; a hexadecimal 0 with an x behind it is the prefix |
| Numerals.DigitsInto | example_libc/src/printf.c:22-27 | the digit loop leaves the numeral, last digit first |
| Strto.CutTest | example_libc/src/strto.c:54-66 | the division test is exact: it fires exactly if the next value exceeds the limit |
| Strto.Digits | example_libc/src/strto.c:52-69 | the value of all digits if it does not exceed the limit, else overflow, however long the digits |
| Strto.Strtol | example_libc/src/strto.c:26-89 | the true value clamped to long and the end position |
| Strto.Strtoul | example_libc/src/strto.c:91-154 | the magnitude clamped to unsigned long, negated modulo 2^64, and the end position |
| Strto.DigitStringIsRead | example_libc/src/strto.c:26-89 | every optionally signed digit string of any length in bases 2 to 36: the clamped true value, all of it consumed |
| Strto.ReadsAsStandardIff | example_libc/src/strto.c:38-55 | for every text and base, strtol and strtoul read the subject sequence of ISO C exactly if the number is not a base prefix alone |
| Strto.PrefixReadAsNothing | example_libc/src/strto.c:38-75 | a prefix alone is read as nothing where the standard reads the digit 0 |
| Strto.PrefixesAlone | example_libc/src/strto.c:38-55 | 0, +0, -0, 08 and 0x in base 0, 0x and 0xg in base 16 are such texts |
| Printf.UintToBase | example_libc/src/printf.c:18-33 | the numeral of every unsigned long in any base from 4 on fits the scratch array |
| Printf.Lay | example_libc/src/printf.c:253-266 | blanks, sign, zeros and digits by width and precision |
| Printf.KnownTexts | example_libc/src/printf.c:139-277 | a number under each of the conversions |
| Printf.KnownLayout | example_libc/src/printf.c:253-266 | blanks, sign, zeros and digits of one example |
| Printf.PrintInteger | example_libc/src/printf.c:139-277 | the text of the conversion truncated to the buffer and terminated; the full length is returned |
| Printf.PrintedIsRead | example_libc/src/printf.c:139-277 | strtol reads back %ld and strtoul %lu %lx %lX %lo, for every value, width and precision, to the end |
| Printf.PrintThenRead | example_libc/src/printf.c:139-277 | the two routines composed give the value back |
| Ipv6.RoundTripIff | example_libc/src/inet_pton.c:39-98 | parse_ipv6 gives the words back exactly if no run is elided or the elided run stops before the last word; otherwise it rejects the text |
| Ipv6.KnownAddress | example_libc/src/inet_ntop.c:54-104 | the text of an address with a run elided in the middle |
| Ipv6.ElisionIsUnique | example_libc/src/inet_ntop.c:54-79 | the rule of sections 4.2.2 and 4.2.3 of RFC 5952 determines the run |
| Ipv6.JoinRead | example_libc/src/inet_pton.c:50-81 | a colon-separated list of words is read as those words |
| Ipv6Mixed.MixedRead | example_libc/src/inet_pton.c:39-98 | the words parse_ipv6 yields for every text of words, double colon, words and dotted tail |
| Ipv6Mixed.MixedReadIff | example_libc/src/inet_pton.c:58-75 | they are the address the text denotes exactly if the first dotted number and all words behind the double colon are zero |
| Ipv6Mixed.WordsBeforeDots | example_libc/src/inet_pton.c:66-67 | words and a dotted tail without a double colon are accepted exactly with five words, never with six |
| Ipv6Mixed.MappedAddress | example_libc/src/inet_pton.c:39-98 | ::ffff:1.2.3.4 is read as ::ffff:1:2:304 |
| Ipv6Code.BestRun | example_libc/src/inet_ntop.c:54-79 | the run found is the leftmost longest of at least two zero words, or none |
| Ipv6Code.Hex16 | example_libc/src/inet_ntop.c:14-25 | the hexadecimal numeral without leading zeros |
| Ipv6Code.EmitText | example_libc/src/inet_ntop.c:81-97 | the joined text with the run elided; it fits the buffer |
| Ipv6Code.InetNtop6 | example_libc/src/inet_ntop.c:46-100 | fails exactly for a short destination, else the text with the run of the rule |
| Ipv6Code.ParseIpv4Text | example_libc/src/inet_pton.c:16-37 | the four parts, each at most 255, or failure |
| Ipv6Code.ReadWords | example_libc/src/inet_pton.c:50-83 | the loop of parse_ipv6 agrees with the parse function in every branch |
| Ipv6Code.Spread | example_libc/src/inet_pton.c:87-92 | the in-place shift opens the gap and zeroes it |
| Ipv6Code.ParseIpv6 | example_libc/src/inet_pton.c:39-98 | accepts exactly what the parse function accepts and yields its bytes |
| Ipv6Code.PrintThenParse | example_libc/src/inet_ntop.c:46-100 | on sixteen bytes: reading back succeeds exactly if the elided run does not end the address, and then gives the same bytes |
| PathParser.PartsOfJoined | src/fs/pparser.c:73-101 | joined nonempty slash-free names are parsed into those names |
| PathParser.WholePathParsed | src/fs/pparser.c:161-219 | without failures, "d:/" and joined names of total length at most 108 give exactly that drive and list |
| PathParser.ParsedIsPrefix | src/fs/pparser.c:108-131 | under every pattern of failures the parts are a prefix of the components |
| PathParser.ParsedIsAll | src/fs/pparser.c:108-131 | without failures they are all of them |
| PathParser.Kernel.Kzalloc | src/fs/pparser.c:55-61 | a fresh zeroed object, or null without effect, as the script says |
| PathParser.Kernel.GetPathPart | src/fs/pparser.c:73-101 | the next component in a fresh string that is never overrun; nothing stays allocated otherwise |
| PathParser.Kernel.ParsePathPart | src/fs/pparser.c:108-131 | the list grows by one linked element, or nothing stays allocated |
| PathParser.Kernel.Parse | src/fs/pparser.c:161-219 | null with nothing left allocated, or a root that reaches every new allocation and lists exactly the components that got their memory |
| PathParser.Kernel.FreePath | src/fs/pparser.c:139-151 | on whatever the parser returned: faults exactly at null and then changes nothing, otherwise releases the root and everything it reaches |
| PathParser.Kernel.ParseThenFree | src/fs/pparser.c:139-219 | parsing then freeing restores the heap under every pattern of failures |

## Left out

- Match lengths, the values of captures, back-references, quantified groups and ranges on groups, POSIX class names: outside the token lists the matcher's bookkeeping supports.
- RegexRanges.ScanRange: bounds that overflow int, and allocation failure, are not modelled.  A count {m} without a comma is not among the ranges the library documents (regex.h:26) and stays text.
- RegexReading.RightIffSameReading: where both readings have alternatives, differ and agree in number, only the one direction of RightIfSameReading is proved; RegexCoincidence.MisreadButRight shows that the converse fails there.
- RegexRangeExact.RangesRightIff: speaks of each alternative; another alternative may cover what one lacks (CoveredByAnother).  Where an alternative has both an open range and a unit with a star or plus only the one direction is proved, and CoveredByStar shows that the converse fails there.  Ranges behind groups, such as (ab){2,2}, and directly behind a quantifier (QuantifierRanged) are not part of these patterns.
- RegexRangeExact.UnfineRowWrong: excludes the same alternatives.
- RegexCompile.SearchPattern: covers patterns that, with their ranges written out, have no anchors and back-references, no quantified groups and at most nine groups per alternative; anchors at the ends of a branch are covered by RegexAnchors.SearchAnchored, and elsewhere, as in (^a), are not.
- RegexRewrite.ExpandAltsInto: allocation failure is not modelled.
- RegexRewrite.ExpandGroups: allocation failure is not modelled.
- RegexCompile.Regcomp: allocation failure is not modelled.
- RegexCaptures.StoresInBoundsIff: speaks of every token of the alternatives, not of those a given text makes the matcher reach; reads by back-references are not included.
- DesCode.Engine.DesCipher: byte order conversion of the block (ntohl, htonl) is left to the caller; crypt_des, MD5 and SHA crypt are not part of this model.
- ReadWriteLock.MutualExclusion: counters are unbounded and memory is sequentially consistent; weaker orderings are not modelled.
- Barrier.InvAlways: counters are unbounded; timed waits, signal and recursive mutexes are not modelled.
- AllocatorCode.Heap.Malloc: no other caller moves the break, and the lock around the list is not modelled.  A header written above the lowered break is not represented.
- AllocatorCode.Heap.PosixMemalign: the alignment header written after malloc has lowered the break is not represented.
- AllocatorCode.Heap.Realloc: plain pointers only; realloc of an aligned pointer reads the wrong header.  What it copies and frees after malloc has lowered the break is not represented.
- The mmap branch of memory.c, calloc, aligned_alloc and reallocarray: they would only add easy members.
- Calendar.ConvertTm: the one addition that can overflow int (day count plus 4, for the weekday) is taken modulo 2^32.
- Calendar.Timegm: fields whose products overflow int, or a month above 12, are excluded.
- TimeText.Strftime: the field INT_MIN is excluded, because its negation overflows.
- parse_offset and tzset: the zone offset is a parameter.
- Stdio.Stream.Fread: seeking, ungetc, memory and cookie streams, and streams that mix reads and writes are not modelled.
- SearchTreeCode.SearchTree.Tsearch: the comparison is a total preorder given by ranks.
- RealPath.Realpath: the current directory in front of a relative path is taken as already joined.
- Printf.PrintInteger: formats that are one integer conversion with modifier l; other conversions and parsing of the format are not modelled.
- Numerals.DigitsInto: one loop stands for the identical loops of fmt_int and uint_to_base.
- erand48 and drand48, strtod and the floating-point library: rounding is not modelled.
- Scheduler, paging, FAT16 and drivers of the kernel, and the thin system call wrappers: not part of this model.
