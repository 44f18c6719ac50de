# Measured boot tools: a verified model

The repository computes the reference values of a measured boot (PCR and MRTD values, PE image
digests, IMA entries) and reads the logs in which a platform reports them. This project models the
parts with the most state and arithmetic and proves what they promise. All hash functions are
uninterpreted: the theorems are about the exact byte streams that reach them, and the crc table of
the match finder is arbitrary.

The model has the form of the source. Functions on values say what each step does; methods and
classes run the loops on arrays and fields as the C code does and are proved equal to these
functions; lemmas prove the properties of the functions over every input, run or log.

- `Words`, `Bits`, `Buffers`: bytes, fixed-width words, bit operations and binary digits, little-endian
  reads, copying.
- `Bra86`, `Bra86Reference`: the x86 branch converter, encoding and decoding, in place and in pieces, and
  what it computes said without masks and shifts.
- `LzTree`, `LzSon`, `LzSearch`: the search trees as values, their cells in the cyclic array, the loops.
- `LzHash`, `LzChain`: the hash functions and the two forms of the hash-chain search.
- `LzWindow`, `LzBuckets`, `LzMatches`, `LzRun`, `LzIndex`: positions and limits, the buckets, one call,
  whole runs, and the index without position numbers that every run agrees with.
- `LzHc`, `LzHcRun`: the chains of Hc4, whole runs, and the report computed from the input alone.
  `LzShort`: when short matches are complete. `LzStrings`: which strings share a bucket, and completeness
  in terms of strings. `LzCreate`: the hash mask. `LzFinder`: the match finder object.
- `PeImage`, `PeSort`, `PeMeasure`, `PeSigning`: header validation, the section sort, the hashed
  ranges of the Authenticode procedure (Appendix A of the PE/COFF Specification 8.0), and signing.
  `PeLayout`: images from the named fields of their headers, which of them are accepted and what is
  hashed. `PeExamples`: images at which these properties stop to hold.
- `EventLog`, `Replay`, `Pcrs`, `LogReader`, `LogFile`, `Sha1Log`, `LogBytes`: the event log format, the
  callbacks as a state machine, what a replay leaves in the PCRs, the reader object, whole log files,
  which logs in SHA-1 format are accepted, and logs of one event byte by byte.
- `Mrtd`, `MrtdMeasure`, `MrtdLayout`: the TDX MRTD record stream in the orders of two QEMU versions, and
  the bytes of metadata and records.
- `ImaFormat`, `ImaPaths`, `Ima`, `ImaLog`, `ImaReader`: IMA template names and the fields they stand for,
  the path an entry yields, the template builder, the log parser, and both as they run.

Findings, each with its exact condition in a lemma:

- The flag that keeps an EV_NO_ACTION event from being extended is cleared by the event's first
  digest. `Pcrs.TwoDigestsExtend` shows an event whose second digest is extended; `Pcrs.CleanExactly`
  and `Pcrs.LogCleanExactly` say for which events and logs every extension is the right one.
- The data callback for EV_IPL events replaces tabs by spaces up to the first NUL in memory, which
  may lie behind the event. A log whose events are all well-formed and visited with success is
  rejected if and only if such an event without a NUL in its data is directly followed by an event
  for PCR 9, whose number becomes 32
  (`Replay.SparesExactly`, `Replay.RunVisits`; `Pcrs.TabBreaksLog` is such a log). In the SHA-1 format
  the same write changes what is read behind such a record if and only if a tab comes before the next
  NUL (`Sha1Log.ReadsExactly`).
- The IMA log parser keeps the template length in a signed 32-bit variable. `ImaLog.LogParses` says
  that a log of built entries is reported completely if and only if every template is below 2 GiB.
- Entries of the plain `ima` template never yield a path, so the parser stops at the first one
  (`Ima.PlainImaHasNoPath`, `ImaLog.PlainImaStops`).
- A template name that is not in the table is read as its own field list and stays in the table's last
  entry. `ImaFormat.NamesThatYieldPaths` says which names can yield a path before and after that;
  `ImaFormat.OddNameTakesOver` is a name after which `ima-modsig` entries no longer yield one. When such a
  name puts the signature before the file name, contents that are no signature are not skipped: the file
  name is looked for in their place (`ImaPaths.SignatureFirst`, `ImaPaths.ModsigFirst`).
- A cut search loses strings. `LzTree.SplitLoses` and `LzIndex.TreeAfter` say which: the subtree that the
  search does not get to, and a string equal to the current one on all bytes compared.
- The offset of the section table is kept in 32 bits. An accepted image is sound if and only if its
  table starts below 4 GiB, as it does in every image of less than 4 GiB (`PeImage.AcceptedIsSound`);
  `PeExamples.WrapIsUnsound` is an accepted image of 4 GiB and 248 bytes with a hashed range outside of it.
- Signing an image keeps its digest input, unless the directory entry points outside the file or the
  section sizes add up to more than the unsigned and less than the signed file; in these cases the
  image is rejected (`PeSigning.SigningKeepsMeasure`; `PeExamples.SigningRejectsOverlap` is an image that
  is measured before signing and rejected after it).
- An MRTD section that is extended needs `memory_data_size` bytes of the image, although the section
  check compares that size with the raw size only (`Mrtd.SectionCompletes`; `Mrtd.RawSizeIsNotEnough` is
  such a section).
- The size check on a startup locality event compares the size of the whole record, not that of its
  data; `Pcrs.LocalityFromOwnData` says exactly when the locality is read from behind the event. The
  model reads it there (`memory` in `Replay`).

The return code of measure_ovmf is already 0 when a section check fails, so success is modelled as
reaching the finalisation of the digest.

## Model

| member | source | states |
|---|---|---|
| `Bra86.ConvertInverse` | thirdparty/LzmaCustomDecompressLib/Sdk/C/Bra86.c:10-91 | on every buffer, for equal address and starting state, decoding undoes encoding and encoding undoes decoding: same bytes back, same processed count, same final state |
| `Bra86.PendingBytesGuarded` | thirdparty/LzmaCustomDecompressLib/Sdk/C/Bra86.c:46-55 | later conversions never change whether a byte that a pending opcode depends on is 00 or FF, so both directions take the same branches |
| `Bra86.OperandInverse` | thirdparty/LzmaCustomDecompressLib/Sdk/C/Bra86.c:58-85 | rewriting four operand bytes keeps the outer byte 00 or FF and the guarded byte neither, and the other direction restores the bytes |
| `Bra86.RewriteInverse` | thirdparty/LzmaCustomDecompressLib/Sdk/C/Bra86.c:59-77 | add, flip and re-add in 32-bit arithmetic is undone by subtract, flip and re-subtract, and keeps the guarded byte off 00 and FF |
| `Bra86.RewriteCongruent` | thirdparty/LzmaCustomDecompressLib/Sdk/C/Bra86.c:59-85 | only the value modulo 2^25 of an operand matters to the rewriting |
| `Bra86.StepInverse` | thirdparty/LzmaCustomDecompressLib/Sdk/C/Bra86.c:29-90 | the swapped direction makes the same step at a position and restores its bytes |
| `Bra86.ConvertResumes` | thirdparty/LzmaCustomDecompressLib/Sdk/C/Bra86.c:20-44 | stopping at the processed count and going on with advanced address and carried state is the same as one call |
| `Bra86.PiecesAsOne` | thirdparty/LzmaCustomDecompressLib/Sdk/C/Bra.h:25-52 | any way of cutting a stream into pieces gives the bytes, the count and the state of a single call |
| `Bra86.AddressWraps` | thirdparty/LzmaCustomDecompressLib/Sdk/C/Bra86.c:27-66 | only the low 32 bits of the address matter |
| `Bra86.ScanOpcode` | thirdparty/LzmaCustomDecompressLib/Sdk/C/Bra86.c:30-36 | finds the first opcode byte before the limit, or the limit |
| `Bra86.RewriteOperand` | thirdparty/LzmaCustomDecompressLib/Sdk/C/Bra86.c:59-85 | rewrites the four operand bytes in place and no others, as the conversion of the remaining bytes demands |
| `Bra86.X86Convert` | thirdparty/LzmaCustomDecompressLib/Sdk/C/Bra86.c:10-91 | in place: the buffer, the returned count and the new state are those of the conversion that the lemmas above are about |
| `Bra86Reference.ConvertIsReference` | thirdparty/LzmaCustomDecompressLib/Sdk/C/Bra86.c:20-91 | for every buffer, address, history and direction the conversion is that of a plain description: an operand is rewritten when it ends in 00 or FF and at most one opcode was passed over in the last three bytes, whose operand does not end in 00 or FF; it becomes the sum with the address, with the bytes up to where that operand ends complemented and the address added again when the sum has 00 or FF there |
| `Bra86Reference.CallTarget` | thirdparty/LzmaCustomDecompressLib/Sdk/C/Bra86.c:57-85 | encoding adds the address of the next instruction to the operand of a call or jump, modulo 2^25, and decoding subtracts it; the opcode stays and the last byte is 00 or FF |
| `Bra86Reference.SameTarget` | thirdparty/LzmaCustomDecompressLib/Sdk/C/Bra86.c:57-85 | two calls of one target at different places get the same bytes |
| `LzTree.SplitKeepsOrder` | thirdparty/LzmaCustomDecompressLib/Sdk/C/LzFind.c:643-680 | for any cutValue both halves of a split stay ordered by content, heap-ordered by recency, and on their side of the current string |
| `LzTree.InsertKeepsInvariant` | thirdparty/LzmaCustomDecompressLib/Sdk/C/LzFind.c:636-681 | for any cutValue an insertion preserves the tree invariant |
| `LzTree.NearRoot` | thirdparty/LzmaCustomDecompressLib/Sdk/C/LzFind.c:646-655 | comparing from min(len0, len1) on gives the full common prefix length |
| `LzTree.Between` | thirdparty/LzmaCustomDecompressLib/Sdk/C/LzFind.c:646-655 | a string between two others in content order agrees with the second at least as far as the first does |
| `LzTree.SplitKeepsNodes` | thirdparty/LzmaCustomDecompressLib/Sdk/C/LzFind.c:657-667 | with enough visits no string is lost but one equal to the current string on lenLimit bytes |
| `LzTree.ScanReports` | thirdparty/LzmaCustomDecompressLib/Sdk/C/LzFind.c:657-660 | the naive search reports exactly the candidates that are longer than maxLen and than every nearer candidate |
| `LzTree.ScanIncreases` | thirdparty/LzmaCustomDecompressLib/Sdk/C/LzFind.c:657-660 | lengths and distances of the naive answer strictly increase |
| `LzTree.FoundIsScan` | thirdparty/LzmaCustomDecompressLib/Sdk/C/LzFind.c:636-681 | for any cutValue the tree search reports a prefix of the naive search over its nodes, and all of it when no visit is cut off |
| `LzTree.FoundIsVisited` | thirdparty/LzmaCustomDecompressLib/Sdk/C/LzFind.c:636-681 | for any cutValue the search reports exactly what the naive search over the first cutValue nodes on the way down reports |
| `LzTree.SplitLoses` | thirdparty/LzmaCustomDecompressLib/Sdk/C/LzFind.c:636-681 | for any cutValue an insertion loses exactly the subtree the search does not get to and the string on the way that is equal on lenLimit bytes |
| `LzSon.SkipIsGet` | thirdparty/LzmaCustomDecompressLib/Sdk/C/LzFind.c:685-740 | from every array, tree or not, searching and skipping leave the identical son array |
| `LzSon.LoopIsSearch` | thirdparty/LzmaCustomDecompressLib/Sdk/C/LzFind.c:632-681 | the pointer-rewriting loop over a represented tree leaves the two halves of the split hanging from the two cells, changes no other cell, and reports the split's matches |
| `LzSearch.Compare` | thirdparty/LzmaCustomDecompressLib/Sdk/C/LzFind.c:648-655 | the byte loop returns the common prefix length |
| `LzSearch.GetMatchesSpec1` | thirdparty/LzmaCustomDecompressLib/Sdk/C/LzFind.c:619-682 | in place: array and matches are those of the loop specification |
| `LzSearch.SkipMatchesSpec` | thirdparty/LzmaCustomDecompressLib/Sdk/C/LzFind.c:685-740 | in place: the array is that of the skip specification |
| `LzSearch.HcGetMatchesSpec` | thirdparty/LzmaCustomDecompressLib/Sdk/C/LzFind.c:536-615 | in place: one cell changes, and the matches are those of the optimised loop |
| `LzChain.SameMatches` | thirdparty/LzmaCustomDecompressLib/Sdk/C/LzFind.c:549-614 | for every chain, cutValue at least 1 and lenLimit above maxLen, the optimised loop finds what the simple loop in its comment finds |
| `LzChain.FastIsSimple` | thirdparty/LzmaCustomDecompressLib/Sdk/C/LzFind.c:549-614 | the same for every cutValue, counting 0 as 2^32 visits for the loop that decrements before it tests |
| `LzChain.ChainIsScan` | thirdparty/LzmaCustomDecompressLib/Sdk/C/LzFind.c:551-575 | the chain search is the naive search over its first cutValue candidates |
| `LzHash.H2Genuine` | thirdparty/LzmaCustomDecompressLib/Sdk/C/LzHash.h:17-27 | for any crc table, equal first bytes and equal h2 force equal second bytes |
| `LzHash.H3Genuine` | thirdparty/LzmaCustomDecompressLib/Sdk/C/LzHash.h:22-27 | for any crc table, equal first bytes and equal h3 force equal second and third bytes |
| `LzStrings.HeadHashBits` | thirdparty/LzmaCustomDecompressLib/Sdk/C/LzHash.h:17-26 | for any crc table, each binary digit of h2 and h3 is the parity of the digits of the crc word and the bytes that enter it |
| `LzStrings.MainHashBits` | thirdparty/LzmaCustomDecompressLib/Sdk/C/LzHash.h:17-27 | the same for the bucket hashes of three and four bytes with 2^n buckets |
| `LzStrings.Main2Exactly` | thirdparty/LzmaCustomDecompressLib/Sdk/C/LzHash.h:15 | two strings have the same 2-byte hash if and only if they have the same two bytes |
| `LzStrings.MiddleBytes` | thirdparty/LzmaCustomDecompressLib/Sdk/C/LzHash.h:17-27 | with 2^16 buckets or more, strings with equal first byte (and equal fourth, when it is hashed) share a bucket if and only if their second and third bytes are equal |
| `LzStrings.LastByte` | thirdparty/LzmaCustomDecompressLib/Sdk/C/LzHash.h:22-27 | strings with three equal bytes share a bucket if and only if the shifted crc words of their fourth bytes agree modulo the number of buckets |
| `LzStrings.BucketExactly` | thirdparty/LzmaCustomDecompressLib/Sdk/C/LzHash.h:15-27 | a bucket holds exactly the strings whose digit sums have the same parities |
| `LzCreate.HashMaskIsOnes` | thirdparty/LzmaCustomDecompressLib/Sdk/C/LzFind.c:294-321 | whatever the sizes, the smeared hash mask is a row of 16 to 30 ones, of the stated length, so the number of buckets is a power of two and masking is reducing modulo it |
| `LzWindow.InitInv` | thirdparty/LzmaCustomDecompressLib/Sdk/C/LzFind.c:441-458 | after initialisation the window invariant holds |
| `LzWindow.MovePosInv` | thirdparty/LzmaCustomDecompressLib/Sdk/C/LzFind.c:742-745 | moving on keeps the window invariant while input remains |
| `LzWindow.LookaheadThere` | thirdparty/LzmaCustomDecompressLib/Sdk/C/LzFind.c:376-410 | at every position reached lenLimit bytes are ahead, the cyclic slot exists, and pos is below 0xFFFFFFFF |
| `LzWindow.BlockRead` | thirdparty/LzmaCustomDecompressLib/Sdk/C/LzFind.c:85-110 | a block read makes as much input available as a 32-bit count can express |
| `LzWindow.LimitIsGreatest` | thirdparty/LzmaCustomDecompressLib/Sdk/C/LzFind.c:376-410 | posLimit is the greatest position before the numbers run out, the cyclic array ends or the lookahead is used up |
| `LzWindow.MoveExactly` | thirdparty/LzmaCustomDecompressLib/Sdk/C/LzFind.c:470-529 | a step moves the position and the cyclic position by one, the latter around the array; exactly when the number reaches 0xFFFFFFFF it drops, by the greatest multiple of 2^10 that leaves it at cyclicSize or more |
| `LzWindow.RenumberKeepsDelta` | thirdparty/LzmaCustomDecompressLib/Sdk/C/LzFind.c:479-497 | renumbering keeps the distance of every in-window reference and leaves every other out of the window |
| `LzWindow.RenumberKeepsRep` | thirdparty/LzmaCustomDecompressLib/Sdk/C/LzFind.c:479-508 | after renumbering every reference represents the same tree |
| `LzWindow.NextRep` | thirdparty/LzmaCustomDecompressLib/Sdk/C/LzFind.c:742-745 | moving on drops from a tree exactly the strings that leave the window |
| `LzBuckets.BucketsInsert` | thirdparty/LzmaCustomDecompressLib/Sdk/C/LzFind.c:767-772 | inserting the current string keeps every bucket a search tree of its own strings, for any cutValue |
| `LzBuckets.CoversInsert` | thirdparty/LzmaCustomDecompressLib/Sdk/C/LzFind.c:767-772 | when the tree is no higher than cutValue, the insertion keeps every string of the bucket that is in the window, the current one included, in the tree or stood for by a nearer equal one |
| `LzBuckets.FoundIsNaive` | thirdparty/LzmaCustomDecompressLib/Sdk/C/LzFind.c:619-682 | when the current bucket's tree is no higher than cutValue and stands for the bucket, the tree search reports exactly the naive answer over all earlier positions of the window |
| `LzBuckets.HeightBound` | thirdparty/LzmaCustomDecompressLib/Sdk/C/LzFind.c:636-681 | a tree is no higher than the number of strings of its bucket in the window |
| `LzMatches.GetIsSkip` | thirdparty/LzmaCustomDecompressLib/Sdk/C/LzFind.c:781-1222 | from every state GetMatches and Skip(1) of Bt2, Bt3 and Bt4 leave the same hash tables and sons |
| `LzMatches.Head2Genuine` | thirdparty/LzmaCustomDecompressLib/Sdk/C/LzFind.c:883-888 | a usable entry of the 2-byte table is a genuine 2-byte match and the nearest one |
| `LzMatches.Head3Genuine` | thirdparty/LzmaCustomDecompressLib/Sdk/C/LzFind.c:890-895 | a usable entry of the 3-byte table is a genuine 3-byte match and the nearest one |
| `LzMatches.GetMatchesSound` | thirdparty/LzmaCustomDecompressLib/Sdk/C/LzFind.c:781-911 | for any cutValue only true matches are reported, of exactly the reported length, with strictly increasing lengths and distances |
| `LzMatches.GetMatchesIsNaive` | thirdparty/LzmaCustomDecompressLib/Sdk/C/LzFind.c:781-911 | under the same condition on the current bucket alone, the reported matches of the hashed length or more are exactly the naive answer |
| `LzRun.NextKeepsInv` | thirdparty/LzmaCustomDecompressLib/Sdk/C/LzFind.c:742-911 | every GetMatches or Skip keeps the finder invariant, renumbering included |
| `LzRun.ReportIsTrue` | thirdparty/LzmaCustomDecompressLib/Sdk/C/LzFind.c:781-911 | in every state a run can reach, for any cutValue, only true matches are reported, in increasing order |
| `LzRun.NumberingInvisible` | thirdparty/LzmaCustomDecompressLib/Sdk/C/LzFind.c:470-508 | two finders that index the same strings under different position numbers report the same and go on indexing the same |
| `LzIndex.RunIsIndex` | thirdparty/LzmaCustomDecompressLib/Sdk/C/LzFind.c:470-529 | for any cutValue every report of every run is that of an index in which positions have no numbers and nothing is renumbered |
| `LzIndex.TreesOfRun` | thirdparty/LzmaCustomDecompressLib/Sdk/C/LzFind.c:470-529 | the trees of a run are those of that index at every position |
| `LzIndex.HeadsAreNearest` | thirdparty/LzmaCustomDecompressLib/Sdk/C/LzFind.c:871-904 | the short matches depend only on the nearest strings with equal 2-byte and 3-byte hashes |
| `LzIndex.EveryPosition` | thirdparty/LzmaCustomDecompressLib/Sdk/C/LzFind.c:441-911 | at every position of every input, after any mix of GetMatches and Skip, the report is true; it is complete against the naive search when no search in that bucket since the window's oldest string has met a tree higher than cutValue |
| `LzIndex.Stands` | thirdparty/LzmaCustomDecompressLib/Sdk/C/LzFind.c:636-681 | a string of the window is stood for in its bucket unless a search in that bucket since then was cut short; other buckets and earlier searches do not matter |
| `LzIndex.FewStringsAreRoomy` | thirdparty/LzmaCustomDecompressLib/Sdk/C/LzFind.c:638-641 | a search is not cut short when the window holds at most cutValue strings of the bucket |
| `LzIndex.LongSearchesAreRoomy` | thirdparty/LzmaCustomDecompressLib/Sdk/C/LzFind.c:638-641 | nor is any when cutValue is at least historySize |
| `LzIndex.ReportIsVisited` | thirdparty/LzmaCustomDecompressLib/Sdk/C/LzFind.c:636-911 | for any cutValue the report is the short matches and the naive search over the first cutValue strings on the way down the tree |
| `LzIndex.TreeAfter` | thirdparty/LzmaCustomDecompressLib/Sdk/C/LzFind.c:636-745 | exactly which strings are in the tree of the bucket after a step |
| `LzStrings.FewRivals` | thirdparty/LzmaCustomDecompressLib/Sdk/C/LzFind.c:441-911 | in every run with 2^n buckets the report is complete when no string that collides with the current one, nor the current one, has more than cutValue colliding strings before it in its window; collisions are read off the strings |
| `LzHc.GetIsSkipHc` | thirdparty/LzmaCustomDecompressLib/Sdk/C/LzFind.c:989-1263 | from every state GetMatches and Skip(1) of Hc4 leave the same tables |
| `LzHcRun.NextHcKeepsInv` | thirdparty/LzmaCustomDecompressLib/Sdk/C/LzFind.c:989-1053 | every step keeps the chains: each lists exactly the strings of the window in its bucket, newest first |
| `LzHcRun.ReportHcIsTrue` | thirdparty/LzmaCustomDecompressLib/Sdk/C/LzFind.c:989-1053 | for any cutValue Hc4 reports true matches in increasing order, complete for 4 bytes and more when the window holds no more strings of the current bucket than the search visits |
| `LzHcRun.ReportHcIsIndex` | thirdparty/LzmaCustomDecompressLib/Sdk/C/LzFind.c:989-1053 | for any cutValue the report is computed from the input alone: the short matches, and the naive search over the newest strings of the bucket, as many as cutValue allows |
| `LzHcRun.NumberingInvisibleHc` | thirdparty/LzmaCustomDecompressLib/Sdk/C/LzFind.c:470-508 | two Hc4 finders at the same position report the same under different position numbers |
| `LzHcRun.EveryPositionHc` | thirdparty/LzmaCustomDecompressLib/Sdk/C/LzFind.c:441-1053 | all of this at every position of every run of Hc4, renumbering included |
| `LzStrings.FewRivalsHc` | thirdparty/LzmaCustomDecompressLib/Sdk/C/LzFind.c:441-1053 | the report of Hc4 is complete when the current string has no more colliding strings in the window than are visited |
| `LzShort.TreesAllLengths` | thirdparty/LzmaCustomDecompressLib/Sdk/C/LzFind.c:871-911 | when the bucket has room, the report of a tree finder is the whole naive answer, short matches included, if and only if no nearest 2- or 3-byte match is hidden by a newer string with the same hash |
| `LzShort.ChainsAllLengths` | thirdparty/LzmaCustomDecompressLib/Sdk/C/LzFind.c:1006-1053 | the same for Hc4 |
| `LzShort.HeadHas` | thirdparty/LzmaCustomDecompressLib/Sdk/C/LzFind.c:883-904 | the short head matches are exactly the nearest matches of their length that a table shows |
| `LzFinder.MatchFinder.constructor` | thirdparty/LzmaCustomDecompressLib/Sdk/C/LzFind.c:413-468 | a fresh finder is in the start state of the runs above |
| `LzFinder.MatchFinder.SetLimits` | thirdparty/LzmaCustomDecompressLib/Sdk/C/LzFind.c:376-410 | the fields become those of the limits specification, nothing else changes |
| `LzFinder.MatchFinder.ReadBlock` | thirdparty/LzmaCustomDecompressLib/Sdk/C/LzFind.c:85-110 | the branch for direct input |
| `LzFinder.Normalize3` | thirdparty/LzmaCustomDecompressLib/Sdk/C/LzFind.c:479-497 | every item of the array is renumbered |
| `LzFinder.MatchFinder.Normalize` | thirdparty/LzmaCustomDecompressLib/Sdk/C/LzFind.c:500-508 | all references and offsets are renumbered by the same amount |
| `LzFinder.MatchFinder.CheckLimits` | thirdparty/LzmaCustomDecompressLib/Sdk/C/LzFind.c:512-529 | window and tables become those of the specification |
| `LzFinder.MatchFinder.MovePos` | thirdparty/LzmaCustomDecompressLib/Sdk/C/LzFind.c:742-755 | window and tables become those of the specification |
| `LzFinder.MatchFinder.Bt2GetMatches` | thirdparty/LzmaCustomDecompressLib/Sdk/C/LzFind.c:782-795 | report and new state are those of the run specification |
| `LzFinder.MatchFinder.Bt3GetMatches` | thirdparty/LzmaCustomDecompressLib/Sdk/C/LzFind.c:814-852 | report and new state are those of the run specification |
| `LzFinder.MatchFinder.Bt4GetMatches` | thirdparty/LzmaCustomDecompressLib/Sdk/C/LzFind.c:855-911 | report and new state are those of the run specification |
| `LzFinder.MatchFinder.GetMatches` | thirdparty/LzmaCustomDecompressLib/Sdk/C/LzFind.c:1302-1339 | whichever search is selected, Hc4 included: the report is that of the index at the position, true, and complete under the stated condition; the object moves to the next state of its run |
| `LzFinder.MatchFinder.Skip` | thirdparty/LzmaCustomDecompressLib/Sdk/C/LzFind.c:1302-1339 | whichever Skip is selected, Hc4 included, the object moves on by num positions of its run |
| `LzFinder.MatchFinder.BtSkip` | thirdparty/LzmaCustomDecompressLib/Sdk/C/LzFind.c:1155-1222 | the object moves on by num positions of its run |
| `LzFinder.MatchFinder.Hc4GetMatches` | thirdparty/LzmaCustomDecompressLib/Sdk/C/LzFind.c:990-1053 | report and new state are those of the run specification |
| `LzFinder.MatchFinder.Hc4Skip` | thirdparty/LzmaCustomDecompressLib/Sdk/C/LzFind.c:1245-1263 | the object moves on by num positions of its run |
| `PeImage.ReadIsComplete` | thirdparty/edk2/MeasureBootPeCoff.c:61-90 | a read is complete if and only if the requested range lies in the image |
| `PeImage.AcceptedIsSound` | thirdparty/edk2/MeasureBootPeCoff.c:138-598 | acceptance puts SizeOfHeaders, the section table, the certificates and every nonempty section inside the image and orders the header fields, if and only if the section table starts below 4 GiB; in an image below 4 GiB it always does |
| `PeImage.TableDoesNotWrap` | thirdparty/edk2/MeasureBootPeCoff.c:402-429 | the 32-bit offset of every section header is the true one and lies within the headers when the table starts below 4 GiB |
| `PeExamples.WrapIsUnsound` | thirdparty/edk2/MeasureBootPeCoff.c:402-429 | an accepted image whose section table starts behind 4 GiB: it is not sound, and a header range that is hashed lies outside of it |
| `PeImage.CheckSections` | thirdparty/edk2/MeasureBootPeCoff.c:517-595 | the loop accepts if and only if every section header passes all checks |
| `PeImage.ImageContext.LoadPeHeader` | thirdparty/edk2/MeasureBootPeCoff.c:138-598 | accepts exactly the images of the validation function and records their fields |
| `PeLayout.SectionReads` | thirdparty/edk2/PeImage.h:278-292 | a section header written field by field is read back: address, size and file position from where the structure has them |
| `PeLayout.HeaderReads` | thirdparty/edk2/PeImage.h:80-250 | the same for the PE32 and PE32+ headers, and the checksum and the security directory are the bytes that the hashing leaves out |
| `PeLayout.AcceptedExactly` | thirdparty/edk2/MeasureBootPeCoff.c:138-598 | an image written from its named fields is accepted if and only if the fields pass the checks, stated in plain arithmetic |
| `PeSort.SortSorts` | thirdparty/edk2/MeasureBootPeCoff.c:1191-1199 | the sorted table is an ascending and stable permutation of the section table |
| `PeSort.StableOrderUnique` | thirdparty/edk2/MeasureBootPeCoff.c:1178-1199 | there is only one such arrangement |
| `PeSort.SkippingCommutes` | thirdparty/edk2/MeasureBootPeCoff.c:1166-1212 | sorting first and skipping empty sections later is the published order, which drops them first |
| `PeSort.InsertInto` | thirdparty/edk2/MeasureBootPeCoff.c:1192-1197 | in place: the sorted part becomes the insertion of the section into it |
| `PeSort.InsertionSort` | thirdparty/edk2/MeasureBootPeCoff.c:1172-1199 | in place: the table is the sorted section table |
| `PeMeasure.RangesAreLegal` | thirdparty/edk2/MeasureBootPeCoff.c:1043-1261 | every hashed range of an accepted image lies in the image; no 64-bit subtraction wraps |
| `PeMeasure.HeaderRangesAre` | thirdparty/edk2/MeasureBootPeCoff.c:1043-1149 | the header lengths computed by subtraction are not negative |
| `PeMeasure.HashedByteCount` | thirdparty/edk2/MeasureBootPeCoff.c:1154-1261 | conservation: file size minus certificate size minus 12 bytes are hashed (minus 4 without a directory entry), and the summed sizes minus these when they exceed the file |
| `PeMeasure.TiledImageInOrder` | thirdparty/edk2/MeasureBootPeCoff.c:1043-1261 | when the sections tile the file the stream is the file in order without checksum, directory entry and trailing certificates |
| `PeLayout.MeasuredExactly` | thirdparty/edk2/MeasureBootPeCoff.c:1043-1261 | for every accepted image written from its named fields whose sections begin at different places of the file: exactly which bytes are hashed, in which order, and when the image is rejected |
| `PeMeasure.SkippingWhileHashing` | thirdparty/edk2/MeasureBootPeCoff.c:1166-1223 | the hashed section ranges are those of steps 11 to 15 of the published procedure |
| `PeMeasure.HashHeaders` | thirdparty/edk2/MeasureBootPeCoff.c:1043-1149 | hashes the headers without checksum and directory entry |
| `PeMeasure.HashSections` | thirdparty/edk2/MeasureBootPeCoff.c:1208-1223 | hashes the ranges of the sorted table and sums the sizes |
| `PeMeasure.MeasurePeImage` | thirdparty/edk2/MeasureBootPeCoff.c:946-1282 | returns the stream of the measurement function, or rejects |
| `PeSigning.SigningKeepsMeasure` | thirdparty/edk2/MeasureBootPeCoff.c:1075-1261 | appending certificates, entering their size and changing the checksum keeps the stream; the signed image is rejected exactly under the stated conditions |
| `PeExamples.SigningRejectsOverlap` | thirdparty/edk2/MeasureBootPeCoff.c:1230-1261 | an image of 264 bytes with two sections on the same bytes that is measured, and rejected once it carries 16 bytes of certificates |
| `PeSigning.SignedHeaderAccepted` | thirdparty/edk2/MeasureBootPeCoff.c:336-372 | the signed image is accepted by the validator if and only if its certificates end inside it |
| `EventLog.AcceptedLogs` | parse-srtm-pcrs/thirdparty/tpm2-tools/tpm2_eventlog.c:262-357 | a log parses to a list of events if and only if they are well-formed and the log is their concatenation |
| `EventLog.SecondPassComplete` | parse-srtm-pcrs/thirdparty/tpm2-tools/tpm2_eventlog.c:336-340 | the second digest pass never runs short of the size found by the first |
| `EventLog.ParsedDigestsOk` | parse-srtm-pcrs/thirdparty/tpm2-tools/tpm2_eventlog.c:38-81 | parsed digests are as many as announced, have the size of their algorithm and fill exactly the accounted bytes |
| `EventLog.EventParses` | parse-srtm-pcrs/thirdparty/tpm2-tools/tpm2_eventlog.c:147-184 | the record of a well-formed event, followed by anything, parses to that event |
| `EventLog.RecordBytes` | parse-srtm-pcrs/thirdparty/tpm2-tools/tpm2_eventlog.c:147-184 | a parsed event was written exactly as its record |
| `LogBytes.DigestSizes` | parse-srtm-pcrs/thirdparty/tpm2-tools/tpm2_alg_util.c:171-188 | a record with one digest parses to its event if and only if the digest has the size of SHA-1, SHA-256, SHA-384, SHA-512 or SM3, or is empty for any other algorithm |
| `EventLog.SizePositive` | parse-srtm-pcrs/thirdparty/tpm2-tools/tpm2_eventlog.c:279-282 | an event takes at least 16 bytes, so the loop terminates |
| `Replay.PassVisits` | parse-srtm-pcrs/thirdparty/tpm2-tools/tpm2_eventlog.c:68-78 | the digest callback sees the parsed digests, in order, and nothing else |
| `Replay.RunVisits` | parse-srtm-pcrs/thirdparty/tpm2-tools/tpm2_eventlog.c:262-357 | a run over a log that memory holds succeeds if and only if the log is harmless (no EV_IPL event without a NUL in its data right before an event for PCR 9) and all its events are visited with success, and then leaves the state of these visits |
| `Replay.AcceptedRuns` | parse-srtm-pcrs/thirdparty/tpm2-tools/tpm2_eventlog.c:262-357 | a run succeeds if and only if the log is the concatenation of well-formed events, is harmless, and every visit succeeds |
| `Replay.SparesExactly` | parse-srtm-pcrs/eventcb.c:385-392 | the data callback's write leaves the log behind its event unchanged if and only if the event does not spoil the next one, and a spoilt record is no longer read as one |
| `Replay.RunParses` | parse-srtm-pcrs/thirdparty/tpm2-tools/tpm2_eventlog.c:262-357 | no write of a callback makes a record out of something else |
| `Pcrs.TabBreaksLog` | parse-srtm-pcrs/eventcb.c:385-392 | a log of two well-formed events, visited with success one by one, that is rejected because of the write |
| `Pcrs.ReplayIsFold` | parse-srtm-pcrs/eventcb.c:173-253 | every accepted log of clean events whose localities come before PCR 0's first extend is harmless, and every PCR ends as the fold of its digests outside EV_NO_ACTION events, from zero, PCR 0 from the startup locality in byte 31 |
| `Pcrs.OneDigestReplay` | parse-srtm-pcrs/eventcb.c:173-253 | a log with one SHA-256 digest per event and PCRs below 24 is accepted if and only if it is harmless and the data callback accepts the data of its events, and then its PCRs are these folds |
| `Pcrs.OneDigestRuns` | parse-srtm-pcrs/eventcb.c:219-253 | the visits of such events succeed if and only if the data callback accepts their data |
| `LogBytes.OneEventLog` | parse-srtm-pcrs/eventcb.c:173-296 | for all bytes of a log of one event with a SHA-256 digest: exactly when it is accepted, by PCR number and by event type and data, and then every PCR, as a hash of its start value followed by the digest |
| `Pcrs.CleanExactly` | parse-srtm-pcrs/eventcb.c:182-228 | an event extends exactly what it should if and only if the one-shot flag meets the stated condition on it |
| `Pcrs.LogCleanExactly` | parse-srtm-pcrs/eventcb.c:182-228 | every event of a log extends exactly what it should if and only if all of them are clean |
| `Pcrs.TwoDigestsExtend` | parse-srtm-pcrs/eventcb.c:225-228 | an EV_NO_ACTION event with any two SHA-256 digests leaves the hash of a zero PCR followed by the second |
| `Pcrs.LocalityFromOwnData` | parse-srtm-pcrs/thirdparty/tpm2-tools/tpm2_eventlog.c:301-314 | what lies behind the event data decides the locality if and only if the data is a proper beginning of a startup locality record |
| `Pcrs.VisitAccepts` | parse-srtm-pcrs/thirdparty/tpm2-tools/tpm2_eventlog.c:300-353 | exactly when the visit of an event succeeds |
| `Pcrs.VisitFolds` | parse-srtm-pcrs/eventcb.c:218-253 | one clean event changes its own PCR by the fold of its digests, PCR 0 by a locality, and no other |
| `Pcrs.RunReports` | parse-srtm-pcrs/thirdparty/tpm2-tools/tpm2_eventlog.c:316-326 | an accepted log reports one initial value per PCR, at its first event, zero except for a locality set by PCR 0's first event |
| `LogReader.SumDigests` | parse-srtm-pcrs/thirdparty/tpm2-tools/tpm2_eventlog.c:18-81 | the accumulating pass succeeds exactly when the digests parse and returns their size |
| `LogReader.ParseEvent2` | parse-srtm-pcrs/thirdparty/tpm2-tools/tpm2_eventlog.c:147-184 | succeeds exactly when a record parses and returns its sizes |
| `LogReader.Replayer.constructor` | parse-srtm-pcrs/eventcb.c:29-31 | the replay starts from zero PCRs and a cleared flag |
| `LogReader.Replayer.HeaderCb` | parse-srtm-pcrs/eventcb.c:173-198 | the new state is that of the state machine |
| `LogReader.Replayer.DigestCb` | parse-srtm-pcrs/eventcb.c:219-253 | answer and new state are those of the state machine; an extended PCR is the hash of its old value followed by the digest |
| `LogReader.Replayer.InitvalCb` | parse-srtm-pcrs/eventcb.c:116-137 | the new state is that of the state machine |
| `LogReader.Replayer.DataCb` | parse-srtm-pcrs/eventcb.c:256-296 | the answer by event type and size of the data, and the memory as the callback leaves it |
| `LogReader.EventIpl` | parse-srtm-pcrs/eventcb.c:385-392 | in place: tabs up to the first NUL become spaces, inside the event or behind it, and nothing else changes |
| `LogReader.Replayer.ForeachDigest2` | parse-srtm-pcrs/thirdparty/tpm2-tools/tpm2_eventlog.c:38-81 | answer and new state are those of the pass over the bytes |
| `LogReader.Replayer.EnterEvent` | parse-srtm-pcrs/thirdparty/tpm2-tools/tpm2_eventlog.c:293-326 | H-CRTM, startup locality and initial value, with the one size check that rejects |
| `LogReader.Replayer.VisitEvent` | parse-srtm-pcrs/thirdparty/tpm2-tools/tpm2_eventlog.c:291-353 | answer, new state and memory are those of the visit of the event |
| `LogReader.Replayer.ForeachEvent2` | parse-srtm-pcrs/thirdparty/tpm2-tools/tpm2_eventlog.c:262-357 | answer, new state and memory are those of the run over the log |
| `LogFile.SpecIdExactly` | parse-srtm-pcrs/thirdparty/tpm2-tools/tpm2_eventlog.c:359-436 | a SpecID record is accepted if and only if it is well-formed and enough bytes follow, and the events begin right behind it |
| `LogFile.LogFileRuns` | parse-srtm-pcrs/thirdparty/tpm2-tools/tpm2_eventlog.c:438-470 | a file of a SpecID record and well-formed events is accepted if and only if the events are harmless and visited with success, and leaves the state of these visits |
| `LogFile.ForeachSha1Event` | parse-srtm-pcrs/thirdparty/tpm2-tools/tpm2_eventlog.c:208-259 | answer, new state and memory are those of the run over a log in SHA-1 format |
| `Sha1Log.AcceptedReads` | parse-srtm-pcrs/thirdparty/tpm2-tools/tpm2_eventlog.c:186-259 | a log in SHA-1 format is accepted if and only if it is read as a sequence of records whose data passes, each from the memory that the callbacks of the records before it have left |
| `Sha1Log.ReadIsAccepted` | parse-srtm-pcrs/thirdparty/tpm2-tools/tpm2_eventlog.c:208-259 | a log in SHA-1 format that is read extends no PCR; of the state only the active PCR number changes, to that of the last record whose type is not 3 |
| `Sha1Log.WriteSpares` | parse-srtm-pcrs/eventcb.c:385-392 | the data callback's write leaves the rest of the log unchanged if and only if there is a NUL in the data or no tab before the first NUL behind it |
| `Sha1Log.ReadsExactly` | parse-srtm-pcrs/thirdparty/tpm2-tools/tpm2_eventlog.c:208-259 | a log is read as the records it was written as if and only if every write of a data callback spares what follows |
| `Sha1Log.ReadAsWritten` | parse-srtm-pcrs/thirdparty/tpm2-tools/tpm2_eventlog.c:208-259 | once a tab of the log has been replaced, the records it was written as are no longer what is read |
| `LogFile.ParseEventLog` | parse-srtm-pcrs/thirdparty/tpm2-tools/tpm2_eventlog.c:438-470 | answer, new state and memory are those of the run over the file |
| `Mrtd.StreamDecodes` | calculate-tdx-mrs/mrtd.c:91-125 | the stream decodes to exactly the ordered ADD and EXTEND operations it was made of |
| `Mrtd.OrdersAgree` | calculate-tdx-mrs/mrtd.c:284-338 | per section the 8.2.2 operations are the stable partition of the 9.2.0 operations, and both orders fail alike |
| `Mrtd.PagesPartition` | calculate-tdx-mrs/mrtd.c:285-310 | the page-wise order contains all additions and all extensions, each in their own order |
| `Mrtd.BothComplete` | calculate-tdx-mrs/mrtd.c:243-344 | over a whole image both orders reach the finalisation or neither does |
| `Mrtd.SectionPayload` | calculate-tdx-mrs/mrtd.c:292-308 | on completed runs the payloads of an extended section concatenate to its image range of memory_data_size bytes |
| `Mrtd.SectionCompletes` | calculate-tdx-mrs/mrtd.c:255-308 | exactly which sections can be measured, with every check written out |
| `Mrtd.RawSizeIsNotEnough` | calculate-tdx-mrs/mrtd.c:255-308 | a section that passes every check with its raw data inside the image and is measured in neither order |
| `Mrtd.ExtensionAt` | calculate-tdx-mrs/mrtd.c:296-307 | the k-th extension measures the k-th 256 bytes of the section at their guest address |
| `Mrtd.AddedAndExtended` | calculate-tdx-mrs/mrtd.c:284-338 | in a completed run a section is added page by page, at its addresses and in order, unless bit 1 of its attributes is set, and extended 256 bytes by 256 bytes when bit 0 is set |
| `MrtdLayout.MetadataReads` | calculate-tdx-mrs/mrtd.c:60-90 | metadata written field by field is read back, and is valid if and only if its version is 1 and it has a section |
| `MrtdLayout.RecordLayout` | calculate-tdx-mrs/mrtd.c:91-125 | every byte of a record: MEM.PAGE.ADD or MR.EXTEND, zeros, the address with its low byte first, zeros, and the extended bytes |
| `MrtdLayout.WrittenMeasures` | calculate-tdx-mrs/mrtd.c:189-355 | the measurement of metadata written field by field is the stream of its sections, for the versions 9.2.0 and 8.2.2 and no other |
| `MrtdMeasure.MeasureDecodes` | calculate-tdx-mrs/mrtd.c:243-344 | the stream of a completed run decodes to the operations of all sections in order |
| `MrtdMeasure.FillBlock` | calculate-tdx-mrs/mrtd.c:92-118 | the buffer holds the record's name and address and zeros elsewhere |
| `MrtdMeasure.MrtdContext.TdCallMemPageAdd` | calculate-tdx-mrs/mrtd.c:92-100 | the buffer holds the ADD record |
| `MrtdMeasure.MrtdContext.TdCallMrExtend` | calculate-tdx-mrs/mrtd.c:103-125 | succeeds exactly when 256 bytes are there, and then the three buffers hold the EXTEND record |
| `MrtdMeasure.MrtdContext.ExtendPage` | calculate-tdx-mrs/mrtd.c:293-308 | feeds the 16 extensions of a page or fails as the specification does |
| `MrtdMeasure.MrtdContext.PageByPage` | calculate-tdx-mrs/mrtd.c:285-310 | feeds the section in the 9.2.0 order |
| `MrtdMeasure.MrtdContext.PassByPass` | calculate-tdx-mrs/mrtd.c:312-338 | feeds the section in the 8.2.2 order |
| `MrtdMeasure.MrtdContext.MeasureSection` | calculate-tdx-mrs/mrtd.c:250-342 | feeds the operations of one section or fails on its checks |
| `MrtdMeasure.MeasureOvmf` | calculate-tdx-mrs/mrtd.c:189-355 | returns the measured stream exactly when the finalisation is reached |
| `ImaFormat.SplitJoins` | parse-ima-pcr/ima_measure.c:151-158 | a format splits into exactly the fields it was joined from |
| `ImaFormat.FieldExactly` | parse-ima-pcr/ima_measure.c:159-171 | the length of a field is read if and only if the signed offset is not negative and four bytes are there |
| `ImaFormat.PathNeedsField` | parse-ima-pcr/ima_measure.c:158-250 | a path comes only from a field that begins with n-ng, under a name that begins with ima-ng, ima-sig or ima-modsig |
| `ImaFormat.NamesThatYieldPaths` | parse-ima-pcr/ima_measure.c:137-250 | some template data yields a path under a template name if and only if the name begins with one of these three and its format, which is the name itself when it is not in the table, has such a field |
| `ImaFormat.OddNameTakesOver` | parse-ima-pcr/ima_measure.c:144-148 | a name that is its own field list and yields paths, after which the ima-modsig template no longer does |
| `ImaPaths.EntryPath` | parse-ima-pcr/ima_measure.c:137-250 | an entry of the ima-ng, ima-sig or ima-modsig template with a digest of any algorithm yields the contents of its second field up to the first NUL, except an ima-modsig entry behind an unknown template name |
| `ImaPaths.SignatureFirst` | parse-ima-pcr/ima_measure.c:186-222 | under a name with the signature before the file name: a signature of version 3 is skipped, one without its header overruns, and for other contents the file name is looked for in their place |
| `ImaPaths.ModsigFirst` | parse-ima-pcr/ima_measure.c:223-247 | under a name with the module signature before the file name it is skipped if and only if it can be parsed |
| `Ima.ParseUndoesBuild` | parse-ima-pcr/ima_measure.c:126-251 | for every digest and NUL-free path the parser finds exactly the path the entry was built from |
| `Ima.BuildUndoesParse` | calculate-ima-pcr/main.c:150-200 | template data is what the builder writes if and only if it has the canonical form, and then it is rebuilt from its digest and the parsed path |
| `Ima.PlainImaHasNoPath` | parse-ima-pcr/ima_measure.c:158-250 | get_template_data never returns a path for the plain ima template |
| `ImaLog.PlainImaStops` | parse-ima-pcr/ima_measure.c:312-346 | the parser stops at an entry of the plain ima template without reporting it |
| `ImaLog.FrameReads` | parse-ima-pcr/ima_measure.c:254-285 | a framed entry is read back completely and nothing of what follows is consumed |
| `ImaLog.EntryParses` | parse-ima-pcr/ima_measure.c:300-376 | the bytes of an entry under any name but that of the plain template: names above 255 bytes, sums that are not those of the data, and data without a path end the parse; any other entry is reported and the parse goes on behind it |
| `ImaLog.ReportedIsHashed` | parse-ima-pcr/ima_measure.c:322-340 | the data of every reported entry has its SHA-1 sum in the log |
| `ImaLog.LogParses` | parse-ima-pcr/ima_measure.c:300-376 | a log of built entries is reported completely, in order and with the same template bytes, if and only if every template is below 2 GiB |
| `ImaLog.LongEntryLost` | parse-ima-pcr/ima_measure.c:260-276 | a longer entry is not reported with its own bytes |
| `ImaReader.CalculateImaEntry` | calculate-ima-pcr/main.c:150-200 | the filled buffer is the template the lemmas are about; other template names are refused |
| `ImaReader.BufReader.BufRead` | parse-ima-pcr/ima_measure.c:113-123 | reads all requested bytes and advances, or changes nothing |
| `ImaReader.VisitField` | parse-ima-pcr/ima_measure.c:158-247 | one field moves the cursor, or ends the walk, as the specification says |
| `ImaReader.FindPath` | parse-ima-pcr/ima_measure.c:126-251 | the walk over the fields returns what the specification finds, and says whether the table's last entry is overwritten |
| `ImaReader.ReadTemplate` | parse-ima-pcr/ima_measure.c:254-285 | reads what the specification reads, failed reads included |
| `ImaReader.ParseMeasurements` | parse-ima-pcr/ima_measure.c:300-376 | result and reported entries are those of the parse specification |

## Left out

- File and directory reading, command lines, text and JSON output, allocation failures: input and output only.
- Digests and PKCS7 parsing of OpenSSL: foreign calls; hashes are parameters.
- The LZMA decoder, for which LzmaDec.c would be needed, is not part of this model.
- The match finder reading from a stream (block reads, moving the window buffer): the input is given directly.
- Bt3Zip and Hc3Zip, and the code of Bt5 and Hc5 that is commented out in LzFind.c.
- LzFinder.MatchFinder: hash regions and sons are separate arrays instead of parts of one, a bucket index is taken modulo the number of buckets instead of masked, which is the same by LzCreate.HashMaskIsOnes, the distances buffer is a list of pairs, and creating the tables does not fail.
- LzSearch.GetMatchesSpec1: needs a represented tree, because only then do the references stay inside the input; LzSon.SkipIsGet needs none.
- LzSearch.SkipMatchesSpec: needs a represented tree for the same reason.
- LzSearch.HcGetMatchesSpec: needs a represented chain for the same reason; LzChain.SameMatches needs none.
- PeMeasure.MeasurePeImage: requires that the section table of an accepted image starts below 4 GiB, because otherwise the source hashes outside of the image (PeExamples.WrapIsUnsound); the status code of a success, which is the digest library's 1, is modelled as returning the stream.
- PeImage.ImageContext.LoadPeHeader: TE images, which the measurement rejects in any case, are rejected here at once; the kinds of rejection are not told apart.
- The debug directory scan of PeCoffLoaderGetImageInfo: it can only reject more images, so the model accepts a superset.
- The text that the event log callbacks build for each event.
- LogReader.Replayer: the PCR numbers already seen are a set instead of a bit vector, and the PCRs an array of digests instead of two-dimensional bytes.
- LogReader.Replayer.ForeachEvent2: memory must go on behind the log for 17 bytes and to a NUL, because the startup locality may be read and tabs may be replaced there.
- MrtdMeasure.MrtdContext.TdCallMrExtend: requires data offsets at which the sum with 256 does not wrap around in 64 bits, as in its calls; the source would copy from outside of the image there.
- MrtdMeasure.MeasureOvmf: the walk to the metadata (GUID table) and the copying of the metadata are an input, whose length must cover the announced sections as the source relies on; the image is below 2^63 bytes.
- ImaReader.FindPath: whether OpenSSL can parse a module signature is a parameter; what is printed on the way is left out.
- ImaReader.CalculateImaEntry: paths so long that the 32-bit template length wraps around.
- ImaLog.Parse: the content of the length variable before the first entry is a parameter, and so is whether an unknown template name has overwritten the table before; reads outside of a buffer end the parse with a mark of their own.
- The constant tables (TD HOB, VMSA, boot options) and the straight-line drivers of pcrs.c and mrs.c: finite facts only.
- The firmware volume walk of SecMain.c: a smaller version of the record walk of the event log.
