# Verified models of the node's arithmetic, bootstrap, storage and notification core

This project models five parts of the Cryptix node in Dafny and proves what they are for.

- **Multi-limb unsigned integers** (`math/src/uint.rs`, `math/src/lib.rs`). A number is a
  little-endian sequence of 64-bit limbs of any length; `Limbs.Value` is the integer it stands
  for. Every loop (carry chains, schoolbook multiplication, limb-stitching shifts, bitwise long
  division, decimal printing, rounding to binary64) writes into an array as the source does and
  is proved against plain integer arithmetic. Compact difficulty targets are built on top.
- **Snapshot bootstrap** (`cryptixd/src/atomic_bootstrap.rs`). Evidence is deduplicated, grouped
  and ranked in hash maps read in arbitrary order. `QuorumSpec.Allowed` says which decisions the
  quorum rules permit, as sets of identities, and the selection loops are proved to make one of
  them. Source selection, the manifest vote, manifest sanity and the chunked download follow, up
  to an exact description of the downloads that complete.
- **Cached database access** (`database/src/`). A randomly evicting, size-tracked cache in front
  of a key/value store, in map form and in bucket form, refines the store it speeds up.
- **Broadcasting plan** (`notify/src/broadcaster.rs`). The nested index is a flat map from
  listener to subscription and connection, over whole runs of the broadcasting loop.
- **Mass-bounded chunks** (`mining/src/manager.rs`). The greedy cut of a transaction list.

Runs and decisions are stated twice. The loops are proved against specification functions, and
those functions are then described without their own definitions: `QuorumMeaning` from the
reports, `BroadcastHistory`, `AccessHistory` and `SetHistory` from the commands of a run.

Conventions: hash-map iteration and random eviction are nondeterministic choices, so each result
holds for every order and every choice. Hash functions are parameters, and freedom from
collisions is assumed only where a statement says so, and only for the values at hand.
Serialisation is a pair of functions where decoding undoes encoding. Network answers are
parameters.

Four properties one might expect do not hold of the code. Each has a counterexample and the exact
condition under which it does hold:

- The overflow flag of the general product misses overflow that comes only from skipped limb
  pairs (`UintMul.FlagMissesOverflow`, `UintMul.FlagIsExactIff`).
- The conversion to binary64 rounds correctly exactly up to 2^1024 + 2^971, so the 3072-bit
  instance gives wrong patterns above that (`UintFloat.WrongPattern`, `UintFloat.AsF64`,
  `Binary64.CorrectIff`).
- A read between a staged write and its commit can leave a stale cache entry
  (`CachedAccess.StaleAfterCommit`). For one read on a counted cache the condition is exact
  (`CachedAccess.CachedDbAccess.Read`); over whole runs it is stated with the keys cached at each
  step (`CachedAccess.CachedDbAccess.RunBatch`).
- Votes counted as non-seed can come from an identity that is a seed for another snapshot, so a
  peer majority need not consist of non-seed identities (`QuorumTheorems.SeedElsewhereWinsMajority`).
  Whatever snapshot wins, they all come from non-seed identities exactly when every identity
  keeps to one role in the evidence (`QuorumTheorems.RolesIff`, `QuorumTheorems.QuorumOfNonSeeds`,
  `QuorumTheorems.MajorityOfNonSeedsIff`).

`dafny verify dfyconfig.toml` checks the whole project.

## Model

| member | source | states |
|---|---|---|
| UintBasics.FromU64 | math/src/uint.rs:22-26 | widening keeps the value, and only the lowest limb can be nonzero |
| UintBasics.IsZero | math/src/uint.rs:46-48 | true exactly for value 0 |
| UintBasics.Bits | math/src/uint.rs:52-59 | the bit length of the value, for any limb count |
| UintBasics.Compare | math/src/uint.rs:505-513 | comparing limbs from the top decides the order of the values, in all three cases |
| UintBasics.OverflowingAdd | math/src/uint.rs:112-127 | result plus carry times 2^(64N) is the exact sum |
| UintBasics.OverflowingAddU64 | math/src/uint.rs:130-140 | the same although the loop stops at the first limb that absorbs the carry |
| UintBasics.OverflowingSub | math/src/uint.rs:143-159 | result minus borrow times 2^(64N) is the exact difference; the borrow is set exactly when a < b |
| UintBasics.CarryingMulU64 | math/src/uint.rs:169-178 | result plus carry word times 2^(64N) is the exact product |
| UintBasics.OverflowingMulU64 | math/src/uint.rs:163-166 | the product modulo 2^(64N), with an exact overflow flag |
| UintBasics.DivRemU64 | math/src/uint.rs:250-258 | exact quotient and remainder by a nonzero word |
| UintShift.OverflowingShl | math/src/uint.rs:67-84 | v · 2^(s mod BITS) mod 2^BITS; the flag is set exactly when s ≥ BITS |
| UintShift.StitchLeft | math/src/uint.rs:70-82 | the two passes neither drop nor double a bit between limbs |
| UintShift.OverflowingShr | math/src/uint.rs:92-109 | v / 2^(s mod BITS) rounded down, with the same flag |
| UintShift.StitchRight | math/src/uint.rs:95-107 | the two passes neither drop nor double a bit between limbs |
| UintMul.AddRow | math/src/uint.rs:186-193 | one row adds exactly its part of the product, with the word that falls off the top |
| UintMul.OverflowingMul | math/src/uint.rs:181-197 | the product modulo 2^(64N); the flag is set exactly when the kept partial products reach 2^(64N) |
| UintMul.ProductSplit | math/src/uint.rs:185-195 | the exact product is the kept partial products plus 2^(64N) times the skipped ones |
| UintMul.FlagIsExactIff | math/src/uint.rs:181-197 | the product overflows exactly when the kept part does or a nonzero limb pair with i + j ≥ N is skipped; hence when the flag is exact |
| UintMul.FlagMissesOverflow | math/src/uint.rs:181-197 | 2^64 squared on two limbs overflows with the flag clear |
| UintDiv.QuotientBit | math/src/uint.rs:317-322 | one turn of long division fixes one more quotient bit and keeps dividend = quotient · divisor + rest |
| UintDiv.DivRem | math/src/uint.rs:298-331 | exact quotient and remainder for every limb count and nonzero divisor; the initial shift loses no bit and the loop ends |
| UintFast.AddBothWays | math/src/uint.rs:130-140 | the word form of addition gives the limbs and the flag of the general form |
| UintFast.MulBothWays | math/src/uint.rs:163-178 | the word form of multiplication gives the limbs and the flag of the general form, whose flag is exact here |
| UintFast.DivBothWays | math/src/uint.rs:250-258 | the word form of division gives the quotient and remainder of the general form |
| UintDisplay.AtLeast | math/src/uint.rs:467-477 | comparison with one word compares the values |
| UintDisplay.PutFour | math/src/uint.rs:769-778 | writes the four digits of a number below 10000 in front of those already there |
| UintDisplay.PutPair | math/src/uint.rs:784-790 | writes the two digits of a number below 100 and touches nothing else |
| UintDisplay.PutLast | math/src/uint.rs:783-801 | completes the string to a canonical one that reads as the whole number |
| UintDisplay.Display | math/src/uint.rs:751-807 | the digits read in base ten as the value, without leading zero, and never run out of the buffer of 20 bytes per limb |
| UintDisplay.CanonicalUnique | math/src/uint.rs:751-807 | a number has only one such string, so printing loses nothing |
| UintDisplay.CanonicalMeans | math/src/uint.rs:751-807 | canonical is: decimal digits only, at least one, and no leading zero but that of "0" |
| UintFloat.AsF64 | math/src/uint.rs:261-294 | the bit pattern is the nearest binary64 value, ties to even (section 4.3.1 of IEEE 754-2008), exactly when the value is at most 2^1024 + 2^971; always up to 16 limbs |
| UintFloat.WrongPattern | math/src/uint.rs:261-294 | 2^1025 in the 3072-bit instance gets a pattern that is not the correctly rounded one |
| Binary64.CorrectIff | math/src/uint.rs:261-294 | rounding on the lattice of bit patterns is the standard's rounding exactly up to that bound |
| Binary64.UnitsMono | math/src/uint.rs:289-293 | bit patterns order the numbers they encode, which lets a mantissa carry run into the exponent |
| Binary64.PatternOfOne | math/src/uint.rs:286-293 | 0x3FF0000000000000 stands for one |
| Binary64.RoundsUnique | math/src/uint.rs:261-294 | an integer has one correctly rounded pattern |
| Binary64.ExactIfPossible | math/src/uint.rs:261-294 | an integer that some pattern stands for is rounded to that pattern |
| CompactTarget.FromCompactTargetBits | math/src/lib.rs:64-83 | from the size byte s, the sign bit and the word: zero for a set sign bit and s at least 3; else the word times 256^(s-3) modulo 2^256, the shift wrapping past s = 34; below 3 the word without its lowest 3 - s bytes |
| CompactTarget.CompactTargetBits | math/src/lib.rs:87-101 | the two branches and the sign-bit correction amount to the closed form: byte length with room for a sign, and the topmost bytes |
| CompactTarget.Canonical | math/src/lib.rs:87-101 | the encoder never sets the sign bit, its size byte is at most 33 so that decoding shifts by less than 256, and the mantissa is normalised |
| CompactTarget.RoundTrip | math/src/lib.rs:64-101 | decoding the encoding truncates to a multiple of the step, losing less than one step |
| CompactTarget.GreatestRepresentable | math/src/lib.rs:64-101 | it is the greatest target with any compact form that does not exceed the given one |
| CompactTarget.Monotone | math/src/lib.rs:64-101 | truncation keeps the order of targets |
| CompactTarget.Idempotent | math/src/lib.rs:64-101 | a target and its truncation have the same compact form |
| QuorumSpec.Merge | cryptixd/src/atomic_bootstrap.rs:2222-2230 | seed wins over configured and configured over peer |
| QuorumSpec.PolicyForNetwork | cryptixd/src/atomic_bootstrap.rs:2305-2329 | each minimum is its own argument, or one for zero; mainnet insists on seeds and falls back only with the override |
| QuorumSelect.Dedup | cryptixd/src/atomic_bootstrap.rs:2350-2375 | per identity whether any report is a seed's; per identity and snapshot the merged kind of all reports, their highest score, and the last block hash among those with that score |
| QuorumSelect.Group | cryptixd/src/atomic_bootstrap.rs:2377-2380 | every kept report is in the group of its snapshot exactly once, in any iteration order |
| QuorumSelect.Summarise | cryptixd/src/atomic_bootstrap.rs:2386-2394 | size, distinct seed names, largest score and last block hash of a group |
| QuorumSelect.SummaryIsCandidate | cryptixd/src/atomic_bootstrap.rs:2350-2396 | the summary of a group is the candidate counted from the evidence as a set: distinct supporters, distinct seed supporters, best rank |
| QuorumDecide.CountSeeds | cryptixd/src/atomic_bootstrap.rs:2382-2383 | the number of identities whose merged kind is seed |
| QuorumDecide.AllCandidates | cryptixd/src/atomic_bootstrap.rs:2384-2396 | exactly the candidates of the reported snapshots |
| QuorumDecide.Sort | cryptixd/src/atomic_bootstrap.rs:2401-2408 | a permutation with no candidate above an earlier one |
| QuorumDecide.FindQualified | cryptixd/src/atomic_bootstrap.rs:2412-2417 | none only if no candidate qualifies, else a qualifying one that no qualifying one is above |
| QuorumDecide.Leader | cryptixd/src/atomic_bootstrap.rs:2461-2470 | a candidate that no other is above in the majority order |
| QuorumDecide.SelectSnapshotQuorum | cryptixd/src/atomic_bootstrap.rs:2331-2497 | the decision or error is one the quorum rules allow for the evidence as a set, in every branch and whatever order the hash maps are read in |
| QuorumMeaning.Verdict | cryptixd/src/atomic_bootstrap.rs:2397-2486 | which of the seven verdicts is given when, told from numbers of distinct identities and the policy: both directions for each |
| QuorumMeaning.SeedWinner | cryptixd/src/atomic_bootstrap.rs:2401-2417 | a seed-confirmed answer has the most supporters of all seed-confirmed snapshots, then the most seed supporters, then the highest score, then the last block hash |
| QuorumMeaning.MajorityWinner | cryptixd/src/atomic_bootstrap.rs:2461-2470 | a majority answer has the most non-seed supporters of all snapshots, then the most supporters, the highest score, the last block hash, the last id |
| QuorumMeaning.LeastVotes | cryptixd/src/atomic_bootstrap.rs:2459-2460 | a majority requires the least number of votes above half of the non-seed identities and not below the minimum |
| QuorumMeaning.CandidateRank | cryptixd/src/atomic_bootstrap.rs:2390-2391 | a candidate's score is the highest reported for it, and its block hash the last of the top reports |
| Texts.BeforeIff | cryptixd/src/atomic_bootstrap.rs:2364-2365 | texts are ordered by their first difference, a proper prefix first |
| QuorumTheorems.AcceptedIsSupported | cryptixd/src/atomic_bootstrap.rs:2410-2497 | an accepted snapshot has enough distinct identities behind it: a seed and the minimum of non-seeds, or more than half of all non-seed identities; a strict policy never falls back while a seed is present |
| QuorumTheorems.StrictOnMainnet | cryptixd/src/atomic_bootstrap.rs:2305-2329 | on mainnet any accepted snapshot is seed-confirmed while a seed is present, and without the override always |
| QuorumTheorems.RepetitionAddsNoVote | cryptixd/src/atomic_bootstrap.rs:2352-2375 | repeated evidence of one identity, of any kind, adds no identity, snapshot or supporter; at most it turns that identity into a seed supporter of that snapshot |
| QuorumTheorems.RepetitionAddsNothing | cryptixd/src/atomic_bootstrap.rs:2352-2375 | it changes nothing at all unless the repetition alone is a seed's |
| QuorumTheorems.LeadingUnique | cryptixd/src/atomic_bootstrap.rs:2461-2470 | the majority order has one leader |
| QuorumTheorems.OrderDoesNotMatter | cryptixd/src/atomic_bootstrap.rs:2350-2497 | permuting the evidence changes nothing, except that seed-confirmed candidates that tie on all five keys may replace each other |
| QuorumTheorems.WinnersTie | cryptixd/src/atomic_bootstrap.rs:2401-2427 | and the exception is real: exactly the snapshots that tie with a seed-confirmed winner are answers too |
| QuorumTheorems.MajorityIsUnique | cryptixd/src/atomic_bootstrap.rs:2459-2470 | if each identity reports one snapshot, no two snapshots reach the peer majority |
| QuorumTheorems.RolesIff | cryptixd/src/atomic_bootstrap.rs:2382-2392 | the votes counted as non-seed come from non-seed identities for every snapshot exactly when each identity that is a seed in any report is one for each snapshot it reports |
| QuorumTheorems.QuorumOfNonSeeds | cryptixd/src/atomic_bootstrap.rs:2410-2497 | then the required non-seed votes of any accepted snapshot, by seed confirmation or by majority, come from non-seed identities |
| QuorumTheorems.MajorityOfNonSeedsIff | cryptixd/src/atomic_bootstrap.rs:2459-2497 | in general an accepted majority has the required votes of non-seed identities exactly when it is large enough less the voters that are seeds elsewhere |
| QuorumTheorems.SeedElsewhereWinsMajority | cryptixd/src/atomic_bootstrap.rs:2459-2497 | otherwise a snapshot can win the peer majority with no non-seed identity behind it |
| QuorumTheorems.SeedElsewhereHappens | cryptixd/src/atomic_bootstrap.rs:2459-2497 | three concrete reports for which this is so |
| SnapshotSources.KeepSources | cryptixd/src/atomic_bootstrap.rs:1608-1627 | one client per supporting identity of the snapshot, with the highest score of that identity for it, the last block hash among those, and the merged kind |
| SnapshotSources.ReportsSay | cryptixd/src/atomic_bootstrap.rs:1590-1600 | the evidence given to the quorum says of each client what the client says, snapshot ids in lower case |
| SnapshotSources.SelectSnapshotSources | cryptixd/src/atomic_bootstrap.rs:1585-1632 | succeeds exactly when the quorum does; the kept clients have pairwise distinct identities, are all the supporters, and number at least the required votes |
| Hex.DecodeEncode | cryptixd/src/atomic_bootstrap.rs:2533 | decoding undoes encoding |
| Hex.EncodeDecode | cryptixd/src/atomic_bootstrap.rs:1679-1688 | what decodes is the encoding of its bytes up to letter case |
| Hex.DecodesIff | cryptixd/src/atomic_bootstrap.rs:1679-1686 | decoding succeeds exactly on an even number of hexadecimal digits |
| Hex.DecodeAt | cryptixd/src/atomic_bootstrap.rs:2533 | byte i comes from digits 2i and 2i + 1, the higher one first |
| ManifestQuorum.FirstEntry | cryptixd/src/atomic_bootstrap.rs:1708-1711 | the entry with most votes, ties to the smaller hash, in any iteration order |
| ManifestQuorum.Accepted | cryptixd/src/atomic_bootstrap.rs:1645-1697 | an answer counts as the manifest b exactly when it is b in hexadecimal of at most 4194304 characters and b has the selected id |
| ManifestQuorum.TallyStep | cryptixd/src/atomic_bootstrap.rs:1699-1701 | counting one more manifest keeps, for each hash, the exact number of voters and the first manifest |
| ManifestQuorum.FetchManifest | cryptixd/src/atomic_bootstrap.rs:1634-1727 | the outcome of the vote over the answers that pass every check: unavailable, too few votes, or the first manifest of the winning hash |
| ManifestTheorems.OutcomeUnique | cryptixd/src/atomic_bootstrap.rs:1704-1726 | the outcome is the same for every order of the vote map |
| ManifestTheorems.AcceptedIsReturned | cryptixd/src/atomic_bootstrap.rs:1704-1726 | an accepted manifest was returned by at least the required number of sources |
| ManifestTheorems.AcceptedIff | cryptixd/src/atomic_bootstrap.rs:1704-1726 | one is accepted exactly when enough sources returned the same one |
| ManifestTheorems.NoConflicts | cryptixd/src/atomic_bootstrap.rs:1688-1726 | all counted manifests have the selected id, so without id collisions they are one manifest and only missing responses can fail the vote |
| ManifestTheorems.CarriedIsAccepted | cryptixd/src/atomic_bootstrap.rs:1649-1726 | without id collisions the vote returns b exactly when the required number of answers, at least one, carry b |
| ManifestTheorems.WinnerIsFirst | cryptixd/src/atomic_bootstrap.rs:1708-1711 | among the hashes with the most votes the smallest wins |
| ManifestTheorems.SelectAndFetch | cryptixd/src/atomic_bootstrap.rs:1133-1165 | chained: the accepted manifest hashes to the selected snapshot and is the outcome of the vote among the kept clients |
| ManifestTheorems.EndToEnd | cryptixd/src/atomic_bootstrap.rs:1585-1727 | it was returned by at least the required number of distinct identities, all of which reported that snapshot |
| Chunks.DecodeChunk | cryptixd/src/atomic_bootstrap.rs:2518-2561 | accepts exactly the payloads that decode to a chunk of the right length for its place: full unless last, empty only when nothing remains, within the chunk size and what remains |
| Chunks.PieceDecodes | cryptixd/src/atomic_bootstrap.rs:2518-2561 | at its place, a payload passes all checks as a piece of a file exactly when it decodes to that piece, so an honest split passes |
| Chunks.PiecesDetermine | cryptixd/src/atomic_bootstrap.rs:1823-1866 | a file is determined by its pieces |
| Download.FetchChunk | cryptixd/src/atomic_bootstrap.rs:1986-2050 | a payload is the hex of some answer with that chunk index, total and file size, the first in rotation; none exactly when no answer has all three |
| Download.PayloadOfSource | cryptixd/src/atomic_bootstrap.rs:1997-2047 | if any source matches, some matching source's payload is taken |
| Download.TurnOf | cryptixd/src/atomic_bootstrap.rs:1997-1998 | the rotation gives every source its turn |
| Download.TurnsGoRound | cryptixd/src/atomic_bootstrap.rs:1997-1998 | the rotation begins with the chunk index modulo the number of sources and goes round one by one |
| Download.NextAccepted | cryptixd/src/atomic_bootstrap.rs:1835-1846 | if some file is complete, the chunk at hand passes every check and is a piece of it |
| Download.Assemble | cryptixd/src/atomic_bootstrap.rs:1823-1877 | the loop ends with a file exactly when that file is complete: declared size, every delivered chunk in place with its hash, and the file hash |
| Download.CompleteUnique | cryptixd/src/atomic_bootstrap.rs:1823-1877 | at most one file is complete |
| Download.CompleteFacts | cryptixd/src/atomic_bootstrap.rs:1861-1875 | a complete download has the declared size and the declared file hash |
| Download.ChunkAtOffset | cryptixd/src/atomic_bootstrap.rs:1823-1866 | chunk i stands at offset i times the chunk size, all but the last are full, and they leave no gap |
| SnapshotManifest.ExpectedChunkCount | cryptixd/src/atomic_bootstrap.rs:2499-2511 | the one number of chunks that covers the file with none to spare; fails exactly for chunk size zero or overflow |
| SnapshotManifest.FitsUnique | cryptixd/src/atomic_bootstrap.rs:2499-2511 | there is only one such number |
| SnapshotManifest.ValidateManifest | cryptixd/src/atomic_bootstrap.rs:1729-1798 | passes exactly the manifests with a plain file name, sizes in range and fitting hash counts; a name that passes has no slash and is neither "." nor ".." |
| SnapshotManifest.SaneInNumbers | cryptixd/src/atomic_bootstrap.rs:1740-1795 | what passes, in numbers: 64 GiB, chunks of 1 byte to 4 MiB, 65536 of them, the hashes just covering the file |
| SnapshotManifest.NumbersAreSane | cryptixd/src/atomic_bootstrap.rs:1729-1798 | and every such manifest passes |
| SnapshotManifest.SaneTotal | cryptixd/src/atomic_bootstrap.rs:1770-1795 | the chunk count of a sane file survives the cut to 32 bits and is zero exactly for an empty file |
| SnapshotManifest.DownloadSnapshot | cryptixd/src/atomic_bootstrap.rs:1800-1887 | succeeds with a file exactly when it is complete |
| SnapshotManifest.DownloadReplay | cryptixd/src/atomic_bootstrap.rs:1890-1983 | the same, except that zero chunks give the empty file for declared size zero, without hash check |
| SnapshotManifest.HonestDownload | cryptixd/src/atomic_bootstrap.rs:1823-1877 | splitting and assembling undo each other: when each chunk has a matching source and every matching answer is honest, exactly the described file is complete, whatever else sources do |
| SnapshotManifest.DownloadUnique | cryptixd/src/atomic_bootstrap.rs:1853-1866 | whatever the sources answer, two complete downloads of one manifest entry are the same file unless chunks collide |
| SnapshotManifest.FirstAnswerDecides | cryptixd/src/atomic_bootstrap.rs:1996-2049 | if the first payload under a right header is bad, no download completes, whatever the other sources hold |
| Store.Database.Write | database/src/writer.rs:36-93 | a direct write changes the store at once and leaves the batch, a batched one only what the commit will make of the store |
| Store.Database.Commit | database/src/writer.rs:60-93 | the store becomes what the batch made of it, and the batch is empty |
| ByteKeys.RangeIsPrefix | database/src/access.rs:157-166 | the key range from a prefix to its upper bound holds exactly the keys with that prefix |
| ByteKeys.LessIff | database/src/access.rs:157-166 | keys are ordered by their first difference, a proper prefix first |
| Caching.TotalSplit | database/src/cache.rs:61-68 | the total size is that of an entry plus that of the rest, so no subtraction underflows |
| Caching.Cache.TrackedEvict | database/src/cache.rs:61-68 | ends, for every choice of victims, within the size or with no more than the minimum of entries, and no later: with one victim back it would be over the size; evicts nothing if already so |
| Caching.Cache.InnerInsert | database/src/cache.rs:70-84 | keeps the size invariant; tracked mode evicts no more than needed, count mode at most one entry and none while there is room |
| Caching.Cache.Insert | database/src/cache.rs:156-162 | the same, and does nothing for size zero |
| Caching.Cache.InsertMany | database/src/cache.rs:164-172 | every entry left is from the items, the last one of a key winning, or an old one; a counted cache with room loses none |
| Caching.Cache.UpdateIfEntryExists | database/src/cache.rs:86-100 | count mode changes exactly that entry; tracked mode also evicts no more than its new size needs |
| Caching.Cache.Remove | database/src/cache.rs:102-112 | takes out exactly the key and returns what it held |
| Caching.Cache.RemoveMany | database/src/cache.rs:191-199 | takes out exactly the keys |
| Caching.Cache.RemoveAll | database/src/cache.rs:201-210 | leaves an empty cache with tracked size zero |
| CachedAccess.CachedDbAccess.Has | database/src/access.rs:42-47 | with a coherent cache and nothing staged, exactly whether the store has the key |
| CachedAccess.CachedDbAccess.Read | database/src/access.rs:49-66 | answers as the store, errors included, and keeps the cache coherent; for counted caches exactly when the read is safe under the pending batch |
| CachedAccess.CachedDbAccess.Write | database/src/access.rs:87-96 | puts the key through either writer; keeps the cache coherent, with a direct writer if nothing is staged |
| CachedAccess.CachedDbAccess.WriteMany | database/src/access.rs:98-114 | puts all items in order, likewise |
| CachedAccess.CachedDbAccess.WriteManyWithoutCache | database/src/access.rs:117-133 | puts all items and leaves an empty, hence coherent, cache |
| CachedAccess.CachedDbAccess.Delete | database/src/access.rs:135-142 | deletes exactly the key, likewise |
| CachedAccess.CachedDbAccess.DeleteMany | database/src/access.rs:144-154 | deletes exactly the keys, likewise |
| CachedAccess.CachedDbAccess.DeleteAll | database/src/access.rs:157-166 | deletes exactly the keys with the prefix |
| CachedAccess.CachedDbAccess.Do | database/src/access.rs:42-166 | one operation does to the store what it would without a cache; a question about a cached key is answered from the store with the staged writes, any other from the committed store |
| CachedAccess.CachedDbAccess.RunDirect | database/src/access.rs:42-166 | every run with direct writers, under any evictions, gives the answers and the store of a plain map |
| AccessHistory.LastTouchDecides | database/src/access.rs:87-166 | after any run the last operation that touches a key decides what the store holds for it: its last item for the key, or nothing after a deletion |
| AccessHistory.AnswersTell | database/src/access.rs:42-166 | so every answer of a direct run is the last value written, or that there is no such key, or what the store began with |
| AccessHistory.OutsideUntouched | database/src/access.rs:87-166 | keys outside the prefix stay as they were |
| CachedAccess.CachedDbAccess.RunStaged | database/src/access.rs:42-166 | over any batched run, with the keys cached at each step: answers as above up to the first unsafe read, and a counted cache still holds a key right after it is written |
| CachedAccess.CachedDbAccess.RunBatch | database/src/access.rs:42-166 | after the commit the store is that of a plain map, and the cache agrees with it if each read was of a key cached at that step, or unreadable in the committed store, or not changed by the batch |
| CachedAccess.StaleAfterCommit | database/src/access.rs:49-66 | otherwise a cache of one entry serves the old value after the commit |
| DbKeys.DbKey.AddBucket | database/src/key.rs:35-41 | extends path and prefix by the bucket |
| DbKeys.DbKey.AddKey | database/src/key.rs:43-49 | extends path and prefix by the key |
| DbKeys.NewWithBucket | database/src/key.rs:19-28 | the path is prefix, bucket and key in a row, all counted as prefix |
| DbKeys.BucketsOverlapIff | database/src/key.rs:19-49 | two buckets can share a stored key exactly when one is a prefix of the other, hence never with one fixed length |
| SetAccess.CachedDbSetAccess.Collect | database/src/set_access.rs:184-193 | the items under a prefix, or failure exactly when some key under it does not decode |
| SetAccess.CachedDbSetAccess.Read | database/src/set_access.rs:66-79 | the cached set or the committed items of the bucket, or failure on a damaged bucket; keeps every cached set equal to its bucket, for counted caches exactly when the read is safe under the pending batch |
| SetAccess.CachedDbSetAccess.Write | database/src/set_access.rs:81-87 | through either writer: adds the item to its bucket, touches no other, keeps every cached set equal to its bucket, with a direct writer if nothing is staged |
| SetAccess.CachedDbSetAccess.Delete | database/src/set_access.rs:94-101 | takes the item out of its bucket, likewise |
| SetAccess.CachedDbSetAccess.DeleteBucket | database/src/set_access.rs:89-92 | empties its bucket, likewise |
| SetAccess.CachedDbSetAccess.Do | database/src/set_access.rs:66-101 | one operation changes its own bucket as a plain set and no other |
| SetAccess.CachedDbSetAccess.RunDirect | database/src/set_access.rs:66-101 | over any run with direct writers and any evictions each bucket is a plain set of its own, and every read answers with that set, or fails on a key that was undecodable from the start |
| SetHistory.LastTouchDecides | database/src/set_access.rs:81-101 | an item is in a bucket exactly when it was written and not taken out since, by itself or with its bucket, or was there and never touched |
| SetHistory.AnswersTell | database/src/set_access.rs:66-101 | and so it is in every set that a direct run reads from an undamaged bucket |
| SetAccess.CachedDbSetAccess.RunBatch | database/src/set_access.rs:66-101 | over any batched run the buckets are plain sets after the commit; reads of cached buckets answer with the staged writes and others from the committed store, and every cached set is its bucket after the commit, as long as no read misses on a bucket that the batch changes |
| Broadcast.Plan.Insert | notify/src/broadcaster.rs:36-46 | the flat map gets the listener; the displaced connection is returned |
| Broadcast.Plan.Scan | notify/src/broadcaster.rs:48-66 | takes the listener out of the one set that holds it and reports a set left empty |
| Broadcast.Plan.Remove | notify/src/broadcaster.rs:48-77 | the flat map loses the listener, its connection is returned, and no inner map is left empty |
| Broadcast.FlatUnique | notify/src/broadcaster.rs:30-77 | an index stands for one flat map only |
| Broadcast.FoundOnce | notify/src/broadcaster.rs:36-77 | no listener is in two places of the index |
| Broadcast.SendSet | notify/src/broadcaster.rs:186-199 | each connection of a set gets the message once; the closed ones are noted |
| Broadcast.Plan.SendSubscription | notify/src/broadcaster.rs:183-200 | each listener of a subscription gets the message of its encoding once |
| Broadcast.Plan.Send | notify/src/broadcaster.rs:180-202 | each listener whose subscription applies gets, once, the message made from its own subscription and encoding |
| Broadcast.Plan.Purge | notify/src/broadcaster.rs:203-204 | exactly the noted listeners leave the flat map |
| Broadcast.Plan.Broadcast | notify/src/broadcaster.rs:176-204 | the same, and afterwards exactly the closed listeners are gone |
| Broadcast.Broadcaster.Handle | notify/src/broadcaster.rs:157-209 | one turn of the broadcasting loop is one step on the flat maps, with the deliveries they call for |
| Broadcast.Broadcaster.RunAll | notify/src/broadcaster.rs:156-210 | every run of commands and notifications refines the run on flat maps, deliveries included |
| BroadcastHistory.RunHistory | notify/src/broadcaster.rs:156-210 | told from the commands: a listener has an entry for an event exactly when its last registration for it has not since been ended by an unregistration or by a notification that reached it on a closed connection, and the entry is that registration |
| BroadcastHistory.LogHistory | notify/src/broadcaster.rs:176-204 | a log holds a message exactly when it is made for such a standing registration from its own subscription and encoding |
| BroadcastHistory.SilentAfterUnregister | notify/src/broadcaster.rs:166-169 | after it unregisters, a listener gets nothing of that event until it registers again |
| BroadcastHistory.RunFromStart | notify/src/broadcaster.rs:144-210 | every run from the start: each log holds exactly these messages, no listener twice |
| MassChunks.NextChunkUpperBound | mining/src/manager.rs:621-637 | the next chunk has a mass below the limit or is a single transaction, and one more would reach the limit; none exactly at the end |
| MassChunks.ValidateInChunks | mining/src/manager.rs:450-461 | the loop ends with one result per transaction in order, over a partition that no admissible one beats in number of chunks |
| MassChunks.StaysAhead | mining/src/manager.rs:621-637 | the greedy cuts are never behind those of another admissible partition |
| MassChunks.FewestChunks | mining/src/manager.rs:566-577 | so no admissible partition has fewer chunks |

## Left out

- UintFloat.AsF64: covers up to 48 limbs, the widest instance in the repository; above that the exponent no longer fits into the word and the pattern wraps.
- UintDisplay.Display: does not model width and padding of the formatter; the table of digit pairs is given by formula.
- MassChunks.NextChunkUpperBound: masses are unbounded, so overflow of their 64-bit sum is not modelled.
- Chunks.DecodeChunk: sizes are unbounded; the conversions between 64-bit and machine words, which cannot fail on 64-bit platforms, are left out.
- SnapshotManifest.ValidateManifest: file names are judged by Unix path rules.
- SnapshotManifest.DownloadSnapshot: files, temporary paths and renames are left out; the result is the content written.
- QuorumDecide.SelectSnapshotQuorum: error and policy texts are error values instead of strings.
- ManifestQuorum.FetchManifest: time-outs, penalties and blocked sources are one input per source; the last error text is left out.
- CachedAccess.CachedDbAccess.RunBatch: that the condition is needed is shown per read and for counted caches only, since with tracked sizes a stale entry may be evicted at once and in a run it may be overwritten later.
- CachedAccess.CachedDbAccess.Write: coherence after a direct write while other writes are staged is not stated, since the staged writes may cover the same key.
- SetAccess.CachedDbSetAccess.Write: likewise.
- Caching.Cache.InsertMany: does not bound the evictions of several insertions in tracked mode.
- CachedAccess.CachedDbAccess.DeleteAll: requires that the prefix has an upper bound, which the source unwraps.
- SetAccess.CachedDbSetAccess.DeleteBucket: likewise for prefix and bucket.
- SetAccess.CachedDbSetAccess.Read: bucket keys of one length, and stored items in canonical form; cached sets are values, so readers that hold a shared set while it changes are not modelled.
- Caching.Cache.UpdateIfEntryExists: the tracked size is unbounded, so overflow of machine words is not modelled.
- Broadcast.Broadcaster.Handle: how a subscription applies to a notification and is compounded is a parameter.
- Arithmetic operators that panic in debug builds, `mod_inverse`, hexadecimal and binary formatting, byte conversions, serde, borsh and JavaScript conversions of the integers.
- `math/src/int.rs` and UTXO selection in `rothschild`: easy next to the rest.
- Iterators and seeks over the store, the in-memory writer, and errors of RocksDB and bincode.
- Interleavings of threads on the cache locks: operations are atomic steps.
- Gathering of bootstrap sources, audits, cooldowns, logging and all network and file access.
- Mempool internals, block templates, fee estimation and consensus validation.
- Command line, wallet, daemon wiring and build scripts.
