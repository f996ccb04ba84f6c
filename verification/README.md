# phono-junk: a Dafny model

phono-junk identifies and verifies audio-CD rips. This project models its decision-making
core and proves what it promises:

- **AccurateRip verification.** The checksums (`Crc`), the dBAR file (`Dbar`), matching one
  track (`TrackVerify`), the constant-time shifted checksums (`PrefixSums`) and the pruned
  offset search (`OffsetSearch`). The search is proved equal, on every input, to a naive one
  that recomputes every checksum sample by sample at every shift; `OffsetTheorems` and
  `OffsetAlignment` say what its verdict means, `OffsetMeaning` in entries, samples and numbers.
- **Identification.** Field voting (`Voting`), the merge with its MBID rule (`Consensus`,
  `ConsensusTheorems`), candidate scoring (`Scoring`, `ScoringTheorems`) and the four-stage run
  (`StagedRun`, `StagedTheorems`, `StagedAccounts`). A provider's answer is an arbitrary function
  of the provider, the identifiers it is given and the ordinal of the call. The iteration order
  of the vote's hash map is an arbitrary choice.
- **Catalog projection.** The tables as maps with the schema's cascades and unique indexes
  (`CatalogDb`), the object that is updated step by step (`Catalog`), and what a disc upsert and
  a track refresh do (`CatalogTheorems`, `UpsertTheorems`, `TrackRefresh`, `Projection`).
- **Tables of contents and identifiers.** `Tocs`, `LayoutToc`, `DiscId`.
- **Override paths** and their application to a disc: `Overrides`.

Loops and in-place updates of the original are methods with loops, and the catalog is a class;
each is proved against a specification function, and the theorems are about that function.
Machine words are integers in range with every wrap-around written out (`Words`).

## Where the code and its documentation differ

The model follows the code.

- `best_match` is documented to prefer v2 at equal confidence; it returns v1
  (`TrackVerify.TieReturnsV1`), and prefers v2 exactly when v2 is strictly more confident.
- The default search is documented to stay inside the disc. Beside a short outer track a checked
  window leaves it (`OffsetAlignment.ShortFirstTrackLeavesTheDisc`), and so does the frame 450 of a
  last track that ends too soon after it (`OffsetAlignment.LoneTrackFrameLeavesTheDisc`).
  `OffsetAlignment.ContainmentExactly` gives the exact lengths for which nothing leaves it, and
  `OffsetAlignment.InsideAvoidsTheFallback` what that means for the checksums.
- `merge_opt` is documented to record each distinct losing value once; it records each losing
  vote, so a value that loses twice has two rows (`Voting.RepeatedLoserIsLoggedTwice`). There is
  one row per value exactly when at most one value has two votes (`Voting.OneRowPerValueExactly`, whose
  premise on values `ConsensusTheorems.FieldValuesAreInjective` meets).
- `MergedDisc.sources` is documented as the providers that contributed a field to the result; it is
  everyone the MBID rule lets contribute, even one that reported nothing
  (`ConsensusTheorems.SilentProviderIsNamed`) or whose every value lost
  (`ConsensusTheorems.LosingProviderIsNamed`). The two agree exactly when every one of them wins some
  vote (`ConsensusTheorems.SourcesGaveExactly`).
- The MBID rule can leave nobody to contribute, already with three providers
  (`ConsensusTheorems.ThreeCanExcludeEachOther`): exactly when every provider contradicts a winning
  MBID, which takes two providers that differ in both (`ConsensusTheorems.NobodyContributesExactly`).
  The merge then pairs MBIDs that no provider reported together. It pairs them rightly exactly when
  both MBIDs of some provider win their votes; beside a provider that carries both, a wrong pair takes
  two that differ (`ConsensusTheorems.MergedMbidsBelongTogetherExactly`).
- The candidate pool is unique by provider and key, the schema by key alone
  (`StagedAccounts.SharedKeyStaysTwice`; in a whole run `StagedAccounts.TwoProvidersBreakTheIndex`). A run's
  pool fits the schema exactly when no two providers return one key (`StagedAccounts.RunFitsIndexExactly`).
- A disc keeps its stable key when overrides change its identifiers, and that key refuses the disc
  when it comes again under the identifiers it was inserted with (`UpsertTheorems.OverriddenDiscIsRefused`).
  A disc no row matches is inserted exactly when its key is free (`UpsertTheorems.NewDiscIsInsertedExactly`).
- A table's offset n is documented as the start of track `first_track + n`, but the layout validation
  compares only the first and the last track number. With a gap, an offset stands under another
  track's number and the counts taken from the numbers are wrong (`LayoutToc.GappedNumbersAreAccepted`).
  Every offset stands under its number exactly when the audio numbers are consecutive
  (`LayoutToc.OffsetsStandUnderNumbersExactly`), and the CDDB track count is right exactly when there are
  as many audio tracks as numbers (`LayoutToc.CountByteIsTrackCountExactly`).
- With inner numbers that repeat or descend, two different accepted layouts can share their MusicBrainz
  string (`LayoutToc.InnerNumberHidesTrack`). An offset is lost exactly when there are more audio tracks
  than numbers from the first to the last (`LayoutToc.AcceptedLosesOffsetsExactly`), never when the
  numbers ascend (`LayoutToc.AscendingNumbersLoseNothing`); without a loss the string still determines
  the table (`DiscId.PreimageDeterminesOrderedToc`).

## Model

| member | source | states |
|---|---|---|
| Crc.TrackCrcStreaming | phono-junk-accuraterip/src/crc.rs:67-100 | A failed read, and only that, gives the first failure; otherwise a wrong sample count errors; otherwise the result is the checksum of the flattened track |
| Crc.TrackCrcSamples | phono-junk-accuraterip/src/crc.rs:104-115 | The loop computes the plain sum over the checked window, the same specification the streaming path meets |
| Crc.CheckedPositionsExactly | phono-junk-accuraterip/src/crc.rs:134-144 | A position is checked exactly when it is not among the first 2939 of the first track nor the last 2940 of the last |
| Crc.TrackSampleWeighsItsPosition | phono-junk-accuraterip/src/crc.rs:104-144 | Changing the sample at index k moves v1 by (k+1) times the change and v2 by the change of that product's low plus high word, inside the checked part, and nothing outside it |
| Crc.V2IsV1PlusHighWords | phono-junk-accuraterip/src/crc.rs:117-124 | v2 is v1 plus the sum of the overflowing high words, modulo 2^32 |
| Dbar.Parse | phono-junk-accuraterip/src/dbar.rs:69-117 | Accepts exactly the printed forms of well-formed files, returning the printed file; every read is in bounds and the cursor advances |
| Dbar.FirstResponseOfBytes | phono-junk-accuraterip/src/dbar.rs:69-117 | Byte by byte, little-endian: header at 1, 5 and 9, entries of nine bytes from 13; and the exact truncation errors |
| Dbar.ParseEntries | phono-junk-accuraterip/src/dbar.rs:95-105 | The inner loop reads exactly the announced entries |
| Dbar.ParseInvertsPrint | phono-junk-accuraterip/src/dbar.rs:7-20 | Parsing yields a file if and only if the file is well formed and prints to those bytes |
| Dbar.ParsePrinted | phono-junk-accuraterip/src/dbar.rs:69-117 | parse(print(d)) = d, whatever follows |
| Dbar.PrintParsed | phono-junk-accuraterip/src/dbar.rs:69-117 | Accepted bytes are the printed form of what was parsed, and every response has its announced track count |
| Dbar.ParseConcatenation | phono-junk-accuraterip/src/dbar.rs:66-68 | Parsing distributes over concatenation, failures keeping their offset in the whole buffer |
| Dbar.ValidateRequest | phono-junk-accuraterip/src/dbar.rs:122-143 | Succeeds exactly when every header matches the request; otherwise reports the first that does not |
| Dbar.EntriesAreExactlyThoseOffered | phono-junk-accuraterip/src/dbar.rs:149-160 | The entries for a position are exactly those some pressing has, each once, in pressing order |
| TrackVerify.VerifyTrack | phono-junk-accuraterip/src/verify.rs:98-147 | The loop collects the v1 and v2 match lists and the status of the specification |
| TrackVerify.VerificationExactly | phono-junk-accuraterip/src/verify.rs:98-147 | The match lists hold, pressings ascending, one match for each offered entry with the checksum, its confidence and its versions |
| TrackVerify.VerifyDisc | phono-junk-accuraterip/src/verify.rs:151-155 | Each result is the verification of the input at the same place |
| TrackVerify.MatchesAreEntries | phono-junk-accuraterip/src/verify.rs:101-126 | A match is an entry carrying the wanted checksum, and every such entry is matched |
| TrackVerify.StatusMeansMatch | phono-junk-accuraterip/src/verify.rs:127-135 | Verified exactly when an offered entry equals v1 or v2; no data exactly when no entry is offered |
| TrackVerify.BestMatchHasBestConfidence | phono-junk-accuraterip/src/verify.rs:50-68 | The best match exists when any does, is one of them, and has the best confidence |
| TrackVerify.BestMatchPrefersV2OnlyWhenStrictlyBetter | phono-junk-accuraterip/src/verify.rs:62-68 | With different checksums, v2 is preferred exactly when strictly more confident or alone |
| TrackVerify.TieReturnsV1 | phono-junk-accuraterip/src/verify.rs:62-68 | At equal confidence the code answers v1, against its documentation |
| PrefixSums.NewPrefix | phono-junk-accuraterip/src/offset.rs:84-97 | Both vectors hold the sums of every prefix modulo 2^32 |
| PrefixSums.WeightedRangeIsDirectSum | phono-junk-accuraterip/src/offset.rs:99-106 | For every range and multiplier, four lookups equal the weighted sum modulo 2^32 |
| PrefixSums.ShiftedV1IsDirect | phono-junk-accuraterip/src/offset.rs:318-332 | At every shift, in range or not, the fast v1 is the direct v1 |
| PrefixSums.ShiftedV2 | phono-junk-accuraterip/src/offset.rs:334-355 | The fold is the direct v2 at every shift |
| PrefixSums.ShiftedFrame450IsDirect | phono-junk-accuraterip/src/offset.rs:357-375 | The fast frame-450 checksum is the direct one at every shift |
| OffsetSearch.LayOut | phono-junk-accuraterip/src/offset.rs:138-148 | Concatenates the tracks and records each one's window |
| OffsetSearch.FindFrontier | phono-junk-accuraterip/src/offset.rs:151-168 | The linear pass keeps exactly shift 0 and the shifts with direct evidence, ascending |
| OffsetSearch.EvaluateCandidate | phono-junk-accuraterip/src/offset.rs:241-316 | Track results and tallies equal those recomputed sample by sample |
| OffsetSearch.VerifyWithOffsets | phono-junk-accuraterip/src/offset.rs:121-239 | For every file, disc and bound the pruned prefix-sum search returns the naive search's summary |
| OffsetMeaning.ShiftedSampleWeighsItsPosition | phono-junk-accuraterip/src/offset.rs:318-355 | At a shift, the disc sample standing at checked position p weighs p in v1 and v2, every other nothing |
| OffsetMeaning.FrameSampleWeighsItsPlace | phono-junk-accuraterip/src/offset.rs:357-361 | The frame is the 588 samples from 264,600, weighing 1 to 588; absent under 265,188 samples, zero off the disc |
| OffsetMeaning.SearchedExactly | phono-junk-accuraterip/src/offset.rs:150-168 | A shift is searched exactly when it is 0 or some track has an offered entry equal to v1, or to frame 450 and not zero |
| OffsetMeaning.TrackReportExactly | phono-junk-accuraterip/src/offset.rs:249-306 | What is reported of one track at one shift, from the offered entries |
| OffsetMeaning.TalliesExactly | phono-junk-accuraterip/src/offset.rs:308-316 | The number of matched tracks, the least of their best confidences, their sum, and the number of supported frames |
| OffsetMeaning.ChosenOutranksAll | phono-junk-accuraterip/src/offset.rs:49-56 | A shift is chosen exactly when it outranks every other shift in reach by full matches, then minimum, then total confidence, then frames |
| OffsetMeaning.TiesExactly | phono-junk-accuraterip/src/offset.rs:203-226 | A tie lists exactly the shifts in reach that none outranks |
| OffsetMeaning.ReportExactly | phono-junk-accuraterip/src/offset.rs:121-239 | Status and tracks for no data, no choice, a tie and a choice |
| OffsetTheorems.DiscardedShiftsHaveNoEvidence | phono-junk-accuraterip/src/offset.rs:150-168 | A discarded shift has no v1 match and no frame-450 support on any track; at most v2 matches |
| OffsetTheorems.KeptShiftsRankAboveZero | phono-junk-accuraterip/src/offset.rs:150-188 | Every kept non-zero shift ranks above the zero rank |
| OffsetTheorems.MismatchWithoutChoiceExactly | phono-junk-accuraterip/src/offset.rs:176-202 | Mismatched without a shift exactly when no shift in range has evidence and shift 0 has no v2 match |
| OffsetTheorems.ChosenExactly | phono-junk-accuraterip/src/offset.rs:203-239 | A shift is chosen exactly when its rank is strictly greatest and not zero, and its tracks are the ones reported |
| OffsetTheorems.ChosenShiftHasEvidence | phono-junk-accuraterip/src/offset.rs:3-8 | A chosen non-zero shift has v1 or frame-450 evidence; v2 alone never moves the result |
| OffsetTheorems.VerifiedExactly | phono-junk-accuraterip/src/offset.rs:203-239 | Verified exactly when one shift alone attains the maximum rank and has a full match |
| OffsetTheorems.AmbiguousExactly | phono-junk-accuraterip/src/offset.rs:203-226 | Ambiguous exactly when two shifts share a non-zero maximum rank |
| OffsetTheorems.AmbiguousListsEveryTie | phono-junk-accuraterip/src/offset.rs:203-226 | The list holds exactly the tied shifts with their tallies, at least two, ascending |
| OffsetTheorems.MatchingShiftIsNotMissed | phono-junk-accuraterip/tests/offset_verify.rs:75-118 | If a searched shift matches every track, the disc is verified at such a shift or only such shifts tie |
| OffsetTheorems.VerifiedTrackHasEntry | phono-junk-accuraterip/src/offset.rs:285-298 | A track is verified at a shift exactly when an offered entry equals that window's v1 or v2 |
| OffsetTheorems.OutOfRangeFrameNeverSupports | phono-junk-accuraterip/src/offset.rs:357-390 | A frame-450 window off the disc never counts |
| OffsetAlignment.ShiftZeroIsTheTrackAlone | phono-junk-accuraterip/src/offset.rs:318-355 | At shift 0 each window's checksums are those of the track alone |
| OffsetAlignment.ShiftZeroAgreesWithVerifyTrack | phono-junk-accuraterip/src/verify.rs:98-147 | At shift 0 the match lists are those of single-track verification; statuses differ only without data |
| OffsetAlignment.LongOuterTracksSuffice | phono-junk-accuraterip/src/offset.rs:117-120 | With outer tracks of 2939 samples no checked window leaves the disc within the default search |
| OffsetAlignment.ContainmentExactly | phono-junk-accuraterip/src/offset.rs:117-120 | For every disc, nothing the default search reads leaves it exactly when each track whose window checks something has 2939 samples of other tracks on either side (unless outermost there) and each track with a frame 450 has 2939 samples of disc after it |
| OffsetAlignment.LongOuterTracksExactly | phono-junk-accuraterip/src/offset.rs:357-390 | With outer tracks of 2939 samples, that holds unless the last track ends within 2939 samples after its frame 450 |
| Voting.MergeOpt | phono-junk-identify/src/consensus.rs:239-281 | For every hash-map order: the plurality value, and the log extended by exactly the losing votes in order |
| Voting.PluralityWins | phono-junk-identify/src/consensus.rs:258-262 | The winner is the one value with most votes, ties to the first voted for; none exactly when no vote is present |
| Voting.PluralityExactly | phono-junk-identify/src/consensus.rs:258-262 | By vote indices: the winner has more votes than any other value, or as many and the earlier first |
| Voting.VotesAreConserved | phono-junk-identify/src/consensus.rs:266-279 | Present votes = winner's votes + disagreements added |
| Voting.LosingVotesAreLogged | phono-junk-identify/src/consensus.rs:266-279 | The k-th row is the k-th losing vote against the winner's first voter |
| Voting.OneRowPerValueExactly | phono-junk-identify/src/consensus.rs:235-237 | Every losing value is recorded; one row per value, as documented, exactly when at most one value has two votes |
| Consensus.MergeTracks | phono-junk-identify/src/consensus.rs:315-380 | Grouping through a map and voting per position gives the specified tracks and disagreements |
| Consensus.GroupByPosition | phono-junk-identify/src/consensus.rs:317-331 | The map holds, per position, every contributor's entries in priority order |
| Consensus.Merge | phono-junk-identify/src/consensus.rs:66-210 | The merge votes MBIDs among all, other fields among contributors, and logs disagreements in field order |
| ConsensusTheorems.FieldsWinTheirVotes | phono-junk-identify/src/consensus.rs:66-195 | Each album and release field is the winner of its own vote, MBIDs among all, the rest among contributors; a winning empty title is dropped |
| ConsensusTheorems.TrackFieldsWinTheirVotes | phono-junk-identify/src/consensus.rs:333-378 | Each field of a merged track wins the vote of the listings of its position |
| ConsensusTheorems.LogIsWrittenOut | phono-junk-identify/src/consensus.rs:66-210 | Which losing votes are logged under which name, in order |
| Consensus.MergeWithTocFallback | phono-junk-identify/src/consensus.rs:294-310 | Stubs replace the tracks exactly when the merge has none |
| ConsensusTheorems.FieldsComeFromContributors | phono-junk-identify/src/consensus.rs:84-195 | Every present album or release value was reported by a provider whose MBIDs do not contradict the winners |
| ConsensusTheorems.TracksComeFromContributors | phono-junk-identify/src/consensus.rs:333-378 | Every present track field was reported for that position by such a provider |
| ConsensusTheorems.ContributorsNeverMix | phono-junk-identify/src/consensus.rs:13-18 | No two contributors carry different album MBIDs or different release MBIDs |
| ConsensusTheorems.TracksAscend | phono-junk-identify/src/consensus.rs:330-331 | Merged tracks ascend strictly by position |
| ConsensusTheorems.TrackForEveryPosition | phono-junk-identify/src/consensus.rs:315-332 | There is a track for exactly the positions a contributor lists |
| ConsensusTheorems.FirstOfTwoContributes | phono-junk-identify/src/consensus.rs:84-104 | With one or two providers the first always contributes |
| ConsensusTheorems.NobodyContributesExactly | phono-junk-identify/src/consensus.rs:86-104 | The cohort is empty exactly when every provider contradicts a winning MBID, which takes two that differ in both |
| ConsensusTheorems.MergedMbidsBelongTogetherExactly | phono-junk-identify/src/consensus.rs:13-19 | The merged MBIDs were reported together exactly when both MBIDs of one provider win their votes; among providers that agree on each kind, exactly when one carries both |
| ConsensusTheorems.SourcesGaveExactly | phono-junk-identify/src/consensus.rs:59-61 | The named sources are the contributors with a present field in the result exactly when every contributor wins some vote |
| ConsensusTheorems.SingleResultIsKept | phono-junk-identify/src/consensus.rs:66-210 | Merging one result with distinct positions keeps its metadata and records nothing |
| ConsensusTheorems.StubsFillTheDisc | phono-junk-identify/src/consensus.rs:294-310 | Fallback stubs are numbered, of positive length, and together as long as the disc |
| Scoring.CountSupport | phono-junk-identify/src/pipeline.rs:156-162 | The map holds, per release identity, exactly the providers that report it |
| Scoring.ScoreAndResolve | phono-junk-identify/src/pipeline.rs:149-215 | Scores against peers, sorts stably, selects the first and compares with the runner-up |
| ScoringTheorems.RankedByFields | phono-junk-identify/src/lib.rs:258-274 | Ranked by the seven fields in order, equal scores by smaller key; ambiguous exactly when the runner-up shares the six evidence fields |
| ScoringTheorems.ScoreExactly | phono-junk-identify/src/pipeline.rs:168-197 | Each score field in terms of the candidates and the table |
| ScoringTheorems.ResolutionIgnoresOrder | phono-junk-identify/src/pipeline.rs:199-214 | Unless two different candidates tie on rank and key, every permutation resolves identically |
| ScoringTheorems.DistinctKeysDecide | phono-junk-identify/src/pipeline.rs:199-205 | Pairwise distinct keys rule such ties out |
| ScoringTheorems.TieFollowsInputOrder | phono-junk-identify/src/pipeline.rs:199-206 | In any input, exchanging two different candidates that tie on rank and key changes the resolution |
| ScoringTheorems.OrderIsImmaterialExactly | phono-junk-identify/src/pipeline.rs:199-214 | All permutations resolve identically if and only if no two different candidates tie |
| ScoringTheorems.ResolutionIsOrderedPermutation | phono-junk-identify/src/pipeline.rs:199-214 | Selection and alternatives permute the scored input in descending rank |
| ScoringTheorems.RunnerUpSuffices | phono-junk-identify/src/pipeline.rs:207-209 | Ambiguous exactly when some alternative shares all the selection's evidence |
| ScoringTheorems.ExactAssociationDecides | phono-junk-identify/src/lib.rs:258-274 | The selection has an exact disc association unless no candidate has one |
| ScoringTheorems.CorroborationIsMutual | phono-junk-identify/src/pipeline.rs:168-183 | Whoever corroborates a candidate is corroborated by it |
| ScoringTheorems.AgreementCountsIndices | phono-junk-identify/src/pipeline.rs:302-316 | The duration score counts the tracks within two frames of the table |
| ScoringTheorems.TrackCountOutweighsDurations | phono-junk-identify/src/pipeline.rs:302-316 | A matching track count outweighs any duration agreement without it |
| StagedRun.LearnFromCandidates | phono-junk-identify/src/pipeline.rs:242-264 | The loop appends the candidates' identifiers not yet learned |
| StagedRun.ApplyLearnedIds | phono-junk-identify/src/pipeline.rs:266-278 | Only a missing barcode or catalog number is filled, by the first value learned |
| StagedRun.CollectTasks | phono-junk-identify/src/pipeline.rs:69-89 | The tasks of a tier, in registration order, each query once |
| StagedRun.RunStage | phono-junk-identify/src/pipeline.rs:90-139 | Answers are all taken first and then absorbed in task order |
| StagedRun.IdentifyStaged | phono-junk-identify/src/pipeline.rs:36-147 | The outcome is that of the fold of four gated stages |
| StagedTheorems.ProvidersAreAsked | phono-junk-identify/src/pipeline.rs:57-89 | The first two tiers are always asked for what is known, the fallback tier when nothing is resolved unambiguously, the barcode tier when there is no candidate |
| StagedTheorems.LogHoldsAnswers | phono-junk-identify/src/pipeline.rs:90-139 | Every observation records a provider's answer to the scoped identifiers its stage began with |
| StagedTheorems.QueriedAtMostOnce | phono-junk-identify/src/pipeline.rs:79-80 | After every stage no (provider, kind, value) is logged twice and the remembered queries are the logged ones |
| StagedTheorems.StagesUseEarlierIdentifiers | phono-junk-identify/src/pipeline.rs:69-139 | Observations are in stage order, of their tier, with identifiers known when the stage began, each a lookup or an error |
| StagedTheorems.LaterTiersAreGated | phono-junk-identify/src/pipeline.rs:57-67 | A fallback query means unresolved or ambiguous; a generic query means no candidate |
| StagedTheorems.EveryKnownQueryIsAsked | phono-junk-identify/src/pipeline.rs:69-89 | A stage that runs leaves no known query of its tier unasked |
| StagedAccounts.LogAccountsForEverything | phono-junk-identify/src/pipeline.rs:104-146 | Pool, identifiers and errors are exactly functions of the log, in order |
| StagedAccounts.IdentifiersFilledExactly | phono-junk-identify/src/pipeline.rs:266-278 | A missing barcode or catalog number becomes the first one learned; all other identifiers stay |
| StagedAccounts.PoolRepresentsEveryLookup | phono-junk-identify/src/pipeline.rs:110-117 | The pool is unique by provider and key, represents every candidate returned and holds no other |
| StagedAccounts.SetIdentifiersNeverChange | phono-junk-identify/src/pipeline.rs:266-278 | An identifier once set keeps its value; those derived from the table never change |
| StagedAccounts.CandidatesTeachIdentifiers | phono-junk-identify/src/pipeline.rs:242-264 | What is learned is exactly what the lookup said and its candidates carry, nothing added twice |
| StagedAccounts.RunFitsIndexExactly | phono-junk-db/src/schema.rs:374-382 | After every stage the pool's keys are distinct exactly when no two providers returned candidates with one key |
| CatalogTheorems.DropEmptyRelease | phono-junk-db/src/schema.rs:208-211 | Deleting a release without discs cascades to its assets alone |
| CatalogTheorems.SweepClosedForm | phono-junk-lib/src/identify.rs:638-662 | The sweep as plain removals of a release, its album and their loose rows |
| CatalogTheorems.MoveSweepsExactly | phono-junk-lib/src/identify.rs:605-611 | Re-parenting deletes the old release exactly when emptied, its album exactly when then emptied, with their assets and loose rows, and nothing else |
| Catalog.Catalog.FindDiscByIds | phono-junk-lib/src/identify.rs:452-467 | Any MusicBrainz match, else any triple match, else none |
| UpsertTheorems.LookupExactly | phono-junk-lib/src/identify.rs:452-467 | A row with the MusicBrainz id if there is one, else one with all three AccurateRip identifiers |
| Catalog.Catalog.DeleteLooseRowsFor | phono-junk-lib/src/identify.rs:643-648 | Removes exactly the disagreements and overrides attached to the key |
| Catalog.Catalog.DeleteReleaseIfOrphan | phono-junk-lib/src/identify.rs:638-662 | The stepwise deletion is the specified sweep |
| Catalog.Catalog.UpdateDisc | phono-junk-db/src/crud.rs:478-499 | Refused unchanged by the foreign key or the unique triple, else replaces one row |
| Catalog.Catalog.InsertDisc | phono-junk-db/src/crud.rs:439-471 | The two statements of an insertion, the second of which can fail on the stable key |
| Catalog.Catalog.UpsertDisc | phono-junk-lib/src/identify.rs:588-632 | Whole new database and result, for whichever matching row the lookup answers |
| UpsertTheorems.FoundRowExactly | phono-junk-lib/src/identify.rs:595-618 | Field by field what a found disc's row becomes |
| UpsertTheorems.NewRowExactly | phono-junk-lib/src/identify.rs:619-632 | Field by field what a new disc's row and key are |
| Catalog.Catalog.UpsertTracks | phono-junk-lib/src/identify.rs:666-701 | The stepwise refresh is the specified fold, stopping at the first error |
| TrackRefresh.RefreshWritesMetadata | phono-junk-lib/src/identify.rs:666-701 | Present metadata replaces the stored value, absent metadata keeps it, a new row holds the metadata alone, all other rows stay |
| UpsertTheorems.UpsertKeepsCatalogValid | phono-junk-db/src/schema.rs:172-242 | Succeed or fail, every foreign key and every unique index of albums, releases and discs, and of track positions, holds afterwards |
| UpsertTheorems.UpsertKeepsIdentityAndSweepsExactly | phono-junk-lib/src/identify.rs:595-618 | The disc keeps its row id and key, no disc, track or rip row is lost, and the sweep is exact |
| UpsertTheorems.TargetIsNeverSwept | phono-junk-lib/src/identify.rs:595-611 | The target release and its album are never swept |
| UpsertTheorems.FoundDiscIsUpsertedExactly | phono-junk-db/src/schema.rs:225-229 | With complete identifiers a found disc is upserted exactly when no other row holds the triple |
| UpsertTheorems.NewDiscIsInsertedExactly | phono-junk-lib/src/identify.rs:619-632 | A disc nothing finds is inserted under a new id exactly when its preferred key is free |
| UpsertTheorems.OverriddenDiscIsRefused | phono-junk-lib/src/identify.rs:776-804 | A disc inserted, then given other identifiers by overrides, is found by no lookup of its own identifiers and refused by its own key |
| UpsertTheorems.UpsertIsIdempotent | phono-junk-lib/src/identify.rs:588-618 | With one matching row, repeating the upsert returns the same id and changes nothing |
| UpsertTheorems.UpsertIsRepeatableExactly | phono-junk-lib/src/identify.rs:452-467 | Whatever the second lookup answers, repeating returns the same id and changes nothing, exactly when there is an identifier and no other row carries the MusicBrainz id |
| UpsertTheorems.UnidentifiedDiscIsAddedAgain | phono-junk-lib/src/identify.rs:452-467 | Without identifiers every upsert adds another row |
| TrackRefresh.RefreshOutcome | phono-junk-lib/src/identify.rs:666-701 | Succeeds exactly for distinct positions; rows keep ids, only addressed rows change, new rows fill free positions |
| TrackRefresh.UpdateNeverErases | phono-junk-lib/src/identify.rs:688-692 | A present field stays present; a field the metadata lacks is untouched |
| TrackRefresh.RefreshIsIdempotent | phono-junk-lib/src/identify.rs:666-701 | Refreshing twice with the same metadata is refreshing once |
| Projection.ProjectionKeepsCatalogValid | phono-junk-db/src/schema.rs:231-243 | Refreshing from any merge or its stubs succeeds and keeps the catalog valid |
| Projection.TrackKeysNeverCollide | phono-junk-db/src/crud.rs:572-579 | The keys derived for two tracks differ, so their unique index never refuses what the other constraints allow |
| Tocs.LengthsFillTheDisc | phono-junk-core/src/lib.rs:65-85 | Tracks of an ordered table have positive lengths that sum to the total |
| Tocs.TrackLengthExactly | phono-junk-core/src/lib.rs:65-85 | A track runs to the next start, the last to the lead-out |
| LayoutToc.AcceptedExactly | phono-junk-toc/src/toc_from_layout.rs:40-113 | Accepted exactly as the ordered table of the leading audio run, with the CD-Extra lead-out |
| LayoutToc.RefusedExactly | phono-junk-toc/src/toc_from_layout.rs:40-113 | Which refusal each layout meets first |
| LayoutToc.AcceptedTracksFillTheDisc | phono-junk-toc/src/toc_from_layout.rs:93-113 | Accepted discs have positive track lengths that fill the disc |
| LayoutToc.MixedModeExactly | phono-junk-toc/src/toc_from_layout.rs:47-60 | Unsupported exactly when data precedes a track that is not data |
| LayoutToc.OffsetsStandUnderNumbersExactly | phono-junk-core/src/lib.rs:45-47 | Every offset of an accepted table stands, and is printed, under its track's own number exactly when the audio numbers are consecutive |
| LayoutToc.CountByteIsTrackCountExactly | phono-junk-toc/src/discid.rs:88-89 | The CDDB count byte is the number of audio tracks exactly when there are as many as numbers from the first to the last |
| LayoutToc.AcceptedLosesOffsetsExactly | phono-junk-toc/src/toc_from_layout.rs:93-113 | An accepted table loses an offset in the MusicBrainz string exactly when it has more tracks than numbers |
| LayoutToc.InnerNumberHidesTrack | phono-junk-toc/src/toc_from_layout.rs:82-113 | Numbers 1, 5, 2 are accepted and share their string with another accepted layout |
| DiscId.MusicBrainzPreimage | phono-junk-toc/src/discid.rs:37-53 | The built string is the specified one and always 804 characters |
| DiscId.PreimageDigits | phono-junk-toc/src/discid.rs:37-53 | The digits at every place of the string, upper case, for the ends, the lead-out and numbers 1 to 99 |
| DiscId.PreimageDeterminesToc | phono-junk-toc/src/discid.rs:37-53 | Well-numbered tables hash the same string exactly when equal |
| DiscId.LostExactly | phono-junk-toc/src/discid.rs:43-53 | No change to an offset shows in the string exactly when its track has no number between the first and the last |
| DiscId.PreimageShowsExactly | phono-junk-toc/src/discid.rs:37-53 | Two ordered tables share the string exactly when numbers, lead-out and printed offsets agree |
| DiscId.DigitSum | phono-junk-toc/src/discid.rs:62-69 | The loop sums the decimal digits |
| DiscId.CddbDiscid | phono-junk-toc/src/discid.rs:80-91 | The loop and bit packing give the specified number in eight lower-case digits |
| DiscId.CddbDecodes | phono-junk-toc/src/discid.rs:71-90 | The bytes decode to digit sum modulo 255, playing seconds and track count |
| DiscId.CountByte | phono-junk-toc/src/discid.rs:88-89 | The lowest byte is the track count whatever the playing time |
| DiscId.SecondsReadBackExactly | phono-junk-toc/src/discid.rs:87-89 | The seconds read back exactly when they fit 16 bits |
| DiscId.AccurateRipIds | phono-junk-toc/src/discid.rs:105-126 | The wrapping loops compute both sums modulo 2^32, with the lead-out terms |
| DiscId.SumsInNumbers | phono-junk-toc/src/discid.rs:62-126 | The digit sum, 75 sectors a second, the lead-in of 150 and the track-number weights |
| DiscId.LaterStartShiftsIds | phono-junk-toc/src/discid.rs:110-120 | Moving one track start by a sector moves the first sum by one and the second by its track number |
| Overrides.RoundTripExactly | phono-junk-db/src/overrides.rs:54-103 | Parsing a rendered path gives it back exactly when its names are well formed |
| Overrides.ApplyToTrack | phono-junk-db/src/overrides.rs:267-289 | Succeeds exactly for an empty path, a known field and a numeric length; the field then reads back as the value, empty meaning absent, and nothing else changes |
| Overrides.ApplyToDisc | phono-junk-db/src/overrides.rs:216-248 | Succeeds exactly for a known field and an existing track; a failure changes nothing; a success sets one field |
| Overrides.DiscFieldExactly | phono-junk-db/src/overrides.rs:250-265 | Which column each disc field sets, empty meaning absent except for the format |

## Left out

- HTTP clients, rate limits, provider response parsing, credentials and the concrete providers: a provider is a name, a tier, the identifiers it needs and an arbitrary answer.
- The threads inside a stage: answers are joined in task order, so any sequence of answers is covered.
- GUI, CLI, playback, FLAC extraction, path sanitising, list filters, scanning and job events.
- CUE and CHD reading and PCM extraction: layouts and samples are inputs; junk-libs-disc is not part of this model.
- SHA-1 and base64: the MusicBrainz identifier stops at the string that is hashed.
- SQL text, transactions and timestamps: a failed step leaves the partial state the caller's transaction would roll back.
- Album and release upserts: their descriptive columns are not read by the modelled steps.
- Raw responses, cover-art URLs and asset lookups: carried along by the original without influencing the modelled decisions.
- Stable keys of assets and rip files: their uniqueness is not modelled, since no modelled step inserts either.
- Stable keys of tracks: not stored in the rows; they are derived from the disc's key and the position, and so cannot collide (`Projection.TrackKeysNeverCollide`).
- Error message text: errors carry the numbers and names the messages are built from.
- Overrides of albums and releases: flat field assignments of the same kind as those of a disc.
- The library sort: written out as stable insertion, which has the same result as any stable sort.
- OffsetSearch.EvaluateCandidate: the total confidence is unbounded, where the original's 32-bit sum would need more than sixteen million tracks to overflow.
- Crc.TrackCrcStreaming: needs the sample count to fit 32 bits, as the original's counters do.
- LayoutToc.AcceptedExactly: needs offset plus length of each track to fit 32 bits, as the original's sum does.
- DiscId.CddbDiscid: needs a lead-out not before the first track and ascending track numbers, where the original's unsigned subtractions would fail.
- Consensus.MergeWithTocFallback: needs track numbers that fit a byte.
