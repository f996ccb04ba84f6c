/**
  What the verdict of offset search means, for every disc, dBAR file and shift bound.
  `VerifyWithOffsets` returns `NaiveVerify`, so each statement holds of its result.
 */
module OffsetTheorems {
  import opened Words
  import opened Results
  import opened Crc
  import opened Dbar
  import opened TrackVerify
  import opened PrefixSums
  import opened OffsetSearch

  ghost predicate InSearch(d: Disc, m: int, s: int)
    requires d.Valid()
  {
    -m <= s <= m && Searched(d, s)
  }

  // The shift's rank is strictly above that of every other searched shift.
  ghost predicate StrictlyBest(d: Disc, m: int, s: int)
    requires d.Valid()
  {
    InSearch(d, m, s) && forall t :: InSearch(d, m, t) && t != s ==> RankAt(d, t).Below(RankAt(d, s))
  }

  // No searched shift has a greater rank.
  ghost predicate Unbeaten(d: Disc, m: int, s: int)
    requires d.Valid()
  {
    InSearch(d, m, s) && forall t :: InSearch(d, m, t) ==> !RankAt(d, s).Below(RankAt(d, t))
  }

  ghost function Shifts(d: Disc, m: int): seq<int>
    requires d.Valid()
  {
    Frontier(d, -m, m + 1)
  }

  // ---------------------------------------------------------------- ranks

  lemma HigherRankStaysUnbeaten(best: Rank, last: Rank, r: Rank)
    requires !best.Below(r) && !last.Below(best)
    ensures !last.Below(r)
  {
  }

  lemma {:induction false} BestRankIsGreatest(d: Disc, shifts: seq<int>)
    requires d.Valid() && shifts != []
    ensures forall s <- shifts :: !BestRank(d, shifts).Below(RankAt(d, s))
    ensures exists s <- shifts :: RankAt(d, s) == BestRank(d, shifts)
  {
    var front, last := shifts[..|shifts| - 1], shifts[|shifts| - 1];
    assert shifts == front + [last] && last in shifts;
    assert !RankAt(d, last).Below(RankAt(d, last));
    hide RankAt, Rank.Below;
    if front == [] {
      assert RankAt(d, last) == BestRank(d, shifts);
    } else {
      BestRankIsGreatest(d, front);
      var best := BestRank(d, front);
      var top :| top in front && RankAt(d, top) == best;
      assert top in shifts;
      forall s | s in shifts
        ensures !BestRank(d, shifts).Below(RankAt(d, s))
      {
        if s in front && !RankAt(d, last).Below(best) {
          HigherRankStaysUnbeaten(best, RankAt(d, last), RankAt(d, s));
        }
      }
    }
  }

  ghost predicate Ascending(s: seq<int>) {
    forall i, j :: 0 <= i < j < |s| ==> s[i] < s[j]
  }

  lemma {:induction false} WinnersAscend(d: Disc, shifts: seq<int>, rank: Rank)
    requires d.Valid() && Ascending(shifts)
    ensures Ascending(Winners(d, shifts, rank))
  {
    hide RankAt;
    if shifts != [] {
      var front, last := shifts[..|shifts| - 1], shifts[|shifts| - 1];
      WinnersAscend(d, front, rank);
      WinnersHaveRank(d, front, rank);
      var earlier := Winners(d, front, rank);
      forall i | 0 <= i < |earlier|
        ensures earlier[i] < last
      {
        assert earlier[i] in earlier;
        var k :| 0 <= k < |front| && front[k] == earlier[i];
        assert shifts[k] < shifts[|shifts| - 1];
      }
      assert Ascending(earlier + [last]);
    }
  }

  // The winners of the search are the unbeaten shifts, ascending, and there is one.
  lemma WinnersAreUnbeaten(d: Disc, m: int)
    requires d.Valid() && 0 <= m
    ensures var best := BestRank(d, Shifts(d, m));
            var winners := Winners(d, Shifts(d, m), best);
            && |winners| > 0
            && (forall s :: s in winners <==> Unbeaten(d, m, s))
            && (forall s <- winners :: RankAt(d, s) == best)
            && Ascending(winners)
  {
    hide RankAt;
    var shifts := Shifts(d, m);
    var best := BestRank(d, shifts);
    FrontierExact(d, -m, m + 1);
    FrontierHoldsZero(d, m);
    BestRankIsGreatest(d, shifts);
    WinnersHaveRank(d, shifts, best);
    WinnersAscend(d, shifts, best);
    forall s
      ensures s in shifts <==> InSearch(d, m, s)
    {
    }
    var top :| top in shifts && RankAt(d, top) == best;
    forall s
      ensures s in Winners(d, shifts, best) <==> Unbeaten(d, m, s)
    {
      if Unbeaten(d, m, s) {
        assert !RankAt(d, s).Below(RankAt(d, top));
      }
    }
  }

  lemma UniqueWinnerIsStrictlyBest(d: Disc, m: int, s: int)
    requires d.Valid() && 0 <= m
    ensures var winners := Winners(d, Shifts(d, m), BestRank(d, Shifts(d, m)));
            winners == [s] <==> StrictlyBest(d, m, s)
  {
    hide RankAt, BestRank, Winners;
    WinnersAreUnbeaten(d, m);
    var winners := Winners(d, Shifts(d, m), BestRank(d, Shifts(d, m)));
    if winners == [s] {
      assert s in winners;
      forall t | InSearch(d, m, t) && t != s
        ensures RankAt(d, t).Below(RankAt(d, s))
      {
        assert t !in winners;
        assert !Unbeaten(d, m, t);
        var u :| InSearch(d, m, u) && RankAt(d, t).Below(RankAt(d, u));
        assert !RankAt(d, s).Below(RankAt(d, u));
      }
    }
    if StrictlyBest(d, m, s) {
      assert s in winners;
      assert |winners| > 1 ==> winners[0] != winners[1];
      forall i | 0 <= i < |winners|
        ensures winners[i] == s
      {
        assert winners[i] in winners;
      }
      assert |winners| == 1;
    }
  }

  // ---------------------------------------------------------------- tallies

  lemma {:induction false} ConfidencesCount(tracks: seq<TrackVerification>)
    ensures Confidences(tracks) != [] <==> exists t <- tracks :: t.v1Matches != [] || t.v2Matches != []
  {
    if tracks != [] {
      hide MaxConfidence;
      ConfidencesCount(tracks[..|tracks| - 1]);
      assert tracks == tracks[..|tracks| - 1] + [tracks[|tracks| - 1]];
    }
  }

  lemma {:induction false} FramesCount(tracks: seq<TrackVerification>)
    ensures FrameSupport(tracks) > 0 <==> exists t <- tracks :: t.frame450Support
  {
    if tracks != [] {
      FramesCount(tracks[..|tracks| - 1]);
      assert tracks == tracks[..|tracks| - 1] + [tracks[|tracks| - 1]];
    }
  }

  // Full match and frame support at a shift, window by window.
  ghost predicate FullMatch(d: Disc, w: TrackWindow, shift: int)
    requires d.Valid()
  {
    TrackAt(d, w, shift).status == Verified
  }

  lemma RankCounts(d: Disc, shift: int)
    requires d.Valid()
    ensures RankAt(d, shift).full > 0 <==> exists w <- d.windows :: FullMatch(d, w, shift)
    ensures RankAt(d, shift).frames > 0 <==> exists w <- d.windows :: TrackAt(d, w, shift).frame450Support
    ensures RankAt(d, shift).full == 0 ==> RankAt(d, shift).minimum == 0 && RankAt(d, shift).total == 0
  {
    hide EntriesForTrack, Matches, DirectCrc, DirectFrame450, Supports;
    var tracks := TracksAt(d, shift);
    ConfidencesCount(tracks);
    FramesCount(tracks);
    forall w | w in d.windows
      ensures TrackAt(d, w, shift) in tracks
    {
      var i :| 0 <= i < |d.windows| && d.windows[i] == w;
      assert tracks[i] == TrackAt(d, w, shift);
    }
    forall t | t in tracks
      ensures exists w <- d.windows :: t == TrackAt(d, w, shift)
    {
      var i :| 0 <= i < |tracks| && tracks[i] == t;
      assert d.windows[i] in d.windows && t == TrackAt(d, d.windows[i], shift);
    }
  }

  lemma MatchesIffPrimary(entries: seq<Entry>, wanted: u32, computed: TrackCrc)
    ensures Matches(entries, wanted, computed) != [] <==> PrimaryMatches(entries, wanted)
  {
    MatchesAreEntries(entries, wanted, computed);
    if Matches(entries, wanted, computed) != [] {
      assert Matches(entries, wanted, computed)[0] in Matches(entries, wanted, computed);
    }
  }

  // ---------------------------------------------------------------- pruning is exact

  lemma EvidenceMeans(d: Disc, w: TrackWindow, shift: int)
    requires d.Valid()
    ensures Evidence(d, w, shift) <==> TrackAt(d, w, shift).v1Matches != [] || TrackAt(d, w, shift).frame450Support
  {
    var crc := DirectCrc(d.samples, w, shift);
    MatchesIffPrimary(EntriesForTrack(d.responses, w.position), crc.v1, crc);
  }

  // A discarded shift has no v1 match and no frame-450 support on any track, so whatever
  // full match it has is a v2 match alone; shift 0 is never discarded.
  lemma DiscardedShiftsHaveNoEvidence(d: Disc, shift: int)
    requires d.Valid() && !Searched(d, shift)
    ensures shift != 0
    ensures forall w <- d.windows ::
              var t := TrackAt(d, w, shift);
              t.v1Matches == [] && !t.frame450Support && (t.status == Verified ==> t.v2Matches != [])
  {
    forall w | w in d.windows
      ensures TrackAt(d, w, shift).v1Matches == [] && !TrackAt(d, w, shift).frame450Support
    {
      EvidenceMeans(d, w, shift);
    }
  }

  lemma KeptShiftsRankAboveZero(d: Disc, shift: int)
    requires d.Valid() && Searched(d, shift) && shift != 0
    ensures ZERO_RANK.Below(RankAt(d, shift))
  {
    var w :| w in d.windows && Evidence(d, w, shift);
    EvidenceMeans(d, w, shift);
    assert TrackAt(d, w, shift).v1Matches != [] ==> FullMatch(d, w, shift);
    RankCounts(d, shift);
  }

  // ---------------------------------------------------------------- the verdict

  // Nothing is chosen and nothing ties exactly when no shift in range has v1 or frame-450
  // evidence on any track and shift 0 has no v2 match either.
  lemma MismatchWithoutChoiceExactly(file: DbarFile, tracks: seq<DiscTrack>, maxShift: int)
    requires file.Valid() && tracks != [] && file.responses != []
    ensures var d, m := DiscOf(file, tracks), Clamped(maxShift);
            var summary := NaiveVerify(file, tracks, maxShift);
            summary.status == DiscMismatched && summary.chosenShift == None
            <==> && (forall s, w :: -m <= s <= m && w in d.windows ==> !Evidence(d, w, s))
                 && (forall w <- d.windows :: TrackAt(d, w, 0).v2Matches == [])
  {
    hide TrackAt, TracksAt, Evidence, BestRank, Winners, CandidateAt, CandidateOf, Confidences;
    var d, m := DiscOf(file, tracks), Clamped(maxShift);
    var shifts := Shifts(d, m);
    FrontierExact(d, -m, m + 1);
    FrontierHoldsZero(d, m);
    BestRankIsGreatest(d, shifts);
    ZeroRankMeansNothing(d);
    if BestRank(d, shifts) == ZERO_RANK {
      forall s, w | -m <= s <= m && w in d.windows
        ensures !Evidence(d, w, s)
      {
        if Evidence(d, w, s) {
          assert s in shifts;
          if s != 0 {
            KeptShiftsRankAboveZero(d, s);
          } else {
            EvidenceMeans(d, w, 0);
          }
        }
      }
    } else {
      var s :| s in shifts && RankAt(d, s) == BestRank(d, shifts);
      if forall s, w :: -m <= s <= m && w in d.windows ==> !Evidence(d, w, s) {
        assert s == 0;
        forall w | w in d.windows
          ensures TrackAt(d, w, 0).v1Matches == [] && !TrackAt(d, w, 0).frame450Support
        {
          EvidenceMeans(d, w, 0);
        }
      }
    }
  }

  lemma ZeroRankMeansNothing(d: Disc)
    requires d.Valid()
    ensures RankAt(d, 0) == ZERO_RANK <==>
            forall w <- d.windows :: var t := TrackAt(d, w, 0);
                                     t.v1Matches == [] && t.v2Matches == [] && !t.frame450Support
    ensures !RankAt(d, 0).Below(ZERO_RANK)
  {
    hide EntriesForTrack, Matches, DirectCrc, DirectFrame450, Supports, CandidateAt;
    RankCounts(d, 0);
    forall w | w in d.windows
      ensures FullMatch(d, w, 0) <==> TrackAt(d, w, 0).v1Matches != [] || TrackAt(d, w, 0).v2Matches != []
    {
    }
  }

  // Some shift is chosen exactly when it alone attains the maximum rank and has any
  // evidence at all; the tracks reported are then those of that shift.
  lemma ChosenExactly(file: DbarFile, tracks: seq<DiscTrack>, maxShift: int, s: int)
    requires file.Valid() && tracks != [] && file.responses != []
    ensures var d, m := DiscOf(file, tracks), Clamped(maxShift);
            var summary := NaiveVerify(file, tracks, maxShift);
            && (summary.chosenShift == Some(s) <==> StrictlyBest(d, m, s) && RankAt(d, s) != ZERO_RANK)
            && (summary.chosenShift == Some(s) ==>
                  summary.tracks == TracksAt(d, s) && summary.ambiguousOffsets == [])
  {
    hide TracksAt, BestRank, Winners, CandidateAt;
    var d, m := DiscOf(file, tracks), Clamped(maxShift);
    UniqueWinnerIsStrictlyBest(d, m, s);
    WinnersAreUnbeaten(d, m);
  }

  // A shift other than 0 is chosen only on v1 or frame-450 evidence at that shift: a match by
  // v2 alone never moves the result off shift 0.
  lemma ChosenShiftHasEvidence(file: DbarFile, tracks: seq<DiscTrack>, maxShift: int, s: int)
    requires file.Valid() && tracks != [] && file.responses != []
    requires NaiveVerify(file, tracks, maxShift).chosenShift == Some(s) && s != 0
    ensures exists w <- DiscOf(file, tracks).windows :: Evidence(DiscOf(file, tracks), w, s)
  {
    hide TracksAt, BestRank, Winners, CandidateAt, Evidence;
    ChosenExactly(file, tracks, maxShift, s);
  }

  // Verified exactly when one shift alone attains the maximum rank and has a full match
  // on some track.
  lemma VerifiedExactly(file: DbarFile, tracks: seq<DiscTrack>, maxShift: int)
    requires file.Valid() && tracks != [] && file.responses != []
    ensures var d, m := DiscOf(file, tracks), Clamped(maxShift);
            NaiveVerify(file, tracks, maxShift).status == DiscVerified
            <==> exists s :: StrictlyBest(d, m, s) && exists w <- d.windows :: FullMatch(d, w, s)
  {
    hide TracksAt, BestRank, Winners, CandidateAt;
    var d, m := DiscOf(file, tracks), Clamped(maxShift);
    var summary := NaiveVerify(file, tracks, maxShift);
    var winners := Winners(d, Shifts(d, m), BestRank(d, Shifts(d, m)));
    WinnersAreUnbeaten(d, m);
    if summary.status == DiscVerified {
      var s := winners[0];
      assert winners == [s] && s in winners;
      UniqueWinnerIsStrictlyBest(d, m, s);
      RankCounts(d, s);
    }
    if s :| StrictlyBest(d, m, s) && exists w <- d.windows :: FullMatch(d, w, s) {
      UniqueWinnerIsStrictlyBest(d, m, s);
      RankCounts(d, s);
      assert s in winners;
    }
  }

  // Ambiguous exactly when two shifts share the maximum rank and it is not the zero rank.
  lemma AmbiguousExactly(file: DbarFile, tracks: seq<DiscTrack>, maxShift: int)
    requires file.Valid() && tracks != [] && file.responses != []
    ensures var d, m := DiscOf(file, tracks), Clamped(maxShift);
            NaiveVerify(file, tracks, maxShift).status == AmbiguousOffsets
            <==> exists s, t :: s < t && Unbeaten(d, m, s) && Unbeaten(d, m, t) && RankAt(d, s) != ZERO_RANK
  {
    hide TracksAt, BestRank, Winners, CandidateAt;
    var d, m := DiscOf(file, tracks), Clamped(maxShift);
    var winners := Winners(d, Shifts(d, m), BestRank(d, Shifts(d, m)));
    WinnersAreUnbeaten(d, m);
    if |winners| >= 2 {
      assert winners[0] in winners && winners[1] in winners && winners[0] < winners[1];
    }
  }

  // The ambiguous list holds exactly the shifts that tie at the maximum rank, each with its
  // own tallies: at least two, ascending.
  lemma AmbiguousListsEveryTie(file: DbarFile, tracks: seq<DiscTrack>, maxShift: int)
    requires file.Valid() && NaiveVerify(file, tracks, maxShift).status == AmbiguousOffsets
    ensures var d, m := DiscOf(file, tracks), Clamped(maxShift);
            var listed := NaiveVerify(file, tracks, maxShift).ambiguousOffsets;
            && NaiveVerify(file, tracks, maxShift).chosenShift == None
            && |listed| >= 2
            && (forall i, j :: 0 <= i < j < |listed| ==> listed[i].sampleShift < listed[j].sampleShift)
            && (forall c :: c in listed <==> Unbeaten(d, m, c.sampleShift) && c == CandidateAt(d, c.sampleShift))
  {
    hide TracksAt, BestRank, Winners, CandidateAt, Unbeaten;
    var d, m := DiscOf(file, tracks), Clamped(maxShift);
    var winners := Winners(d, Shifts(d, m), BestRank(d, Shifts(d, m)));
    WinnersAreUnbeaten(d, m);
    CandidatesListed(d, winners);
    assert NaiveVerify(file, tracks, maxShift).ambiguousOffsets == CandidatesAt(d, winners);
  }

  lemma CandidatesListed(d: Disc, shifts: seq<int>)
    requires d.Valid()
    ensures forall i :: 0 <= i < |shifts| ==> CandidatesAt(d, shifts)[i].sampleShift == shifts[i]
    ensures forall c :: c in CandidatesAt(d, shifts) <==> c.sampleShift in shifts && c == CandidateAt(d, c.sampleShift)
  {
    hide CandidateAt;
    var listed := CandidatesAt(d, shifts);
    forall i | 0 <= i < |shifts|
      ensures listed[i] == CandidateAt(d, shifts[i]) && listed[i].sampleShift == shifts[i]
    {
      CandidateKeepsShift(d, shifts[i]);
    }
    forall c
      ensures c in listed <==> c.sampleShift in shifts && c == CandidateAt(d, c.sampleShift)
    {
      if c.sampleShift in shifts && c == CandidateAt(d, c.sampleShift) {
        var i :| 0 <= i < |shifts| && shifts[i] == c.sampleShift;
        assert listed[i] == c;
      }
    }
  }

  lemma {:induction false} ConfidencesCountMatches(tracks: seq<TrackVerification>)
    ensures |Confidences(tracks)| == |tracks| <==> forall t <- tracks :: t.v1Matches != [] || t.v2Matches != []
  {
    if tracks != [] {
      ConfidencesCountMatches(tracks[..|tracks| - 1]);
      assert tracks == tracks[..|tracks| - 1] + [tracks[|tracks| - 1]];
    }
  }

  // A shift matches every track.
  ghost predicate MatchesDisc(d: Disc, shift: int)
    requires d.Valid()
  {
    forall w <- d.windows :: FullMatch(d, w, shift)
  }

  lemma DiscMatchIsGreatest(d: Disc, shift: int)
    requires d.Valid()
    ensures RankAt(d, shift).full <= |d.windows|
    ensures RankAt(d, shift).full == |d.windows| <==> MatchesDisc(d, shift)
  {
    hide EntriesForTrack, Matches, DirectCrc, DirectFrame450, Supports;
    var tracks := TracksAt(d, shift);
    ConfidencesCountMatches(tracks);
    if MatchesDisc(d, shift) {
      forall t | t in tracks
        ensures t.v1Matches != [] || t.v2Matches != []
      {
        var i :| 0 <= i < |tracks| && tracks[i] == t;
        assert d.windows[i] in d.windows && FullMatch(d, d.windows[i], shift);
      }
    }
    if forall t <- tracks :: t.v1Matches != [] || t.v2Matches != [] {
      forall w | w in d.windows
        ensures FullMatch(d, w, shift)
      {
        var i :| 0 <= i < |d.windows| && d.windows[i] == w;
        assert tracks[i] in tracks && tracks[i] == TrackAt(d, w, shift);
      }
    }
  }

  // If some shift in range matches every track, one of them by v1 or with frame-450 support,
  // the search does not miss it: it verifies the disc at a shift that matches every track, or
  // reports a tie among shifts that all do.
  lemma MatchingShiftIsNotMissed(file: DbarFile, tracks: seq<DiscTrack>, maxShift: int, s: int)
    requires file.Valid() && tracks != [] && file.responses != []
    requires -Clamped(maxShift) <= s <= Clamped(maxShift)
    requires Searched(DiscOf(file, tracks), s) && MatchesDisc(DiscOf(file, tracks), s)
    ensures var d := DiscOf(file, tracks);
            var summary := NaiveVerify(file, tracks, maxShift);
            || (summary.status == DiscVerified && summary.chosenShift.Some? && MatchesDisc(d, summary.chosenShift.value))
            || (summary.status == AmbiguousOffsets
                && forall c <- summary.ambiguousOffsets :: MatchesDisc(d, c.sampleShift))
  {
    hide TracksAt, BestRank, Winners, CandidateAt, MatchesDisc, Searched;
    var d, m := DiscOf(file, tracks), Clamped(maxShift);
    var summary := NaiveVerify(file, tracks, maxShift);
    var winners := Winners(d, Shifts(d, m), BestRank(d, Shifts(d, m)));
    WinnersAreUnbeaten(d, m);
    DiscMatchIsGreatest(d, s);
    assert InSearch(d, m, s);
    forall t | t in winners
      ensures MatchesDisc(d, t) && RankAt(d, t).full > 0
    {
      DiscMatchIsGreatest(d, t);
      assert !RankAt(d, t).Below(RankAt(d, s));
    }
    assert winners[0] in winners;
    CandidatesListed(d, winners);
  }

  // A verified track carries an entry of the file whose primary checksum is that window's
  // v1 or v2; frame-450 support plays no part.
  lemma VerifiedTrackHasEntry(d: Disc, w: TrackWindow, shift: int)
    requires d.Valid()
    ensures var crc := DirectCrc(d.samples, w, shift);
            FullMatch(d, w, shift)
            <==> exists e :: Offers(d.responses, w.position, e)
                             && (e.expected.checksum == crc.v1 || e.expected.checksum == crc.v2)
  {
    StatusMeansMatch(d.responses, w.position, DirectCrc(d.samples, w, shift));
  }

  // A frame-450 window that leaves the disc never counts as support.
  lemma OutOfRangeFrameNeverSupports(d: Disc, w: TrackWindow, shift: int)
    requires d.Valid()
    requires w.start + FRAME_450_START + shift < 0 || w.start + FRAME_450_END + shift > |d.samples|
    ensures !TrackAt(d, w, shift).frame450Support
  {
    assert Shifted(d.samples, w.start + FRAME_450_START, SAMPLES_PER_FRAME, shift) == None;
  }
}
