/**
  Where every merged value comes from, what the tracks look like, and when the MBID rule
  leaves anyone to contribute. `Merge` returns `MergeOf`, so each statement holds of it.
 */
module ConsensusTheorems {
  import opened Words
  import opened Results
  import opened Tocs
  import opened Metadata
  import opened Voting
  import opened Consensus

  // Different field values are logged differently, so the log's rows tell values apart.
  lemma FieldValuesAreInjective()
    ensures Injective(ToText) && Injective(YearValue) && Injective(FramesValue)
    ensures forall t: string :: ToText(t) == Text(t)
    ensures forall n: u16 :: YearValue(n) == Number(n)
    ensures forall n: u64 :: FramesValue(n) == Number(n)
  {
  }

  // ---------------------------------------------------------------- provenance

  // A contributor of the merge: neither of its MBIDs contradicts a winner.
  ghost predicate Contributes(results: seq<ProviderResult>, r: ProviderResult) {
    r in results && MayContribute(r, MergeOf(results).album.mbid, MergeOf(results).release.mbid)
  }

  // A present value is one some contributor reported for that field.
  ghost predicate Supplied<T(!new)>(results: seq<ProviderResult>, f: ProviderResult -> Option<T>, value: Option<T>) {
    value.Some? ==> exists r <- results :: Contributes(results, r) && f(r) == value
  }

  ghost predicate TrackSupplied<T(!new)>(results: seq<ProviderResult>, position: u8, f: Listing -> Option<T>, value: Option<T>) {
    value.Some? ==>
      exists r, t :: Contributes(results, r) && t in r.tracks && t.position == position
                     && f(Listing(r.provider, t)) == value
  }

  lemma PluralityIsVoted<T(!new)>(votes: seq<Vote<T>>)
    requires Plurality(votes).Some?
    ensures exists i :: 0 <= i < |votes| && votes[i].value == Plurality(votes)
  {
    PluralityWins(votes, Plurality(votes).value);
  }

  lemma CohortContributes(results: seq<ProviderResult>)
    ensures forall r :: r in Cohort(results) <==> Contributes(results, r)
  {
    hide Plurality;
  }

  lemma WinnerIsSupplied<T(!new)>(results: seq<ProviderResult>, f: ProviderResult -> Option<T>)
    ensures Supplied(results, f, Winner(Cohort(results), f))
  {
    hide Plurality;
    var cohort := Cohort(results);
    if Winner(cohort, f).Some? {
      PluralityIsVoted(Ballot(cohort, f));
      var i :| 0 <= i < |cohort| && Ballot(cohort, f)[i].value == Winner(cohort, f);
      CohortContributes(results);
      assert cohort[i] in cohort;
    }
  }

  // Every present album or release value other than the MBIDs was reported by a provider
  // whose own MBIDs are each absent or equal to the winners.
  lemma FieldsComeFromContributors(results: seq<ProviderResult>)
    ensures var album := MergeOf(results).album;
            && Supplied(results, AlbumTitle, album.title)
            && Supplied(results, AlbumArtist, album.artistCredit)
            && Supplied(results, AlbumYear, album.year)
    ensures var release := MergeOf(results).release;
            && Supplied(results, Country, release.country)
            && Supplied(results, Date, release.date)
            && Supplied(results, LabelName, release.labelName)
            && Supplied(results, CatalogNumber, release.catalogNumber)
            && Supplied(results, Barcode, release.barcode)
            && Supplied(results, Language, release.language)
            && Supplied(results, Script, release.script)
  {
    hide Supplied, Winner, Contributes;
    WinnerIsSupplied(results, AlbumArtist);
    WinnerIsSupplied(results, AlbumYear);
    WinnerIsSupplied(results, Country);
    WinnerIsSupplied(results, Date);
    WinnerIsSupplied(results, LabelName);
    WinnerIsSupplied(results, CatalogNumber);
    WinnerIsSupplied(results, Barcode);
    WinnerIsSupplied(results, Language);
    WinnerIsSupplied(results, Script);
    TitleIsSupplied(results);
  }

  lemma TitleIsSupplied(results: seq<ProviderResult>)
    ensures Supplied(results, AlbumTitle, DropEmpty(Winner(Cohort(results), AlbumTitle)))
  {
    hide Winner, Contributes;
    WinnerIsSupplied(results, AlbumTitle);
  }

  lemma {:induction false} ListingsComeFrom(cohort: seq<ProviderResult>, l: Listing)
    ensures l in Listings(cohort) <==> exists r <- cohort :: r.provider == l.provider && l.track in r.tracks
  {
    if cohort != [] {
      var front, last := cohort[..|cohort| - 1], cohort[|cohort| - 1];
      assert cohort == front + [last];
      ListingsComeFrom(front, l);
      assert l in ListingsOf(last) <==> last.provider == l.provider && l.track in last.tracks by {
        if last.provider == l.provider && l.track in last.tracks {
          var i :| 0 <= i < |last.tracks| && last.tracks[i] == l.track;
          assert ListingsOf(last)[i] == l;
        }
      }
    }
  }

  lemma TrackFieldIsSupplied<T(!new)>(results: seq<ProviderResult>, position: u8, f: Listing -> Option<T>)
    ensures TrackSupplied(results, position, f,
                          Plurality(TrackBallot(At(Listings(Cohort(results)), position), f)))
  {
    hide Plurality;
    var listings := At(Listings(Cohort(results)), position);
    var votes := TrackBallot(listings, f);
    if Plurality(votes).Some? {
      PluralityIsVoted(votes);
      var i :| 0 <= i < |votes| && votes[i].value == Plurality(votes);
      var l := listings[i];
      assert l in listings;
      ListingsComeFrom(Cohort(results), l);
      var r :| r in Cohort(results) && r.provider == l.provider && l.track in r.tracks;
      CohortContributes(results);
      assert Listing(r.provider, l.track) == l;
    }
  }

  // Every present field of every merged track was reported for that position by a contributor.
  lemma TracksComeFromContributors(results: seq<ProviderResult>, t: TrackMeta)
    requires t in MergeOf(results).tracks
    ensures TrackSupplied(results, t.position, TrackTitle, t.title)
         && TrackSupplied(results, t.position, TrackArtist, t.artistCredit)
         && TrackSupplied(results, t.position, TrackLength, t.lengthFrames)
         && TrackSupplied(results, t.position, TrackIsrc, t.isrc)
         && TrackSupplied(results, t.position, TrackMbid, t.mbid)
  {
    hide TrackSupplied, Plurality, Ascending, AlbumOf, ReleaseOf, Cohort, Listings, At;
    TrackFieldIsSupplied(results, t.position, TrackTitle);
    TrackFieldIsSupplied(results, t.position, TrackArtist);
    TrackFieldIsSupplied(results, t.position, TrackLength);
    TrackFieldIsSupplied(results, t.position, TrackIsrc);
    TrackFieldIsSupplied(results, t.position, TrackMbid);
  }

  // Merged tracks ascend strictly by position.
  lemma TracksAscend(results: seq<ProviderResult>)
    ensures var tracks := MergeOf(results).tracks;
            forall i, j :: 0 <= i < j < |tracks| ==> tracks[i].position < tracks[j].position
  {
    hide Plurality, AlbumOf, ReleaseOf, Ascending, Listings, Cohort;
    AscendingIsSorted(PositionsOf(Listings(Cohort(results))));
  }

  // There is a merged track for exactly the positions some contributor lists.
  lemma TrackForEveryPosition(results: seq<ProviderResult>, p: u8)
    ensures (exists t <- MergeOf(results).tracks :: t.position == p)
       <==> exists r, t :: Contributes(results, r) && t in r.tracks && t.position == p
  {
    PositionsOfContributors(results, p);
    hide Plurality, AlbumOf, ReleaseOf, Ascending, Listings, Cohort, Contributes, At;
    var all := Listings(Cohort(results));
    var positions := Ascending(PositionsOf(all));
    var tracks := TracksOf(all, positions);
    AscendingIsSorted(PositionsOf(all));
    if p in PositionsOf(all) {
      var i :| 0 <= i < |positions| && positions[i] == p;
      assert tracks[i] in tracks && tracks[i].position == p;
    }
    if t :| t in tracks && t.position == p {
      var i :| 0 <= i < |tracks| && tracks[i] == t;
      assert positions[i] in positions;
    }
  }

  lemma PositionsOfContributors(results: seq<ProviderResult>, p: u8)
    ensures p in PositionsOf(Listings(Cohort(results)))
       <==> exists r, t :: Contributes(results, r) && t in r.tracks && t.position == p
  {
    hide Contributes, Cohort;
    var cohort := Cohort(results);
    CohortContributes(results);
    if p in PositionsOf(Listings(cohort)) {
      var l :| l in Listings(cohort) && l.track.position == p;
      ListingsComeFrom(cohort, l);
      var r :| r in cohort && r.provider == l.provider && l.track in r.tracks;
      assert Contributes(results, r) && l.track in r.tracks;
    }
    if r, t :| Contributes(results, r) && t in r.tracks && t.position == p {
      ListingsComeFrom(cohort, Listing(r.provider, t));
      assert Listing(r.provider, t) in Listings(cohort);
    }
  }

  // ---------------------------------------------------------------- votes and log

  // A present merged value is the one that wins the vote of these voters.
  ghost predicate VotedBy<T(!new)>(voters: seq<ProviderResult>, f: ProviderResult -> Option<T>, merged: Option<T>) {
    forall v :: merged == Some(v) <==> Wins(Ballot(voters, f), v)
  }

  lemma WinnerIsVotedBy<T(!new)>(voters: seq<ProviderResult>, f: ProviderResult -> Option<T>)
    ensures VotedBy(voters, f, Winner(voters, f))
  {
    forall v
      ensures Winner(voters, f) == Some(v) <==> Wins(Ballot(voters, f), v)
    {
      PluralityWins(Ballot(voters, f), v);
    }
  }

  // The MBIDs are voted by all providers, every other field by the contributors; a winning empty
  // title is dropped.
  lemma FieldsWinTheirVotes(results: seq<ProviderResult>)
    ensures var album, cohort := MergeOf(results).album, Cohort(results);
            && VotedBy(results, AlbumMbid, album.mbid)
            && (album.title == Some("") ==> false)
            && (forall v :: v != "" ==> (album.title == Some(v) <==> Wins(Ballot(cohort, AlbumTitle), v)))
            && VotedBy(cohort, AlbumArtist, album.artistCredit)
            && VotedBy(cohort, AlbumYear, album.year)
    ensures var release, cohort := MergeOf(results).release, Cohort(results);
            && VotedBy(results, ReleaseMbid, release.mbid)
            && VotedBy(cohort, Country, release.country)
            && VotedBy(cohort, Date, release.date)
            && VotedBy(cohort, LabelName, release.labelName)
            && VotedBy(cohort, CatalogNumber, release.catalogNumber)
            && VotedBy(cohort, Barcode, release.barcode)
            && VotedBy(cohort, Language, release.language)
            && VotedBy(cohort, Script, release.script)
  {
    var cohort := Cohort(results);
    WinnerIsVotedBy(cohort, AlbumTitle);
    hide VotedBy, Winner, Cohort;
    WinnerIsVotedBy(results, AlbumMbid);
    WinnerIsVotedBy(results, ReleaseMbid);
    WinnerIsVotedBy(cohort, AlbumArtist);
    WinnerIsVotedBy(cohort, AlbumYear);
    WinnerIsVotedBy(cohort, Country);
    WinnerIsVotedBy(cohort, Date);
    WinnerIsVotedBy(cohort, LabelName);
    WinnerIsVotedBy(cohort, CatalogNumber);
    WinnerIsVotedBy(cohort, Barcode);
    WinnerIsVotedBy(cohort, Language);
    WinnerIsVotedBy(cohort, Script);
    TitleVote(cohort);
    MergedFields(results);
    hide MergeOf;
  }

  lemma TitleVote(cohort: seq<ProviderResult>)
    ensures var title := DropEmpty(Winner(cohort, AlbumTitle));
            title != Some("") && forall v :: v != "" ==> (title == Some(v) <==> Wins(Ballot(cohort, AlbumTitle), v))
  {
    WinnerIsVotedBy(cohort, AlbumTitle);
    hide Winner;
  }

  ghost predicate TrackVotedBy<T(!new)>(listings: seq<Listing>, f: Listing -> Option<T>, merged: Option<T>) {
    forall v :: merged == Some(v) <==> Wins(TrackBallot(listings, f), v)
  }

  // A merged track's fields win the votes of the contributors' listings of its position.
  lemma TrackFieldsWinTheirVotes(results: seq<ProviderResult>, m: TrackMeta)
    requires m in MergeOf(results).tracks
    ensures var listings := At(Listings(Cohort(results)), m.position);
            && TrackVotedBy(listings, TrackTitle, m.title)
            && TrackVotedBy(listings, TrackArtist, m.artistCredit)
            && TrackVotedBy(listings, TrackLength, m.lengthFrames)
            && TrackVotedBy(listings, TrackIsrc, m.isrc)
            && TrackVotedBy(listings, TrackMbid, m.mbid)
  {
    hide Plurality, Ascending, AlbumOf, ReleaseOf, Cohort, Listings, At, TrackVotedBy;
    var listings := At(Listings(Cohort(results)), m.position);
    TrackVote(listings, TrackTitle);
    TrackVote(listings, TrackArtist);
    TrackVote(listings, TrackLength);
    TrackVote(listings, TrackIsrc);
    TrackVote(listings, TrackMbid);
  }

  lemma TrackVote<T(!new)>(listings: seq<Listing>, f: Listing -> Option<T>)
    ensures TrackVotedBy(listings, f, Plurality(TrackBallot(listings, f)))
  {
    forall v
      ensures Plurality(TrackBallot(listings, f)) == Some(v) <==> Wins(TrackBallot(listings, f), v)
    {
      PluralityWins(TrackBallot(listings, f), v);
    }
  }

  // The log, vote by vote and in this order, each under its own name.
  lemma LogIsWrittenOut(results: seq<ProviderResult>)
    ensures var cohort := Cohort(results);
            var all := Listings(cohort);
            MergeOf(results).disagreements
            == Disagreements("album.mbid", AlbumEntity, Ballot(results, AlbumMbid), ToText)
               + Disagreements("release.mbid", ReleaseEntity, Ballot(results, ReleaseMbid), ToText)
               + (Disagreements("album.title", AlbumEntity, Ballot(cohort, AlbumTitle), ToText)
                  + Disagreements("album.artist_credit", AlbumEntity, Ballot(cohort, AlbumArtist), ToText)
                  + Disagreements("album.year", AlbumEntity, Ballot(cohort, AlbumYear), YearValue))
               + (Disagreements("release.country", ReleaseEntity, Ballot(cohort, Country), ToText)
                  + Disagreements("release.date", ReleaseEntity, Ballot(cohort, Date), ToText)
                  + Disagreements("release.label", ReleaseEntity, Ballot(cohort, LabelName), ToText)
                  + Disagreements("release.catalog_number", ReleaseEntity, Ballot(cohort, CatalogNumber), ToText)
                  + Disagreements("release.barcode", ReleaseEntity, Ballot(cohort, Barcode), ToText)
                  + Disagreements("release.language", ReleaseEntity, Ballot(cohort, Language), ToText)
                  + Disagreements("release.script", ReleaseEntity, Ballot(cohort, Script), ToText))
               + TracksLosers(all, Ascending(PositionsOf(all)))
  {
    hide Disagreements, Ballot, Winner, Listings, Ascending, PositionsOf, TracksLosers, TracksOf;
  }

  // Of the tracks: nothing for no position, and for one more position its five votes.
  lemma TrackLogIsWrittenOut(all: seq<Listing>, positions: seq<u8>, p: u8)
    ensures TracksLosers(all, []) == []
    ensures var (listings, entity) := (At(all, p), TrackEntity(p));
            TracksLosers(all, positions + [p])
            == TracksLosers(all, positions)
               + (Disagreements("track.title", entity, TrackBallot(listings, TrackTitle), ToText)
                  + Disagreements("track.artist_credit", entity, TrackBallot(listings, TrackArtist), ToText)
                  + Disagreements("track.length_frames", entity, TrackBallot(listings, TrackLength), FramesValue)
                  + Disagreements("track.isrc", entity, TrackBallot(listings, TrackIsrc), ToText)
                  + Disagreements("track.mbid", entity, TrackBallot(listings, TrackMbid), ToText))
  {
    hide Disagreements, TrackBallot, At;
    assert (positions + [p])[..|positions|] == positions;
  }

  // The contributors, and the listings of a position, keep the providers' order.
  lemma {:induction false} ContributorsKeepOrder(results: seq<ProviderResult>, album: Option<string>, release: Option<string>, i: nat)
    requires i < |results|
    requires !(album.Some? && AlbumMbid(results[i]).Some? && album != AlbumMbid(results[i]))
    requires !(release.Some? && ReleaseMbid(results[i]).Some? && release != ReleaseMbid(results[i]))
    ensures var n := |Contributors(results[..i], album, release)|;
            n < |Contributors(results, album, release)| && Contributors(results, album, release)[n] == results[i]
  {
    hide AlbumMbid, ReleaseMbid;
    var front := results[..|results| - 1];
    if i < |front| {
      ContributorsKeepOrder(front, album, release, i);
      assert front[..i] == results[..i];
    } else {
      assert front == results[..i];
    }
  }

  lemma {:induction false} ListingsKeepOrder(all: seq<Listing>, i: nat)
    requires i < |all|
    ensures var n := |At(all[..i], all[i].track.position)|;
            n < |At(all, all[i].track.position)| && At(all, all[i].track.position)[n] == all[i]
  {
    var front := all[..|all| - 1];
    if i < |front| {
      ListingsKeepOrder(front, i);
      assert front[..i] == all[..i];
    } else {
      assert front == all[..i];
    }
  }

  lemma {:induction false} ListingsFollowProviders(cohort: seq<ProviderResult>, i: nat, k: nat)
    requires i < |cohort| && k < |cohort[i].tracks|
    ensures var n := |Listings(cohort[..i])| + k;
            n < |Listings(cohort)| && Listings(cohort)[n] == Listing(cohort[i].provider, cohort[i].tracks[k])
  {
    var front := cohort[..|cohort| - 1];
    if i < |front| {
      ListingsFollowProviders(front, i, k);
      assert front[..i] == cohort[..i];
    } else {
      assert front == cohort[..i];
    }
  }

  // ---------------------------------------------------------------- the MBID rule

  // Two contributors never carry different album MBIDs, nor different release MBIDs.
  lemma ContributorsNeverMix(results: seq<ProviderResult>, a: ProviderResult, b: ProviderResult)
    requires Contributes(results, a) && Contributes(results, b)
    ensures AlbumMbid(a).Some? && AlbumMbid(b).Some? ==> AlbumMbid(a) == AlbumMbid(b)
    ensures ReleaseMbid(a).Some? && ReleaseMbid(b).Some? ==> ReleaseMbid(a) == ReleaseMbid(b)
  {
    hide Plurality;
    if AlbumMbid(a).Some? {
      MbidWinnerExists(results, a, AlbumMbid);
    }
    if ReleaseMbid(a).Some? {
      MbidWinnerExists(results, a, ReleaseMbid);
    }
  }

  lemma MbidWinnerExists(results: seq<ProviderResult>, r: ProviderResult, f: ProviderResult -> Option<string>)
    requires r in results && f(r).Some?
    ensures Winner(results, f).Some?
  {
    var votes := Ballot(results, f);
    PluralityWins(votes, f(r).value);
    var i :| 0 <= i < |results| && results[i] == r;
    assert votes[i].value == f(r);
  }

  // Votes counted one by one.
  lemma CountOfFew<T>(votes: seq<Vote<T>>, v: T)
    requires |votes| <= 3
    ensures Count(votes, v)
         == (if |votes| > 0 && votes[0].value == Some(v) then 1 else 0)
            + (if |votes| > 1 && votes[1].value == Some(v) then 1 else 0)
            + (if |votes| > 2 && votes[2].value == Some(v) then 1 else 0)
  {
    if votes != [] {
      var front := votes[..|votes| - 1];
      if front != [] {
        var fronter := front[..|front| - 1];
        assert |fronter| > 0 ==> fronter[..|fronter| - 1] == [];
        assert Count(front, v) == Count(fronter, v) + if front[|front| - 1].value == Some(v) then 1 else 0;
      }
    }
  }

  lemma FirstOfTwoWins<T(!new)>(votes: seq<Vote<T>>)
    requires 1 <= |votes| <= 2 && votes[0].value.Some?
    ensures Plurality(votes) == votes[0].value
  {
    CountOfFew(votes, votes[0].value.value);
    assert Leader(votes, 0) == None;
    assert Leader(votes, 1) == votes[0].value;
    if |votes| == 2 && votes[1].value.Some? {
      CountOfFew(votes, votes[1].value.value);
    }
  }

  // With one or two providers the first always contributes.
  lemma FirstOfTwoContributes(results: seq<ProviderResult>)
    requires 1 <= |results| <= 2
    ensures Contributes(results, results[0])
  {
    hide Plurality;
    if AlbumMbid(results[0]).Some? {
      FirstOfTwoWins(Ballot(results, AlbumMbid));
    }
    if ReleaseMbid(results[0]).Some? {
      FirstOfTwoWins(Ballot(results, ReleaseMbid));
    }
  }

  lemma SecondOfThreeWins<T(!new)>(votes: seq<Vote<T>>, a: T, b: T)
    requires |votes| == 3 && a != b
    requires votes[0].value == Some(a) && votes[1].value == votes[2].value == Some(b)
    ensures Plurality(votes) == Some(b)
  {
    CountOfFew(votes, a);
    CountOfFew(votes, b);
    assert Leader(votes, 0) == None;
    assert Leader(votes, 1) == Some(a);
    assert Leader(votes, 2) == Some(b);
  }

  lemma FirstOfThreeWins<T(!new)>(votes: seq<Vote<T>>, a: T, b: T, c: T)
    requires |votes| == 3 && a != b && b != c && a != c
    requires votes[0].value == Some(a) && votes[1].value == Some(b) && votes[2].value == Some(c)
    ensures Plurality(votes) == Some(a)
  {
    CountOfFew(votes, a);
    CountOfFew(votes, b);
    CountOfFew(votes, c);
    assert Leader(votes, 0) == None;
    assert Leader(votes, 1) == Some(a);
    assert Leader(votes, 2) == Some(a);
  }

  // Three providers can exclude each other: the album vote goes to the last two, the
  // release tie to the first. Nobody contributes, and the merge pairs an album MBID and a
  // release MBID that no provider reported together.
  lemma ThreeCanExcludeEachOther(results: seq<ProviderResult>, a: string, b: string,
                                 r1: string, r2: string, r3: string)
    requires |results| == 3 && a != b && r1 != r2 && r2 != r3 && r1 != r3
    requires AlbumMbid(results[0]) == Some(a)
    requires AlbumMbid(results[1]) == AlbumMbid(results[2]) == Some(b)
    requires ReleaseMbid(results[0]) == Some(r1)
    requires ReleaseMbid(results[1]) == Some(r2)
    requires ReleaseMbid(results[2]) == Some(r3)
    ensures MergeOf(results).sources == []
    ensures MergeOf(results).album.mbid == Some(b) && MergeOf(results).release.mbid == Some(r1)
    ensures forall r <- results :: !(AlbumMbid(r) == Some(b) && ReleaseMbid(r) == Some(r1))
  {
    hide Plurality, MbidLosers, AlbumLosers, ReleaseLosers, TracksLosers, TracksOf, Ascending;
    SecondOfThreeWins(Ballot(results, AlbumMbid), a, b);
    FirstOfThreeWins(Ballot(results, ReleaseMbid), r1, r2, r3);
    NobodyAgrees(results, Some(b), Some(r1));
  }

  lemma {:induction false} NobodyAgrees(results: seq<ProviderResult>, albumMbid: Option<string>, releaseMbid: Option<string>)
    requires forall r <- results :: !MayContribute(r, albumMbid, releaseMbid)
    ensures Contributors(results, albumMbid, releaseMbid) == []
  {
    if results != [] {
      var last := results[|results| - 1];
      assert results == results[..|results| - 1] + [last];
      NobodyAgrees(results[..|results| - 1], albumMbid, releaseMbid);
      assert last in results;
    }
  }

  // Nobody contributes exactly when every provider contradicts one of the winning MBIDs, and
  // that takes two providers that differ in both their MBIDs.
  lemma NobodyContributesExactly(results: seq<ProviderResult>)
    requires results != []
    ensures MergeOf(results).sources == []
       <==> forall r <- results :: !MayContribute(r, Winner(results, AlbumMbid), Winner(results, ReleaseMbid))
    ensures MergeOf(results).sources == [] ==> exists a, b :: a in results && b in results && DifferInBoth(a, b)
  {
    hide Winner, MbidLosers, AlbumLosers, ReleaseLosers, TracksLosers, TracksOf, Ascending, AlbumOf, ReleaseOf;
    var albumMbid, releaseMbid := Winner(results, AlbumMbid), Winner(results, ReleaseMbid);
    var cohort := Cohort(results);
    assert |MergeOf(results).sources| == |cohort|;
    if r :| r in results && MayContribute(r, albumMbid, releaseMbid) {
      assert r in cohort;
    } else {
      NobodyAgrees(results, albumMbid, releaseMbid);
      ExclusionNeedsTwo(results);
    }
  }

  ghost predicate DifferInBoth(a: ProviderResult, b: ProviderResult) {
    && AlbumMbid(a).Some? && AlbumMbid(b).Some? && AlbumMbid(a) != AlbumMbid(b)
    && ReleaseMbid(a).Some? && ReleaseMbid(b).Some? && ReleaseMbid(a) != ReleaseMbid(b)
  }

  lemma WinnerHasVoter(results: seq<ProviderResult>, f: ProviderResult -> Option<string>) returns (r: ProviderResult)
    requires results != []
    ensures r in results && (Winner(results, f).Some? ==> f(r) == Winner(results, f))
  {
    r := results[0];
    if Winner(results, f).Some? {
      PluralityIsVoted(Ballot(results, f));
      var i :| 0 <= i < |results| && Ballot(results, f)[i].value == Winner(results, f);
      r := results[i];
    }
  }

  // The voters of the two winners contradict each other in both MBIDs.
  lemma ExclusionNeedsTwo(results: seq<ProviderResult>)
    requires results != []
    requires forall r <- results :: !MayContribute(r, Winner(results, AlbumMbid), Winner(results, ReleaseMbid))
    ensures exists a, b :: a in results && b in results && DifferInBoth(a, b)
  {
    hide Winner;
    var a := WinnerHasVoter(results, AlbumMbid);
    var b := WinnerHasVoter(results, ReleaseMbid);
    assert !MayContribute(a, Winner(results, AlbumMbid), Winner(results, ReleaseMbid));
    assert !MayContribute(b, Winner(results, AlbumMbid), Winner(results, ReleaseMbid));
    assert DifferInBoth(a, b);
  }

  // The provider's own value wins the vote of these voters.
  ghost predicate Won<T(!new)>(voters: seq<ProviderResult>, r: ProviderResult, f: ProviderResult -> Option<T>) {
    f(r).Some? && Wins(Ballot(voters, f), f(r).value)
  }

  lemma WonIsWinner<T(!new)>(voters: seq<ProviderResult>, r: ProviderResult, f: ProviderResult -> Option<T>)
    ensures Won(voters, r, f) <==> f(r).Some? && Winner(voters, f) == f(r)
  {
    if f(r).Some? {
      PluralityWins(Ballot(voters, f), f(r).value);
    }
  }

  ghost predicate CarriesBoth(r: ProviderResult) { AlbumMbid(r).Some? && ReleaseMbid(r).Some? }

  ghost predicate Reports(results: seq<ProviderResult>, f: ProviderResult -> Option<string>) {
    exists r <- results :: f(r).Some?
  }

  // No two providers report different values of the field.
  ghost predicate Agreed(results: seq<ProviderResult>, f: ProviderResult -> Option<string>) {
    forall a, b :: a in results && b in results && f(a).Some? && f(b).Some? ==> f(a) == f(b)
  }

  ghost predicate ReportedTogether(results: seq<ProviderResult>, album: Option<string>, release: Option<string>) {
    exists r <- results :: AlbumMbid(r) == album && ReleaseMbid(r) == release
  }

  // When both kinds of MBID are reported both are merged, and some provider reported the two
  // together exactly when both MBIDs of one provider win their votes. While the providers agree on
  // each kind, carrying both is enough: a mismatch beside such a provider takes two that differ.
  lemma MergedMbidsBelongTogetherExactly(results: seq<ProviderResult>)
    requires Reports(results, AlbumMbid) && Reports(results, ReleaseMbid)
    ensures MergeOf(results).album.mbid.Some? && MergeOf(results).release.mbid.Some?
    ensures ReportedTogether(results, MergeOf(results).album.mbid, MergeOf(results).release.mbid)
       <==> exists r <- results :: Won(results, r, AlbumMbid) && Won(results, r, ReleaseMbid)
    ensures Agreed(results, AlbumMbid) && Agreed(results, ReleaseMbid) ==>
              (ReportedTogether(results, MergeOf(results).album.mbid, MergeOf(results).release.mbid)
               <==> exists r <- results :: CarriesBoth(r))
  {
    MergedMbids(results);
    hide MergeOf, Won, Winner;
    var a :| a in results && AlbumMbid(a).Some?;
    var b :| b in results && ReleaseMbid(b).Some?;
    MbidWinnerExists(results, a, AlbumMbid);
    MbidWinnerExists(results, b, ReleaseMbid);
    forall r | r in results
      ensures Won(results, r, AlbumMbid) <==> AlbumMbid(r) == Winner(results, AlbumMbid)
      ensures Won(results, r, ReleaseMbid) <==> ReleaseMbid(r) == Winner(results, ReleaseMbid)
    {
      WonIsWinner(results, r, AlbumMbid);
      WonIsWinner(results, r, ReleaseMbid);
    }
    var albumVoter := WinnerHasVoter(results, AlbumMbid);
    var releaseVoter := WinnerHasVoter(results, ReleaseMbid);
    assert Agreed(results, AlbumMbid) ==>
        forall r <- results :: AlbumMbid(r).Some? ==> AlbumMbid(r) == AlbumMbid(albumVoter);
    assert Agreed(results, ReleaseMbid) ==>
        forall r <- results :: ReleaseMbid(r).Some? ==> ReleaseMbid(r) == ReleaseMbid(releaseVoter);
  }

  lemma MergedMbids(results: seq<ProviderResult>)
    ensures MergeOf(results).album.mbid == Winner(results, AlbumMbid)
    ensures MergeOf(results).release.mbid == Winner(results, ReleaseMbid)
  {
    hide Winner;
  }

  // ---------------------------------------------------------------- the named sources

  // The merged value is the provider's own.
  predicate Given<T(==)>(merged: Option<T>, own: Option<T>) { own.Some? && merged == own }

  predicate GaveAlbumField(album: AlbumMeta, r: ProviderResult) {
    Given(album.title, AlbumTitle(r)) || Given(album.artistCredit, AlbumArtist(r))
    || Given(album.year, AlbumYear(r)) || Given(album.mbid, AlbumMbid(r))
  }

  predicate GaveReleaseField(release: ReleaseMeta, r: ProviderResult) {
    Given(release.country, Country(r)) || Given(release.date, Date(r)) || Given(release.labelName, LabelName(r))
    || Given(release.catalogNumber, CatalogNumber(r)) || Given(release.barcode, Barcode(r))
    || Given(release.mbid, ReleaseMbid(r)) || Given(release.language, Language(r)) || Given(release.script, Script(r))
  }

  predicate GaveTrackField(merged: TrackMeta, t: TrackMeta) {
    merged.position == t.position
    && (Given(merged.title, t.title) || Given(merged.artistCredit, t.artistCredit)
        || Given(merged.lengthFrames, t.lengthFrames) || Given(merged.isrc, t.isrc) || Given(merged.mbid, t.mbid))
  }

  // Some field of the merge that is present is the provider's own.
  ghost predicate Gave(merged: MergedDisc, r: ProviderResult) {
    GaveAlbumField(merged.album, r) || GaveReleaseField(merged.release, r)
    || exists m, t :: m in merged.tracks && t in r.tracks && GaveTrackField(m, t)
  }

  ghost predicate WonAlbumVote(results: seq<ProviderResult>, cohort: seq<ProviderResult>, r: ProviderResult) {
    (Won(cohort, r, AlbumTitle) && AlbumTitle(r) != Some("")) || Won(cohort, r, AlbumArtist)
    || Won(cohort, r, AlbumYear) || Won(results, r, AlbumMbid)
  }

  ghost predicate WonReleaseVote(results: seq<ProviderResult>, cohort: seq<ProviderResult>, r: ProviderResult) {
    Won(cohort, r, Country) || Won(cohort, r, Date) || Won(cohort, r, LabelName)
    || Won(cohort, r, CatalogNumber) || Won(cohort, r, Barcode)
    || Won(results, r, ReleaseMbid) || Won(cohort, r, Language) || Won(cohort, r, Script)
  }

  ghost predicate WonListing<T(!new)>(listings: seq<Listing>, l: Listing, f: Listing -> Option<T>) {
    f(l).Some? && Wins(TrackBallot(listings, f), f(l).value)
  }

  ghost predicate WonTrackVote(listings: seq<Listing>, l: Listing) {
    WonListing(listings, l, TrackTitle) || WonListing(listings, l, TrackArtist) || WonListing(listings, l, TrackLength)
    || WonListing(listings, l, TrackIsrc) || WonListing(listings, l, TrackMbid)
  }

  // The provider wins a vote: for an MBID among all, for another field among the contributors,
  // for a track field among their listings of its position. An empty title wins nothing.
  ghost predicate WonVote(results: seq<ProviderResult>, r: ProviderResult) {
    var cohort := Cohort(results);
    WonAlbumVote(results, cohort, r) || WonReleaseVote(results, cohort, r)
    || exists t <- r.tracks :: WonTrackVote(At(Listings(cohort), t.position), Listing(r.provider, t))
  }

  lemma AlbumFieldsAreWon(results: seq<ProviderResult>, cohort: seq<ProviderResult>, r: ProviderResult)
    ensures GaveAlbumField(AlbumOf(results, cohort), r) <==> WonAlbumVote(results, cohort, r)
  {
    hide Won, Winner;
    WonIsWinner(cohort, r, AlbumTitle);
    WonIsWinner(cohort, r, AlbumArtist);
    WonIsWinner(cohort, r, AlbumYear);
    WonIsWinner(results, r, AlbumMbid);
  }

  lemma ReleaseFieldsAreWon(results: seq<ProviderResult>, cohort: seq<ProviderResult>, r: ProviderResult)
    ensures GaveReleaseField(ReleaseOf(results, cohort), r) <==> WonReleaseVote(results, cohort, r)
  {
    hide Won, Winner;
    WonIsWinner(cohort, r, Country);
    WonIsWinner(cohort, r, Date);
    WonIsWinner(cohort, r, LabelName);
    WonIsWinner(cohort, r, CatalogNumber);
    WonIsWinner(cohort, r, Barcode);
    WonIsWinner(results, r, ReleaseMbid);
    WonIsWinner(cohort, r, Language);
    WonIsWinner(cohort, r, Script);
  }

  lemma WonListingIsPlurality<T(!new)>(listings: seq<Listing>, l: Listing, f: Listing -> Option<T>)
    ensures WonListing(listings, l, f) <==> Given(Plurality(TrackBallot(listings, f)), f(l))
  {
    if f(l).Some? {
      PluralityWins(TrackBallot(listings, f), f(l).value);
    }
  }

  lemma TrackFieldsAreWon(listings: seq<Listing>, provider: string, t: TrackMeta)
    ensures GaveTrackField(TrackOf(listings, t.position), t) <==> WonTrackVote(listings, Listing(provider, t))
  {
    hide WonListing, Plurality;
    var l := Listing(provider, t);
    WonListingIsPlurality(listings, l, TrackTitle);
    WonListingIsPlurality(listings, l, TrackArtist);
    WonListingIsPlurality(listings, l, TrackLength);
    WonListingIsPlurality(listings, l, TrackIsrc);
    WonListingIsPlurality(listings, l, TrackMbid);
  }

  // The merged tracks at a contributor's position are one, voted from the listings there.
  lemma MergedTrackAt(results: seq<ProviderResult>, r: ProviderResult, t: TrackMeta, m: TrackMeta)
    requires Contributes(results, r) && t in r.tracks
    ensures m in MergeOf(results).tracks && m.position == t.position
       <==> m == TrackOf(At(Listings(Cohort(results)), t.position), t.position)
  {
    PositionsOfContributors(results, t.position);
    var all := Listings(Cohort(results));
    var positions := Ascending(PositionsOf(all));
    AscendingIsSorted(PositionsOf(all));
    hide Contributes, Cohort, Listings, PositionsOf, Ascending, At, Plurality, AlbumOf, ReleaseOf;
    var tracks := TracksOf(all, positions);
    assert MergeOf(results).tracks == tracks;
    var i :| 0 <= i < |positions| && positions[i] == t.position;
    assert tracks[i] in tracks;
  }

  lemma ContributorGaveExactly(results: seq<ProviderResult>, r: ProviderResult)
    requires Contributes(results, r)
    ensures Gave(MergeOf(results), r) <==> WonVote(results, r)
  {
    var cohort := Cohort(results);
    AlbumFieldsAreWon(results, cohort, r);
    ReleaseFieldsAreWon(results, cohort, r);
    forall t | t in r.tracks
      ensures (exists m :: m in MergeOf(results).tracks && GaveTrackField(m, t))
         <==> WonTrackVote(At(Listings(cohort), t.position), Listing(r.provider, t))
    {
      GaveTrackExactly(results, r, t);
    }
    MergedFields(results);
    hide MergeOf, AlbumOf, ReleaseOf, GaveAlbumField, GaveReleaseField, GaveTrackField, WonAlbumVote, WonReleaseVote,
         WonTrackVote, Contributes, Cohort;
  }

  lemma GaveTrackExactly(results: seq<ProviderResult>, r: ProviderResult, t: TrackMeta)
    requires Contributes(results, r) && t in r.tracks
    ensures (exists m :: m in MergeOf(results).tracks && GaveTrackField(m, t))
       <==> WonTrackVote(At(Listings(Cohort(results)), t.position), Listing(r.provider, t))
  {
    hide MergeOf, Contributes, Cohort, WonTrackVote, Plurality;
    var listings := At(Listings(Cohort(results)), t.position);
    TrackFieldsAreWon(listings, r.provider, t);
    var voted := TrackOf(listings, t.position);
    MergedTrackAt(results, r, t, voted);
    forall m | m in MergeOf(results).tracks && GaveTrackField(m, t)
      ensures m == voted
    {
      MergedTrackAt(results, r, t, m);
    }
  }

  lemma MergedFields(results: seq<ProviderResult>)
    ensures MergeOf(results).album == AlbumOf(results, Cohort(results))
    ensures MergeOf(results).release == ReleaseOf(results, Cohort(results))
    ensures MergeOf(results).sources == Providers(Cohort(results))
  {
    hide AlbumOf, ReleaseOf, Cohort;
  }

  ghost function Selected(results: seq<ProviderResult>, keep: ProviderResult -> bool): (selected: seq<ProviderResult>)
    ensures |selected| <= |results|
  {
    if results == [] then []
    else
      var last := results[|results| - 1];
      Selected(results[..|results| - 1], keep) + if keep(last) then [last] else []
  }

  lemma {:induction false} SelectsAllExactly(results: seq<ProviderResult>, keep: ProviderResult -> bool)
    ensures |Selected(results, keep)| == |results| <==> forall r <- results :: keep(r)
    ensures (forall r <- results :: keep(r)) ==> Selected(results, keep) == results
  {
    if results != [] {
      var front, last := results[..|results| - 1], results[|results| - 1];
      assert results == front + [last];
      SelectsAllExactly(front, keep);
      assert last in results && forall r <- front :: r in results;
    }
  }

  // The named sources are the contributors that gave the merge a present field, as documented,
  // exactly when every contributor wins some vote.
  lemma SourcesGaveExactly(results: seq<ProviderResult>)
    ensures MergeOf(results).sources == Providers(Selected(Cohort(results), r => Gave(MergeOf(results), r)))
       <==> forall r :: Contributes(results, r) ==> WonVote(results, r)
  {
    var cohort := Cohort(results);
    CohortContributes(results);
    MergedFields(results);
    hide Gave, WonVote, Contributes, Cohort, MergeOf;
    var keep := r => Gave(MergeOf(results), r);
    SelectsAllExactly(cohort, keep);
    forall r | Contributes(results, r)
      ensures keep(r) <==> WonVote(results, r)
    {
      ContributorGaveExactly(results, r);
    }
    assert |Providers(Selected(cohort, keep))| == |Selected(cohort, keep)| && |Providers(cohort)| == |cohort|;
  }

  // A provider that knows the disc but reports nothing about it is named as a source.
  lemma SilentProviderIsNamed(name: string)
    ensures var silent := ProviderResult(name, None, None, []);
            MergeOf([silent]).sources == [name] && !Gave(MergeOf([silent]), silent)
  {
    hide MergeOf;
    SingleResultIsKept(ProviderResult(name, None, None, []));
  }

  // So is one whose only value loses the vote.
  lemma LosingProviderIsNamed(p: string, q: string, a: string, b: string)
    requires a != b && a != "" && b != ""
    ensures var first, second := OnlyTitled(p, a), OnlyTitled(q, b);
            var merged := MergeOf([first, second]);
            merged.sources == [p, q] && merged.album.title == Some(a) && !Gave(merged, second)
  {
    var first, second := OnlyTitled(p, a), OnlyTitled(q, b);
    var results := [first, second];
    BothContributeWithoutMbids(first, second);
    MergeOfTitled(first, second);
    FirstTitleWins(first, second);
    hide MergeOf, Winner, Cohort;
    OtherTitleGaveNothing(MergeOf(results), q, b);
  }

  function OnlyTitled(name: string, title: string): ProviderResult {
    ProviderResult(name, Some(AlbumMeta(Some(title), None, None, None)), None, [])
  }

  lemma BothContributeWithoutMbids(a: ProviderResult, b: ProviderResult)
    requires AlbumMbid(a).None? && ReleaseMbid(a).None? && AlbumMbid(b).None? && ReleaseMbid(b).None?
    ensures Cohort([a, b]) == [a, b]
  {
    NobodyVotes([a, b], AlbumMbid);
    NobodyVotes([a, b], ReleaseMbid);
    hide Winner, Contributors;
    BothContribute(a, b);
  }

  lemma MergeOfTitled(a: ProviderResult, b: ProviderResult)
    requires Cohort([a, b]) == [a, b]
    ensures MergeOf([a, b]).sources == [a.provider, b.provider]
    ensures MergeOf([a, b]).album.title == DropEmpty(Winner([a, b], AlbumTitle))
  {
    MergedFields([a, b]);
    hide MergeOf, Winner, Cohort, ReleaseOf;
    assert Providers([a, b]) == [a.provider, b.provider];
  }

  lemma FirstTitleWins(a: ProviderResult, b: ProviderResult)
    requires AlbumTitle(a).Some?
    ensures Winner([a, b], AlbumTitle) == AlbumTitle(a)
  {
    FirstOfTwoWins(Ballot([a, b], AlbumTitle));
  }

  lemma OtherTitleGaveNothing(merged: MergedDisc, name: string, title: string)
    requires merged.album.title != Some(title)
    ensures !Gave(merged, OnlyTitled(name, title))
  {
  }

  lemma NobodyVotes(results: seq<ProviderResult>, f: ProviderResult -> Option<string>)
    requires forall r <- results :: f(r).None?
    ensures Winner(results, f) == None
  {
    LeaderIsVoted(Ballot(results, f), |results|);
    assert forall i :: 0 <= i < |results| ==> results[i] in results;
  }

  lemma BothContribute(a: ProviderResult, b: ProviderResult)
    ensures Contributors([a, b], None, None) == [a, b]
  {
    assert [a, b][..1] == [a] && [a][..0] == [];
    assert Contributors([a], None, None) == [a];
  }

  // ---------------------------------------------------------------- one provider

  lemma SingleVote<T(!new)>(vote: Vote<T>, field: string, entity: Entity, toValue: T -> Value)
    ensures Plurality([vote]) == vote.value
    ensures Disagreements(field, entity, [vote], toValue) == []
  {
    assert [vote][..0] == [];
    assert Leader([vote], 0) == None;
    assert Leader([vote], 1) == vote.value;
    if vote.value.Some? {
      assert Losing(field, entity, [vote], toValue, vote.value.value, vote.provider) == [];
    }
  }

  lemma SingleBallot<T(!new)>(r: ProviderResult, f: ProviderResult -> Option<T>, field: string, entity: Entity,
                              toValue: T -> Value)
    ensures Winner([r], f) == f(r) && Losers(field, entity, [r], f, toValue) == []
  {
    assert Ballot([r], f) == [Vote(r.provider, f(r))];
    SingleVote(Vote(r.provider, f(r)), field, entity, toValue);
  }

  lemma SingleTrackBallot<T(!new)>(l: Listing, f: Listing -> Option<T>, field: string, entity: Entity,
                                   toValue: T -> Value)
    ensures Plurality(TrackBallot([l], f)) == f(l)
    ensures Disagreements(field, entity, TrackBallot([l], f), toValue) == []
  {
    assert TrackBallot([l], f) == [Vote(l.provider, f(l))];
    SingleVote(Vote(l.provider, f(l)), field, entity, toValue);
  }

  lemma SingleListing(l: Listing, position: u8)
    requires l.track.position == position
    ensures TrackOf([l], position) == l.track
    ensures TrackLosers([l], position) == []
  {
    hide Plurality, Disagreements, TrackBallot;
    var entity := TrackEntity(position);
    SingleTrackBallot(l, TrackTitle, "track.title", entity, ToText);
    SingleTrackBallot(l, TrackArtist, "track.artist_credit", entity, ToText);
    SingleTrackBallot(l, TrackLength, "track.length_frames", entity, FramesValue);
    SingleTrackBallot(l, TrackIsrc, "track.isrc", entity, ToText);
    SingleTrackBallot(l, TrackMbid, "track.mbid", entity, ToText);
  }

  lemma {:induction false} NothingAt(all: seq<Listing>, p: u8)
    requires forall l <- all :: l.track.position != p
    ensures At(all, p) == []
  {
    if all != [] {
      var front := all[..|all| - 1];
      assert all == front + [all[|all| - 1]];
      NothingAt(front, p);
      assert all[|all| - 1] in all;
    }
  }

  lemma {:induction false} AloneAtItsPosition(r: ProviderResult, n: nat, k: nat)
    requires k < n <= |r.tracks| && DistinctPositions(r.tracks)
    ensures At(ListingsOf(r)[..n], r.tracks[k].position) == [Listing(r.provider, r.tracks[k])]
  {
    var all := ListingsOf(r)[..n];
    assert all[..n - 1] == ListingsOf(r)[..n - 1];
    if k < n - 1 {
      AloneAtItsPosition(r, n - 1, k);
    } else {
      NothingAt(all[..n - 1], r.tracks[k].position);
    }
  }

  lemma {:induction false} NoTrackLosers(r: ProviderResult, positions: seq<u8>)
    requires DistinctPositions(r.tracks)
    requires forall p <- positions :: exists t <- r.tracks :: t.position == p
    ensures TracksLosers(ListingsOf(r), positions) == []
    ensures forall i :: 0 <= i < |positions| ==>
              TracksOf(ListingsOf(r), positions)[i] in r.tracks
              && TracksOf(ListingsOf(r), positions)[i].position == positions[i]
  {
    hide TrackLosers, TrackOf, At;
    if positions != [] {
      var front, last := positions[..|positions| - 1], positions[|positions| - 1];
      assert positions == front + [last];
      forall p | p in front
        ensures exists t <- r.tracks :: t.position == p
      {
        assert p in positions;
      }
      NoTrackLosers(r, front);
      assert TracksOf(ListingsOf(r), positions)[..|front|] == TracksOf(ListingsOf(r), front);
      forall i | 0 <= i < |front|
        ensures TracksOf(ListingsOf(r), positions)[i] == TracksOf(ListingsOf(r), front)[i]
      {
      }
      assert last in positions;
      var t :| t in r.tracks && t.position == last;
      var k :| 0 <= k < |r.tracks| && r.tracks[k] == t;
      AloneAtItsPosition(r, |r.tracks|, k);
      assert ListingsOf(r)[..|r.tracks|] == ListingsOf(r);
      SingleListing(Listing(r.provider, t), last);
    }
  }

  // Merging one result whose positions are distinct keeps all its metadata, up to track
  // order and the rule for empty titles, and records no disagreement.
  lemma SingleResultIsKept(r: ProviderResult)
    requires DistinctPositions(r.tracks)
    ensures var merged := MergeOf([r]);
            && merged.disagreements == []
            && merged.sources == [r.provider]
            && merged.release == (if r.release.Some? then r.release.value else NO_RELEASE)
            && merged.album == (if r.album.Some? then r.album.value.(title := DropEmpty(r.album.value.title))
                                else AlbumMeta(None, None, None, None))
            && (forall t :: t in merged.tracks <==> t in r.tracks)
  {
    hide Plurality, Disagreements, TrackLosers, TrackOf, At, Ascending;
    SingleResultFields(r);
    assert Cohort([r]) == [r];
    assert [r][..0] == [];
    assert Listings([r]) == ListingsOf(r);
    SingleResultTracks(r);
  }

  lemma SingleResultTracks(r: ProviderResult)
    requires DistinctPositions(r.tracks)
    ensures var positions := Ascending(PositionsOf(ListingsOf(r)));
            && TracksLosers(ListingsOf(r), positions) == []
            && (forall t :: t in TracksOf(ListingsOf(r), positions) <==> t in r.tracks)
  {
    hide TrackLosers, TrackOf, At, Ascending;
    var all := ListingsOf(r);
    var positions := Ascending(PositionsOf(all));
    AscendingIsSorted(PositionsOf(all));
    forall p | p in positions
      ensures exists t <- r.tracks :: t.position == p
    {
      var l :| l in all && l.track.position == p;
      var i :| 0 <= i < |all| && all[i] == l;
      assert r.tracks[i] in r.tracks;
    }
    NoTrackLosers(r, positions);
    var tracks := TracksOf(all, positions);
    forall t | t in r.tracks
      ensures t in tracks
    {
      var k :| 0 <= k < |r.tracks| && r.tracks[k] == t;
      assert all[k] in all && t.position in positions;
      var i :| 0 <= i < |positions| && positions[i] == t.position;
      var u := tracks[i];
      var j :| 0 <= j < |r.tracks| && r.tracks[j] == u;
      assert j == k;
    }
  }

  lemma SingleResultFields(r: ProviderResult)
    ensures Winner([r], AlbumMbid) == AlbumMbid(r) && Winner([r], ReleaseMbid) == ReleaseMbid(r)
    ensures MbidLosers([r]) == [] && AlbumLosers([r]) == [] && ReleaseLosers([r]) == []
    ensures AlbumOf([r], [r]) == AlbumMeta(DropEmpty(AlbumTitle(r)), AlbumArtist(r), AlbumYear(r), AlbumMbid(r))
    ensures ReleaseOf([r], [r])
         == ReleaseMeta(Country(r), Date(r), LabelName(r), CatalogNumber(r), Barcode(r), ReleaseMbid(r),
                        Language(r), Script(r))
  {
    hide Winner, Losers;
    SingleBallot(r, AlbumMbid, "album.mbid", AlbumEntity, ToText);
    SingleBallot(r, ReleaseMbid, "release.mbid", ReleaseEntity, ToText);
    SingleBallot(r, AlbumTitle, "album.title", AlbumEntity, ToText);
    SingleBallot(r, AlbumArtist, "album.artist_credit", AlbumEntity, ToText);
    SingleBallot(r, AlbumYear, "album.year", AlbumEntity, YearValue);
    SingleBallot(r, Country, "release.country", ReleaseEntity, ToText);
    SingleBallot(r, Date, "release.date", ReleaseEntity, ToText);
    SingleBallot(r, LabelName, "release.label", ReleaseEntity, ToText);
    SingleBallot(r, CatalogNumber, "release.catalog_number", ReleaseEntity, ToText);
    SingleBallot(r, Barcode, "release.barcode", ReleaseEntity, ToText);
    SingleBallot(r, Language, "release.language", ReleaseEntity, ToText);
    SingleBallot(r, Script, "release.script", ReleaseEntity, ToText);
  }

  // ---------------------------------------------------------------- the fallback tracklist

  // The stubs of an ordered table: one per track, numbered from the first, each of positive
  // length, together as long as the disc; nothing else of the merge changes.
  lemma StubsFillTheDisc(results: seq<ProviderResult>, toc: Toc)
    requires Ordered(toc) && toc.firstTrack + |toc.trackOffsets| <= 0x100
    requires MergeOf(results).tracks == []
    ensures var merged, stubbed := MergeOf(results), FallbackOf(results, toc);
            && stubbed == merged.(tracks := stubbed.tracks)
            && |stubbed.tracks| == |toc.trackOffsets|
            && (forall i :: 0 <= i < |stubbed.tracks| ==>
                  && TrackLengthFrames(toc, i).value > 0
                  && stubbed.tracks[i] == TrackMeta(toc.firstTrack + i, None, None, TrackLengthFrames(toc, i), None, None))
            && SumOfLengths(toc, |stubbed.tracks|) == TotalLengthFrames(toc)
  {
    hide MergeOf;
    LengthsFillTheDisc(toc);
  }
}
