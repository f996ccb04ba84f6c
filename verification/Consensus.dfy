/**
  Merging provider results: first the MBIDs, which decide who may contribute, then every
  other field among the contributors, then the tracks position by position.
 */
module Consensus {
  import opened Words
  import opened Results
  import opened Tocs
  import opened Metadata
  import opened Voting

  datatype MergedDisc = MergedDisc(
    album: AlbumMeta, release: ReleaseMeta, tracks: seq<TrackMeta>,
    disagreements: seq<RawDisagreement>, sources: seq<string>)

  // A provider's entry for one track.
  datatype Listing = Listing(provider: string, track: TrackMeta)

  // ---------------------------------------------------------------- fields

  function AlbumTitle(r: ProviderResult): Option<string> { if r.album.Some? then r.album.value.title else None }
  function AlbumArtist(r: ProviderResult): Option<string> { if r.album.Some? then r.album.value.artistCredit else None }
  function AlbumYear(r: ProviderResult): Option<u16> { if r.album.Some? then r.album.value.year else None }
  function AlbumMbid(r: ProviderResult): Option<string> { if r.album.Some? then r.album.value.mbid else None }
  function Country(r: ProviderResult): Option<string> { if r.release.Some? then r.release.value.country else None }
  function Date(r: ProviderResult): Option<string> { if r.release.Some? then r.release.value.date else None }
  function LabelName(r: ProviderResult): Option<string> { if r.release.Some? then r.release.value.labelName else None }
  function CatalogNumber(r: ProviderResult): Option<string> { if r.release.Some? then r.release.value.catalogNumber else None }
  function Barcode(r: ProviderResult): Option<string> { if r.release.Some? then r.release.value.barcode else None }
  function ReleaseMbid(r: ProviderResult): Option<string> { if r.release.Some? then r.release.value.mbid else None }
  function Language(r: ProviderResult): Option<string> { if r.release.Some? then r.release.value.language else None }
  function Script(r: ProviderResult): Option<string> { if r.release.Some? then r.release.value.script else None }
  function TrackTitle(l: Listing): Option<string> { l.track.title }
  function TrackArtist(l: Listing): Option<string> { l.track.artistCredit }
  function TrackLength(l: Listing): Option<u64> { l.track.lengthFrames }
  function TrackIsrc(l: Listing): Option<string> { l.track.isrc }
  function TrackMbid(l: Listing): Option<string> { l.track.mbid }

  function ToText(s: string): Value { Text(s) }
  function YearValue(n: u16): Value { Number(n) }
  function FramesValue(n: u64): Value { Number(n) }

  function Ballot<T>(results: seq<ProviderResult>, f: ProviderResult -> Option<T>): (votes: seq<Vote<T>>)
    ensures |votes| == |results|
  {
    seq(|results|, i requires 0 <= i < |results| => Vote(results[i].provider, f(results[i])))
  }

  function TrackBallot<T>(listings: seq<Listing>, f: Listing -> Option<T>): (votes: seq<Vote<T>>)
    ensures |votes| == |listings|
  {
    seq(|listings|, i requires 0 <= i < |listings| => Vote(listings[i].provider, f(listings[i])))
  }

  // ---------------------------------------------------------------- who may contribute

  // A provider's own MBID does not contradict the winner.
  predicate Agrees(winner: Option<string>, own: Option<string>) {
    winner.Some? && own.Some? ==> winner.value == own.value
  }

  predicate MayContribute(r: ProviderResult, albumMbid: Option<string>, releaseMbid: Option<string>) {
    Agrees(albumMbid, AlbumMbid(r)) && Agrees(releaseMbid, ReleaseMbid(r))
  }

  function Contributors(results: seq<ProviderResult>, albumMbid: Option<string>, releaseMbid: Option<string>)
    : (cohort: seq<ProviderResult>)
    ensures forall r :: r in cohort <==> r in results && MayContribute(r, albumMbid, releaseMbid)
    ensures |cohort| <= |results|
  {
    if results == [] then []
    else
      var last := results[|results| - 1];
      assert results == results[..|results| - 1] + [last];
      Contributors(results[..|results| - 1], albumMbid, releaseMbid)
      + if MayContribute(last, albumMbid, releaseMbid) then [last] else []
  }

  function Providers(results: seq<ProviderResult>): seq<string> {
    seq(|results|, i requires 0 <= i < |results| => results[i].provider)
  }

  function DropEmpty(title: Option<string>): Option<string> {
    if title == Some("") then None else title
  }

  // ---------------------------------------------------------------- specification of the merge

  ghost function Winner<T>(results: seq<ProviderResult>, f: ProviderResult -> Option<T>): Option<T> {
    Plurality(Ballot(results, f))
  }

  ghost function Losers<T>(field: string, entity: Entity, results: seq<ProviderResult>,
                           f: ProviderResult -> Option<T>, toValue: T -> Value): seq<RawDisagreement>
  {
    Disagreements(field, entity, Ballot(results, f), toValue)
  }

  ghost function Cohort(results: seq<ProviderResult>): seq<ProviderResult> {
    Contributors(results, Winner(results, AlbumMbid), Winner(results, ReleaseMbid))
  }

  ghost function AlbumOf(results: seq<ProviderResult>, cohort: seq<ProviderResult>): AlbumMeta {
    AlbumMeta(DropEmpty(Winner(cohort, AlbumTitle)), Winner(cohort, AlbumArtist), Winner(cohort, AlbumYear),
              Winner(results, AlbumMbid))
  }

  ghost function ReleaseOf(results: seq<ProviderResult>, cohort: seq<ProviderResult>): ReleaseMeta {
    ReleaseMeta(Winner(cohort, Country), Winner(cohort, Date), Winner(cohort, LabelName),
                Winner(cohort, CatalogNumber), Winner(cohort, Barcode), Winner(results, ReleaseMbid),
                Winner(cohort, Language), Winner(cohort, Script))
  }

  ghost function MbidLosers(results: seq<ProviderResult>): seq<RawDisagreement> {
    Losers("album.mbid", AlbumEntity, results, AlbumMbid, ToText)
    + Losers("release.mbid", ReleaseEntity, results, ReleaseMbid, ToText)
  }

  ghost function AlbumLosers(cohort: seq<ProviderResult>): seq<RawDisagreement> {
    Losers("album.title", AlbumEntity, cohort, AlbumTitle, ToText)
    + Losers("album.artist_credit", AlbumEntity, cohort, AlbumArtist, ToText)
    + Losers("album.year", AlbumEntity, cohort, AlbumYear, YearValue)
  }

  ghost function ReleaseLosers(cohort: seq<ProviderResult>): seq<RawDisagreement> {
    Losers("release.country", ReleaseEntity, cohort, Country, ToText)
    + Losers("release.date", ReleaseEntity, cohort, Date, ToText)
    + Losers("release.label", ReleaseEntity, cohort, LabelName, ToText)
    + Losers("release.catalog_number", ReleaseEntity, cohort, CatalogNumber, ToText)
    + Losers("release.barcode", ReleaseEntity, cohort, Barcode, ToText)
    + Losers("release.language", ReleaseEntity, cohort, Language, ToText)
    + Losers("release.script", ReleaseEntity, cohort, Script, ToText)
  }

  ghost function MergeOf(results: seq<ProviderResult>): MergedDisc {
    var cohort := Cohort(results);
    var all := Listings(cohort);
    var positions := Ascending(PositionsOf(all));
    MergedDisc(
      AlbumOf(results, cohort), ReleaseOf(results, cohort), TracksOf(all, positions),
      MbidLosers(results) + AlbumLosers(cohort) + ReleaseLosers(cohort) + TracksLosers(all, positions),
      Providers(cohort))
  }

  // ---------------------------------------------------------------- specification of the tracks

  function ListingsOf(r: ProviderResult): (listings: seq<Listing>)
    ensures |listings| == |r.tracks|
  {
    seq(|r.tracks|, i requires 0 <= i < |r.tracks| => Listing(r.provider, r.tracks[i]))
  }

  // Every provider's tracks, in priority order.
  ghost function Listings(cohort: seq<ProviderResult>): seq<Listing> {
    if cohort == [] then [] else Listings(cohort[..|cohort| - 1]) + ListingsOf(cohort[|cohort| - 1])
  }

  ghost function PositionsOf(all: seq<Listing>): set<u8> {
    set l <- all :: l.track.position
  }

  ghost function At(all: seq<Listing>, position: u8): (listings: seq<Listing>)
    ensures forall l :: l in listings <==> l in all && l.track.position == position
  {
    if all == [] then []
    else
      var last := all[|all| - 1];
      assert all == all[..|all| - 1] + [last];
      At(all[..|all| - 1], position) + if last.track.position == position then [last] else []
  }

  // The members of a set of positions in ascending order.
  function AscendingFrom(positions: set<u8>, lo: nat): seq<u8>
    decreases 0x100 - lo
  {
    if lo >= 0x100 then []
    else (if lo in positions then [lo as u8] else []) + AscendingFrom(positions, lo + 1)
  }

  function Ascending(positions: set<u8>): seq<u8> { AscendingFrom(positions, 0) }

  ghost function TrackOf(listings: seq<Listing>, position: u8): TrackMeta {
    TrackMeta(position,
              Plurality(TrackBallot(listings, TrackTitle)),
              Plurality(TrackBallot(listings, TrackArtist)),
              Plurality(TrackBallot(listings, TrackLength)),
              Plurality(TrackBallot(listings, TrackIsrc)),
              Plurality(TrackBallot(listings, TrackMbid)))
  }

  ghost function TrackLosers(listings: seq<Listing>, position: u8): seq<RawDisagreement> {
    var entity := TrackEntity(position);
    Disagreements("track.title", entity, TrackBallot(listings, TrackTitle), ToText)
    + Disagreements("track.artist_credit", entity, TrackBallot(listings, TrackArtist), ToText)
    + Disagreements("track.length_frames", entity, TrackBallot(listings, TrackLength), FramesValue)
    + Disagreements("track.isrc", entity, TrackBallot(listings, TrackIsrc), ToText)
    + Disagreements("track.mbid", entity, TrackBallot(listings, TrackMbid), ToText)
  }

  ghost function TracksOf(all: seq<Listing>, positions: seq<u8>): seq<TrackMeta> {
    seq(|positions|, i requires 0 <= i < |positions| => TrackOf(At(all, positions[i]), positions[i]))
  }

  ghost function TracksLosers(all: seq<Listing>, positions: seq<u8>): seq<RawDisagreement> {
    if positions == [] then []
    else
      var last := positions[|positions| - 1];
      TracksLosers(all, positions[..|positions| - 1]) + TrackLosers(At(all, last), last)
  }

  // ---------------------------------------------------------------- the merge

  method MergeTracks(cohort: seq<ProviderResult>, sink: seq<RawDisagreement>)
    returns (tracks: seq<TrackMeta>, out: seq<RawDisagreement>)
    ensures var all := Listings(cohort);
            var positions := Ascending(PositionsOf(all));
            tracks == TracksOf(all, positions) && out == sink + TracksLosers(all, positions)
  {
    hide TrackLosers, TrackOf, At, PositionsOf, Listings, AscendingFrom, Ascending;
    var byPosition, ordered := GroupByPosition(cohort);
    ghost var all := Listings(cohort);
    var distinct := set p <- ordered;
    assert distinct == PositionsOf(all);
    var positions := Ascending(distinct);
    AscendingIsSorted(PositionsOf(all));
    tracks, out := [], sink;
    for k := 0 to |positions|
      invariant tracks == TracksOf(all, positions[..k])
      invariant out == sink + TracksLosers(all, positions[..k])
    {
      assert positions[..k + 1][..k] == positions[..k];
      var position := positions[k];
      assert position in positions;
      var track, more := MergeTrack(byPosition[position], position, out);
      tracks, out := tracks + [track], more;
    }
    assert positions[..|positions|] == positions;
  }

  method MergeTrack(listings: seq<Listing>, position: u8, sink: seq<RawDisagreement>)
    returns (track: TrackMeta, out: seq<RawDisagreement>)
    ensures track == TrackOf(listings, position)
    ensures out == sink + TrackLosers(listings, position)
  {
    hide Disagreements, Plurality;
    var entity := TrackEntity(position);
    var title, artist, length, isrc, mbid;
    title, out := MergeOpt("track.title", entity, TrackBallot(listings, TrackTitle), ToText, sink);
    artist, out := MergeOpt("track.artist_credit", entity, TrackBallot(listings, TrackArtist), ToText, out);
    length, out := MergeOpt("track.length_frames", entity, TrackBallot(listings, TrackLength), FramesValue, out);
    isrc, out := MergeOpt("track.isrc", entity, TrackBallot(listings, TrackIsrc), ToText, out);
    mbid, out := MergeOpt("track.mbid", entity, TrackBallot(listings, TrackMbid), ToText, out);
    track := TrackMeta(position, title, artist, length, isrc, mbid);
  }

  ghost predicate Grouped(all: seq<Listing>, byPosition: map<u8, seq<Listing>>, ordered: seq<u8>) {
    && byPosition.Keys == PositionsOf(all) == (set p <- ordered)
    && forall p :: p in byPosition ==> byPosition[p] == At(all, p)
  }

  method GroupByPosition(cohort: seq<ProviderResult>)
    returns (byPosition: map<u8, seq<Listing>>, ordered: seq<u8>)
    ensures Grouped(Listings(cohort), byPosition, ordered)
  {
    byPosition, ordered := map[], [];
    for i := 0 to |cohort|
      invariant Grouped(Listings(cohort[..i]), byPosition, ordered)
    {
      hide Grouped;
      assert cohort[..i + 1][..i] == cohort[..i];
      var r := cohort[i];
      ghost var before := Listings(cohort[..i]);
      assert before + ListingsOf(r)[..0] == before;
      for j := 0 to |r.tracks|
        invariant Grouped(before + ListingsOf(r)[..j], byPosition, ordered)
      {
        var listing := Listing(r.provider, r.tracks[j]);
        var position := r.tracks[j].position;
        GroupStep(before + ListingsOf(r)[..j], byPosition, ordered, listing);
        assert before + ListingsOf(r)[..j] + [listing] == before + ListingsOf(r)[..j + 1];
        if position !in byPosition {
          ordered := ordered + [position];
        }
        var earlier := if position in byPosition then byPosition[position] else [];
        byPosition := byPosition[position := earlier + [listing]];
      }
      assert ListingsOf(r)[..|r.tracks|] == ListingsOf(r);
    }
    assert cohort[..|cohort|] == cohort;
  }

  lemma GroupStep(all: seq<Listing>, byPosition: map<u8, seq<Listing>>, ordered: seq<u8>, listing: Listing)
    requires Grouped(all, byPosition, ordered)
    ensures var p := listing.track.position;
            var earlier := if p in byPosition then byPosition[p] else [];
            Grouped(all + [listing], byPosition[p := earlier + [listing]],
                    if p in byPosition then ordered else ordered + [p])
  {
    hide PositionsOf, At;
    var p := listing.track.position;
    var earlier := if p in byPosition then byPosition[p] else [];
    var grouped := byPosition[p := earlier + [listing]];
    PositionsStep(all, listing);
    if At(all, p) != [] {
      SomewhereAt(all, p);
    }
    forall q | q in grouped
      ensures grouped[q] == At(all + [listing], q)
    {
      AtStep(all, listing, q);
    }
  }

  lemma PositionsStep(all: seq<Listing>, listing: Listing)
    ensures PositionsOf(all + [listing]) == PositionsOf(all) + {listing.track.position}
  {
    assert listing in all + [listing];
    forall l | l in all
      ensures l in all + [listing]
    {
    }
    forall p
      ensures p in PositionsOf(all + [listing]) <==> p in PositionsOf(all) + {listing.track.position}
    {
    }
  }

  lemma AtStep(all: seq<Listing>, listing: Listing, q: u8)
    ensures At(all + [listing], q) == At(all, q) + if listing.track.position == q then [listing] else []
  {
    assert (all + [listing])[..|all|] == all;
  }

  lemma SomewhereAt(all: seq<Listing>, p: u8)
    requires At(all, p) != []
    ensures p in PositionsOf(all)
  {
    assert At(all, p)[0] in At(all, p);
  }

  method Merge(results: seq<ProviderResult>) returns (merged: MergedDisc)
    ensures merged == MergeOf(results)
  {
    hide Disagreements, Plurality;
    var albumMbid, sink := MergeOpt("album.mbid", AlbumEntity, Ballot(results, AlbumMbid), ToText, []);
    var releaseMbid;
    releaseMbid, sink := MergeOpt("release.mbid", ReleaseEntity, Ballot(results, ReleaseMbid), ToText, sink);
    assert sink == MbidLosers(results);
    var cohort := Contributors(results, albumMbid, releaseMbid);

    var title, artist, year;
    title, sink := MergeOpt("album.title", AlbumEntity, Ballot(cohort, AlbumTitle), ToText, sink);
    artist, sink := MergeOpt("album.artist_credit", AlbumEntity, Ballot(cohort, AlbumArtist), ToText, sink);
    year, sink := MergeOpt("album.year", AlbumEntity, Ballot(cohort, AlbumYear), YearValue, sink);
    assert sink == MbidLosers(results) + AlbumLosers(cohort);
    var album := AlbumMeta(title, artist, year, albumMbid);
    if album.title == Some("") {
      album := album.(title := None);
    }

    var release;
    release, sink := MergeRelease(cohort, releaseMbid, sink);
    var tracks;
    tracks, sink := MergeTracks(cohort, sink);
    merged := MergedDisc(album, release, tracks, sink, Providers(cohort));
  }

  method MergeRelease(cohort: seq<ProviderResult>, mbid: Option<string>, sink: seq<RawDisagreement>)
    returns (release: ReleaseMeta, out: seq<RawDisagreement>)
    ensures release == ReleaseMeta(Winner(cohort, Country), Winner(cohort, Date), Winner(cohort, LabelName),
                                   Winner(cohort, CatalogNumber), Winner(cohort, Barcode), mbid,
                                   Winner(cohort, Language), Winner(cohort, Script))
    ensures out == sink + ReleaseLosers(cohort)
  {
    hide Disagreements, Plurality;
    var country, date, labelName, catalogNumber, barcode, language, script;
    country, out := MergeOpt("release.country", ReleaseEntity, Ballot(cohort, Country), ToText, sink);
    date, out := MergeOpt("release.date", ReleaseEntity, Ballot(cohort, Date), ToText, out);
    labelName, out := MergeOpt("release.label", ReleaseEntity, Ballot(cohort, LabelName), ToText, out);
    catalogNumber, out := MergeOpt("release.catalog_number", ReleaseEntity, Ballot(cohort, CatalogNumber), ToText, out);
    barcode, out := MergeOpt("release.barcode", ReleaseEntity, Ballot(cohort, Barcode), ToText, out);
    language, out := MergeOpt("release.language", ReleaseEntity, Ballot(cohort, Language), ToText, out);
    script, out := MergeOpt("release.script", ReleaseEntity, Ballot(cohort, Script), ToText, out);
    release := ReleaseMeta(country, date, labelName, catalogNumber, barcode, mbid, language, script);
  }

  // A track known only from the table of contents.
  function Stub(span: TrackSpan): TrackMeta
    requires span.lengthFrames < 0x1_0000_0000_0000_0000
  {
    TrackMeta(span.position, None, None, Some(span.lengthFrames), None, None)
  }

  ghost function FallbackOf(results: seq<ProviderResult>, toc: Toc): MergedDisc
    requires toc.firstTrack + |toc.trackOffsets| <= 0x100
  {
    var merged := MergeOf(results);
    if merged.tracks == [] then
      merged.(tracks := seq(|TrackSpans(toc)|, i requires 0 <= i < |TrackSpans(toc)| => Stub(TrackSpans(toc)[i])))
    else merged
  }

  method MergeWithTocFallback(results: seq<ProviderResult>, toc: Toc) returns (merged: MergedDisc)
    requires toc.firstTrack + |toc.trackOffsets| <= 0x100
    ensures merged == FallbackOf(results, toc)
  {
    hide MergeOf;
    merged := Merge(results);
    if |merged.tracks| == 0 {
      var spans := TrackSpans(toc);
      merged := merged.(tracks := seq(|spans|, i requires 0 <= i < |spans| => Stub(spans[i])));
    }
  }

  lemma {:induction false} AscendingFromIsSorted(positions: set<u8>, lo: nat)
    ensures forall p :: p in AscendingFrom(positions, lo) <==> p in positions && lo <= p
    ensures forall i, j :: 0 <= i < j < |AscendingFrom(positions, lo)| ==>
              AscendingFrom(positions, lo)[i] < AscendingFrom(positions, lo)[j]
    decreases 0x100 - lo
  {
    if lo < 0x100 {
      AscendingFromIsSorted(positions, lo + 1);
      var rest := AscendingFrom(positions, lo + 1);
      forall j | 0 <= j < |rest|
        ensures lo < rest[j]
      {
        assert rest[j] in rest;
      }
    }
  }

  lemma AscendingIsSorted(positions: set<u8>)
    ensures forall p :: p in Ascending(positions) <==> p in positions
    ensures forall i, j :: 0 <= i < j < |Ascending(positions)| ==> Ascending(positions)[i] < Ascending(positions)[j]
  {
    AscendingFromIsSorted(positions, 0);
  }
}
