/**
  The merged metadata and the catalog together: what identification projects never breaks
  the schema.
 */
module Projection {
  import opened Words
  import opened Results
  import opened Tocs
  import opened Metadata
  import opened Consensus
  import opened ConsensusTheorems
  import opened CatalogDb
  import opened TrackRefresh
  import Overrides

  // Merged tracks, or the stubs standing in for them, never repeat a position.
  lemma ProjectedTracksAreDistinct(results: seq<ProviderResult>, toc: Toc)
    requires toc.firstTrack + |toc.trackOffsets| <= 0x100
    ensures DistinctPositions(FallbackOf(results, toc).tracks)
  {
    hide MergeOf;
    TracksAscend(results);
  }

  // So refreshing a catalogued disc from any merge succeeds and leaves a valid catalog.
  lemma ProjectionKeepsCatalogValid(db: Db, disc: Id, results: seq<ProviderResult>, toc: Toc)
    requires db.Valid() && disc in db.discs && toc.firstTrack + |toc.trackOffsets| <= 0x100
    ensures var (done, error) :=
              RefreshFrom(Refresh(db.tracks, db.nextTrack, IndexOf(db.tracks, disc), []), true, disc,
                          FallbackOf(results, toc).tracks);
            error == None && db.(tracks := done.tracks, nextTrack := done.nextTrack).Valid()
  {
    hide FallbackOf, MergeOf, RefreshFrom, IndexOf, Pending;
    var metas := FallbackOf(results, toc).tracks;
    ProjectedTracksAreDistinct(results, toc);
    IndexIsPending(db.tracks, disc);
    RefreshOutcome(db.tracks, db.nextTrack, disc, IndexOf(db.tracks, disc), metas);
    var done := RefreshFrom(Refresh(db.tracks, db.nextTrack, IndexOf(db.tracks, disc), []), true, disc, metas).0;
    RefreshedIsValid(db, disc, metas, done);
  }

  lemma RefreshedIsValid(db: Db, disc: Id, metas: seq<TrackMeta>, done: Refresh)
    requires db.Valid() && disc in db.discs && Refreshed(db.tracks, db.nextTrack, disc, metas, done)
    ensures db.(tracks := done.tracks, nextTrack := done.nextTrack).Valid()
  {
    forall t | t in done.tracks
      ensures done.tracks[t].discId in db.discs && t < done.nextTrack
    {
      if t !in db.tracks {
        assert Added(db.tracks, disc, metas, done.tracks[t]);
      } else if !Unaddressed(db.tracks[t], disc, metas) {
        var m :| m in metas && Addresses(db.tracks[t], disc, m);
        assert done.tracks[t] == Updated(db.tracks[t], m);
      }
    }
  }

  // ---------------------------------------------------------------- stable keys of tracks

  // The key a new track is given; it is not stored in the model's rows.
  function TrackKey(discKey: string, position: u8): string {
    "track:" + discKey + ":" + Overrides.RenderNumber(position)
  }

  // Two strings that end in a colon and digits split at the same colon.
  lemma SameColon(a: string, digits: string, b: string, others: string)
    requires ':' !in digits && ':' !in others && a + ":" + digits == b + ":" + others
    ensures a == b && digits == others
  {
    var whole := a + ":" + digits;
    assert whole[|a|] == ':' && (b + ":" + others)[|b|] == ':';
    assert |a| == |b|;
    assert whole[..|a|] == a && (b + ":" + others)[..|b|] == b;
    assert whole[|a| + 1..] == digits && (b + ":" + others)[|b| + 1..] == others;
  }

  lemma TrackKeyIsInjective(discKey: string, position: u8, otherKey: string, otherPosition: u8)
    requires TrackKey(discKey, position) == TrackKey(otherKey, otherPosition)
    ensures discKey == otherKey && position == otherPosition
  {
    var digits, others := Overrides.RenderNumber(position), Overrides.RenderNumber(otherPosition);
    SameColon("track:" + discKey, digits, "track:" + otherKey, others);
    assert ("track:" + discKey)[6..] == discKey && ("track:" + otherKey)[6..] == otherKey;
    Overrides.DecimalOfRendered(position);
    Overrides.DecimalOfRendered(otherPosition);
  }

  // In a valid catalog the keys derived from a track's disc and position differ for
  // different tracks, so the unique index on them never refuses what the others allow.
  lemma TrackKeysNeverCollide(db: Db, t: Id, u: Id)
    requires db.Valid() && t in db.tracks && u in db.tracks && t != u
    requires db.discs[db.tracks[t].discId].stableKey.Some? && db.discs[db.tracks[u].discId].stableKey.Some?
    ensures TrackKey(db.discs[db.tracks[t].discId].stableKey.value, db.tracks[t].position)
         != TrackKey(db.discs[db.tracks[u].discId].stableKey.value, db.tracks[u].position)
  {
    var a, b := db.tracks[t], db.tracks[u];
    if TrackKey(db.discs[a.discId].stableKey.value, a.position) == TrackKey(db.discs[b.discId].stableKey.value, b.position) {
      TrackKeyIsInjective(db.discs[a.discId].stableKey.value, a.position, db.discs[b.discId].stableKey.value, b.position);
    }
  }
}
