/**
  The catalog as the object the projection updates step by step. Every method says what the
  whole database becomes; nothing here is rolled back, that is the caller's transaction.
 */
module Catalog {
  import opened Words
  import opened Results
  import opened Tocs
  import opened CatalogDb
  import opened Metadata
  import opened TrackRefresh

  class Catalog {
    var albums: map<Id, AlbumRow>
    var releases: map<Id, ReleaseRow>
    var discs: map<Id, DiscRow>
    var tracks: map<Id, TrackRow>
    var rips: map<Id, RipRow>
    var assets: map<Id, AssetRow>
    var disagreements: map<Id, LooseRow>
    var overrides: map<Id, LooseRow>
    var nextDisc: Id
    var nextTrack: Id

    ghost function Contents(): Db
      reads this
    {
      Db(albums, releases, discs, tracks, rips, assets, disagreements, overrides, nextDisc, nextTrack)
    }

    // ------------------------------------------------------------ reading

    method FindDiscByMbDiscid(mbDiscid: string) returns (found: Option<Id>)
      ensures found.Some? ==> found.value in discs && discs[found.value].mbDiscid == Some(mbDiscid)
      ensures found.None? ==> forall d :: d in discs ==> discs[d].mbDiscid != Some(mbDiscid)
    {
      if d :| d in discs && discs[d].mbDiscid == Some(mbDiscid) {
        return Some(d);
      }
      return None;
    }

    method FindDiscByArTriple(ids: DiscIds) returns (found: Option<Id>)
      requires HasTriple(ids)
      ensures found.Some? ==> found.value in discs && TripleMatch(discs[found.value], ids)
      ensures found.None? ==> forall d :: d in discs ==> !TripleMatch(discs[d], ids)
    {
      if d :| d in discs && TripleMatch(discs[d], ids) {
        return Some(d);
      }
      return None;
    }

    method FindDiscByIds(ids: DiscIds) returns (found: Option<Id>)
      ensures IsLookup(Contents(), ids, found)
    {
      if ids.mbDiscid.Some? {
        found := FindDiscByMbDiscid(ids.mbDiscid.value);
        if found.Some? {
          return;
        }
      }
      if HasTriple(ids) {
        found := FindDiscByArTriple(ids);
        return;
      }
      return None;
    }

    method ListDiscsForRelease(release: Id) returns (found: set<Id>)
      ensures found == DiscsOn(discs, {release})
    {
      found := set d | d in discs && discs[d].releaseId == release;
    }

    method ListReleasesForAlbum(album: Id) returns (found: set<Id>)
      ensures found == ReleasesOf(releases, album)
    {
      found := set r | r in releases && releases[r].albumId == album;
    }

    // ------------------------------------------------------------ deleting

    method DeleteRelease(release: Id)
      modifies this
      ensures Contents() == DropReleases(old(Contents()), {release})
    {
      var db := DropReleases(
        Db(albums, releases, discs, tracks, rips, assets, disagreements, overrides, nextDisc, nextTrack), {release});
      releases, discs, tracks, rips, assets := db.releases, db.discs, db.tracks, db.rips, db.assets;
    }

    method DeleteAlbum(album: Id)
      modifies this
      ensures Contents() == DropAlbum(old(Contents()), album)
    {
      var db := DropAlbum(
        Db(albums, releases, discs, tracks, rips, assets, disagreements, overrides, nextDisc, nextTrack), album);
      albums, releases, discs := db.albums, db.releases, db.discs;
      tracks, rips, assets := db.tracks, db.rips, db.assets;
    }

    // One listed disagreement at a time, then one listed override at a time.
    method DeleteLooseRowsFor(key: string)
      modifies this`disagreements, this`overrides
      ensures Contents() == ClearLoose(old(Contents()), key)
    {
      var listed := set i | i in disagreements && disagreements[i].entityKey == key;
      while listed != {}
        invariant forall i :: i in listed ==> i in disagreements && disagreements[i].entityKey == key
        invariant disagreements.Keys <= old(disagreements).Keys
        invariant forall i :: i in disagreements ==> disagreements[i] == old(disagreements)[i]
        invariant forall i :: i in old(disagreements) && i !in disagreements ==> old(disagreements)[i].entityKey == key
        invariant forall i :: i in disagreements && disagreements[i].entityKey == key ==> i in listed
        invariant overrides == old(overrides)
        decreases listed
      {
        var i :| i in listed;
        disagreements := disagreements - {i};
        listed := listed - {i};
      }
      assert disagreements == WithoutLoose(old(disagreements), key);
      listed := set i | i in overrides && overrides[i].entityKey == key;
      while listed != {}
        invariant forall i :: i in listed ==> i in overrides && overrides[i].entityKey == key
        invariant overrides.Keys <= old(overrides).Keys
        invariant forall i :: i in overrides ==> overrides[i] == old(overrides)[i]
        invariant forall i :: i in old(overrides) && i !in overrides ==> old(overrides)[i].entityKey == key
        invariant forall i :: i in overrides && overrides[i].entityKey == key ==> i in listed
        invariant disagreements == WithoutLoose(old(disagreements), key)
        decreases listed
      {
        var i :| i in listed;
        overrides := overrides - {i};
        listed := listed - {i};
      }
      assert overrides == WithoutLoose(old(overrides), key);
    }

    // Delete the release if no disc is left on it, and then its album if no release is left.
    method DeleteReleaseIfOrphan(release: Id)
      requires release in releases && releases[release].albumId in albums
      modifies this
      ensures Contents() == Sweep(old(Contents()), release)
    {
      hide DropReleases, DropAlbum, ClearLoose;
      var remaining := ListDiscsForRelease(release);
      if d :| d in remaining {
        return;
      }
      assert !HasDiscs(Contents(), release) by {
        assert forall d :: d in discs && discs[d].releaseId == release ==> d in remaining;
      }
      var row := releases[release];
      ghost var before := Contents();
      ClearedRelease(before, row.stableKey, release);
      DeleteLooseRowsFor(row.stableKey);
      DeleteRelease(release);
      var siblings := ListReleasesForAlbum(row.albumId);
      if r :| r in siblings {
        assert HasReleases(Contents(), row.albumId);
        return;
      }
      assert !HasReleases(Contents(), row.albumId) by {
        assert forall r :: r in releases && releases[r].albumId == row.albumId ==> r in siblings;
      }
      DeleteLooseRowsFor(albums[row.albumId].stableKey);
      DeleteAlbum(row.albumId);
    }

    lemma ClearedRelease(db: Db, key: string, release: Id)
      ensures DropReleases(ClearLoose(db, key), {release}).albums == db.albums
    {
    }

    // ------------------------------------------------------------ writing discs

    method UpdateDisc(disc: Id, row: DiscRow) returns (r: Result<(), DbError>)
      requires disc in discs
      modifies this`discs
      ensures (Contents(), r) == UpdatedDisc(old(Contents()), disc, row)
    {
      if row.releaseId !in releases {
        return Failure(ForeignKey);
      }
      if e :| e in discs && e != disc && SameTriple(row, discs[e]) {
        return Failure(UniqueTriple);
      }
      discs := discs[disc := row];
      return Success(());
    }

    // INSERT, then UPDATE of the stable key: the second statement can fail with the row in place.
    method InsertDisc(row: DiscRow, localKey: string) returns (r: Result<Id, DbError>)
      requires nextDisc !in discs
      modifies this`discs, this`nextDisc
      ensures (Contents(), r) == InsertedDisc(old(Contents()), row, localKey)
    {
      if row.releaseId !in releases {
        return Failure(ForeignKey);
      }
      if e :| e in discs && e != nextDisc && SameTriple(row, discs[e]) {
        assert TripleTaken(Contents(), nextDisc, row);
        return Failure(UniqueTriple);
      }
      var id := nextDisc;
      discs, nextDisc := discs[id := row.(stableKey := None)], id + 1;
      var key := PreferredKey(row, localKey);
      if e :| e in discs && discs[e].stableKey == Some(key) {
        assert e != id && old(discs)[e].stableKey == Some(key);
        return Failure(KeyTaken);
      }
      assert forall e :: e in old(discs) ==> discs[e] == old(discs)[e];
      discs := discs[id := row.(stableKey := Some(key))];
      return Success(id);
    }

    method UpsertDisc(releaseId: Id, discNumber: u8, toc: Toc, ids: DiscIds, localKey: string)
      returns (r: Result<(Id, bool), DbError>, ghost found: Option<Id>)
      requires Contents().Valid()
      modifies this
      ensures IsLookup(old(Contents()), ids, found)
      ensures (Contents(), r) == UpsertOf(old(Contents()), found, releaseId, discNumber, toc, ids, localKey)
    {
      hide Sweep, InsertedDisc;
      var lookup := FindDiscByIds(ids);
      found := lookup;
      if lookup.Some? {
        var disc := lookup.value;
        var existing := discs[disc];
        if existing.releaseId != releaseId {
          var former := existing.releaseId;
          existing := existing.(releaseId := releaseId);
          NoNewTriple(Contents(), disc, releaseId);
          var updated := UpdateDisc(disc, existing);
          if updated.Failure? {
            return Failure(updated.error), found;
          }
          DeleteReleaseIfOrphan(former);
        }
        MovedKeepsTarget(old(Contents()), disc, releaseId);
        existing := MergedRow(existing, discNumber, toc, ids);
        var updated := UpdateDisc(disc, existing);
        if updated.Failure? {
          return Failure(updated.error), found;
        }
        return Success((disc, true)), found;
      }
      var inserted := InsertDisc(NewRow(releaseId, discNumber, toc, ids), localKey);
      match inserted {
        case Success(id) => r := Success((id, false));
        case Failure(e) => r := Failure(e);
      }
    }

    // ------------------------------------------------------------ refreshing tracks

    method InsertTrack(row: TrackRow) returns (r: Result<Id, DbError>)
      requires nextTrack !in tracks
      modifies this`tracks, this`nextTrack
      ensures r == if row.discId !in discs then Failure(ForeignKey)
                   else if PositionTaken(old(tracks), row.discId, row.position) then Failure(UniqueTrack)
                   else Success(old(nextTrack))
      ensures tracks == if r.Success? then old(tracks)[old(nextTrack) := row] else old(tracks)
      ensures nextTrack == if r.Success? then old(nextTrack) + 1 else old(nextTrack)
    {
      if row.discId !in discs {
        return Failure(ForeignKey);
      }
      if t :| t in tracks && tracks[t].discId == row.discId && tracks[t].position == row.position {
        assert PositionTaken(tracks, row.discId, row.position);
        return Failure(UniqueTrack);
      }
      r := Success(nextTrack);
      tracks, nextTrack := tracks[nextTrack := row], nextTrack + 1;
    }

    method UpsertTracks(disc: Id, metas: seq<TrackMeta>) returns (r: Result<seq<Listed>, DbError>)
      requires Contents().Valid()
      modifies this`tracks, this`nextTrack
      ensures var (done, error) :=
                RefreshFrom(Refresh(old(tracks), old(nextTrack), IndexOf(old(tracks), disc), []), disc in discs, disc, metas);
              && tracks == done.tracks && nextTrack == done.nextTrack
              && r == if error.Some? then Failure(error.value) else Success(done.out)
    {
      hide Updated, Blank, PositionTaken, RefreshFrom, IndexOf;
      var existing: map<u8, Listed> := ListTracksByPosition(disc);
      ghost var start := Refresh(tracks, nextTrack, existing, []);
      ghost var known := disc in discs;
      var out: seq<Listed> := [];
      RefreshOfNone(start, known, disc, metas);
      for i := 0 to |metas|
        invariant RefreshFrom(start, known, disc, metas[..i]) == (Refresh(tracks, nextTrack, existing, out), None)
        invariant nextTrack !in tracks && forall t :: t in tracks ==> t < nextTrack
        invariant forall p :: p in existing ==> existing[p].0 < nextTrack
      {
        var m := metas[i];
        RefreshNext(start, known, disc, metas, i);
        if m.position in existing {
          var (id, row) := existing[m.position];
          row := Updated(row, m);
          tracks := tracks[id := row];
          existing := existing - {m.position};
          out := out + [(id, row)];
        } else {
          var row := Updated(Blank(disc, m.position), m);
          BlankAddresses(disc, m);
          var id := InsertTrack(row);
          if id.Failure? {
            RefreshStops(start, known, disc, metas, i + 1);
            return Failure(id.error);
          }
          out := out + [(id.value, row)];
        }
      }
      assert metas[..|metas|] == metas;
      return Success(out);
    }

    method ListTracksByPosition(disc: Id) returns (existing: map<u8, Listed>)
      requires Contents().Valid()
      ensures UniquePositions(tracks) && existing == IndexOf(tracks, disc)
      ensures forall p :: p in existing ==> existing[p].0 < nextTrack
    {
      existing := map t | t in tracks && tracks[t].discId == disc :: tracks[t].position := (t, tracks[t]);
    }
  }

  lemma NoNewTriple(db: Db, disc: Id, releaseId: Id)
    requires db.Valid() && disc in db.discs
    ensures !TripleTaken(db, disc, db.discs[disc].(releaseId := releaseId))
  {
    forall e | e in db.discs && e != disc
      ensures !SameTriple(db.discs[disc].(releaseId := releaseId), db.discs[e])
    {
      assert !SameTriple(db.discs[disc], db.discs[e]);
    }
  }

  // Moving a disc never removes the disc or the release it moves to.
  lemma MovedKeepsTarget(db: Db, disc: Id, releaseId: Id)
    requires db.Valid() && disc in db.discs && releaseId in db.releases
    ensures disc in Moved(db, disc, releaseId).discs && releaseId in Moved(db, disc, releaseId).releases
  {
    hide Db.Unique, WithoutLoose;
  }
}
