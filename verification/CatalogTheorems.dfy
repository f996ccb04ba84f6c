/**
  What upserting a disc keeps, removes and preserves, over every valid catalog and every
  row the identity lookup may answer.
 */
module CatalogTheorems {
  import opened CatalogDb

  // ---------------------------------------------------------------- the sweep in closed form

  // The release the disc leaves, with no other disc on it.
  ghost predicate Emptied(db: Db, disc: Id, releaseId: Id, release: Id)
    requires disc in db.discs
  {
    && db.discs[disc].releaseId == release != releaseId
    && forall e :: e in db.discs && e != disc ==> db.discs[e].releaseId != release
  }

  // The album of an emptied release, with no other release on it.
  ghost predicate AlbumEmptied(db: Db, disc: Id, releaseId: Id, album: Id)
    requires db.ForeignKeys() && disc in db.discs
  {
    var former := db.discs[disc].releaseId;
    && Emptied(db, disc, releaseId, former)
    && db.releases[former].albumId == album
    && forall r :: r in db.releases && r != former ==> db.releases[r].albumId != album
  }

  // The stable keys of what is swept.
  ghost predicate SweptKey(db: Db, disc: Id, releaseId: Id, key: string)
    requires db.ForeignKeys() && disc in db.discs
  {
    || (exists r :: r in db.releases && Emptied(db, disc, releaseId, r) && db.releases[r].stableKey == key)
    || (exists a :: a in db.albums && AlbumEmptied(db, disc, releaseId, a) && db.albums[a].stableKey == key)
  }

  ghost predicate SweptReleases(db: Db, disc: Id, releaseId: Id, m: Db)
    requires disc in db.discs
  {
    && (forall r :: r in m.releases <==> r in db.releases && !Emptied(db, disc, releaseId, r))
    && (forall r :: r in m.releases ==> m.releases[r] == db.releases[r])
    && (forall x :: x in m.assets <==> x in db.assets && !Emptied(db, disc, releaseId, db.assets[x].releaseId))
    && (forall x :: x in m.assets ==> m.assets[x] == db.assets[x])
  }

  ghost predicate SweptAlbums(db: Db, disc: Id, releaseId: Id, m: Db)
    requires db.ForeignKeys() && disc in db.discs
  {
    && (forall a :: a in m.albums <==> a in db.albums && !AlbumEmptied(db, disc, releaseId, a))
    && (forall a :: a in m.albums ==> m.albums[a] == db.albums[a])
  }

  // Moving a disc deletes its old release exactly when no disc is left on it, and that
  // release's album exactly when no release is left on it, with their assets, disagreements
  // and overrides; it touches nothing else.
  ghost predicate SweptExactly(db: Db, disc: Id, releaseId: Id, m: Db)
    requires db.ForeignKeys() && disc in db.discs
  {
    && m.discs == db.discs[disc := db.discs[disc].(releaseId := releaseId)]
    && m.tracks == db.tracks && m.rips == db.rips
    && m.nextDisc == db.nextDisc && m.nextTrack == db.nextTrack
    && SweptReleases(db, disc, releaseId, m)
    && SweptAlbums(db, disc, releaseId, m)
    && KeptLoose(db, disc, releaseId, db.disagreements, m.disagreements)
    && KeptLoose(db, disc, releaseId, db.overrides, m.overrides)
  }

  ghost predicate KeptLoose(db: Db, disc: Id, releaseId: Id, rows: map<Id, LooseRow>, kept: map<Id, LooseRow>)
    requires db.ForeignKeys() && disc in db.discs
  {
    && (forall i :: i in kept <==> i in rows && !SweptKey(db, disc, releaseId, rows[i].entityKey))
    && (forall i :: i in kept ==> kept[i] == rows[i])
  }

  lemma NothingToDrop(db: Db)
    ensures DropDiscs(db, {}) == db
  {
    assert TracksOff(db.tracks, {}) == db.tracks;
    assert Unset(db.rips, {}) == db.rips;
    assert db.discs - {} == db.discs;
  }

  lemma NothingReleased(db: Db)
    ensures DropReleases(db, {}) == db
  {
    hide DropDiscs;
    assert db.releases - {} == db.releases;
    assert AssetsOff(db.assets, {}) == db.assets;
    assert DiscsOn(db.discs, {}) == {};
    NothingToDrop(db);
  }

  // Deleting a release without discs cascades to its assets alone.
  lemma DropEmptyRelease(db: Db, release: Id)
    requires !HasDiscs(db, release)
    ensures DropReleases(db, {release})
         == db.(releases := db.releases - {release}, assets := AssetsOff(db.assets, {release}))
  {
    hide DropDiscs;
    assert DiscsOn(db.discs, {release}) == {};
    NothingToDrop(db.(releases := db.releases - {release}, assets := AssetsOff(db.assets, {release})));
  }

  lemma DropEmptyAlbum(db: Db, album: Id)
    requires !HasReleases(db, album)
    ensures DropAlbum(db, album) == db.(albums := db.albums - {album})
  {
    hide DropReleases;
    assert ReleasesOf(db.releases, album) == {};
    NothingReleased(db.(albums := db.albums - {album}));
  }

  // The release and then the album removed by a sweep, as plain map removals.
  lemma SweepClosedForm(db: Db, release: Id)
    requires release in db.releases && db.releases[release].albumId in db.albums
    ensures var row := db.releases[release];
            var cleared := ClearLoose(db, row.stableKey);
            var rest := cleared.(releases := db.releases - {release},
                                 assets := AssetsOff(db.assets, {release}));
            Sweep(db, release)
            == if HasDiscs(db, release) then db
               else if exists r :: r in db.releases && r != release && db.releases[r].albumId == row.albumId then rest
               else ClearLoose(rest, db.albums[row.albumId].stableKey).(albums := db.albums - {row.albumId})
  {
    if !HasDiscs(db, release) {
      var row := db.releases[release];
      var cleared := ClearLoose(db, row.stableKey);
      assert !HasDiscs(cleared, release) by {
        assert cleared.discs == db.discs;
      }
      DropEmptyRelease(cleared, release);
      var rest := DropReleases(cleared, {release});
      assert rest.releases == db.releases - {release} && rest.albums == db.albums;
      if r :| r in db.releases && r != release && db.releases[r].albumId == row.albumId {
        assert r in rest.releases && HasReleases(rest, row.albumId);
      } else {
        var lonely := ClearLoose(rest, rest.albums[row.albumId].stableKey);
        assert !HasReleases(rest, row.albumId) && !HasReleases(lonely, row.albumId);
        DropEmptyAlbum(lonely, row.albumId);
      }
    }
  }

  lemma MoveSweepsExactly(db: Db, disc: Id, releaseId: Id)
    requires db.ForeignKeys() && disc in db.discs && releaseId in db.releases
    ensures SweptExactly(db, disc, releaseId, Moved(db, disc, releaseId))
  {
    hide Sweep, WithoutLoose, SweptKey, KeptLoose, SweptReleases, SweptAlbums, Emptied, AlbumEmptied;
    var former := db.discs[disc].releaseId;
    if former == releaseId {
      assert db.discs == db.discs[disc := db.discs[disc].(releaseId := releaseId)];
      StayingSweepsNothing(db, disc, releaseId);
    } else {
      MoveSweepsRows(db, disc, releaseId);
      var moved := db.(discs := db.discs[disc := db.discs[disc].(releaseId := releaseId)]);
      SweepClosedForm(moved, former);
      HasDiscsAfterMove(db, disc, releaseId);
      LooseAfterSweep(db, disc, releaseId);
    }
  }

  lemma StayingSweepsNothing(db: Db, disc: Id, releaseId: Id)
    requires db.ForeignKeys() && disc in db.discs && db.discs[disc].releaseId == releaseId
    ensures KeptLoose(db, disc, releaseId, db.disagreements, db.disagreements)
    ensures KeptLoose(db, disc, releaseId, db.overrides, db.overrides)
    ensures SweptReleases(db, disc, releaseId, db) && SweptAlbums(db, disc, releaseId, db)
  {
  }

  lemma MoveSweepsRows(db: Db, disc: Id, releaseId: Id)
    requires db.ForeignKeys() && disc in db.discs && releaseId in db.releases && db.discs[disc].releaseId != releaseId
    ensures SweptReleases(db, disc, releaseId, Moved(db, disc, releaseId))
    ensures SweptAlbums(db, disc, releaseId, Moved(db, disc, releaseId))
  {
    MovedTables(db, disc, releaseId);
    var m := Moved(db, disc, releaseId);
    hide Moved, SweptReleases, SweptAlbums;
    ReleasesFromTables(db, disc, releaseId, m);
    AlbumsFromTables(db, disc, releaseId, m);
  }

  lemma ReleasesFromTables(db: Db, disc: Id, releaseId: Id, m: Db)
    requires disc in db.discs
    requires var former := db.discs[disc].releaseId;
             && m.releases == (if Emptied(db, disc, releaseId, former) then db.releases - {former} else db.releases)
             && m.assets == (if Emptied(db, disc, releaseId, former) then AssetsOff(db.assets, {former}) else db.assets)
    ensures SweptReleases(db, disc, releaseId, m)
  {
  }

  lemma AlbumsFromTables(db: Db, disc: Id, releaseId: Id, m: Db)
    requires db.ForeignKeys() && disc in db.discs
    requires var album := db.releases[db.discs[disc].releaseId].albumId;
             m.albums == if AlbumEmptied(db, disc, releaseId, album) then db.albums - {album} else db.albums
    ensures SweptAlbums(db, disc, releaseId, m)
  {
    hide Emptied;
  }

  lemma MovedTables(db: Db, disc: Id, releaseId: Id)
    requires db.ForeignKeys() && disc in db.discs && releaseId in db.releases && db.discs[disc].releaseId != releaseId
    ensures var m := Moved(db, disc, releaseId);
            var former := db.discs[disc].releaseId;
            var album := db.releases[former].albumId;
            && m.releases == (if Emptied(db, disc, releaseId, former) then db.releases - {former} else db.releases)
            && m.assets == (if Emptied(db, disc, releaseId, former) then AssetsOff(db.assets, {former}) else db.assets)
            && m.albums == (if AlbumEmptied(db, disc, releaseId, album) then db.albums - {album} else db.albums)
  {
    hide Sweep, WithoutLoose, HasDiscs;
    var former := db.discs[disc].releaseId;
    var moved := db.(discs := db.discs[disc := db.discs[disc].(releaseId := releaseId)]);
    SweepClosedForm(moved, former);
    HasDiscsAfterMove(db, disc, releaseId);
  }

  lemma HasDiscsAfterMove(db: Db, disc: Id, releaseId: Id)
    requires disc in db.discs && db.discs[disc].releaseId != releaseId
    ensures var former := db.discs[disc].releaseId;
            var moved := db.(discs := db.discs[disc := db.discs[disc].(releaseId := releaseId)]);
            !HasDiscs(moved, former) <==> Emptied(db, disc, releaseId, former)
  {
    var former := db.discs[disc].releaseId;
    var moved := db.(discs := db.discs[disc := db.discs[disc].(releaseId := releaseId)]);
    if e :| e in db.discs && e != disc && db.discs[e].releaseId == former {
      assert e in moved.discs && moved.discs[e].releaseId == former;
      assert HasDiscs(moved, former);
    }
  }

  lemma SweptKeys(db: Db, disc: Id, releaseId: Id, key: string)
    requires db.ForeignKeys() && disc in db.discs
    ensures var former := db.discs[disc].releaseId;
            var album := db.releases[former].albumId;
            SweptKey(db, disc, releaseId, key)
            <==> (Emptied(db, disc, releaseId, former) && db.releases[former].stableKey == key)
                 || (AlbumEmptied(db, disc, releaseId, album) && db.albums[album].stableKey == key)
  {
    hide Emptied;
    assert forall r :: Emptied(db, disc, releaseId, r) ==> r == db.discs[disc].releaseId by {
      forall r | Emptied(db, disc, releaseId, r)
        ensures r == db.discs[disc].releaseId
      {
        EmptiedIsFormer(db, disc, releaseId, r);
      }
    }
  }

  lemma EmptiedIsFormer(db: Db, disc: Id, releaseId: Id, release: Id)
    requires disc in db.discs && Emptied(db, disc, releaseId, release)
    ensures release == db.discs[disc].releaseId
  {
  }

  // Which loose rows two successive clearings leave.
  lemma ClearedTwice(db: Db, disc: Id, releaseId: Id, rows: map<Id, LooseRow>)
    requires db.ForeignKeys() && disc in db.discs
    ensures var former := db.discs[disc].releaseId;
            var album := db.releases[former].albumId;
            var once := WithoutLoose(rows, db.releases[former].stableKey);
            KeptLoose(db, disc, releaseId, rows,
                      if !Emptied(db, disc, releaseId, former) then rows
                      else if !AlbumEmptied(db, disc, releaseId, album) then once
                      else WithoutLoose(once, db.albums[album].stableKey))
  {
    hide Emptied, AlbumEmptied, SweptKey;
    forall i | i in rows
      ensures SweptKey(db, disc, releaseId, rows[i].entityKey) <==>
                var former := db.discs[disc].releaseId;
                var album := db.releases[former].albumId;
                (Emptied(db, disc, releaseId, former) && db.releases[former].stableKey == rows[i].entityKey)
                || (AlbumEmptied(db, disc, releaseId, album) && db.albums[album].stableKey == rows[i].entityKey)
    {
      SweptKeys(db, disc, releaseId, rows[i].entityKey);
    }
    EmptiedFirst(db, disc, releaseId);
  }

  lemma EmptiedFirst(db: Db, disc: Id, releaseId: Id)
    requires db.ForeignKeys() && disc in db.discs
    ensures var former := db.discs[disc].releaseId;
            AlbumEmptied(db, disc, releaseId, db.releases[former].albumId) ==> Emptied(db, disc, releaseId, former)
  {
  }

  lemma LooseAfterSweep(db: Db, disc: Id, releaseId: Id)
    requires db.ForeignKeys() && disc in db.discs && releaseId in db.releases && db.discs[disc].releaseId != releaseId
    ensures var m := Moved(db, disc, releaseId);
            KeptLoose(db, disc, releaseId, db.disagreements, m.disagreements)
            && KeptLoose(db, disc, releaseId, db.overrides, m.overrides)
  {
    hide Sweep, WithoutLoose, KeptLoose;
    var former := db.discs[disc].releaseId;
    var moved := db.(discs := db.discs[disc := db.discs[disc].(releaseId := releaseId)]);
    SweepClosedForm(moved, former);
    HasDiscsAfterMove(db, disc, releaseId);
    ClearedTwice(db, disc, releaseId, db.disagreements);
    ClearedTwice(db, disc, releaseId, db.overrides);
  }
}
