/**
  Main results about upserting a disc. Each holds for every valid catalog and whichever
  matching row the identity lookup answers.
 */
module UpsertTheorems {
  import opened Words
  import opened Results
  import opened Tocs
  import opened CatalogDb
  import opened CatalogTheorems
  import opened Overrides

  // ---------------------------------------------------------------- an existing disc

  // On success the disc keeps its row id, key and format; no disc, track or rip row is lost or
  // changed besides it; and the old release and album are swept exactly.
  lemma UpsertKeepsIdentityAndSweepsExactly(
    db: Db, disc: Id, releaseId: Id, discNumber: u8, toc: Toc, ids: DiscIds, localKey: string)
    requires db.Valid() && disc in db.discs
    requires UpsertOf(db, Some(disc), releaseId, discNumber, toc, ids, localKey).1.Success?
    ensures var (after, r) := UpsertOf(db, Some(disc), releaseId, discNumber, toc, ids, localKey);
            var row := MergedRow(db.discs[disc].(releaseId := releaseId), discNumber, toc, ids);
            && r == Success((disc, true))
            && after.discs == db.discs[disc := row]
            && row.stableKey == db.discs[disc].stableKey
            && SweptExactly(db, disc, releaseId,
                            after.(discs := db.discs[disc := db.discs[disc].(releaseId := releaseId)]))
  {
    hide SweptReleases, SweptAlbums, KeptLoose, Moved, TripleTaken, Db.Unique, Or;
    MoveSweepsExactly(db, disc, releaseId);
    var m := Moved(db, disc, releaseId);
    var row := MergedRow(db.discs[disc].(releaseId := releaseId), discNumber, toc, ids);
    var after := UpsertOf(db, Some(disc), releaseId, discNumber, toc, ids, localKey).0;
    assert after.discs == db.discs[disc := row];
    assert m == after.(discs := db.discs[disc := db.discs[disc].(releaseId := releaseId)]);
  }

  // The target release and its album are never among what is swept.
  lemma TargetIsNeverSwept(db: Db, disc: Id, releaseId: Id)
    requires db.Valid() && disc in db.discs && releaseId in db.releases
    ensures !Emptied(db, disc, releaseId, releaseId)
    ensures !AlbumEmptied(db, disc, releaseId, db.releases[releaseId].albumId)
  {
  }

  // The found row after an upsert: on the release, with the given number and table; each of the
  // four identifiers is the given one if there is one and else as before; key, format and catalog
  // number of the medium stay.
  lemma FoundRowExactly(db: Db, disc: Id, releaseId: Id, discNumber: u8, toc: Toc, ids: DiscIds, localKey: string)
    requires db.Valid() && disc in db.discs
    requires UpsertOf(db, Some(disc), releaseId, discNumber, toc, ids, localKey).1.Success?
    ensures var after, was := UpsertOf(db, Some(disc), releaseId, discNumber, toc, ids, localKey).0, db.discs[disc];
            && disc in after.discs
            && after.discs[disc]
               == DiscRow(was.stableKey, releaseId, discNumber, was.format, Some(toc),
                          if ids.mbDiscid.Some? then ids.mbDiscid else was.mbDiscid,
                          if ids.cddbId.Some? then ids.cddbId else was.cddbId,
                          if ids.arDiscid1.Some? then ids.arDiscid1 else was.arDiscid1,
                          if ids.arDiscid2.Some? then ids.arDiscid2 else was.arDiscid2,
                          was.mcn)
            && forall e :: e != disc ==> (e in after.discs <==> e in db.discs) && (e in db.discs ==> after.discs[e] == db.discs[e])
  {
    hide UpsertOf, SweptExactly, MergedRow, Or, Db.Unique, Db.ForeignKeys;
    UpsertKeepsIdentityAndSweepsExactly(db, disc, releaseId, discNumber, toc, ids, localKey);
    MergedRowFields(db.discs[disc].(releaseId := releaseId), discNumber, toc, ids);
  }

  lemma MergedRowFields(was: DiscRow, discNumber: u8, toc: Toc, ids: DiscIds)
    ensures MergedRow(was, discNumber, toc, ids)
         == DiscRow(was.stableKey, was.releaseId, discNumber, was.format, Some(toc),
                    if ids.mbDiscid.Some? then ids.mbDiscid else was.mbDiscid,
                    if ids.cddbId.Some? then ids.cddbId else was.cddbId,
                    if ids.arDiscid1.Some? then ids.arDiscid1 else was.arDiscid1,
                    if ids.arDiscid2.Some? then ids.arDiscid2 else was.arDiscid2,
                    was.mcn)
  {
  }

  // A new row: a CD with what is given, under the key of its AccurateRip triple, else of its
  // MusicBrainz id, else the local one.
  lemma NewRowExactly(db: Db, releaseId: Id, discNumber: u8, toc: Toc, ids: DiscIds, localKey: string)
    requires db.Valid() && IsLookup(db, ids, None) && releaseId in db.releases
    requires UpsertOf(db, None, releaseId, discNumber, toc, ids, localKey).1.Success?
    ensures var (after, r) := UpsertOf(db, None, releaseId, discNumber, toc, ids, localKey);
            var key := if ids.arDiscid1.Some? && ids.arDiscid2.Some? && ids.cddbId.Some? then
                         "disc:accuraterip:" + ids.arDiscid1.value + ":" + ids.arDiscid2.value + ":" + ids.cddbId.value
                       else if ids.mbDiscid.Some? then "disc:musicbrainz:" + ids.mbDiscid.value
                       else localKey;
            && r == Success((db.nextDisc, false)) && db.nextDisc !in db.discs
            && after.discs == db.discs[db.nextDisc :=
                 DiscRow(Some(key), releaseId, discNumber, "CD", Some(toc),
                         ids.mbDiscid, ids.cddbId, ids.arDiscid1, ids.arDiscid2, None)]
  {
    NewDiscIsInsertedExactly(db, releaseId, discNumber, toc, ids, localKey);
    hide UpsertOf, Db.Unique, Db.ForeignKeys, IsLookup;
  }

  // The lookup answers a row with the MusicBrainz id if there is one, else a row with all three
  // AccurateRip identifiers, else nothing. Two rows hold the same triple when all three are
  // present and equal.
  lemma LookupExactly(db: Db, ids: DiscIds, d: Id)
    ensures IsLookup(db, ids, Some(d))
       <==> && d in db.discs
            && if exists e :: e in db.discs && ids.mbDiscid.Some? && db.discs[e].mbDiscid == ids.mbDiscid
               then ids.mbDiscid.Some? && db.discs[d].mbDiscid == ids.mbDiscid
               else && ids.arDiscid1.Some? && ids.arDiscid2.Some? && ids.cddbId.Some?
                    && db.discs[d].arDiscid1 == ids.arDiscid1 && db.discs[d].arDiscid2 == ids.arDiscid2
                    && db.discs[d].cddbId == ids.cddbId
    ensures IsLookup(db, ids, None) <==> forall e :: e in db.discs ==> !IsLookup(db, ids, Some(e))
  {
    if forall e :: e in db.discs ==> !IsLookup(db, ids, Some(e)) {
      forall e | e in db.discs
        ensures !MbMatch(db.discs[e], ids)
      {
        assert !IsLookup(db, ids, Some(e));
      }
      forall e | e in db.discs
        ensures !TripleMatch(db.discs[e], ids)
      {
        assert !IsLookup(db, ids, Some(e));
      }
    }
  }

  // In a valid catalog no two discs have the same three AccurateRip identifiers, nor the same key.
  lemma DiscsAreDistinct(db: Db, d: Id, e: Id)
    requires db.Valid() && d in db.discs && e in db.discs && d != e
    ensures db.discs[d].arDiscid1.Some? && db.discs[d].arDiscid2.Some? && db.discs[d].cddbId.Some? ==>
              db.discs[d].arDiscid1 != db.discs[e].arDiscid1 || db.discs[d].arDiscid2 != db.discs[e].arDiscid2
              || db.discs[d].cddbId != db.discs[e].cddbId
    ensures db.discs[d].stableKey.Some? ==> db.discs[d].stableKey != db.discs[e].stableKey
  {
    hide Db.ForeignKeys, UniqueAlbumKeys, UniqueReleaseKeys, UniquePositions;
    assert !SameTriple(db.discs[d], db.discs[e]);
  }

  // ---------------------------------------------------------------- integrity

  lemma MoveKeepsForeignKeys(db: Db, disc: Id, releaseId: Id)
    requires db.Valid() && disc in db.discs && releaseId in db.releases
    ensures Moved(db, disc, releaseId).ForeignKeys()
    ensures releaseId in Moved(db, disc, releaseId).releases
  {
    hide Moved, KeptLoose, Db.Unique;
    var m := Moved(db, disc, releaseId);
    MoveSweepsExactly(db, disc, releaseId);
    TargetIsNeverSwept(db, disc, releaseId);
    assert forall r :: r in m.releases ==> m.releases[r].albumId in m.albums;
    assert forall d :: d in m.discs ==> m.discs[d].releaseId in m.releases;
  }

  lemma MoveKeepsUnique(db: Db, disc: Id, releaseId: Id)
    requires db.Valid() && disc in db.discs && releaseId in db.releases
    ensures Moved(db, disc, releaseId).Unique()
  {
    hide Moved, KeptLoose, SweptReleases, SweptAlbums, UniqueAlbumKeys, UniqueReleaseKeys, UniquePositions, UniqueDiscs;
    MoveSweepsExactly(db, disc, releaseId);
    MoveKeepsKeys(db, disc, releaseId, Moved(db, disc, releaseId));
    MoveKeepsDiscs(db.discs, disc, releaseId);
  }

  // Albums and releases are only ever removed.
  lemma MoveKeepsKeys(db: Db, disc: Id, releaseId: Id, m: Db)
    requires db.ForeignKeys() && disc in db.discs
    requires SweptReleases(db, disc, releaseId, m) && SweptAlbums(db, disc, releaseId, m)
    ensures UniqueAlbumKeys(db.albums) ==> UniqueAlbumKeys(m.albums)
    ensures UniqueReleaseKeys(db.releases) ==> UniqueReleaseKeys(m.releases)
  {
    hide Emptied, AlbumEmptied;
  }

  lemma MoveKeepsDiscs(discs: map<Id, DiscRow>, disc: Id, releaseId: Id)
    requires UniqueDiscs(discs) && disc in discs
    ensures UniqueDiscs(discs[disc := discs[disc].(releaseId := releaseId)])
  {
    var moved := discs[disc := discs[disc].(releaseId := releaseId)];
    forall d, e | d in moved && e in moved && d != e
      ensures !SameTriple(moved[d], moved[e])
      ensures moved[d].stableKey.Some? ==> moved[d].stableKey != moved[e].stableKey
    {
      assert !SameTriple(discs[d], discs[e]);
    }
  }

  lemma MoveKeepsValid(db: Db, disc: Id, releaseId: Id)
    requires db.Valid() && disc in db.discs && releaseId in db.releases
    ensures Moved(db, disc, releaseId).Valid()
  {
    hide Moved, KeptLoose, SweptReleases, SweptAlbums, Db.Unique;
    MoveSweepsExactly(db, disc, releaseId);
    MoveKeepsForeignKeys(db, disc, releaseId);
    MoveKeepsUnique(db, disc, releaseId);
  }

  lemma UpdateKeepsValid(db: Db, disc: Id, row: DiscRow)
    requires db.Valid() && disc in db.discs && row.releaseId in db.releases && !TripleTaken(db, disc, row)
    requires row.stableKey == db.discs[disc].stableKey
    ensures db.(discs := db.discs[disc := row]).Valid()
  {
    UpdateKeepsDiscs(db, disc, row);
    hide UniqueAlbumKeys, UniqueReleaseKeys, UniquePositions, UniqueDiscs;
  }

  lemma UpdateKeepsDiscs(db: Db, disc: Id, row: DiscRow)
    requires UniqueDiscs(db.discs) && disc in db.discs && !TripleTaken(db, disc, row)
    requires row.stableKey == db.discs[disc].stableKey
    ensures UniqueDiscs(db.discs[disc := row])
  {
    var discs := db.discs[disc := row];
    forall d, e | d in discs && e in discs && d != e
      ensures !SameTriple(discs[d], discs[e])
      ensures discs[d].stableKey.Some? ==> discs[d].stableKey != discs[e].stableKey
    {
      assert !SameTriple(db.discs[d], db.discs[e]);
      assert SameTriple(discs[d], discs[e]) ==> SameTriple(discs[e], discs[d]);
    }
  }

  lemma AddedRowKeepsUnique(db: Db, row: DiscRow)
    requires db.Valid() && !TripleTaken(db, db.nextDisc, row)
    requires row.stableKey.Some? ==> !DiscKeyTaken(db, row.stableKey.value)
    ensures db.(discs := db.discs[db.nextDisc := row]).Unique()
  {
    hide PreferredKey, UniqueAlbumKeys, UniqueReleaseKeys, UniquePositions;
    var discs := db.discs[db.nextDisc := row];
    forall d, e | d in discs && e in discs && d != e
      ensures !SameTriple(discs[d], discs[e])
      ensures discs[d].stableKey.Some? ==> discs[d].stableKey != discs[e].stableKey
    {
      assert SameTriple(discs[d], discs[e]) ==> SameTriple(discs[e], discs[d]);
      if d != db.nextDisc && e != db.nextDisc {
        assert !SameTriple(db.discs[d], db.discs[e]);
      }
    }
  }

  lemma AddedRowKeepsValid(db: Db, row: DiscRow)
    requires db.Valid() && !TripleTaken(db, db.nextDisc, row) && row.releaseId in db.releases
    requires row.stableKey.Some? ==> !DiscKeyTaken(db, row.stableKey.value)
    ensures db.(discs := db.discs[db.nextDisc := row], nextDisc := db.nextDisc + 1).Valid()
  {
    AddedRowKeepsUnique(db, row);
    hide TripleTaken, DiscKeyTaken, Db.Unique;
  }

  lemma InsertKeepsValid(db: Db, row: DiscRow, localKey: string)
    requires db.Valid()
    ensures InsertedDisc(db, row, localKey).0.Valid()
  {
    var id, key := db.nextDisc, PreferredKey(row, localKey);
    var keyless, keyed := row.(stableKey := None), row.(stableKey := Some(key));
    InsertedCases(db, row, localKey);
    if row.releaseId in db.releases && !TripleTaken(db, id, row) {
      hide Db.Valid, TripleTaken, DiscKeyTaken, InsertedDisc, PreferredKey;
      KeyDoesNotMatter(db, row, None);
      KeyDoesNotMatter(db, row, Some(key));
      if DiscKeyTaken(db, key) {
        AddedRowKeepsValid(db, keyless);
      } else {
        AddedRowKeepsValid(db, keyed);
      }
    }
  }

  lemma InsertedCases(db: Db, row: DiscRow, localKey: string)
    ensures var id, key, after := db.nextDisc, PreferredKey(row, localKey), InsertedDisc(db, row, localKey).0;
            if row.releaseId !in db.releases || TripleTaken(db, id, row) then after == db
            else if DiscKeyTaken(db, key) then
              after == db.(discs := db.discs[id := row.(stableKey := None)], nextDisc := id + 1)
            else after == db.(discs := db.discs[id := row.(stableKey := Some(key))], nextDisc := id + 1)
  {
    hide TripleTaken, DiscKeyTaken, PreferredKey;
    var id, key := db.nextDisc, PreferredKey(row, localKey);
    if row.releaseId in db.releases && !TripleTaken(db, id, row) && !DiscKeyTaken(db, key) {
      LastWriteWins(db.discs, id, row.(stableKey := None), row.(stableKey := Some(key)));
    }
  }

  lemma LastWriteWins(discs: map<Id, DiscRow>, id: Id, first: DiscRow, second: DiscRow)
    ensures discs[id := first][id := second] == discs[id := second]
  {
  }

  lemma KeyDoesNotMatter(db: Db, row: DiscRow, key: Option<string>)
    ensures TripleTaken(db, db.nextDisc, row.(stableKey := key)) <==> TripleTaken(db, db.nextDisc, row)
  {
    assert forall e :: e in db.discs ==> (SameTriple(row.(stableKey := key), db.discs[e]) <==> SameTriple(row, db.discs[e]));
  }

  // Whatever the lookup answers and whether or not the upsert succeeds, every foreign key and
  // every unique index holds afterwards.
  lemma UpsertKeepsCatalogValid(
    db: Db, found: Option<Id>, releaseId: Id, discNumber: u8, toc: Toc, ids: DiscIds, localKey: string)
    requires db.Valid() && IsLookup(db, ids, found)
    ensures UpsertOf(db, found, releaseId, discNumber, toc, ids, localKey).0.Valid()
  {
    hide Moved, InsertedDisc, TripleTaken;
    if found.None? {
      InsertKeepsValid(db, NewRow(releaseId, discNumber, toc, ids), localKey);
    } else if releaseId in db.releases {
      var disc := found.value;
      MoveKeepsValid(db, disc, releaseId);
      MoveKeepsForeignKeys(db, disc, releaseId);
      DiscsAfterMove(db, disc, releaseId);
      var row := MergedRow(db.discs[disc].(releaseId := releaseId), discNumber, toc, ids);
      if !TripleTaken(Moved(db, disc, releaseId), disc, row) {
        UpdateKeepsValid(Moved(db, disc, releaseId), disc, row);
      }
    }
  }

  lemma DiscsAfterMove(db: Db, disc: Id, releaseId: Id)
    requires db.Valid() && disc in db.discs && releaseId in db.releases
    ensures Moved(db, disc, releaseId).discs == db.discs[disc := db.discs[disc].(releaseId := releaseId)]
  {
    MoveSweepsExactly(db, disc, releaseId);
  }

  // ---------------------------------------------------------------- when it succeeds

  // All four identifiers present, as they are when derived from a table of contents.
  predicate Complete(ids: DiscIds) { ids.mbDiscid.Some? && HasTriple(ids) }

  lemma TripleTakenIgnoresTheMove(db: Db, disc: Id, releaseId: Id, row: DiscRow)
    requires db.Valid() && disc in db.discs && releaseId in db.releases
    ensures TripleTaken(Moved(db, disc, releaseId), disc, row) <==> TripleTaken(db, disc, row)
  {
    hide Moved;
    DiscsAfterMove(db, disc, releaseId);
    var m := Moved(db, disc, releaseId);
    forall e | e != disc
      ensures e in m.discs <==> e in db.discs
      ensures e in db.discs ==> m.discs[e] == db.discs[e]
    {
    }
  }

  // With complete identifiers a found disc is upserted exactly when no other disc holds the
  // AccurateRip triple: it fails precisely when the MusicBrainz id and the triple belong to
  // two different rows.
  lemma FoundDiscIsUpsertedExactly(
    db: Db, disc: Id, releaseId: Id, discNumber: u8, toc: Toc, ids: DiscIds, localKey: string)
    requires db.Valid() && IsLookup(db, ids, Some(disc)) && Complete(ids) && releaseId in db.releases
    ensures UpsertOf(db, Some(disc), releaseId, discNumber, toc, ids, localKey).1.Success?
       <==> forall e :: e in db.discs && TripleMatch(db.discs[e], ids) ==> e == disc
  {
    hide Moved;
    var row := MergedRow(db.discs[disc].(releaseId := releaseId), discNumber, toc, ids);
    TripleTakenIgnoresTheMove(db, disc, releaseId, row);
    assert forall e :: e in db.discs ==> (SameTriple(row, db.discs[e]) <==> TripleMatch(db.discs[e], ids));
  }

  // A disc no identifier finds is inserted exactly when its preferred key is still free.
  lemma NewDiscIsInsertedExactly(
    db: Db, releaseId: Id, discNumber: u8, toc: Toc, ids: DiscIds, localKey: string)
    requires db.Valid() && IsLookup(db, ids, None) && releaseId in db.releases
    ensures var row := NewRow(releaseId, discNumber, toc, ids);
            var (after, r) := UpsertOf(db, None, releaseId, discNumber, toc, ids, localKey);
            && (r.Success? <==> !DiscKeyTaken(db, PreferredKey(row, localKey)))
            && (r.Success? ==>
                  && r == Success((db.nextDisc, false)) && db.nextDisc !in db.discs
                  && after == db.(discs := db.discs[db.nextDisc := row.(stableKey := Some(PreferredKey(row, localKey)))],
                                  nextDisc := db.nextDisc + 1))
  {
    hide Db.Unique, Db.ForeignKeys;
    var row := NewRow(releaseId, discNumber, toc, ids);
    forall e | e in db.discs
      ensures !SameTriple(row, db.discs[e])
    {
      assert !MatchesIds(db.discs[e], ids);
    }
    assert !TripleTaken(db, db.nextDisc, row);
  }

  // A key that still names identifiers its disc no longer has refuses the disc that has them:
  // the insertion fails although no row matches.
  lemma StaleKeyRefusesNewDisc(
    db: Db, disc: Id, releaseId: Id, discNumber: u8, toc: Toc, ids: DiscIds, localKey: string)
    requires db.Valid() && disc in db.discs && releaseId in db.releases && HasTriple(ids)
    requires IsLookup(db, ids, None)
    requires db.discs[disc].stableKey == Some(PreferredKey(NewRow(releaseId, discNumber, toc, ids), localKey))
    ensures UpsertOf(db, None, releaseId, discNumber, toc, ids, localKey).1 == Failure(KeyTaken)
  {
    NewDiscIsInsertedExactly(db, releaseId, discNumber, toc, ids, localKey);
  }

  // The row after overrides of its MusicBrainz id and of its first AccurateRip id.
  function Overridden(row: DiscRow, mbDiscid: string, arDiscid1: string): DiscRow {
    WithDiscField(WithDiscField(row, "mb_discid", mbDiscid).value, "ar_discid1", arDiscid1).value
  }

  // How such a key comes about: a disc is inserted, overrides give its row other identifiers
  // and are written back, and the same identifiers come again. No lookup finds the row and the
  // insertion is refused.
  lemma OverriddenDiscIsRefused(
    db: Db, releaseId: Id, discNumber: u8, toc: Toc, ids: DiscIds, localKey: string,
    mbDiscid: string, arDiscid1: string, otherKey: string)
    requires db.Valid() && IsLookup(db, ids, None) && releaseId in db.releases && Complete(ids)
    requires UpsertOf(db, None, releaseId, discNumber, toc, ids, localKey).1.Success?
    requires Nullable(mbDiscid) != ids.mbDiscid && Nullable(arDiscid1) != ids.arDiscid1
    requires var row := Overridden(NewRow(releaseId, discNumber, toc, ids), mbDiscid, arDiscid1);
             !TripleTaken(db, db.nextDisc, row)
    ensures var (inserted, r) := UpsertOf(db, None, releaseId, discNumber, toc, ids, localKey);
            && r.value.0 in inserted.discs
            && var (updated, written) :=
                 UpdatedDisc(inserted, r.value.0, Overridden(inserted.discs[r.value.0], mbDiscid, arDiscid1));
               && written.Success? && updated.Valid()
               && (forall found :: IsLookup(updated, ids, found) <==> found == None)
               && UpsertOf(updated, None, releaseId, discNumber, toc, ids, otherKey).1 == Failure(KeyTaken)
  {
    hide Db.ForeignKeys, Db.Unique, TripleTaken, DiscKeyTaken, InsertedDisc, PreferredKey, IsLookup;
    NewDiscIsInsertedExactly(db, releaseId, discNumber, toc, ids, localKey);
    UpsertKeepsCatalogValid(db, None, releaseId, discNumber, toc, ids, localKey);
    var inserted := UpsertOf(db, None, releaseId, discNumber, toc, ids, localKey).0;
    hide UpsertOf;
    var id := db.nextDisc;
    var row := Overridden(inserted.discs[id], mbDiscid, arDiscid1);
    OverriddenChanges(inserted.discs[id], mbDiscid, arDiscid1);
    OverriddenChanges(NewRow(releaseId, discNumber, toc, ids), mbDiscid, arDiscid1);
    hide Overridden;
    OverrideFitsIndex(db, inserted, id, Overridden(NewRow(releaseId, discNumber, toc, ids), mbDiscid, arDiscid1), row);
    UpdateKeepsValid(inserted, id, row);
    var updated := inserted.(discs := inserted.discs[id := row]);
    OverriddenIsNotFound(db, updated, id, row, ids);
    PreferredKeyOfRow(releaseId, discNumber, toc, ids, localKey, otherKey);
    StaleKeyRefusesNewDisc(updated, id, releaseId, discNumber, toc, ids, otherKey);
  }

  lemma OverriddenChanges(row: DiscRow, mbDiscid: string, arDiscid1: string)
    ensures Overridden(row, mbDiscid, arDiscid1) == row.(mbDiscid := Nullable(mbDiscid), arDiscid1 := Nullable(arDiscid1))
  {
  }

  // With a triple the preferred key does not depend on the fallback.
  lemma PreferredKeyOfRow(releaseId: Id, discNumber: u8, toc: Toc, ids: DiscIds, localKey: string, otherKey: string)
    requires HasTriple(ids)
    ensures PreferredKey(NewRow(releaseId, discNumber, toc, ids), localKey)
         == PreferredKey(NewRow(releaseId, discNumber, toc, ids), otherKey)
  {
  }

  lemma OverrideFitsIndex(db: Db, inserted: Db, id: Id, before: DiscRow, row: DiscRow)
    requires !TripleTaken(db, id, before) && row == before.(stableKey := row.stableKey)
    requires forall e :: e in inserted.discs && e != id ==> e in db.discs && inserted.discs[e] == db.discs[e]
    ensures !TripleTaken(inserted, id, row)
  {
    forall e | e in inserted.discs && e != id
      ensures !SameTriple(row, inserted.discs[e])
    {
      assert !SameTriple(before, db.discs[e]);
    }
  }

  lemma OverriddenIsNotFound(db: Db, updated: Db, id: Id, row: DiscRow, ids: DiscIds)
    requires IsLookup(db, ids, None) && id in updated.discs && updated.discs[id] == row
    requires forall e :: e in updated.discs && e != id ==> e in db.discs && updated.discs[e] == db.discs[e]
    requires row.mbDiscid != ids.mbDiscid && row.arDiscid1 != ids.arDiscid1
    ensures forall found :: IsLookup(updated, ids, found) <==> found == None
  {
    forall e | e in updated.discs
      ensures !MatchesIds(updated.discs[e], ids)
    {
      if e != id {
        assert !MatchesIds(db.discs[e], ids);
      }
    }
  }

  // ---------------------------------------------------------------- idempotence

  predicate Identifying(ids: DiscIds) { ids.mbDiscid.Some? || HasTriple(ids) }

  lemma SecondUpsert(after: Db, id: Id, releaseId: Id, discNumber: u8, toc: Toc, ids: DiscIds, otherKey: string)
    requires after.Valid() && id in after.discs && releaseId in after.releases
    requires after.discs[id].releaseId == releaseId
    requires MergedRow(after.discs[id], discNumber, toc, ids) == after.discs[id]
    ensures UpsertOf(after, Some(id), releaseId, discNumber, toc, ids, otherKey) == (after, Success((id, true)))
  {
    var row := after.discs[id];
    assert row.(releaseId := releaseId) == row;
    assert !TripleTaken(after, id, row);
    assert after.discs[id := row] == after.discs;
  }

  // Whatever lookup answers, repeating the upsert returns the same id and changes nothing.
  ghost predicate Repeatable(after: Db, id: Id, releaseId: Id, discNumber: u8, toc: Toc, ids: DiscIds)
    requires after.ForeignKeys()
  {
    forall again: Option<Id>, key: string :: IsLookup(after, ids, again) ==>
      UpsertOf(after, again, releaseId, discNumber, toc, ids, key) == (after, Success((id, true)))
  }

  // A successful upsert is repeatable exactly when there is an identifier to find the disc by and
  // no row but the one found carries the MusicBrainz id.
  lemma UpsertIsRepeatableExactly(
    db: Db, found: Option<Id>, releaseId: Id, discNumber: u8, toc: Toc, ids: DiscIds, localKey: string)
    requires db.Valid() && IsLookup(db, ids, found)
    requires UpsertOf(db, found, releaseId, discNumber, toc, ids, localKey).1.Success?
    ensures var (after, r) := UpsertOf(db, found, releaseId, discNumber, toc, ids, localKey);
            && after.ForeignKeys()
            && (Repeatable(after, r.value.0, releaseId, discNumber, toc, ids)
                <==> Identifying(ids) && forall e :: e in db.discs && MbMatch(db.discs[e], ids) ==> found == Some(e))
  {
    hide Db.Unique, Moved, TripleTaken, InsertedDisc, Repeatable;
    var (after, r) := UpsertOf(db, found, releaseId, discNumber, toc, ids, localKey);
    var id := r.value.0;
    UpsertKeepsCatalogValid(db, found, releaseId, discNumber, toc, ids, localKey);
    UpsertedRow(db, found, releaseId, discNumber, toc, ids, localKey);
    hide UpsertOf;
    if Identifying(ids) && forall e :: e in db.discs && MbMatch(db.discs[e], ids) ==> found == Some(e) {
      OnlyRowIsRepeatable(after, id, releaseId, discNumber, toc, ids);
    } else if !Identifying(ids) {
      NothingFoundIsNotRepeatable(after, id, releaseId, discNumber, toc, ids);
    } else {
      var e :| e in db.discs && MbMatch(db.discs[e], ids) && found != Some(e);
      OtherRowIsNotRepeatable(after, id, e, releaseId, discNumber, toc, ids);
    }
  }

  // What a successful upsert leaves: the row, on the release and holding the identifiers, and
  // every other row as it was.
  lemma UpsertedRow(
    db: Db, found: Option<Id>, releaseId: Id, discNumber: u8, toc: Toc, ids: DiscIds, localKey: string)
    requires db.Valid() && IsLookup(db, ids, found)
    requires UpsertOf(db, found, releaseId, discNumber, toc, ids, localKey).1.Success?
    ensures var (after, r) := UpsertOf(db, found, releaseId, discNumber, toc, ids, localKey);
            var id := r.value.0;
            && (found.Some? ==> id == found.value) && (found.None? ==> id !in db.discs)
            && id in after.discs && releaseId in after.releases
            && after.discs[id].releaseId == releaseId
            && MergedRow(after.discs[id], discNumber, toc, ids) == after.discs[id]
            && (forall e :: e in after.discs && e != id ==> e in db.discs && after.discs[e] == db.discs[e])
            && (forall e :: e in db.discs ==> e in after.discs)
  {
    hide Moved, PreferredKey, DiscKeyTaken, TripleTaken, Db.Unique;
    if found.Some? {
      DiscsAfterMove(db, found.value, releaseId);
      MoveKeepsForeignKeys(db, found.value, releaseId);
    } else {
      NewDiscIsInsertedExactly(db, releaseId, discNumber, toc, ids, localKey);
    }
  }

  lemma OnlyRowIsRepeatable(after: Db, id: Id, releaseId: Id, discNumber: u8, toc: Toc, ids: DiscIds)
    requires after.Valid() && id in after.discs && releaseId in after.releases && Identifying(ids)
    requires after.discs[id].releaseId == releaseId
    requires MergedRow(after.discs[id], discNumber, toc, ids) == after.discs[id]
    requires forall e :: e in after.discs && e != id ==> !MbMatch(after.discs[e], ids)
    ensures Repeatable(after, id, releaseId, discNumber, toc, ids)
  {
    forall again: Option<Id>, key: string | IsLookup(after, ids, again)
      ensures UpsertOf(after, again, releaseId, discNumber, toc, ids, key) == (after, Success((id, true)))
    {
      LookupAnswersTheRow(after, id, ids, again);
      SecondUpsert(after, id, releaseId, discNumber, toc, ids, key);
    }
  }

  lemma LookupAnswersTheRow(after: Db, id: Id, ids: DiscIds, again: Option<Id>)
    requires after.Unique() && id in after.discs && Identifying(ids)
    requires ids.mbDiscid.Some? ==> after.discs[id].mbDiscid == ids.mbDiscid
    requires HasTriple(ids) ==> TripleMatch(after.discs[id], ids)
    requires forall e :: e in after.discs && e != id ==> !MbMatch(after.discs[e], ids)
    requires IsLookup(after, ids, again)
    ensures again == Some(id)
  {
    hide UniqueAlbumKeys, UniqueReleaseKeys, UniquePositions;
    assert MatchesIds(after.discs[id], ids);
    assert forall e :: e in after.discs && e != id ==> !SameTriple(after.discs[id], after.discs[e]);
  }

  lemma NothingFoundIsNotRepeatable(after: Db, id: Id, releaseId: Id, discNumber: u8, toc: Toc, ids: DiscIds)
    requires after.Valid() && !Identifying(ids)
    ensures !Repeatable(after, id, releaseId, discNumber, toc, ids)
  {
    hide InsertedDisc;
    assert IsLookup(after, ids, None);
    assert UpsertOf(after, None, releaseId, discNumber, toc, ids, "") != (after, Success((id, true)));
  }

  lemma OtherRowIsNotRepeatable(after: Db, id: Id, e: Id, releaseId: Id, discNumber: u8, toc: Toc, ids: DiscIds)
    requires after.Valid() && e in after.discs && e != id && MbMatch(after.discs[e], ids)
    ensures !Repeatable(after, id, releaseId, discNumber, toc, ids)
  {
    hide Moved, TripleTaken;
    assert IsLookup(after, ids, Some(e));
    assert UpsertOf(after, Some(e), releaseId, discNumber, toc, ids, "") != (after, Success((id, true)));
  }

  // At most one row answers to the identifiers.
  ghost predicate OneMatch(db: Db, ids: DiscIds) {
    forall d, e :: d in db.discs && e in db.discs && MatchesIds(db.discs[d], ids) && MatchesIds(db.discs[e], ids) ==> d == e
  }

  // Upserting the same disc again, whatever the second lookup answers, returns the same id and
  // changes nothing.
  lemma UpsertIsIdempotent(
    db: Db, found: Option<Id>, releaseId: Id, discNumber: u8, toc: Toc, ids: DiscIds,
    localKey: string, again: Option<Id>, otherKey: string)
    requires db.Valid() && IsLookup(db, ids, found) && OneMatch(db, ids) && Identifying(ids)
    requires UpsertOf(db, found, releaseId, discNumber, toc, ids, localKey).1.Success?
    requires IsLookup(UpsertOf(db, found, releaseId, discNumber, toc, ids, localKey).0, ids, again)
    ensures var (after, r) := UpsertOf(db, found, releaseId, discNumber, toc, ids, localKey);
            after.ForeignKeys()
            && UpsertOf(after, again, releaseId, discNumber, toc, ids, otherKey) == (after, Success((r.value.0, true)))
  {
    UpsertIsRepeatableExactly(db, found, releaseId, discNumber, toc, ids, localKey);
    hide UpsertOf, Db.Unique;
  }

  // Without any identifier no lookup ever answers, so every upsert adds another row.
  lemma UnidentifiedDiscIsAddedAgain(
    db: Db, releaseId: Id, discNumber: u8, toc: Toc, ids: DiscIds, localKey: string, again: Option<Id>)
    requires db.Valid() && releaseId in db.releases && !Identifying(ids) && !DiscKeyTaken(db, localKey)
    requires IsLookup(UpsertOf(db, None, releaseId, discNumber, toc, ids, localKey).0, ids, again)
    ensures again == None
    ensures |UpsertOf(db, None, releaseId, discNumber, toc, ids, localKey).0.discs| == |db.discs| + 1
  {
    assert forall e :: e in db.discs ==> !MatchesIds(db.discs[e], ids);
    NewDiscIsInsertedExactly(db, releaseId, discNumber, toc, ids, localKey);
  }
}
