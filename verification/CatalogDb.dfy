/**
  The catalog tables as maps keyed by row id, with the schema's cascades and uniqueness
  rules, and the meaning of the projection steps on them. Row ids are never reused.
 */
module CatalogDb {
  import opened Words
  import opened Results
  import opened Tocs

  type Id = nat

  datatype AlbumRow = AlbumRow(stableKey: string)

  datatype ReleaseRow = ReleaseRow(stableKey: string, albumId: Id)

  datatype DiscRow = DiscRow(
    stableKey: Option<string>, releaseId: Id, discNumber: u8, format: string, toc: Option<Toc>,
    mbDiscid: Option<string>, cddbId: Option<string>, arDiscid1: Option<string>, arDiscid2: Option<string>,
    mcn: Option<string>)

  datatype TrackRow = TrackRow(
    discId: Id, position: u8, title: Option<string>, artistCredit: Option<string>, lengthFrames: Option<u64>,
    isrc: Option<string>, mbid: Option<string>, recordingMbid: Option<string>)

  datatype RipRow = RipRow(discId: Option<Id>)

  datatype AssetRow = AssetRow(releaseId: Id)

  // A disagreement or an override: attached by stable key, with no foreign key.
  datatype LooseRow = LooseRow(entityKey: string)

  datatype DbError = ForeignKey | UniqueTriple | KeyTaken | UniqueTrack | MissingRow

  datatype Db = Db(
    albums: map<Id, AlbumRow>, releases: map<Id, ReleaseRow>, discs: map<Id, DiscRow>,
    tracks: map<Id, TrackRow>, rips: map<Id, RipRow>, assets: map<Id, AssetRow>,
    disagreements: map<Id, LooseRow>, overrides: map<Id, LooseRow>, nextDisc: Id, nextTrack: Id)
  {
    ghost predicate ForeignKeys() {
      && (forall r :: r in releases ==> releases[r].albumId in albums)
      && (forall d :: d in discs ==> discs[d].releaseId in releases)
      && (forall t :: t in tracks ==> tracks[t].discId in discs)
      && (forall f :: f in rips && rips[f].discId.Some? ==> rips[f].discId.value in discs)
      && (forall a :: a in assets ==> assets[a].releaseId in releases)
    }

    // The unique indexes of these four tables; SQL nulls never collide.
    ghost predicate Unique() {
      UniqueAlbumKeys(albums) && UniqueReleaseKeys(releases) && UniqueDiscs(discs) && UniquePositions(tracks)
    }

    ghost predicate Valid() {
      && ForeignKeys()
      && Unique()
      && (forall d :: d in discs ==> d < nextDisc)
      && (forall t :: t in tracks ==> t < nextTrack)
    }
  }

  ghost predicate UniqueAlbumKeys(albums: map<Id, AlbumRow>) {
    forall a, b :: a in albums && b in albums && a != b ==> albums[a].stableKey != albums[b].stableKey
  }

  ghost predicate UniqueReleaseKeys(releases: map<Id, ReleaseRow>) {
    forall r, s :: r in releases && s in releases && r != s ==> releases[r].stableKey != releases[s].stableKey
  }

  // One disc per AccurateRip triple, and per stable key.
  ghost predicate UniqueDiscs(discs: map<Id, DiscRow>) {
    && (forall d, e :: d in discs && e in discs && d != e ==> !SameTriple(discs[d], discs[e]))
    && (forall d, e :: d in discs && e in discs && d != e && discs[d].stableKey.Some? ==>
          discs[d].stableKey != discs[e].stableKey)
  }

  // One track per disc and position.
  ghost predicate UniquePositions(tracks: map<Id, TrackRow>) {
    forall t, u :: t in tracks && u in tracks && t != u ==>
      !(tracks[t].discId == tracks[u].discId && tracks[t].position == tracks[u].position)
  }

  predicate SameTriple(a: DiscRow, b: DiscRow) {
    && a.arDiscid1.Some? && a.arDiscid2.Some? && a.cddbId.Some?
    && a.arDiscid1 == b.arDiscid1 && a.arDiscid2 == b.arDiscid2 && a.cddbId == b.cddbId
  }

  // ---------------------------------------------------------------- deletion with cascades

  function DiscsOn(discs: map<Id, DiscRow>, releases: set<Id>): set<Id> {
    set d | d in discs && discs[d].releaseId in releases
  }

  function ReleasesOf(releases: map<Id, ReleaseRow>, album: Id): set<Id> {
    set r | r in releases && releases[r].albumId == album
  }

  function AssetsOff(assets: map<Id, AssetRow>, releases: set<Id>): map<Id, AssetRow> {
    map a | a in assets && assets[a].releaseId !in releases :: assets[a]
  }

  function TracksOff(tracks: map<Id, TrackRow>, discs: set<Id>): map<Id, TrackRow> {
    map t | t in tracks && tracks[t].discId !in discs :: tracks[t]
  }

  function Unset(rips: map<Id, RipRow>, discs: set<Id>): map<Id, RipRow> {
    map f | f in rips :: if rips[f].discId.Some? && rips[f].discId.value in discs then RipRow(None) else rips[f]
  }

  // Tracks go with their disc; a rip file survives with its disc unset.
  function DropDiscs(db: Db, gone: set<Id>): Db {
    db.(discs := db.discs - gone, tracks := TracksOff(db.tracks, gone), rips := Unset(db.rips, gone))
  }

  // Assets and discs go with their release.
  function DropReleases(db: Db, gone: set<Id>): Db {
    DropDiscs(db.(releases := db.releases - gone, assets := AssetsOff(db.assets, gone)), DiscsOn(db.discs, gone))
  }

  function DropAlbum(db: Db, album: Id): Db {
    DropReleases(db.(albums := db.albums - {album}), ReleasesOf(db.releases, album))
  }

  function WithoutLoose(rows: map<Id, LooseRow>, key: string): map<Id, LooseRow> {
    map i | i in rows && rows[i].entityKey != key :: rows[i]
  }

  function ClearLoose(db: Db, key: string): Db {
    db.(disagreements := WithoutLoose(db.disagreements, key), overrides := WithoutLoose(db.overrides, key))
  }

  // ---------------------------------------------------------------- finding a disc

  predicate HasTriple(ids: DiscIds) { ids.arDiscid1.Some? && ids.arDiscid2.Some? && ids.cddbId.Some? }

  predicate MbMatch(row: DiscRow, ids: DiscIds) { ids.mbDiscid.Some? && row.mbDiscid == ids.mbDiscid }

  predicate TripleMatch(row: DiscRow, ids: DiscIds) {
    HasTriple(ids) && row.arDiscid1 == ids.arDiscid1 && row.arDiscid2 == ids.arDiscid2 && row.cddbId == ids.cddbId
  }

  ghost predicate MatchesIds(row: DiscRow, ids: DiscIds) { MbMatch(row, ids) || TripleMatch(row, ids) }

  // Any row with the MusicBrainz id, else any row with the AccurateRip triple. Several rows may
  // share a MusicBrainz id, and the database may return any of them.
  ghost predicate IsLookup(db: Db, ids: DiscIds, found: Option<Id>) {
    match found
    case Some(d) =>
      d in db.discs
      && (MbMatch(db.discs[d], ids)
          || (TripleMatch(db.discs[d], ids) && forall e :: e in db.discs ==> !MbMatch(db.discs[e], ids)))
    case None => forall e :: e in db.discs ==> !MatchesIds(db.discs[e], ids)
  }

  // ---------------------------------------------------------------- the orphan sweep

  ghost predicate HasDiscs(db: Db, release: Id) {
    exists d :: d in db.discs && db.discs[d].releaseId == release
  }

  ghost predicate HasReleases(db: Db, album: Id) {
    exists r :: r in db.releases && db.releases[r].albumId == album
  }

  ghost function SweepAlbum(db: Db, album: Id): Db
    requires album in db.albums
  {
    if HasReleases(db, album) then db
    else DropAlbum(ClearLoose(db, db.albums[album].stableKey), album)
  }

  ghost function Sweep(db: Db, release: Id): Db
    requires release in db.releases && db.releases[release].albumId in db.albums
  {
    if HasDiscs(db, release) then db
    else
      var row := db.releases[release];
      SweepAlbum(DropReleases(ClearLoose(db, row.stableKey), {release}), row.albumId)
  }

  // ---------------------------------------------------------------- upserting a disc

  function MergedRow(row: DiscRow, discNumber: u8, toc: Toc, ids: DiscIds): DiscRow {
    row.(discNumber := discNumber, toc := Some(toc),
         mbDiscid := Or(ids.mbDiscid, row.mbDiscid), cddbId := Or(ids.cddbId, row.cddbId),
         arDiscid1 := Or(ids.arDiscid1, row.arDiscid1), arDiscid2 := Or(ids.arDiscid2, row.arDiscid2))
  }

  function NewRow(releaseId: Id, discNumber: u8, toc: Toc, ids: DiscIds): DiscRow {
    DiscRow(None, releaseId, discNumber, "CD", Some(toc),
            ids.mbDiscid, ids.cddbId, ids.arDiscid1, ids.arDiscid2, None)
  }

  // The stable key a new disc prefers.
  function PreferredKey(row: DiscRow, localKey: string): string {
    if row.arDiscid1.Some? && row.arDiscid2.Some? && row.cddbId.Some? then
      "disc:accuraterip:" + row.arDiscid1.value + ":" + row.arDiscid2.value + ":" + row.cddbId.value
    else if row.mbDiscid.Some? then "disc:musicbrainz:" + row.mbDiscid.value
    else localKey
  }

  ghost predicate TripleTaken(db: Db, disc: Id, row: DiscRow) {
    exists e :: e in db.discs && e != disc && SameTriple(row, db.discs[e])
  }

  ghost predicate DiscKeyTaken(db: Db, key: string) {
    exists e :: e in db.discs && db.discs[e].stableKey == Some(key)
  }

  // UPDATE of one row: refused, with nothing changed, by the foreign key or the unique triple.
  ghost function UpdatedDisc(db: Db, disc: Id, row: DiscRow): (Db, Result<(), DbError>) {
    if row.releaseId !in db.releases then (db, Failure(ForeignKey))
    else if TripleTaken(db, disc, row) then (db, Failure(UniqueTriple))
    else (db.(discs := db.discs[disc := row]), Success(()))
  }

  type Upserted = (Db, Result<(Id, bool), DbError>)

  ghost function InsertedDisc(db: Db, row: DiscRow, localKey: string): (Db, Result<Id, DbError>) {
    var id, key := db.nextDisc, PreferredKey(row, localKey);
    if row.releaseId !in db.releases then (db, Failure(ForeignKey))
    else if TripleTaken(db, id, row) then (db, Failure(UniqueTriple))
    else
      var inserted := db.(discs := db.discs[id := row.(stableKey := None)], nextDisc := id + 1);
      if DiscKeyTaken(db, key) then (inserted, Failure(KeyTaken))
      else (inserted.(discs := inserted.discs[id := row.(stableKey := Some(key))]), Success(id))
  }

  // The existing disc after it has been moved to the release, if it was elsewhere.
  ghost function Moved(db: Db, disc: Id, releaseId: Id): Db
    requires db.ForeignKeys() && disc in db.discs && releaseId in db.releases
  {
    var former := db.discs[disc].releaseId;
    if former == releaseId then db
    else Sweep(db.(discs := db.discs[disc := db.discs[disc].(releaseId := releaseId)]), former)
  }

  ghost function UpsertOf(db: Db, found: Option<Id>, releaseId: Id, discNumber: u8, toc: Toc, ids: DiscIds,
                          localKey: string): Upserted
    requires db.ForeignKeys() && (found.Some? ==> found.value in db.discs)
  {
    match found
    case Some(disc) =>
      if releaseId !in db.releases then (db, Failure(ForeignKey))
      else
        var moved := Moved(db, disc, releaseId);
        var row := MergedRow(db.discs[disc].(releaseId := releaseId), discNumber, toc, ids);
        if TripleTaken(moved, disc, row) then (moved, Failure(UniqueTriple))
        else (moved.(discs := moved.discs[disc := row]), Success((disc, true)))
    case None =>
      match InsertedDisc(db, NewRow(releaseId, discNumber, toc, ids), localKey)
      case (after, Success(id)) => (after, Success((id, false)))
      case (after, Failure(e)) => (after, Failure(e))
  }
}
