/**
  Refreshing a disc's tracks from merged metadata: rows that exist are updated in place,
  missing positions are inserted, nothing is deleted.
 */
module TrackRefresh {
  import opened Words
  import opened Results
  import opened Metadata
  import opened CatalogDb

  // ---------------------------------------------------------------- specification

  // A track row with its id, as the listing of a disc's tracks returns it.
  type Listed = (Id, TrackRow)

  datatype Refresh = Refresh(tracks: map<Id, TrackRow>, nextTrack: Id, existing: map<u8, Listed>, out: seq<Listed>)

  // The tracks of a disc by position.
  function IndexOf(tracks: map<Id, TrackRow>, disc: Id): map<u8, Listed>
    requires UniquePositions(tracks)
  {
    map t | t in tracks && tracks[t].discId == disc :: tracks[t].position := (t, tracks[t])
  }

  function Blank(disc: Id, position: u8): TrackRow {
    TrackRow(disc, position, None, None, None, None, None, None)
  }

  // A present value of the metadata replaces the stored one; an absent value keeps it.
  function Updated(row: TrackRow, m: TrackMeta): TrackRow {
    row.(title := Or(m.title, row.title), artistCredit := Or(m.artistCredit, row.artistCredit),
         lengthFrames := Or(m.lengthFrames, row.lengthFrames), isrc := Or(m.isrc, row.isrc), mbid := Or(m.mbid, row.mbid))
  }

  ghost predicate PositionTaken(tracks: map<Id, TrackRow>, disc: Id, position: u8) {
    exists t :: t in tracks && tracks[t].discId == disc && tracks[t].position == position
  }

  ghost function RefreshStep(r: Refresh, discKnown: bool, disc: Id, m: TrackMeta): (Refresh, Option<DbError>) {
    if m.position in r.existing then
      var id := r.existing[m.position].0;
      var row := Updated(r.existing[m.position].1, m);
      (Refresh(r.tracks[id := row], r.nextTrack, r.existing - {m.position}, r.out + [(id, row)]), None)
    else if !discKnown then (r, Some(ForeignKey))
    else if PositionTaken(r.tracks, disc, m.position) then (r, Some(UniqueTrack))
    else
      var row := Updated(Blank(disc, m.position), m);
      (Refresh(r.tracks[r.nextTrack := row], r.nextTrack + 1, r.existing, r.out + [(r.nextTrack, row)]), None)
  }

  // The state after the metadata in order, up to the first error.
  ghost function RefreshFrom(start: Refresh, discKnown: bool, disc: Id, metas: seq<TrackMeta>): (Refresh, Option<DbError>) {
    if metas == [] then (start, None)
    else
      var before := RefreshFrom(start, discKnown, disc, metas[..|metas| - 1]);
      if before.1.Some? then before else RefreshStep(before.0, discKnown, disc, metas[|metas| - 1])
  }

  ghost predicate Addresses(row: TrackRow, disc: Id, m: TrackMeta) {
    row.discId == disc && row.position == m.position
  }

  ghost predicate Unaddressed(row: TrackRow, disc: Id, metas: seq<TrackMeta>) {
    forall m <- metas :: !Addresses(row, disc, m)
  }

  // Every row keeps its id; it changes only if it is addressed, and then by the update rule.
  ghost predicate RowsKept(tracks: map<Id, TrackRow>, disc: Id, metas: seq<TrackMeta>, now: map<Id, TrackRow>) {
    && (forall t :: t in tracks ==> t in now)
    && (forall t, m :: t in tracks && m in metas && Addresses(tracks[t], disc, m) ==> now[t] == Updated(tracks[t], m))
    && (forall t :: t in tracks && Unaddressed(tracks[t], disc, metas) ==> now[t] == tracks[t])
  }

  ghost predicate Added(tracks: map<Id, TrackRow>, disc: Id, metas: seq<TrackMeta>, row: TrackRow) {
    exists m <- metas :: row == Updated(Blank(disc, m.position), m) && !PositionTaken(tracks, disc, m.position)
  }

  // A new row is the update of a blank one at a position no row had, under a new id.
  ghost predicate RowsAdded(tracks: map<Id, TrackRow>, nextTrack: Id, disc: Id, metas: seq<TrackMeta>,
                            now: map<Id, TrackRow>, nowNext: Id)
  {
    && nextTrack <= nowNext
    && forall t :: t in now && t !in tracks ==> nextTrack <= t < nowNext && Added(tracks, disc, metas, now[t])
  }

  // One result per metadata entry, in order, and it is the row in the table.
  ghost predicate ResultsMatch(disc: Id, metas: seq<TrackMeta>, now: map<Id, TrackRow>, out: seq<Listed>) {
    && |out| == |metas|
    && forall i :: 0 <= i < |metas| ==>
         out[i].0 in now && now[out[i].0] == out[i].1 && Addresses(out[i].1, disc, metas[i])
  }

  // What a refresh makes of the tracks.
  ghost predicate Refreshed(tracks: map<Id, TrackRow>, nextTrack: Id, disc: Id, metas: seq<TrackMeta>, r: Refresh) {
    && RowsKept(tracks, disc, metas, r.tracks)
    && RowsAdded(tracks, nextTrack, disc, metas, r.tracks, r.nextTrack)
    && ResultsMatch(disc, metas, r.tracks, r.out)
    && UniquePositions(r.tracks)
  }

  // The index holds the original rows whose position has not come up yet.
  ghost predicate Pending(tracks: map<Id, TrackRow>, disc: Id, metas: seq<TrackMeta>, existing: map<u8, Listed>) {
    && (forall p :: p in existing ==>
          && existing[p].0 in tracks && existing[p].1 == tracks[existing[p].0]
          && existing[p].1.discId == disc && existing[p].1.position == p
          && forall m <- metas :: m.position != p)
    && (forall t :: t in tracks && tracks[t].discId == disc && Unaddressed(tracks[t], disc, metas) ==>
          tracks[t].position in existing)
  }

  // ---------------------------------------------------------------- an existing row is updated

  lemma UpdateKeepsRows(tracks: map<Id, TrackRow>, disc: Id, metas: seq<TrackMeta>, now: map<Id, TrackRow>, id: Id, m: TrackMeta)
    requires RowsKept(tracks, disc, metas, now) && UniquePositions(tracks)
    requires id in tracks && Addresses(tracks[id], disc, m) && Unaddressed(tracks[id], disc, metas)
    ensures now[id] == tracks[id]
    ensures RowsKept(tracks, disc, metas + [m], now[id := Updated(now[id], m)])
  {
    var next, longer := now[id := Updated(now[id], m)], metas + [m];
    forall t, k | t in tracks && k in longer && Addresses(tracks[t], disc, k)
      ensures next[t] == Updated(tracks[t], k)
    {
      if t == id {
        assert k !in metas;
      }
    }
    forall t | t in tracks && Unaddressed(tracks[t], disc, longer)
      ensures next[t] == tracks[t]
    {
      assert m in longer;
      assert forall k <- metas :: k in longer;
    }
  }

  lemma AddedToMore(tracks: map<Id, TrackRow>, disc: Id, metas: seq<TrackMeta>, m: TrackMeta, row: TrackRow)
    requires Added(tracks, disc, metas, row)
    ensures Added(tracks, disc, metas + [m], row)
  {
    var k :| k in metas && row == Updated(Blank(disc, k.position), k) && !PositionTaken(tracks, disc, k.position);
    assert k in metas + [m];
  }

  lemma UpdateKeepsAdded(tracks: map<Id, TrackRow>, nextTrack: Id, disc: Id, metas: seq<TrackMeta>,
                         now: map<Id, TrackRow>, nowNext: Id, id: Id, m: TrackMeta, row: TrackRow)
    requires RowsAdded(tracks, nextTrack, disc, metas, now, nowNext) && id in tracks
    ensures RowsAdded(tracks, nextTrack, disc, metas + [m], now[id := row], nowNext)
  {
    hide Added;
    forall t | t in now && t !in tracks
      ensures Added(tracks, disc, metas + [m], now[t])
    {
      AddedToMore(tracks, disc, metas, m, now[t]);
    }
  }

  lemma ResultsGrow(disc: Id, metas: seq<TrackMeta>, now: map<Id, TrackRow>, out: seq<Listed>, id: Id,
                    m: TrackMeta, row: TrackRow)
    requires ResultsMatch(disc, metas, now, out) && Addresses(row, disc, m)
    requires forall i :: 0 <= i < |out| ==> out[i].0 != id
    ensures ResultsMatch(disc, metas + [m], now[id := row], out + [(id, row)])
  {
  }

  lemma UpdateKeepsUnique(now: map<Id, TrackRow>, id: Id, m: TrackMeta)
    requires UniquePositions(now) && id in now
    ensures UniquePositions(now[id := Updated(now[id], m)])
  {
  }

  lemma UpdateKeepsPending(tracks: map<Id, TrackRow>, disc: Id, metas: seq<TrackMeta>, existing: map<u8, Listed>, m: TrackMeta)
    requires Pending(tracks, disc, metas, existing) && m.position in existing
    ensures Pending(tracks, disc, metas + [m], existing - {m.position})
  {
    var longer := metas + [m];
    assert m in longer && forall k <- metas :: k in longer;
    forall t | t in tracks && tracks[t].discId == disc && Unaddressed(tracks[t], disc, longer)
      ensures tracks[t].position in existing - {m.position}
    {
      assert Unaddressed(tracks[t], disc, metas);
      assert !Addresses(tracks[t], disc, m);
    }
  }

  lemma UpdateStep(tracks: map<Id, TrackRow>, nextTrack: Id, disc: Id, metas: seq<TrackMeta>, r: Refresh, m: TrackMeta,
                   next: Refresh)
    requires Refreshed(tracks, nextTrack, disc, metas, r) && Pending(tracks, disc, metas, r.existing)
    requires UniquePositions(tracks) && m.position in r.existing
    requires var (id, stored) := r.existing[m.position]; var row := Updated(stored, m);
             next == Refresh(r.tracks[id := row], r.nextTrack, r.existing - {m.position}, r.out + [(id, row)])
    ensures Refreshed(tracks, nextTrack, disc, metas + [m], next) && Pending(tracks, disc, metas + [m], next.existing)
  {
    var (id, stored) := r.existing[m.position];
    assert id in tracks && Addresses(tracks[id], disc, m) && Unaddressed(tracks[id], disc, metas);
    assert r.tracks[id] == tracks[id] == stored;
    forall i | 0 <= i < |r.out|
      ensures r.out[i].0 != id
    {
      assert metas[i] in metas;
    }
    hide RowsKept, RowsAdded, ResultsMatch, UniquePositions, Pending, Unaddressed;
    var row := Updated(r.tracks[id], m);
    UpdateKeepsRows(tracks, disc, metas, r.tracks, id, m);
    UpdateKeepsAdded(tracks, nextTrack, disc, metas, r.tracks, r.nextTrack, id, m, row);
    ResultsGrow(disc, metas, r.tracks, r.out, id, m, row);
    UpdateKeepsUnique(r.tracks, id, m);
    UpdateKeepsPending(tracks, disc, metas, r.existing, m);
  }

  // ---------------------------------------------------------------- a missing row is inserted

  // A position taken at the start is still taken.
  lemma TakenStaysTaken(tracks: map<Id, TrackRow>, disc: Id, metas: seq<TrackMeta>, now: map<Id, TrackRow>, position: u8)
    requires RowsKept(tracks, disc, metas, now) && PositionTaken(tracks, disc, position)
    ensures PositionTaken(now, disc, position)
  {
    var t :| t in tracks && tracks[t].discId == disc && tracks[t].position == position;
    if Unaddressed(tracks[t], disc, metas) {
      assert now[t] == tracks[t];
    } else {
      var m :| m in metas && Addresses(tracks[t], disc, m);
      assert now[t] == Updated(tracks[t], m);
    }
  }

  lemma InsertKeepsRows(tracks: map<Id, TrackRow>, disc: Id, metas: seq<TrackMeta>, now: map<Id, TrackRow>, id: Id,
                        m: TrackMeta, row: TrackRow)
    requires RowsKept(tracks, disc, metas, now) && id !in tracks && !PositionTaken(tracks, disc, m.position)
    ensures RowsKept(tracks, disc, metas + [m], now[id := row])
  {
    var longer := metas + [m];
    assert forall k <- metas :: k in longer;
    forall t | t in tracks
      ensures !Addresses(tracks[t], disc, m)
      ensures Unaddressed(tracks[t], disc, longer) ==> Unaddressed(tracks[t], disc, metas)
    {
    }
  }

  lemma InsertKeepsAdded(tracks: map<Id, TrackRow>, nextTrack: Id, disc: Id, metas: seq<TrackMeta>,
                         now: map<Id, TrackRow>, nowNext: Id, m: TrackMeta)
    requires RowsAdded(tracks, nextTrack, disc, metas, now, nowNext) && !PositionTaken(tracks, disc, m.position)
    requires nowNext !in tracks
    ensures RowsAdded(tracks, nextTrack, disc, metas + [m], now[nowNext := Updated(Blank(disc, m.position), m)], nowNext + 1)
  {
    assert m in metas + [m];
    var row := Updated(Blank(disc, m.position), m);
    assert Added(tracks, disc, metas + [m], row);
    hide Added;
    forall t | t in now && t !in tracks
      ensures Added(tracks, disc, metas + [m], now[t])
    {
      AddedToMore(tracks, disc, metas, m, now[t]);
    }
  }

  lemma InsertKeepsUnique(now: map<Id, TrackRow>, disc: Id, id: Id, m: TrackMeta)
    requires UniquePositions(now) && id !in now && !PositionTaken(now, disc, m.position)
    ensures UniquePositions(now[id := Updated(Blank(disc, m.position), m)])
  {
  }

  lemma InsertKeepsPending(tracks: map<Id, TrackRow>, disc: Id, metas: seq<TrackMeta>, existing: map<u8, Listed>, m: TrackMeta)
    requires Pending(tracks, disc, metas, existing) && m.position !in existing
    ensures Pending(tracks, disc, metas + [m], existing)
  {
    var longer := metas + [m];
    assert forall k <- metas :: k in longer;
    forall t | t in tracks && tracks[t].discId == disc && Unaddressed(tracks[t], disc, longer)
      ensures tracks[t].position in existing
    {
      assert Unaddressed(tracks[t], disc, metas);
    }
  }

  lemma NextIdIsFree(tracks: map<Id, TrackRow>, nextTrack: Id, disc: Id, metas: seq<TrackMeta>, r: Refresh)
    requires Refreshed(tracks, nextTrack, disc, metas, r) && forall t :: t in tracks ==> t < nextTrack
    ensures r.nextTrack !in tracks && r.nextTrack !in r.tracks
    ensures forall i :: 0 <= i < |r.out| ==> r.out[i].0 != r.nextTrack
  {
    hide Added, Unaddressed, Updated;
  }

  lemma InsertStep(tracks: map<Id, TrackRow>, nextTrack: Id, disc: Id, metas: seq<TrackMeta>, r: Refresh, m: TrackMeta,
                   next: Refresh)
    requires Refreshed(tracks, nextTrack, disc, metas, r) && Pending(tracks, disc, metas, r.existing)
    requires forall t :: t in tracks ==> t < nextTrack
    requires m.position !in r.existing && !PositionTaken(r.tracks, disc, m.position)
    requires var row := Updated(Blank(disc, m.position), m);
             next == Refresh(r.tracks[r.nextTrack := row], r.nextTrack + 1, r.existing, r.out + [(r.nextTrack, row)])
    ensures Refreshed(tracks, nextTrack, disc, metas + [m], next) && Pending(tracks, disc, metas + [m], next.existing)
  {
    var row := Updated(Blank(disc, m.position), m);
    hide PositionTaken, Unaddressed, Added, Updated, Blank;
    NextIdIsFree(tracks, nextTrack, disc, metas, r);
    if PositionTaken(tracks, disc, m.position) {
      TakenStaysTaken(tracks, disc, metas, r.tracks, m.position);
    }
    hide RowsKept, RowsAdded, UniquePositions, Pending, ResultsMatch;
    BlankAddresses(disc, m);
    InsertKeepsRows(tracks, disc, metas, r.tracks, r.nextTrack, m, row);
    InsertKeepsAdded(tracks, nextTrack, disc, metas, r.tracks, r.nextTrack, m);
    assert Addresses(row, disc, m);
    ResultsGrow(disc, metas, r.tracks, r.out, r.nextTrack, m, row);
    InsertKeepsUnique(r.tracks, disc, r.nextTrack, m);
    InsertKeepsPending(tracks, disc, metas, r.existing, m);
  }

  // ---------------------------------------------------------------- the whole refresh

  // A position absent from the index but taken was already addressed in this refresh.
  lemma TakenMeansAddressed(tracks: map<Id, TrackRow>, nextTrack: Id, disc: Id, metas: seq<TrackMeta>, r: Refresh,
                            position: u8)
    requires Refreshed(tracks, nextTrack, disc, metas, r) && Pending(tracks, disc, metas, r.existing)
    requires position !in r.existing && PositionTaken(r.tracks, disc, position)
    ensures exists m <- metas :: m.position == position
  {
    var t :| t in r.tracks && r.tracks[t].discId == disc && r.tracks[t].position == position;
    if t in tracks {
      assert r.tracks[t] == tracks[t] || !Unaddressed(tracks[t], disc, metas);
      var m :| m in metas && Addresses(tracks[t], disc, m);
      assert r.tracks[t] == Updated(tracks[t], m);
    } else {
      assert Added(tracks, disc, metas, r.tracks[t]);
    }
  }

  // An addressed position is taken, and no longer in the index.
  lemma AddressedMeansTaken(tracks: map<Id, TrackRow>, nextTrack: Id, disc: Id, metas: seq<TrackMeta>, r: Refresh,
                            m: TrackMeta)
    requires Refreshed(tracks, nextTrack, disc, metas, r) && Pending(tracks, disc, metas, r.existing)
    requires exists k <- metas :: k.position == m.position
    ensures m.position !in r.existing && PositionTaken(r.tracks, disc, m.position)
  {
    var k :| k in metas && k.position == m.position;
    var i :| 0 <= i < |metas| && metas[i] == k;
    assert Addresses(r.out[i].1, disc, metas[i]);
  }

  // A refresh of a catalogued disc succeeds exactly when the positions are distinct, and
  // otherwise stops at the unique index; what it has done by then follows the update rule.
  lemma {:induction false} RefreshOutcome(tracks: map<Id, TrackRow>, nextTrack: Id, disc: Id, index: map<u8, Listed>,
                                          metas: seq<TrackMeta>)
    requires UniquePositions(tracks) && Pending(tracks, disc, [], index)
    requires forall t :: t in tracks ==> t < nextTrack
    ensures var (r, error) := RefreshFrom(Refresh(tracks, nextTrack, index, []), true, disc, metas);
            && (error == None <==> DistinctPositions(metas))
            && (error.Some? ==> error == Some(UniqueTrack))
            && (error == None ==> Refreshed(tracks, nextTrack, disc, metas, r) && Pending(tracks, disc, metas, r.existing))
  {
    hide Refreshed, Pending, UniquePositions;
    var start := Refresh(tracks, nextTrack, index, []);
    if metas == [] {
      NothingRefreshed(tracks, nextTrack, disc, index);
    } else {
      var front, m := metas[..|metas| - 1], metas[|metas| - 1];
      RefreshOutcome(tracks, nextTrack, disc, index, front);
      assert metas == front + [m];
      var (r, error) := RefreshFrom(start, true, disc, front);
      assert DistinctPositions(metas) <==> DistinctPositions(front) && !(exists k <- front :: k.position == m.position);
      if error == None {
        if exists k <- front :: k.position == m.position {
          AddressedMeansTaken(tracks, nextTrack, disc, front, r, m);
        } else if m.position in r.existing {
          UpdateStep(tracks, nextTrack, disc, front, r, m, RefreshStep(r, true, disc, m).0);
        } else {
          if PositionTaken(r.tracks, disc, m.position) {
            TakenMeansAddressed(tracks, nextTrack, disc, front, r, m.position);
          }
          InsertStep(tracks, nextTrack, disc, front, r, m, RefreshStep(r, true, disc, m).0);
        }
      }
    }
  }

  // After an error the rest of the metadata is not looked at.
  lemma {:induction false} RefreshStops(start: Refresh, discKnown: bool, disc: Id, metas: seq<TrackMeta>, n: nat)
    requires n <= |metas| && RefreshFrom(start, discKnown, disc, metas[..n]).1.Some?
    ensures RefreshFrom(start, discKnown, disc, metas) == RefreshFrom(start, discKnown, disc, metas[..n])
  {
    if n < |metas| {
      assert metas[..|metas| - 1][..n] == metas[..n];
      RefreshStops(start, discKnown, disc, metas[..|metas| - 1], n);
    } else {
      assert metas[..n] == metas;
    }
  }

  lemma RefreshOfNone(start: Refresh, discKnown: bool, disc: Id, metas: seq<TrackMeta>)
    ensures RefreshFrom(start, discKnown, disc, metas[..0]) == (start, None)
  {
  }

  lemma RefreshNext(start: Refresh, discKnown: bool, disc: Id, metas: seq<TrackMeta>, i: nat)
    requires i < |metas| && RefreshFrom(start, discKnown, disc, metas[..i]).1.None?
    ensures RefreshFrom(start, discKnown, disc, metas[..i + 1])
         == RefreshStep(RefreshFrom(start, discKnown, disc, metas[..i]).0, discKnown, disc, metas[i])
  {
    hide RefreshStep;
    assert metas[..i + 1][..i] == metas[..i];
  }

  lemma BlankAddresses(disc: Id, m: TrackMeta)
    ensures Updated(Blank(disc, m.position), m).discId == disc
    ensures Updated(Blank(disc, m.position), m).position == m.position
  {
  }

  lemma NothingRefreshed(tracks: map<Id, TrackRow>, nextTrack: Id, disc: Id, index: map<u8, Listed>)
    requires UniquePositions(tracks)
    ensures Refreshed(tracks, nextTrack, disc, [], Refresh(tracks, nextTrack, index, []))
  {
  }

  lemma IndexIsPending(tracks: map<Id, TrackRow>, disc: Id)
    requires UniquePositions(tracks)
    ensures Pending(tracks, disc, [], IndexOf(tracks, disc))
  {
  }

  // ---------------------------------------------------------------- consequences

  // An update never loses a value: a field present before is present afterwards, and a field
  // the metadata leaves out is untouched.
  lemma UpdateNeverErases(row: TrackRow, m: TrackMeta)
    ensures var r := Updated(row, m);
            && (row.title.Some? ==> r.title.Some?) && (m.title.None? ==> r.title == row.title)
            && (row.artistCredit.Some? ==> r.artistCredit.Some?) && (m.artistCredit.None? ==> r.artistCredit == row.artistCredit)
            && (row.lengthFrames.Some? ==> r.lengthFrames.Some?) && (m.lengthFrames.None? ==> r.lengthFrames == row.lengthFrames)
            && (row.isrc.Some? ==> r.isrc.Some?) && (m.isrc.None? ==> r.isrc == row.isrc)
            && (row.mbid.Some? ==> r.mbid.Some?) && (m.mbid.None? ==> r.mbid == row.mbid)
            && r.recordingMbid == row.recordingMbid && r.discId == row.discId && r.position == row.position
  {
  }

  // The row's five metadata fields are the metadata's where it has a value, and as before where
  // it has none; disc, position and recording stay.
  ghost predicate TakesMetadata(before: TrackRow, m: TrackMeta, after: TrackRow) {
    && after.title == (if m.title.Some? then m.title else before.title)
    && after.artistCredit == (if m.artistCredit.Some? then m.artistCredit else before.artistCredit)
    && after.lengthFrames == (if m.lengthFrames.Some? then m.lengthFrames else before.lengthFrames)
    && after.isrc == (if m.isrc.Some? then m.isrc else before.isrc)
    && after.mbid == (if m.mbid.Some? then m.mbid else before.mbid)
    && after.discId == before.discId && after.position == before.position && after.recordingMbid == before.recordingMbid
  }

  // A successful refresh writes the metadata: into the disc's row at each listed position that has
  // one, and otherwise into a new row that holds the metadata alone. All other rows stay.
  lemma RefreshWritesMetadata(tracks: map<Id, TrackRow>, nextTrack: Id, disc: Id, index: map<u8, Listed>,
                              metas: seq<TrackMeta>)
    requires UniquePositions(tracks) && Pending(tracks, disc, [], index) && DistinctPositions(metas)
    requires forall t :: t in tracks ==> t < nextTrack
    ensures var now := RefreshFrom(Refresh(tracks, nextTrack, index, []), true, disc, metas).0.tracks;
            && (forall t, m :: t in tracks && m in metas && tracks[t].discId == disc && tracks[t].position == m.position ==>
                  t in now && TakesMetadata(tracks[t], m, now[t]))
            && (forall t :: t in tracks && (tracks[t].discId != disc || forall m <- metas :: m.position != tracks[t].position) ==>
                  t in now && now[t] == tracks[t])
            && (forall t :: t in now && t !in tracks ==>
                  exists m <- metas ::
                    && now[t] == TrackRow(disc, m.position, m.title, m.artistCredit, m.lengthFrames, m.isrc, m.mbid, None)
                    && forall u :: u in tracks ==> tracks[u].discId != disc || tracks[u].position != m.position)
            && (forall m <- metas :: exists t :: t in now && now[t].discId == disc && now[t].position == m.position)
  {
    RefreshOutcome(tracks, nextTrack, disc, index, metas);
    var r := RefreshFrom(Refresh(tracks, nextTrack, index, []), true, disc, metas).0;
    hide RefreshFrom, Pending, UniquePositions, RowsKept, RowsAdded, ResultsMatch, TakesMetadata, DistinctPositions;
    KeptRowsTakeMetadata(tracks, disc, metas, r.tracks);
    AddedRowsHoldMetadata(tracks, nextTrack, disc, metas, r.tracks, r.nextTrack);
    ResultsCoverMetadata(disc, metas, r.tracks, r.out);
  }

  lemma KeptRowsTakeMetadata(tracks: map<Id, TrackRow>, disc: Id, metas: seq<TrackMeta>, now: map<Id, TrackRow>)
    requires RowsKept(tracks, disc, metas, now)
    ensures forall t, m :: t in tracks && m in metas && tracks[t].discId == disc && tracks[t].position == m.position ==>
              t in now && TakesMetadata(tracks[t], m, now[t])
    ensures forall t :: t in tracks && (tracks[t].discId != disc || forall m <- metas :: m.position != tracks[t].position) ==>
              t in now && now[t] == tracks[t]
  {
    forall t, m | t in tracks && m in metas && tracks[t].discId == disc && tracks[t].position == m.position
      ensures t in now && TakesMetadata(tracks[t], m, now[t])
    {
      assert Addresses(tracks[t], disc, m);
    }
  }

  lemma AddedRowsHoldMetadata(tracks: map<Id, TrackRow>, nextTrack: Id, disc: Id, metas: seq<TrackMeta>,
                              now: map<Id, TrackRow>, nowNext: Id)
    requires RowsAdded(tracks, nextTrack, disc, metas, now, nowNext)
    ensures forall t :: t in now && t !in tracks ==>
              exists m <- metas ::
                && now[t] == TrackRow(disc, m.position, m.title, m.artistCredit, m.lengthFrames, m.isrc, m.mbid, None)
                && forall u :: u in tracks ==> tracks[u].discId != disc || tracks[u].position != m.position
  {
    forall t | t in now && t !in tracks
      ensures exists m <- metas ::
                && now[t] == TrackRow(disc, m.position, m.title, m.artistCredit, m.lengthFrames, m.isrc, m.mbid, None)
                && forall u :: u in tracks ==> tracks[u].discId != disc || tracks[u].position != m.position
    {
      assert Added(tracks, disc, metas, now[t]);
      var m :| m in metas && now[t] == Updated(Blank(disc, m.position), m) && !PositionTaken(tracks, disc, m.position);
    }
  }

  lemma ResultsCoverMetadata(disc: Id, metas: seq<TrackMeta>, now: map<Id, TrackRow>, out: seq<Listed>)
    requires ResultsMatch(disc, metas, now, out)
    ensures forall m <- metas :: exists t :: t in now && now[t].discId == disc && now[t].position == m.position
  {
    forall m | m in metas
      ensures exists t :: t in now && now[t].discId == disc && now[t].position == m.position
    {
      var i :| 0 <= i < |metas| && metas[i] == m;
      assert Addresses(out[i].1, disc, metas[i]);
    }
  }

  // The rows of a table already hold everything the metadata says.
  ghost predicate Settled(tracks: map<Id, TrackRow>, disc: Id, metas: seq<TrackMeta>) {
    forall m <- metas :: exists t :: t in tracks && Addresses(tracks[t], disc, m) && Updated(tracks[t], m) == tracks[t]
  }

  lemma RefreshSettles(tracks: map<Id, TrackRow>, nextTrack: Id, disc: Id, metas: seq<TrackMeta>, r: Refresh)
    requires Refreshed(tracks, nextTrack, disc, metas, r) && DistinctPositions(metas)
    ensures Settled(r.tracks, disc, metas)
  {
    hide UniquePositions, Unaddressed, PositionTaken;
    forall m | m in metas
      ensures exists t :: t in r.tracks && Addresses(r.tracks[t], disc, m) && Updated(r.tracks[t], m) == r.tracks[t]
    {
      var i :| 0 <= i < |metas| && metas[i] == m;
      var t := r.out[i].0;
      assert Addresses(r.tracks[t], disc, m);
      if t in tracks {
        AddressedRow(tracks, disc, metas, r.tracks, t, m);
      } else {
        assert Added(tracks, disc, metas, r.tracks[t]);
        var k :| k in metas && r.tracks[t] == Updated(Blank(disc, k.position), k) && !PositionTaken(tracks, disc, k.position);
        SamePositionSameMeta(metas, k, m);
      }
    }
  }

  lemma SamePositionSameMeta(metas: seq<TrackMeta>, k: TrackMeta, m: TrackMeta)
    requires DistinctPositions(metas) && k in metas && m in metas && k.position == m.position
    ensures k == m
  {
  }

  lemma AddressedRow(tracks: map<Id, TrackRow>, disc: Id, metas: seq<TrackMeta>, now: map<Id, TrackRow>, t: Id, m: TrackMeta)
    requires RowsKept(tracks, disc, metas, now) && t in tracks && m in metas && Addresses(now[t], disc, m)
    ensures now[t] == Updated(tracks[t], m)
  {
    assert now[t] == tracks[t] || !Unaddressed(tracks[t], disc, metas);
    assert forall k <- metas :: Addresses(tracks[t], disc, k) ==> now[t] == Updated(tracks[t], k);
    assert Addresses(tracks[t], disc, m);
  }

  // Refreshing a settled table changes no row and inserts none.
  lemma {:induction false} SettledIsUnchanged(tracks: map<Id, TrackRow>, nextTrack: Id, disc: Id, index: map<u8, Listed>,
                                              metas: seq<TrackMeta>)
    requires UniquePositions(tracks) && Pending(tracks, disc, [], index) && DistinctPositions(metas) && Settled(tracks, disc, metas)
    requires forall t :: t in tracks ==> t < nextTrack
    ensures var (r, error) := RefreshFrom(Refresh(tracks, nextTrack, index, []), true, disc, metas);
            error == None && r.tracks == tracks && r.nextTrack == nextTrack
  {
    hide Refreshed, Pending, UniquePositions, Addresses;
    if metas != [] {
      var front, m := metas[..|metas| - 1], metas[|metas| - 1];
      assert metas == front + [m];
      assert forall k <- front :: k in metas;
      SettledIsUnchanged(tracks, nextTrack, disc, index, front);
      RefreshOutcome(tracks, nextTrack, disc, index, front);
      var r := RefreshFrom(Refresh(tracks, nextTrack, index, []), true, disc, front).0;
      assert m in metas;
      var t :| t in tracks && Addresses(tracks[t], disc, m) && Updated(tracks[t], m) == tracks[t];
      StillPending(tracks, disc, front, r.existing, t, m);
      assert tracks[t := tracks[t]] == tracks;
    }
  }

  lemma StillPending(tracks: map<Id, TrackRow>, disc: Id, metas: seq<TrackMeta>, existing: map<u8, Listed>, t: Id, m: TrackMeta)
    requires UniquePositions(tracks) && Pending(tracks, disc, metas, existing)
    requires t in tracks && Addresses(tracks[t], disc, m) && forall k <- metas :: k.position != m.position
    ensures m.position in existing && existing[m.position] == (t, tracks[t])
  {
    assert Unaddressed(tracks[t], disc, metas);
  }

  // Refreshing twice with the same metadata is refreshing once.
  lemma RefreshIsIdempotent(tracks: map<Id, TrackRow>, nextTrack: Id, disc: Id, index: map<u8, Listed>,
                            metas: seq<TrackMeta>, again: map<u8, Listed>)
    requires UniquePositions(tracks) && Pending(tracks, disc, [], index) && DistinctPositions(metas)
    requires forall t :: t in tracks ==> t < nextTrack
    requires Pending(RefreshFrom(Refresh(tracks, nextTrack, index, []), true, disc, metas).0.tracks, disc, [], again)
    ensures var r := RefreshFrom(Refresh(tracks, nextTrack, index, []), true, disc, metas).0;
            var (second, error) := RefreshFrom(Refresh(r.tracks, r.nextTrack, again, []), true, disc, metas);
            error == None && second.tracks == r.tracks && second.nextTrack == r.nextTrack
  {
    RefreshOutcome(tracks, nextTrack, disc, index, metas);
    var r := RefreshFrom(Refresh(tracks, nextTrack, index, []), true, disc, metas).0;
    RefreshSettles(tracks, nextTrack, disc, metas, r);
    assert forall t :: t in r.tracks ==> t < r.nextTrack;
    SettledIsUnchanged(r.tracks, r.nextTrack, disc, again, metas);
  }
}
