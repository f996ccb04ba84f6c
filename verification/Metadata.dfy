// What providers report about a disc, field by field.
module Metadata {
  import opened Words
  import opened Results

  datatype AlbumMeta = AlbumMeta(
    title: Option<string>, artistCredit: Option<string>, year: Option<u16>, mbid: Option<string>)

  datatype ReleaseMeta = ReleaseMeta(
    country: Option<string>, date: Option<string>, labelName: Option<string>, catalogNumber: Option<string>,
    barcode: Option<string>, mbid: Option<string>, language: Option<string>, script: Option<string>)

  datatype TrackMeta = TrackMeta(
    position: u8, title: Option<string>, artistCredit: Option<string>, lengthFrames: Option<u64>,
    isrc: Option<string>, mbid: Option<string>)

  datatype ProviderResult = ProviderResult(
    provider: string, album: Option<AlbumMeta>, release: Option<ReleaseMeta>, tracks: seq<TrackMeta>)

  const NO_RELEASE: ReleaseMeta := ReleaseMeta(None, None, None, None, None, None, None, None)

  ghost predicate DistinctPositions(tracks: seq<TrackMeta>) {
    forall i, j :: 0 <= i < j < |tracks| ==> tracks[i].position != tracks[j].position
  }
}
