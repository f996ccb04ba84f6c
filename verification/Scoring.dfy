/**
  Scoring release candidates against each other and resolving to one of them.
 */
module Scoring {
  import opened Words
  import opened Results
  import opened Tocs
  import opened Metadata
  import Lexicographic

  datatype ReleaseCandidate = ReleaseCandidate(
    candidateKey: string, provider: string, album: AlbumMeta, release: ReleaseMeta,
    tracks: seq<TrackMeta>, physicalDiscNumber: Option<u8>, exactDiscAssociation: bool)

  datatype CandidateScore = CandidateScore(
    exactDisc: nat, exactRelease: nat, barcodeCatalog: nat, support: nat,
    durations: nat, completeness: nat, priority: nat)
  {
    function Evidence(): (components: seq<int>)
      ensures |components| == 6
    {
      [exactDisc, exactRelease, barcodeCatalog, support, durations, completeness]
    }

    function Rank(): (rank: seq<int>)
      ensures |rank| == 7
    {
      Evidence() + [priority]
    }
  }

  datatype ScoredCandidate = ScoredCandidate(candidate: ReleaseCandidate, score: CandidateScore)

  datatype Resolution = Resolution(selected: ScoredCandidate, alternatives: seq<ScoredCandidate>, ambiguous: bool)

  // ---------------------------------------------------------------- the score

  function OrEmpty(s: Option<string>): string { if s.Some? then s.value else "" }

  function ReleaseIdentity(c: ReleaseCandidate): string {
    if c.release.mbid.Some? then "mb:" + c.release.mbid.value
    else if c.release.barcode.Some? then
      "barcode:" + c.release.barcode.value + ":" + OrEmpty(c.release.catalogNumber)
    else c.candidateKey
  }

  predicate SameNonempty(left: Option<string>, right: Option<string>) {
    left.Some? && left.value != "" && right == left
  }

  predicate CorroboratesRelease(c: ReleaseCandidate, other: ReleaseCandidate) {
    other.candidateKey != c.candidateKey && c.release.mbid.Some? && other.release.mbid == c.release.mbid
  }

  predicate CorroboratesBarcode(c: ReleaseCandidate, other: ReleaseCandidate) {
    && other.candidateKey != c.candidateKey
    && SameNonempty(c.release.barcode, other.release.barcode)
    && (SameNonempty(c.release.catalogNumber, other.release.catalogNumber)
        || SameNonempty(c.release.labelName, other.release.labelName))
  }

  function AsNumber(b: bool): nat { if b then 1 else 0 }

  function AgreesWithin2(actual: Option<u64>, expected: Option<nat>): bool {
    actual.Some? && expected.Some? && -2 <= actual.value - expected.value <= 2
  }

  // Tracks among the first n whose length is within two frames of the table of contents.
  function AgreeingTracks(toc: Toc, tracks: seq<TrackMeta>, n: nat): nat
    requires n <= |tracks|
  {
    if n == 0 then 0
    else AgreeingTracks(toc, tracks, n - 1)
         + AsNumber(AgreesWithin2(tracks[n - 1].lengthFrames, TrackLengthFrames(toc, n - 1)))
  }

  function TrackAgreement(toc: Toc, c: ReleaseCandidate): nat {
    AsNumber(|c.tracks| == |toc.trackOffsets|) * 10000 + AgreeingTracks(toc, c.tracks, |c.tracks|)
  }

  function Completeness(c: ReleaseCandidate): nat {
    AsNumber(c.album.title.Some?) + AsNumber(c.album.artistCredit.Some?) + AsNumber(c.album.year.Some?)
    + AsNumber(c.release.country.Some?) + AsNumber(c.release.labelName.Some?)
    + AsNumber(c.release.catalogNumber.Some?) + AsNumber(c.release.barcode.Some?) + AsNumber(c.tracks != [])
  }

  function ProviderPriority(provider: string): nat {
    if provider == "musicbrainz" then 4
    else if provider == "discogs" then 3
    else if provider == "tower" then 2
    else if provider == "barcodelookup" then 1
    else 0
  }

  // Providers that report the release of this identity.
  function Supporters(candidates: seq<ReleaseCandidate>, identity: string): set<string> {
    set o <- candidates | ReleaseIdentity(o) == identity :: o.provider
  }

  function ScoreGiven(toc: Toc, candidates: seq<ReleaseCandidate>, supporters: nat, c: ReleaseCandidate): CandidateScore {
    CandidateScore(
      AsNumber(c.exactDiscAssociation),
      AsNumber(exists o <- candidates :: CorroboratesRelease(c, o)),
      AsNumber(exists o <- candidates :: CorroboratesBarcode(c, o)),
      supporters % 0x100,
      TrackAgreement(toc, c), Completeness(c), ProviderPriority(c.provider))
  }

  function ScoreOf(toc: Toc, candidates: seq<ReleaseCandidate>, c: ReleaseCandidate): CandidateScore {
    ScoreGiven(toc, candidates, |Supporters(candidates, ReleaseIdentity(c))|, c)
  }

  // ---------------------------------------------------------------- the order

  // x sorts strictly before y: greater rank, or equal rank and smaller key.
  predicate Before(x: ScoredCandidate, y: ScoredCandidate) {
    Lexicographic.Less(y.score.Rank(), x.score.Rank())
    || (x.score.Rank() == y.score.Rank()
        && Lexicographic.Less(Lexicographic.Codes(x.candidate.candidateKey), Lexicographic.Codes(y.candidate.candidateKey)))
  }

  // Neither sorts before the other: only input order can separate them.
  predicate Tied(x: ScoredCandidate, y: ScoredCandidate) {
    x.score.Rank() == y.score.Rank() && x.candidate.candidateKey == y.candidate.candidateKey
  }

  // The library's stable sort, by insertion: x goes after everything it does not precede.
  function Insert(sorted: seq<ScoredCandidate>, x: ScoredCandidate): (r: seq<ScoredCandidate>)
    ensures |r| == |sorted| + 1
  {
    if sorted == [] || !Before(x, sorted[|sorted| - 1]) then sorted + [x]
    else Insert(sorted[..|sorted| - 1], x) + [sorted[|sorted| - 1]]
  }

  function StableSort(s: seq<ScoredCandidate>): (r: seq<ScoredCandidate>)
    ensures |r| == |s|
  {
    if s == [] then [] else Insert(StableSort(s[..|s| - 1]), s[|s| - 1])
  }

  ghost predicate InOrder(s: seq<ScoredCandidate>) {
    forall i, j :: 0 <= i < j < |s| ==> !Before(s[j], s[i])
  }

  // ---------------------------------------------------------------- resolution

  ghost function ScoredAll(toc: Toc, candidates: seq<ReleaseCandidate>): (scored: seq<ScoredCandidate>)
    ensures |scored| == |candidates|
  {
    seq(|candidates|, i requires 0 <= i < |candidates| =>
      ScoredCandidate(candidates[i], ScoreOf(toc, candidates, candidates[i])))
  }

  ghost function ResolutionOf(toc: Toc, candidates: seq<ReleaseCandidate>): Option<Resolution> {
    if candidates == [] then None
    else
      var sorted := StableSort(ScoredAll(toc, candidates));
      Some(Resolution(sorted[0], sorted[1..],
                      |sorted| > 1 && sorted[1].score.Evidence() == sorted[0].score.Evidence()))
  }

  ghost predicate SupportMap(candidates: seq<ReleaseCandidate>, support: map<string, set<string>>) {
    && (forall c <- candidates :: ReleaseIdentity(c) in support)
    && (forall id :: id in support ==> support[id] == Supporters(candidates, id))
  }

  method CountSupport(candidates: seq<ReleaseCandidate>) returns (support: map<string, set<string>>)
    ensures SupportMap(candidates, support)
  {
    support := map[];
    for k := 0 to |candidates|
      invariant SupportMap(candidates[..k], support)
      invariant forall id :: id !in support ==> Supporters(candidates[..k], id) == {}
    {
      var id, provider := ReleaseIdentity(candidates[k]), candidates[k].provider;
      assert candidates[..k + 1] == candidates[..k] + [candidates[k]];
      forall i
        ensures Supporters(candidates[..k + 1], i)
             == Supporters(candidates[..k], i) + if i == id then {provider} else {}
      {
        SupportersStep(candidates[..k], candidates[k], i);
      }
      hide Supporters, ReleaseIdentity;
      var earlier := if id in support then support[id] else {};
      support := support[id := earlier + {provider}];
    }
    assert candidates[..|candidates|] == candidates;
  }

  lemma SupportersStep(candidates: seq<ReleaseCandidate>, c: ReleaseCandidate, id: string)
    ensures Supporters(candidates + [c], id)
         == Supporters(candidates, id) + if ReleaseIdentity(c) == id then {c.provider} else {}
  {
    hide ReleaseIdentity;
    var all := candidates + [c];
    assert c in all;
    forall p
      ensures p in Supporters(all, id)
         <==> p in Supporters(candidates, id) + if ReleaseIdentity(c) == id then {c.provider} else {}
    {
      if p in Supporters(candidates, id) {
        var o :| o in candidates && ReleaseIdentity(o) == id && o.provider == p;
        assert o in all;
      }
    }
  }

  method ScoreAndResolve(toc: Toc, candidates: seq<ReleaseCandidate>) returns (r: Option<Resolution>)
    ensures r == ResolutionOf(toc, candidates)
    ensures r == None <==> candidates == []
  {
    if |candidates| == 0 {
      return None;
    }
    hide ReleaseIdentity, Supporters, CorroboratesRelease, CorroboratesBarcode, TrackAgreement, Completeness;
    var support := CountSupport(candidates);
    var scored: seq<ScoredCandidate> := [];
    for k := 0 to |candidates|
      invariant scored == ScoredAll(toc, candidates)[..k]
    {
      var c := candidates[k];
      assert c in candidates;
      var score := ScoreGiven(toc, candidates, |support[ReleaseIdentity(c)]|, c);
      scored := scored + [ScoredCandidate(c, score)];
    }
    assert scored == ScoredAll(toc, candidates);
    scored := StableSort(scored);
    var selected := scored[0];
    scored := scored[1..];
    var ambiguous := |scored| > 0 && scored[0].score.Evidence() == selected.score.Evidence();
    return Some(Resolution(selected, scored, ambiguous));
  }
}
