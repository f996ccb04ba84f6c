/**
  Offset-aware verification. `NaiveVerify` tries every shift and recomputes every checksum
  sample by sample; the method `VerifyWithOffsets` is the pruned search over prefix sums
  and returns the same summary on every input.
 */
module OffsetSearch {
  import opened Words
  import opened Results
  import opened Crc
  import opened Dbar
  import opened TrackVerify
  import opened PrefixSums

  const DEFAULT_MAX_SAMPLE_SHIFT: nat := 2939

  datatype OffsetCandidate = OffsetCandidate(
    sampleShift: int, fullMatches: nat, minimumConfidence: u8, totalConfidence: nat, frame450Matches: nat)
  {
    function Rank(): Rank { RankOf(fullMatches, minimumConfidence, totalConfidence, frame450Matches) }
  }

  datatype Rank = RankOf(full: nat, minimum: u8, total: nat, frames: nat)
  {
    // Lexicographic order.
    predicate Below(other: Rank) {
      full < other.full
      || (full == other.full
          && (minimum < other.minimum
              || (minimum == other.minimum
                  && (total < other.total || (total == other.total && frames < other.frames)))))
    }
  }

  const ZERO_RANK: Rank := RankOf(0, 0, 0, 0)

  datatype DiscStatus = DiscVerified | DiscMismatched | DiscNoData | AmbiguousOffsets

  datatype Summary = Summary(
    status: DiscStatus, chosenShift: Option<int>, tracks: seq<TrackVerification>,
    ambiguousOffsets: seq<OffsetCandidate>)

  // The reconstructed disc: what the checksums are computed over and compared with.
  datatype Disc = Disc(responses: seq<DbarResponse>, samples: seq<u32>, windows: seq<TrackWindow>)
  {
    ghost predicate Valid() { forall r <- responses :: r.Valid() }
  }

  // ---------------------------------------------------------------- specification

  predicate PrimaryMatches(entries: seq<Entry>, checksum: u32) {
    exists e <- entries :: e.expected.checksum == checksum
  }

  predicate Frame450Matches(entries: seq<Entry>, checksum: u32) {
    exists e <- entries :: e.expected.checksum450 != 0 && e.expected.checksum450 == checksum
  }

  predicate Supports(entries: seq<Entry>, frame450: Option<u32>) {
    frame450.Some? && Frame450Matches(entries, frame450.value)
  }

  // One track at one shift.
  ghost function TrackAt(d: Disc, w: TrackWindow, shift: int): TrackVerification
    requires d.Valid()
  {
    var entries := EntriesForTrack(d.responses, w.position);
    var crc := DirectCrc(d.samples, w, shift);
    var v1Matches := Matches(entries, crc.v1, crc);
    var v2Matches := Matches(entries, crc.v2, crc);
    TrackVerification(
      w.position, crc, v1Matches, v2Matches, Some(shift),
      Supports(entries, DirectFrame450(d.samples, w, shift)),
      if v1Matches == [] && v2Matches == [] then Mismatched else Verified)
  }

  ghost function TracksAt(d: Disc, shift: int): (tracks: seq<TrackVerification>)
    requires d.Valid()
    ensures |tracks| == |d.windows|
  {
    seq(|d.windows|, i requires 0 <= i < |d.windows| => TrackAt(d, d.windows[i], shift))
  }

  // Best confidence of every track with a full match.
  function Confidences(tracks: seq<TrackVerification>): (confidences: seq<u8>)
    ensures |confidences| <= |tracks|
  {
    if tracks == [] then []
    else
      var last := tracks[|tracks| - 1];
      var best := MaxConfidence(last.v2Matches + last.v1Matches);
      Confidences(tracks[..|tracks| - 1]) + if best.Some? then [best.value] else []
  }

  function FrameSupport(tracks: seq<TrackVerification>): nat {
    if tracks == [] then 0
    else FrameSupport(tracks[..|tracks| - 1]) + if tracks[|tracks| - 1].frame450Support then 1 else 0
  }

  function Minimum(confidences: seq<u8>): (least: u8)
    ensures confidences != [] ==> least in confidences
    ensures forall c <- confidences :: least <= c
  {
    if confidences == [] then 0
    else if |confidences| == 1 then confidences[0]
    else
      var rest := Minimum(confidences[1..]);
      assert confidences == [confidences[0]] + confidences[1..];
      if confidences[0] < rest then confidences[0] else rest
  }

  function Total(confidences: seq<u8>): nat {
    if confidences == [] then 0 else Total(confidences[..|confidences| - 1]) + confidences[|confidences| - 1]
  }

  function CandidateOf(shift: int, tracks: seq<TrackVerification>): OffsetCandidate {
    var confidences := Confidences(tracks);
    OffsetCandidate(shift, |confidences|, Minimum(confidences), Total(confidences), FrameSupport(tracks))
  }

  ghost function CandidateAt(d: Disc, shift: int): OffsetCandidate
    requires d.Valid()
  {
    CandidateOf(shift, TracksAt(d, shift))
  }

  ghost function RankAt(d: Disc, shift: int): Rank
    requires d.Valid()
  {
    CandidateAt(d, shift).Rank()
  }

  // Evidence that unlocks a shift: a v1 match or frame-450 support. A v2 match does not.
  ghost predicate Evidence(d: Disc, w: TrackWindow, shift: int)
    requires d.Valid()
  {
    var entries := EntriesForTrack(d.responses, w.position);
    PrimaryMatches(entries, DirectCrc(d.samples, w, shift).v1)
    || Supports(entries, DirectFrame450(d.samples, w, shift))
  }

  ghost predicate Searched(d: Disc, shift: int)
    requires d.Valid()
  {
    shift == 0 || exists w <- d.windows :: Evidence(d, w, shift)
  }

  // Searched shifts of lo..hi, ascending.
  ghost function Frontier(d: Disc, lo: int, hi: int): seq<int>
    requires d.Valid()
    decreases hi - lo
  {
    if hi <= lo then [] else Frontier(d, lo, hi - 1) + if Searched(d, hi - 1) then [hi - 1] else []
  }

  // Greatest rank among the shifts; the zero rank for none.
  ghost function BestRank(d: Disc, shifts: seq<int>): Rank
    requires d.Valid()
  {
    if shifts == [] then ZERO_RANK
    else
      var best, last := BestRank(d, shifts[..|shifts| - 1]), RankAt(d, shifts[|shifts| - 1]);
      if last.Below(best) then best else last
  }

  ghost function Winners(d: Disc, shifts: seq<int>, rank: Rank): seq<int>
    requires d.Valid()
  {
    if shifts == [] then []
    else
      var last := shifts[|shifts| - 1];
      Winners(d, shifts[..|shifts| - 1], rank) + if RankAt(d, last) == rank then [last] else []
  }

  ghost function CandidatesAt(d: Disc, shifts: seq<int>): (candidates: seq<OffsetCandidate>)
    requires d.Valid()
  {
    seq(|shifts|, i requires 0 <= i < |shifts| => CandidateAt(d, shifts[i]))
  }

  function WithoutShift(tracks: seq<TrackVerification>): seq<TrackVerification> {
    seq(|tracks|, i requires 0 <= i < |tracks| => tracks[i].(sampleShift := None))
  }

  function MarkedAmbiguous(tracks: seq<TrackVerification>): seq<TrackVerification> {
    seq(|tracks|, i requires 0 <= i < |tracks| => tracks[i].(sampleShift := None, status := Ambiguous))
  }

  function Clamped(maxShift: int): (m: int)
    ensures 0 <= m <= DEFAULT_MAX_SAMPLE_SHIFT
  {
    if maxShift < 0 then 0 else if maxShift > DEFAULT_MAX_SAMPLE_SHIFT then DEFAULT_MAX_SAMPLE_SHIFT else maxShift
  }

  ghost function DiscOf(file: DbarFile, tracks: seq<DiscTrack>): Disc {
    Disc(file.responses, Concatenated(tracks), WindowsOf(tracks))
  }

  ghost function SearchVerdict(d: Disc, shifts: seq<int>): Summary
    requires d.Valid()
  {
    var best := BestRank(d, shifts);
    var winners := Winners(d, shifts, best);
    if best == ZERO_RANK then
      Summary(DiscMismatched, None, WithoutShift(TracksAt(d, 0)), [])
    else if |winners| != 1 then
      Summary(AmbiguousOffsets, None, MarkedAmbiguous(TracksAt(d, 0)), CandidatesAt(d, winners))
    else
      Summary(if best.full > 0 then DiscVerified else DiscMismatched,
              Some(winners[0]), TracksAt(d, winners[0]), [])
  }

  ghost function NaiveVerify(file: DbarFile, tracks: seq<DiscTrack>, maxShift: int): Summary
    requires file.Valid()
  {
    if tracks == [] || file.responses == [] then Summary(DiscNoData, None, [], [])
    else
      var d := DiscOf(file, tracks);
      SearchVerdict(d, Frontier(d, -Clamped(maxShift), Clamped(maxShift) + 1))
  }

  // ---------------------------------------------------------------- the search

  method LayOut(tracks: seq<DiscTrack>) returns (samples: seq<u32>, windows: seq<TrackWindow>)
    ensures samples == Concatenated(tracks) && windows == WindowsOf(tracks)
  {
    samples, windows := [], [];
    for index := 0 to |tracks|
      invariant samples == Concatenated(tracks[..index])
      invariant windows == WindowsOf(tracks)[..index]
    {
      assert tracks[..index + 1][..index] == tracks[..index];
      var start := |samples|;
      samples := samples + tracks[index].samples;
      windows := windows + [TrackWindow(tracks[index].position, DiscPosition(index, |tracks|),
                                        start, |tracks[index].samples|)];
    }
    assert tracks[..|tracks|] == tracks;
  }

  // The linear pass: the shifts with evidence, found over prefix sums.
  method FindFrontier(ghost d: Disc, file: DbarFile, prefix: Prefix, windows: seq<TrackWindow>, maxShift: int)
    returns (frontier: seq<int>)
    requires 0 <= maxShift
    requires file.Valid() && d.responses == file.responses && d.windows == windows
    requires prefix.Represents(d.samples)
    ensures frontier == Frontier(d, -maxShift, maxShift + 1)
  {
    hide ShiftedV1, ShiftedFrame450, DirectCrc, DirectFrame450, EntriesForTrack, PrimaryMatches, Supports;
    frontier := [];
    for shift := -maxShift to maxShift + 1
      invariant frontier == Frontier(d, -maxShift, shift)
    {
      var hasEvidence := shift == 0;
      for i := 0 to |windows|
        invariant shift == 0 ==> hasEvidence
        invariant hasEvidence ==> Searched(d, shift)
        invariant forall j :: 0 <= j < i ==> !Evidence(d, windows[j], shift)
      {
        var w := windows[i];
        ShiftedV1IsDirect(prefix, d.samples, w, shift);
        ShiftedFrame450IsDirect(prefix, d.samples, w, shift);
        var v1 := ShiftedV1(prefix, w, shift);
        var frame450 := ShiftedFrame450(prefix, w, shift);
        var entries := EntriesForTrack(file.responses, w.position);
        if PrimaryMatches(entries, v1) || Supports(entries, frame450) {
          assert w in d.windows && Evidence(d, w, shift);
          hasEvidence := true;
          break;
        }
      }
      if hasEvidence {
        frontier := frontier + [shift];
      }
    }
  }

  method EvaluateCandidate(ghost d: Disc, file: DbarFile, samples: seq<u32>, prefix: Prefix,
                           windows: seq<TrackWindow>, shift: int)
    returns (candidate: OffsetCandidate, tracks: seq<TrackVerification>)
    requires file.Valid() && d == Disc(file.responses, samples, windows)
    requires prefix.Represents(samples)
    ensures candidate == CandidateAt(d, shift) && tracks == TracksAt(d, shift)
  {
    hide EntriesForTrack, Matches, DirectCrc, DirectFrame450, ShiftedV1, ShiftedFrame450, Supports;
    hide Confidences, FrameSupport, MaxConfidence, Minimum, Total;
    tracks := [];
    TalliesOfNone();
    var confidences: seq<u8> := [];
    var frameMatches := 0;
    for i := 0 to |windows|
      invariant |tracks| == i && forall j :: 0 <= j < i ==> tracks[j] == TrackAt(d, windows[j], shift)
      invariant confidences == Confidences(tracks)
      invariant frameMatches == FrameSupport(tracks)
    {
      var w := windows[i];
      ShiftedV1IsDirect(prefix, samples, w, shift);
      ShiftedFrame450IsDirect(prefix, samples, w, shift);
      var v1 := ShiftedV1(prefix, w, shift);
      var v2 := ShiftedV2(samples, w, shift);
      var crc := TrackCrc(v1, v2);
      var entries := EntriesForTrack(file.responses, w.position);
      var frameSupport := Supports(entries, ShiftedFrame450(prefix, w, shift));
      if frameSupport {
        frameMatches := frameMatches + 1;
      }
      var v1Matches, v2Matches := CollectMatches(entries, crc);
      var status := Mismatched;
      if v1Matches != [] || v2Matches != [] {
        confidences := confidences + [MaxConfidence(v2Matches + v1Matches).value];
        status := Verified;
      }
      var track := TrackVerification(w.position, crc, v1Matches, v2Matches, Some(shift), frameSupport, status);
      TalliesStep(tracks, track);
      tracks := tracks + [track];
    }
    candidate := OffsetCandidate(shift, |confidences|, Minimum(confidences), Total(confidences), frameMatches);
    assert tracks == TracksAt(d, shift);
  }

  lemma TalliesOfNone()
    ensures Confidences([]) == [] && FrameSupport([]) == 0
  {
  }

  lemma TalliesStep(tracks: seq<TrackVerification>, track: TrackVerification)
    ensures FrameSupport(tracks + [track]) == FrameSupport(tracks) + if track.frame450Support then 1 else 0
    ensures Confidences(tracks + [track])
         == Confidences(tracks)
            + var best := MaxConfidence(track.v2Matches + track.v1Matches);
              if best.Some? then [best.value] else []
  {
    assert (tracks + [track])[..|tracks|] == tracks;
  }

  method CollectMatches(entries: seq<Entry>, computed: TrackCrc)
    returns (v1Matches: seq<CrcMatch>, v2Matches: seq<CrcMatch>)
    ensures v1Matches == Matches(entries, computed.v1, computed)
    ensures v2Matches == Matches(entries, computed.v2, computed)
  {
    v1Matches, v2Matches := [], [];
    for i := 0 to |entries|
      invariant v1Matches == Matches(entries[..i], computed.v1, computed)
      invariant v2Matches == Matches(entries[..i], computed.v2, computed)
    {
      assert entries[..i + 1][..i] == entries[..i];
      var expected := entries[i].expected;
      var matchesV2 := expected.checksum == computed.v2;
      var matchesV1 := expected.checksum == computed.v1;
      if !matchesV1 && !matchesV2 {
        continue;
      }
      var version := if matchesV1 && matchesV2 then Both else if matchesV1 then V1 else V2;
      var matched := CrcMatch(entries[i].pressing, expected.confidence, expected.checksum, version);
      if matchesV2 {
        v2Matches := v2Matches + [matched];
      }
      if matchesV1 {
        v1Matches := v1Matches + [matched];
      }
    }
    assert entries[..|entries|] == entries;
  }

  ghost predicate IsEvaluation(d: Disc, shifts: seq<int>, evaluated: seq<(OffsetCandidate, seq<TrackVerification>)>)
    requires d.Valid()
  {
    |evaluated| == |shifts|
    && forall j :: 0 <= j < |shifts| ==> evaluated[j] == (CandidateAt(d, shifts[j]), TracksAt(d, shifts[j]))
  }

  method MaximumRank(ghost d: Disc, ghost shifts: seq<int>, evaluated: seq<(OffsetCandidate, seq<TrackVerification>)>)
    returns (best: Rank)
    requires d.Valid() && IsEvaluation(d, shifts, evaluated) && |evaluated| > 0
    ensures best == BestRank(d, shifts)
  {
    hide TracksAt, CandidateOf;
    best := evaluated[0].0.Rank();
    BestRankOfOne(d, shifts);
    for k := 1 to |evaluated|
      invariant best == BestRank(d, shifts[..k])
    {
      assert shifts[..k + 1][..k] == shifts[..k];
      var rank := evaluated[k].0.Rank();
      if !rank.Below(best) {
        best := rank;
      }
    }
    assert shifts[..|shifts|] == shifts;
  }

  method TiedIndices(ghost d: Disc, ghost shifts: seq<int>, evaluated: seq<(OffsetCandidate, seq<TrackVerification>)>,
                     best: Rank)
    returns (indices: seq<nat>)
    requires d.Valid() && IsEvaluation(d, shifts, evaluated)
    ensures |indices| == |Winners(d, shifts, best)|
    ensures forall j :: 0 <= j < |indices| ==>
              indices[j] < |shifts| && shifts[indices[j]] == Winners(d, shifts, best)[j]
  {
    hide TracksAt, CandidateOf;
    indices := [];
    for k := 0 to |evaluated|
      invariant |indices| == |Winners(d, shifts[..k], best)|
      invariant forall j :: 0 <= j < |indices| ==>
                  indices[j] < k && shifts[indices[j]] == Winners(d, shifts[..k], best)[j]
    {
      assert shifts[..k + 1][..k] == shifts[..k];
      if evaluated[k].0.Rank() == best {
        indices := indices + [k];
      }
    }
    assert shifts[..|shifts|] == shifts;
  }

  method VerifyWithOffsets(file: DbarFile, tracks: seq<DiscTrack>, maxSampleShift: int) returns (summary: Summary)
    requires file.Valid()
    ensures summary == NaiveVerify(file, tracks, maxSampleShift)
  {
    hide BestRank, Winners, Frontier, CandidateOf, TracksAt, Concatenated, WindowsOf;
    if |tracks| == 0 || |file.responses| == 0 {
      return Summary(DiscNoData, None, [], []);
    }
    var maxShift := Clamped(maxSampleShift);
    var samples, windows := LayOut(tracks);
    var prefix := NewPrefix(samples);
    ghost var d := Disc(file.responses, samples, windows);
    var frontier := FindFrontier(d, file, prefix, windows, maxShift);
    assert NaiveVerify(file, tracks, maxSampleShift) == SearchVerdict(d, frontier);

    var evaluated: seq<(OffsetCandidate, seq<TrackVerification>)> := [];
    for k := 0 to |frontier|
      invariant IsEvaluation(d, frontier[..k], evaluated)
    {
      var candidate, results := EvaluateCandidate(d, file, samples, prefix, windows, frontier[k]);
      evaluated := evaluated + [(candidate, results)];
    }
    assert frontier[..|frontier|] == frontier;

    // Shift 0 is always searched, so the arm for an empty evaluation cannot be taken.
    FrontierHoldsZero(d, maxShift);
    var bestRank := MaximumRank(d, frontier, evaluated);
    if bestRank == ZERO_RANK {
      var zero := 0;
      while evaluated[zero].0.sampleShift != 0
        invariant zero < |evaluated|
        invariant 0 in frontier[zero..]
        decreases |evaluated| - zero
      {
        CandidateKeepsShift(d, frontier[zero]);
        zero := zero + 1;
      }
      CandidateKeepsShift(d, frontier[zero]);
      return Summary(DiscMismatched, None, WithoutShift(evaluated[zero].1), []);
    }

    var bestIndices := TiedIndices(d, frontier, evaluated, bestRank);
    if |bestIndices| != 1 {
      var ambiguous := seq(|bestIndices|, j requires 0 <= j < |bestIndices| => evaluated[bestIndices[j]].0);
      var _, zeroTracks := EvaluateCandidate(d, file, samples, prefix, windows, 0);
      assert ambiguous == CandidatesAt(d, Winners(d, frontier, bestRank));
      return Summary(AmbiguousOffsets, None, MarkedAmbiguous(zeroTracks), ambiguous);
    }

    var (candidate, results) := evaluated[bestIndices[0]];
    ghost var chosen := Winners(d, frontier, bestRank)[0];
    WinnersHaveRank(d, frontier, bestRank);
    assert chosen in Winners(d, frontier, bestRank);
    CandidateKeepsShift(d, chosen);
    return Summary(if candidate.fullMatches > 0 then DiscVerified else DiscMismatched,
                   Some(candidate.sampleShift), results, []);
  }

  // ---------------------------------------------------------------- supporting lemmas

  lemma {:induction false} FrontierExact(d: Disc, lo: int, hi: int)
    requires d.Valid()
    ensures forall s :: s in Frontier(d, lo, hi) <==> lo <= s < hi && Searched(d, s)
    ensures forall i, j :: 0 <= i < j < |Frontier(d, lo, hi)| ==> Frontier(d, lo, hi)[i] < Frontier(d, lo, hi)[j]
    decreases hi - lo
  {
    hide Searched;
    if lo < hi {
      FrontierExact(d, lo, hi - 1);
      var shorter := Frontier(d, lo, hi - 1);
      forall i | 0 <= i < |shorter|
        ensures shorter[i] < hi - 1
      {
        assert shorter[i] in shorter;
      }
    }
  }

  lemma FrontierHoldsZero(d: Disc, maxShift: int)
    requires d.Valid() && 0 <= maxShift
    ensures 0 in Frontier(d, -maxShift, maxShift + 1)
    ensures |Frontier(d, -maxShift, maxShift + 1)| > 0
  {
    FrontierExact(d, -maxShift, maxShift + 1);
  }

  lemma CandidateKeepsShift(d: Disc, shift: int)
    requires d.Valid()
    ensures CandidateAt(d, shift).sampleShift == shift
  {
  }

  lemma BestRankOfOne(d: Disc, shifts: seq<int>)
    requires d.Valid() && shifts != []
    ensures BestRank(d, shifts[..1]) == RankAt(d, shifts[0])
  {
    assert shifts[..1] == [shifts[0]];
    assert [shifts[0]][..0] == [];
  }

  lemma {:induction false} WinnersHaveRank(d: Disc, shifts: seq<int>, rank: Rank)
    requires d.Valid()
    ensures forall s :: s in Winners(d, shifts, rank) <==> s in shifts && RankAt(d, s) == rank
  {
    hide RankAt;
    if shifts != [] {
      WinnersHaveRank(d, shifts[..|shifts| - 1], rank);
      assert shifts == shifts[..|shifts| - 1] + [shifts[|shifts| - 1]];
    }
  }
}
