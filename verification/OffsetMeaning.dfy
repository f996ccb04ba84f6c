/**
  The verdict of offset search in terms of the file's entries and the disc's samples: which
  sample weighs what at a shift, what each tally counts, and which shift wins, with every
  number of the format written out.
 */
module OffsetMeaning {
  import opened Words
  import opened Results
  import opened Crc
  import opened Dbar
  import opened TrackVerify
  import opened PrefixSums
  import opened OffsetSearch
  import opened OffsetTheorems
  import opened OffsetAlignment

  // ---------------------------------------------------------------- samples

  // Position p of track i is checked unless it is among the first 2939 of the disc's first
  // track or the last 2940 of its last.
  lemma CheckedOnDisc(tracks: seq<DiscTrack>, i: nat, p: int)
    requires i < |tracks| && |tracks[i].samples| < TWO_32
    ensures var (first, last) := CheckBounds(WindowAt(tracks, i));
            first <= p <= last
            <==> && 1 <= p <= |tracks[i].samples|
                 && (i == 0 ==> p > 2939)
                 && (i == |tracks| - 1 ==> p <= |tracks[i].samples| - 2940)
  {
    CheckedPositionsExactly(DiscPosition(i, |tracks|), |tracks[i].samples|, p);
  }

  lemma WindowOfRange(disc: seq<u32>, lo: nat, hi: nat, j: nat, x: u32)
    requires lo <= hi <= |disc| && j < |disc|
    ensures disc[j := x][lo..hi] == if lo <= j < hi then disc[lo..hi][j - lo := x] else disc[lo..hi]
  {
  }

  // At a shift that keeps the window on the disc, the sample of the disc that stands at checked
  // position p weighs p; every other sample weighs nothing.
  lemma ShiftedSampleWeighsItsPosition(disc: seq<u32>, w: TrackWindow, shift: int, j: nat, x: u32)
    requires j < |disc| && StaysInside(|disc|, w, shift)
    ensures var (first, last) := CheckBounds(w);
            var p := j - (w.start + shift) + 1;
            var (before, after) := (DirectCrc(disc, w, shift), DirectCrc(disc[j := x], w, shift));
            if first <= p <= last
            then && after.v1 == (before.v1 + p * x - p * disc[j]) % 0x1_0000_0000
                 && after.v2 == (before.v2 + (p * x % 0x1_0000_0000 + p * x / 0x1_0000_0000)
                                           - (p * disc[j] % 0x1_0000_0000 + p * disc[j] / 0x1_0000_0000)) % 0x1_0000_0000
            else after == before
  {
    var (first, last) := CheckBounds(w);
    if first <= last {
      var lo, hi := w.start + first - 1 + shift, w.start + last + shift;
      WindowOfRange(disc, lo, hi, j, x);
      InsideAvoidsTheFallback(disc, w, shift);
      InsideAvoidsTheFallback(disc[j := x], w, shift);
      hide DirectCrc, ChecksumOf;
      if lo <= j < hi {
        SampleWeighsItsPosition(disc[lo..hi], first, j - lo, x);
        assert first + (j - lo) == j - (w.start + shift) + 1;
      }
    }
  }

  // A window that checks nothing, or leaves the disc, has zero checksums, and so has silence.
  lemma NothingCheckedIsZero(disc: seq<u32>, w: TrackWindow, shift: int)
    ensures var (first, last) := CheckBounds(w);
            first > last || !StaysInside(|disc|, w, shift) || (forall i :: 0 <= i < |disc| ==> disc[i] == 0) ==>
              DirectCrc(disc, w, shift) == TrackCrc(0, 0)
  {
    var (first, last) := CheckBounds(w);
    if first <= last && StaysInside(|disc|, w, shift) && forall i :: 0 <= i < |disc| ==> disc[i] == 0 {
      SilenceSumsToZero(disc[w.start + first - 1 + shift..w.start + last + shift], first);
    }
  }

  // A track of fewer than 265,188 samples has no frame 450. Otherwise the frame is the 588
  // samples from sample 264,600 of the track, the first weighing 1 and the last 588; off the
  // disc it counts as zero, and so does silence.
  lemma FrameSampleWeighsItsPlace(disc: seq<u32>, w: TrackWindow, shift: int, j: nat, x: u32)
    requires j < |disc|
    ensures var from := w.start + 264600 + shift;
            var (before, after) := (DirectFrame450(disc, w, shift), DirectFrame450(disc[j := x], w, shift));
            && (w.len < 265188 ==> before == None)
            && (w.len >= 265188 ==> before.Some? && after.Some?)
            && (w.len >= 265188 && !(0 <= from && from + 588 <= |disc|) ==> before == Some(0))
            && (w.len >= 265188 && 0 <= from && from + 588 <= |disc| ==>
                  && ((forall i :: from <= i < from + 588 ==> disc[i] == 0) ==> before == Some(0))
                  && after.value
                     == if from <= j < from + 588
                        then (before.value + (j - from + 1) * x - (j - from + 1) * disc[j]) % 0x1_0000_0000
                        else before.value)
  {
    var from := w.start + 264600 + shift;
    if w.len >= 265188 && 0 <= from && from + 588 <= |disc| {
      var frame := disc[from..from + 588];
      WindowOfRange(disc, from, from + 588, j, x);
      if from <= j < from + 588 {
        var p := 1 + (j - from);
        WeightedChange(frame, 1, j - from, x);
        assert frame[j - from] == disc[j];
        WrapAdd(Weighted(frame, 1), p * x - p * disc[j]);
      }
      if forall i :: from <= i < from + 588 ==> disc[i] == 0 {
        SilenceSumsToZero(frame, 1);
      }
    }
  }

  // ---------------------------------------------------------------- entries

  // The file offers this entry for the track, and its primary checksum is the window's v1 or v2.
  ghost predicate MatchingEntry(d: Disc, w: TrackWindow, shift: int, e: Entry) {
    var crc := DirectCrc(d.samples, w, shift);
    Offers(d.responses, w.position, e) && (e.expected.checksum == crc.v1 || e.expected.checksum == crc.v2)
  }

  ghost predicate Matched(d: Disc, w: TrackWindow, shift: int) {
    exists e :: MatchingEntry(d, w, shift, e)
  }

  // The greatest confidence of a matching entry.
  ghost predicate IsBest(d: Disc, w: TrackWindow, shift: int, confidence: nat) {
    && (exists e :: MatchingEntry(d, w, shift, e) && e.expected.confidence == confidence)
    && (forall e :: MatchingEntry(d, w, shift, e) ==> e.expected.confidence <= confidence)
  }

  // An offered entry has the window's checksum of frame 450, and it is not zero.
  ghost predicate Supported(d: Disc, w: TrackWindow, shift: int) {
    exists e :: Offers(d.responses, w.position, e)
                && e.expected.checksum450 != 0 && DirectFrame450(d.samples, w, shift) == Some(e.expected.checksum450)
  }

  ghost predicate V1Matched(d: Disc, w: TrackWindow, shift: int) {
    exists e :: Offers(d.responses, w.position, e) && e.expected.checksum == DirectCrc(d.samples, w, shift).v1
  }

  // Shift 0, or a shift at which some track has a v1 match or frame-450 support.
  ghost predicate Unlocked(d: Disc, shift: int) {
    shift == 0 || exists w <- d.windows :: V1Matched(d, w, shift) || Supported(d, w, shift)
  }

  lemma SearchedExactly(d: Disc, shift: int)
    requires d.Valid()
    ensures Searched(d, shift) <==> Unlocked(d, shift)
  {
    forall w | w in d.windows
      ensures Evidence(d, w, shift) <==> V1Matched(d, w, shift) || Supported(d, w, shift)
    {
      EntriesAreExactlyThoseOffered(d.responses, w.position);
    }
    hide Evidence, V1Matched, Supported;
  }

  // What is reported of one track at one shift.
  lemma TrackReportExactly(d: Disc, w: TrackWindow, shift: int)
    requires d.Valid()
    ensures var t := TrackAt(d, w, shift);
            && t.position == w.position && t.computed == DirectCrc(d.samples, w, shift) && t.sampleShift == Some(shift)
            && (t.frame450Support <==> Supported(d, w, shift))
            && t.status == (if Matched(d, w, shift) then Verified else Mismatched)
            && MatchList(d.responses, w.position, t.computed.v1, t.computed, t.v1Matches)
            && MatchList(d.responses, w.position, t.computed.v2, t.computed, t.v2Matches)
  {
    hide DirectCrc, DirectFrame450, Matches, EntriesForTrack, MatchList;
    var crc := DirectCrc(d.samples, w, shift);
    EntriesAreExactlyThoseOffered(d.responses, w.position);
    MatchesExactly(d.responses, w.position, crc.v1, crc);
    MatchesExactly(d.responses, w.position, crc.v2, crc);
    MatchedIsFullMatch(d, w, shift);
    hide Matched;
  }

  lemma MatchedIsFullMatch(d: Disc, w: TrackWindow, shift: int)
    requires d.Valid()
    ensures Matched(d, w, shift) <==> FullMatch(d, w, shift)
  {
    hide DirectCrc, Offers, FullMatch;
    VerifiedTrackHasEntry(d, w, shift);
    var crc := DirectCrc(d.samples, w, shift);
    forall e
      ensures MatchingEntry(d, w, shift, e)
         <==> Offers(d.responses, w.position, e) && (e.expected.checksum == crc.v1 || e.expected.checksum == crc.v2)
    {
    }
  }

  lemma BestOfMatches(d: Disc, w: TrackWindow, shift: int)
    requires d.Valid()
    ensures var t := TrackAt(d, w, shift);
            var best := MaxConfidence(t.v2Matches + t.v1Matches);
            && (best.Some? <==> Matched(d, w, shift))
            && (best.Some? ==> IsBest(d, w, shift, best.value))
  {
    hide TrackAt, MatchingEntry, MaxConfidence, Matched, IsBest;
    var all := TrackAt(d, w, shift).v2Matches + TrackAt(d, w, shift).v1Matches;
    forall e | MatchingEntry(d, w, shift, e)
      ensures HasConfidence(all, e.expected.confidence)
    {
      EntryIsListed(d, w, shift, e);
    }
    forall m | m in all
      ensures exists e :: MatchingEntry(d, w, shift, e) && e.expected.confidence == m.confidence
    {
      var e := MatchHasEntry(d, w, shift, m);
    }
    hide HasConfidence;
    BestOfList(d, w, shift, all);
  }

  ghost predicate HasConfidence(list: seq<CrcMatch>, confidence: u8) {
    exists m <- list :: m.confidence == confidence
  }

  lemma BestOfList(d: Disc, w: TrackWindow, shift: int, all: seq<CrcMatch>)
    requires forall e :: MatchingEntry(d, w, shift, e) ==> HasConfidence(all, e.expected.confidence)
    requires forall m <- all :: exists e :: MatchingEntry(d, w, shift, e) && e.expected.confidence == m.confidence
    ensures MaxConfidence(all).Some? <==> Matched(d, w, shift)
    ensures MaxConfidence(all).Some? ==> IsBest(d, w, shift, MaxConfidence(all).value)
  {
    hide MaxConfidence, MatchingEntry;
    var best := MaxConfidence(all);
    if best.Some? {
      var m :| m in all && m.confidence == best.value;
    }
  }

  lemma EntryIsListed(d: Disc, w: TrackWindow, shift: int, e: Entry)
    requires d.Valid() && MatchingEntry(d, w, shift, e)
    ensures HasConfidence(TrackAt(d, w, shift).v2Matches + TrackAt(d, w, shift).v1Matches, e.expected.confidence)
  {
    TrackReportExactly(d, w, shift);
    hide DirectCrc, DirectFrame450, TrackAt, MatchList, Offers;
    var t := TrackAt(d, w, shift);
    if e.expected.checksum == t.computed.v1 {
      ListedIn(d.responses, w.position, t.computed.v1, t.computed, t.v1Matches, e);
      var m :| m in t.v1Matches && m.confidence == e.expected.confidence;
      assert m in t.v2Matches + t.v1Matches;
    } else {
      ListedIn(d.responses, w.position, t.computed.v2, t.computed, t.v2Matches, e);
      var m :| m in t.v2Matches && m.confidence == e.expected.confidence;
      assert m in t.v2Matches + t.v1Matches;
    }
  }

  lemma MatchHasEntry(d: Disc, w: TrackWindow, shift: int, m: CrcMatch) returns (e: Entry)
    requires d.Valid() && var t := TrackAt(d, w, shift); m in t.v2Matches + t.v1Matches
    ensures MatchingEntry(d, w, shift, e) && e.expected.confidence == m.confidence
  {
    TrackReportExactly(d, w, shift);
    hide DirectCrc, DirectFrame450, TrackAt, MatchList, Offers;
    var t := TrackAt(d, w, shift);
    if m in t.v1Matches {
      e := ListedFrom(d.responses, w.position, t.computed.v1, t.computed, t.v1Matches, m);
    } else {
      e := ListedFrom(d.responses, w.position, t.computed.v2, t.computed, t.v2Matches, m);
    }
  }

  // ---------------------------------------------------------------- tallies

  ghost function SumOf(s: seq<nat>): nat {
    if s == [] then 0 else SumOf(s[..|s| - 1]) + s[|s| - 1]
  }

  ghost function MatchedWindows(d: Disc, shift: int, n: nat): set<nat>
    requires n <= |d.windows|
  {
    set i: nat | i < n && Matched(d, d.windows[i], shift)
  }

  ghost function SupportedWindows(d: Disc, shift: int, n: nat): set<nat>
    requires n <= |d.windows|
  {
    set i: nat | i < n && Supported(d, d.windows[i], shift)
  }

  // best[i] is the best confidence of track i, and 0 where no entry matches.
  ghost predicate BestConfidences(d: Disc, shift: int, best: seq<nat>) {
    |best| == |d.windows|
    && forall i :: 0 <= i < |best| ==>
         if Matched(d, d.windows[i], shift) then IsBest(d, d.windows[i], shift, best[i]) else best[i] == 0
  }

  lemma BestIsUnique(d: Disc, w: TrackWindow, shift: int, a: nat, b: nat)
    requires IsBest(d, w, shift, a) && IsBest(d, w, shift, b)
    ensures a == b
  {
    hide MatchingEntry;
  }

  // The best confidences of the first n tracks, and how many of those have frame-450 support.
  ghost function PrefixConfidences(d: Disc, shift: int, n: nat): seq<u8>
    requires d.Valid() && n <= |d.windows|
  {
    Confidences(TracksAt(d, shift)[..n])
  }

  ghost function PrefixSupport(d: Disc, shift: int, n: nat): nat
    requires d.Valid() && n <= |d.windows|
  {
    FrameSupport(TracksAt(d, shift)[..n])
  }

  // What track n - 1 adds to the tallies.
  lemma TallyStep(d: Disc, shift: int, best: seq<nat>, n: nat)
    requires d.Valid() && BestConfidences(d, shift, best) && 1 <= n <= |d.windows| && n <= |best|
    ensures var now, before := PrefixConfidences(d, shift, n), PrefixConfidences(d, shift, n - 1);
            if Matched(d, d.windows[n - 1], shift) then best[n - 1] < 0x100 && now == before + [best[n - 1]]
            else best[n - 1] == 0 && now == before
    ensures PrefixSupport(d, shift, n)
         == PrefixSupport(d, shift, n - 1) + if Supported(d, d.windows[n - 1], shift) then 1 else 0
  {
    hide TrackAt, IsBest, Matched, Supported, MaxConfidence;
    var tracks, w := TracksAt(d, shift), d.windows[n - 1];
    assert tracks[..n][..n - 1] == tracks[..n - 1];
    BestOfMatches(d, w, shift);
    TrackReportExactly(d, w, shift);
    hide MatchList;
    var own := MaxConfidence(TrackAt(d, w, shift).v2Matches + TrackAt(d, w, shift).v1Matches);
    assert tracks[..n][n - 1] == TrackAt(d, w, shift);
    if own.Some? {
      BestIsUnique(d, w, shift, best[n - 1], own.value);
    }
  }

  lemma AppendedTotal(confidences: seq<u8>, c: u8)
    ensures Total(confidences + [c]) == Total(confidences) + c
  {
    assert (confidences + [c])[..|confidences|] == confidences;
  }

  // The number, the sum and the elements of the confidences after one more track.
  lemma ConfidenceStep(d: Disc, shift: int, best: seq<nat>, n: nat)
    requires d.Valid() && BestConfidences(d, shift, best) && 1 <= n <= |d.windows| && n <= |best|
    ensures var now, before := PrefixConfidences(d, shift, n), PrefixConfidences(d, shift, n - 1);
            var more := Matched(d, d.windows[n - 1], shift);
            && |now| == |before| + (if more then 1 else 0)
            && Total(now) == Total(before) + best[n - 1]
            && forall c :: c in now <==> c in before || (more && c == best[n - 1])
  {
    TallyStep(d, shift, best, n);
    hide *;
    if Matched(d, d.windows[n - 1], shift) {
      AppendedTotal(PrefixConfidences(d, shift, n - 1), best[n - 1]);
    }
  }

  lemma MatchedGrows(d: Disc, shift: int, n: nat)
    requires 1 <= n <= |d.windows|
    ensures var before, now := MatchedWindows(d, shift, n - 1), MatchedWindows(d, shift, n);
            var more := Matched(d, d.windows[n - 1], shift);
            now == before + (if more then {n - 1} else {}) && |now| == |before| + if more then 1 else 0
  {
    hide Matched;
    var before, now := MatchedWindows(d, shift, n - 1), MatchedWindows(d, shift, n);
    assert now == before + if Matched(d, d.windows[n - 1], shift) then {n - 1} else {};
  }

  lemma SupportedGrows(d: Disc, shift: int, n: nat)
    requires 1 <= n <= |d.windows|
    ensures |SupportedWindows(d, shift, n)|
         == |SupportedWindows(d, shift, n - 1)| + if Supported(d, d.windows[n - 1], shift) then 1 else 0
  {
    hide Supported;
    var before, now := SupportedWindows(d, shift, n - 1), SupportedWindows(d, shift, n);
    assert now == before + if Supported(d, d.windows[n - 1], shift) then {n - 1} else {};
  }

  lemma NothingMatchedYet(d: Disc, shift: int)
    requires d.Valid()
    ensures PrefixConfidences(d, shift, 0) == [] && MatchedWindows(d, shift, 0) == {}
  {
    hide Matched;
    TalliesOfNone();
  }

  lemma ConfidenceCountStep(d: Disc, shift: int, best: seq<nat>, n: nat)
    requires d.Valid() && BestConfidences(d, shift, best) && 1 <= n <= |d.windows| && n <= |best|
    ensures |PrefixConfidences(d, shift, n)|
         == |PrefixConfidences(d, shift, n - 1)| + if Matched(d, d.windows[n - 1], shift) then 1 else 0
  {
    ConfidenceStep(d, shift, best, n);
    hide *;
  }

  lemma MatchedCountStep(d: Disc, shift: int, n: nat)
    requires 1 <= n <= |d.windows|
    ensures |MatchedWindows(d, shift, n)|
         == |MatchedWindows(d, shift, n - 1)| + if Matched(d, d.windows[n - 1], shift) then 1 else 0
  {
    MatchedGrows(d, shift, n);
    hide *;
  }

  lemma {:induction false} CountOfPrefix(d: Disc, shift: int, best: seq<nat>, n: nat)
    requires d.Valid() && BestConfidences(d, shift, best) && n <= |d.windows| && n <= |best|
    ensures |PrefixConfidences(d, shift, n)| == |MatchedWindows(d, shift, n)|
  {
    hide *;
    if n == 0 {
      NothingMatchedYet(d, shift);
    } else {
      CountOfPrefix(d, shift, best, n - 1);
      ConfidenceCountStep(d, shift, best, n);
      MatchedCountStep(d, shift, n);
    }
  }

  lemma {:induction false} SupportOfPrefix(d: Disc, shift: int, best: seq<nat>, n: nat)
    requires d.Valid() && BestConfidences(d, shift, best) && n <= |d.windows| && n <= |best|
    ensures PrefixSupport(d, shift, n) == |SupportedWindows(d, shift, n)|
  {
    if n == 0 {
      assert SupportedWindows(d, shift, 0) == {};
      TalliesOfNone();
    } else {
      hide *;
      SupportOfPrefix(d, shift, best, n - 1);
      assert PrefixSupport(d, shift, n)
          == PrefixSupport(d, shift, n - 1) + (if Supported(d, d.windows[n - 1], shift) then 1 else 0) by {
        TallyStep(d, shift, best, n);
      }
      SupportedGrows(d, shift, n);
    }
  }

  lemma {:induction false} SumOfPrefix(d: Disc, shift: int, best: seq<nat>, n: nat)
    requires d.Valid() && BestConfidences(d, shift, best) && n <= |d.windows| && n <= |best|
    ensures Total(PrefixConfidences(d, shift, n)) == SumOf(best[..n])
  {
    if n == 0 {
      TalliesOfNone();
    } else {
      hide *;
      SumOfPrefix(d, shift, best, n - 1);
      ConfidenceStep(d, shift, best, n);
      SumGrows(best, n);
    }
  }

  lemma SumGrows(s: seq<nat>, n: nat)
    requires 1 <= n <= |s|
    ensures SumOf(s[..n]) == SumOf(s[..n - 1]) + s[n - 1]
  {
    assert s[..n][..n - 1] == s[..n - 1];
  }

  // Some track of the set has this best confidence.
  ghost predicate BestAmong(windows: set<nat>, best: seq<nat>, c: nat) {
    exists i :: i in windows && i < |best| && best[i] == c
  }

  lemma NoneAmongNone(best: seq<nat>, c: nat)
    ensures !BestAmong({}, best, c)
  {
  }

  lemma BestAmongGrows(d: Disc, shift: int, best: seq<nat>, n: nat, c: nat)
    requires 1 <= n <= |d.windows| && n <= |best|
    ensures BestAmong(MatchedWindows(d, shift, n), best, c)
       <==> BestAmong(MatchedWindows(d, shift, n - 1), best, c) || (Matched(d, d.windows[n - 1], shift) && c == best[n - 1])
  {
    MatchedGrows(d, shift, n);
    hide Matched, MatchedWindows;
    var before, now := MatchedWindows(d, shift, n - 1), MatchedWindows(d, shift, n);
    assert forall i :: i in now <==> i in before || (i == n - 1 && Matched(d, d.windows[n - 1], shift));
    if Matched(d, d.windows[n - 1], shift) {
      assert n - 1 in now;
    }
  }

  lemma {:induction false} ConfidencesOfPrefix(d: Disc, shift: int, best: seq<nat>, n: nat, c: u8)
    requires d.Valid() && BestConfidences(d, shift, best) && n <= |d.windows| && n <= |best|
    ensures c in PrefixConfidences(d, shift, n) <==> BestAmong(MatchedWindows(d, shift, n), best, c)
  {
    hide *;
    if n == 0 {
      NothingMatchedYet(d, shift);
      NoneAmongNone(best, c);
    } else {
      ConfidencesOfPrefix(d, shift, best, n - 1, c);
      ConfidenceStep(d, shift, best, n);
      BestAmongGrows(d, shift, best, n, c);
    }
  }

  // The tallies of a shift: the number of tracks with a match, the least of their best
  // confidences (0 without any), their sum, and the number of tracks with frame-450 support.
  lemma TalliesExactly(d: Disc, shift: int, best: seq<nat>)
    requires d.Valid() && BestConfidences(d, shift, best)
    ensures var c, n := CandidateAt(d, shift), |d.windows|;
            && c.sampleShift == shift
            && c.fullMatches == |MatchedWindows(d, shift, n)|
            && c.totalConfidence == SumOf(best)
            && c.frame450Matches == |SupportedWindows(d, shift, n)|
            && (MatchedWindows(d, shift, n) == {} ==> c.minimumConfidence == 0)
            && (MatchedWindows(d, shift, n) != {} ==>
                  BestAmong(MatchedWindows(d, shift, n), best, c.minimumConfidence))
            && (forall i :: i in MatchedWindows(d, shift, n) ==> c.minimumConfidence <= best[i])
  {
    var n := |d.windows|;
    CountOfPrefix(d, shift, best, n);
    SupportOfPrefix(d, shift, best, n);
    SumOfPrefix(d, shift, best, n);
    assert TracksAt(d, shift)[..n] == TracksAt(d, shift) && best[..n] == best;
    hide TracksAt, Matched, Supported, IsBest, Total, FrameSupport, Confidences;
    var confidences := Confidences(TracksAt(d, shift));
    forall c: u8
      ensures c in confidences <==> BestAmong(MatchedWindows(d, shift, n), best, c)
    {
      ConfidencesOfPrefix(d, shift, best, n, c);
    }
    var matched := MatchedWindows(d, shift, n);
    LeastOf(best, matched, confidences);
  }

  lemma LeastOf(best: seq<nat>, matched: set<nat>, confidences: seq<u8>)
    requires |confidences| == |matched|
    requires forall c: u8 :: c in confidences <==> BestAmong(matched, best, c)
    requires forall i :: i in matched ==> i < |best| && best[i] < 0x100
    ensures matched == {} ==> Minimum(confidences) == 0
    ensures matched != {} ==> BestAmong(matched, best, Minimum(confidences))
    ensures forall i :: i in matched ==> Minimum(confidences) <= best[i]
  {
    if matched != {} {
      assert confidences != [];
    }
    forall i | i in matched
      ensures Minimum(confidences) <= best[i]
    {
      assert BestAmong(matched, best, best[i]);
      assert (best[i] as u8) in confidences;
    }
  }

  lemma {:induction false} BestConfidencesExist(d: Disc, shift: int, n: nat) returns (best: seq<nat>)
    requires d.Valid() && n <= |d.windows|
    ensures |best| == n
    ensures forall i :: 0 <= i < n ==>
              if Matched(d, d.windows[i], shift) then IsBest(d, d.windows[i], shift, best[i]) else best[i] == 0
  {
    best := [];
    if n > 0 {
      var front := BestConfidencesExist(d, shift, n - 1);
      var w := d.windows[n - 1];
      BestOfMatches(d, w, shift);
      hide Matched, IsBest, MaxConfidence, TrackAt;
      var own := MaxConfidence(TrackAt(d, w, shift).v2Matches + TrackAt(d, w, shift).v1Matches);
      best := front + [if own.Some? then own.value else 0];
    }
  }

  // ---------------------------------------------------------------- the winner

  // More matched tracks; or as many and a greater least confidence; or both equal and a greater
  // sum; or all three equal and more supported frames.
  ghost predicate Outranks(a: OffsetCandidate, b: OffsetCandidate) {
    || a.fullMatches > b.fullMatches
    || (a.fullMatches == b.fullMatches && a.minimumConfidence > b.minimumConfidence)
    || (a.fullMatches == b.fullMatches && a.minimumConfidence == b.minimumConfidence
        && a.totalConfidence > b.totalConfidence)
    || (a.fullMatches == b.fullMatches && a.minimumConfidence == b.minimumConfidence
        && a.totalConfidence == b.totalConfidence && a.frame450Matches > b.frame450Matches)
  }

  // A shift no further than the bound, which is at most 2939, and unlocked.
  ghost predicate InReach(d: Disc, maxShift: int, shift: int) {
    && -2939 <= shift <= 2939 && (shift != 0 ==> -maxShift <= shift <= maxShift)
    && Unlocked(d, shift)
  }

  lemma InReachExactly(d: Disc, maxShift: int, shift: int)
    requires d.Valid()
    ensures InSearch(d, Clamped(maxShift), shift) <==> InReach(d, maxShift, shift)
  {
    SearchedExactly(d, shift);
    hide Searched, Unlocked;
  }

  lemma OutranksIsBelow(a: OffsetCandidate, b: OffsetCandidate)
    ensures Outranks(a, b) <==> b.Rank().Below(a.Rank())
    ensures a.Rank() != ZERO_RANK <==>
              a.fullMatches > 0 || a.minimumConfidence > 0 || a.totalConfidence > 0 || a.frame450Matches > 0
  {
  }

  // A shift is chosen exactly when it is in reach, has a match or a supported frame, and outranks
  // every other shift in reach.
  lemma ChosenOutranksAll(file: DbarFile, tracks: seq<DiscTrack>, maxShift: int, s: int)
    requires file.Valid() && tracks != [] && file.responses != []
    ensures var d := DiscOf(file, tracks);
            NaiveVerify(file, tracks, maxShift).chosenShift == Some(s)
            <==> && InReach(d, maxShift, s)
                 && (CandidateAt(d, s).fullMatches > 0 || CandidateAt(d, s).frame450Matches > 0)
                 && forall t :: InReach(d, maxShift, t) && t != s ==> Outranks(CandidateAt(d, s), CandidateAt(d, t))
  {
    var d, m := DiscOf(file, tracks), Clamped(maxShift);
    ChosenExactly(file, tracks, maxShift, s);
    RankCounts(d, s);
    OutranksIsBelow(CandidateAt(d, s), CandidateAt(d, s));
    forall t
      ensures InSearch(d, m, t) <==> InReach(d, maxShift, t)
      ensures Outranks(CandidateAt(d, s), CandidateAt(d, t)) <==> RankAt(d, t).Below(RankAt(d, s))
    {
      InReachExactly(d, maxShift, t);
      OutranksIsBelow(CandidateAt(d, s), CandidateAt(d, t));
    }
    hide InSearch, InReach, Outranks, CandidateAt, NaiveVerify, Rank.Below;
  }

  lemma UnbeatenExactly(d: Disc, maxShift: int, s: int)
    requires d.Valid()
    ensures Unbeaten(d, Clamped(maxShift), s)
       <==> InReach(d, maxShift, s) && forall t :: InReach(d, maxShift, t) ==> !Outranks(CandidateAt(d, t), CandidateAt(d, s))
  {
    forall t
      ensures InSearch(d, Clamped(maxShift), t) <==> InReach(d, maxShift, t)
      ensures Outranks(CandidateAt(d, t), CandidateAt(d, s)) <==> RankAt(d, s).Below(RankAt(d, t))
    {
      InReachExactly(d, maxShift, t);
      OutranksIsBelow(CandidateAt(d, t), CandidateAt(d, s));
    }
    hide InSearch, InReach, Outranks, CandidateAt, Rank.Below;
  }

  // A tie lists, ascending and each with its tallies, exactly the shifts in reach that none
  // outranks.
  lemma TiesExactly(file: DbarFile, tracks: seq<DiscTrack>, maxShift: int)
    requires file.Valid() && NaiveVerify(file, tracks, maxShift).status == AmbiguousOffsets
    ensures var d, listed := DiscOf(file, tracks), NaiveVerify(file, tracks, maxShift).ambiguousOffsets;
            && |listed| >= 2
            && (forall i, j :: 0 <= i < j < |listed| ==> listed[i].sampleShift < listed[j].sampleShift)
            && (forall c :: c in listed <==>
                  && c == CandidateAt(d, c.sampleShift) && InReach(d, maxShift, c.sampleShift)
                  && forall t :: InReach(d, maxShift, t) ==> !Outranks(CandidateAt(d, t), c))
  {
    var d := DiscOf(file, tracks);
    AmbiguousListsEveryTie(file, tracks, maxShift);
    forall s
      ensures Unbeaten(d, Clamped(maxShift), s)
         <==> InReach(d, maxShift, s) && forall t :: InReach(d, maxShift, t) ==> !Outranks(CandidateAt(d, t), CandidateAt(d, s))
    {
      UnbeatenExactly(d, maxShift, s);
    }
    hide Unbeaten, InReach, Outranks, CandidateAt, NaiveVerify, DiscOf;
  }

  // Each window is its track: its position and its samples on the disc.
  lemma WindowIsTheTrack(file: DbarFile, tracks: seq<DiscTrack>, i: nat)
    requires i < |tracks|
    ensures var d := DiscOf(file, tracks);
            && d.responses == file.responses && |d.windows| == |tracks|
            && var w := d.windows[i];
               && w.position == tracks[i].position && w.len == |tracks[i].samples|
               && w.start + w.len <= |d.samples| && d.samples[w.start..w.start + w.len] == tracks[i].samples
  {
    OwnSlice(tracks, i);
  }

  // The tracks and the status that go with the choice.
  lemma ReportExactly(file: DbarFile, tracks: seq<DiscTrack>, maxShift: int)
    requires file.Valid()
    ensures var d, summary := DiscOf(file, tracks), NaiveVerify(file, tracks, maxShift);
            if tracks == [] || file.responses == [] then summary == Summary(DiscNoData, None, [], [])
            else
              && |summary.tracks| == |d.windows| == |tracks|
              && (summary.status == DiscVerified <==>
                    summary.chosenShift.Some? && exists w <- d.windows :: Matched(d, w, summary.chosenShift.value))
              && summary.status in {DiscVerified, DiscMismatched, AmbiguousOffsets}
              && (summary.status == AmbiguousOffsets <==> summary.ambiguousOffsets != [])
              && (summary.status == AmbiguousOffsets ==> summary.chosenShift == None)
              && forall i :: 0 <= i < |tracks| ==>
                   summary.tracks[i]
                   == match summary.chosenShift
                      case Some(s) => TrackAt(d, d.windows[i], s)
                      case None =>
                        var t := TrackAt(d, d.windows[i], 0).(sampleShift := None);
                        if summary.status == AmbiguousOffsets then t.(status := Ambiguous) else t
  {
    if tracks != [] && file.responses != [] {
      ReportedStatus(file, tracks, maxShift);
      ReportedTracks(file, tracks, maxShift);
      hide NaiveVerify, TrackAt, Matched;
    }
  }

  lemma ReportedStatus(file: DbarFile, tracks: seq<DiscTrack>, maxShift: int)
    requires file.Valid() && tracks != [] && file.responses != []
    ensures var d, summary := DiscOf(file, tracks), NaiveVerify(file, tracks, maxShift);
            && (summary.status == DiscVerified <==>
                  summary.chosenShift.Some? && exists w <- d.windows :: Matched(d, w, summary.chosenShift.value))
            && summary.status in {DiscVerified, DiscMismatched, AmbiguousOffsets}
            && (summary.status == AmbiguousOffsets <==> summary.ambiguousOffsets != [])
            && (summary.status == AmbiguousOffsets ==> summary.chosenShift == None)
  {
    var d, m := DiscOf(file, tracks), Clamped(maxShift);
    var summary := NaiveVerify(file, tracks, maxShift);
    hide TracksAt, BestRank, Winners, CandidateAt, Frontier, FullMatch, Matched;
    WinnersAreUnbeaten(d, m);
    if summary.chosenShift.Some? {
      var s := summary.chosenShift.value;
      assert s in Winners(d, Shifts(d, m), BestRank(d, Shifts(d, m)));
      RankCounts(d, s);
      forall w | w in d.windows
        ensures FullMatch(d, w, s) <==> Matched(d, w, s)
      {
        MatchedIsFullMatch(d, w, s);
      }
    }
  }

  lemma ReportedTracks(file: DbarFile, tracks: seq<DiscTrack>, maxShift: int)
    requires file.Valid() && tracks != [] && file.responses != []
    ensures var d, summary := DiscOf(file, tracks), NaiveVerify(file, tracks, maxShift);
            && |summary.tracks| == |d.windows| == |tracks|
            && forall i :: 0 <= i < |tracks| ==>
                 summary.tracks[i]
                 == match summary.chosenShift
                    case Some(s) => TrackAt(d, d.windows[i], s)
                    case None =>
                      var t := TrackAt(d, d.windows[i], 0).(sampleShift := None);
                      if summary.status == AmbiguousOffsets then t.(status := Ambiguous) else t
  {
    hide BestRank, Winners, CandidateAt, Frontier, TrackAt, WindowAt, Concatenated;
  }
}
