/**
  AccurateRip v1 and v2 checksums over one track. The specification is a plain sum
  over the checked window; the two methods below are the single-pass loops.
 */
module Crc {
  import opened Words
  import opened Results

  const SKIP_SAMPLES: u32 := 2940
  const SAMPLES_PER_FRAME: nat := 588

  datatype TrackPosition = First | Middle | Last | Only

  datatype TrackCrc = TrackCrc(v1: u32, v2: u32)

  type PcmSector = s: seq<u32> | |s| == 588 witness seq(588, _ => 0)

  // What the PCM reader yields for one sector.
  datatype SectorRead = Frame(samples: PcmSector) | Failed(message: string)

  datatype CrcError = Analysis(message: string) | SampleCount(emitted: u32, expected: u32)

  // ---------------------------------------------------------------- specification

  // Sum of position * sample, the first sample standing at position `first`.
  ghost function Weighted(s: seq<u32>, first: int): int {
    if s == [] then 0
    else Weighted(s[..|s| - 1], first) + (first + |s| - 1) * s[|s| - 1]
  }

  // The same walk, each 64-bit product folded into low word plus high word.
  ghost function Folded(s: seq<u32>, first: int): int {
    if s == [] then 0
    else
      var product := (first + |s| - 1) * s[|s| - 1];
      Folded(s[..|s| - 1], first) + (product % TWO_32 + product / TWO_32)
  }

  // Sum of the high words alone.
  ghost function HighWords(s: seq<u32>, first: int): int {
    if s == [] then 0
    else HighWords(s[..|s| - 1], first) + (first + |s| - 1) * s[|s| - 1] / TWO_32
  }

  ghost function ChecksumOf(window: seq<u32>, first: int): TrackCrc {
    TrackCrc(Wrap32(Weighted(window, first)), Wrap32(Folded(window, first)))
  }

  function SkipBounds(position: TrackPosition, total: u32): (bounds: (u32, u32))
    ensures 1 <= bounds.0
    ensures bounds.1 <= total
  {
    var start := if position.First? || position.Only? then SKIP_SAMPLES else 1;
    var end := if position.Last? || position.Only? then SaturatingSub(total, SKIP_SAMPLES) else total;
    (start, end)
  }

  ghost function TrackCrcOf(samples: seq<u32>, position: TrackPosition): TrackCrc
    requires |samples| < TWO_32
  {
    var (start, end) := SkipBounds(position, |samples|);
    if start > end then TrackCrc(0, 0) else ChecksumOf(samples[start - 1..end], start)
  }

  ghost function Flatten(sectors: seq<SectorRead>): (all: seq<u32>)
    requires forall r <- sectors :: r.Frame?
    ensures |all| == 588 * |sectors|
  {
    if sectors == [] then [] else Flatten(sectors[..|sectors| - 1]) + sectors[|sectors| - 1].samples
  }

  // The state of either loop once `count` samples have been consumed.
  ghost function CrcSoFar(samples: seq<u32>, start: u32, end: u32, count: nat): TrackCrc
    requires 1 <= start && count <= |samples|
  {
    var stop := if count < end then count else end;
    if stop < start then TrackCrc(0, 0) else ChecksumOf(samples[start - 1..stop], start)
  }

  // ---------------------------------------------------------------- properties

  // A position is checked unless it is one of the first 2939 of the disc's first track or one
  // of the last 2940 of its last track.
  lemma CheckedPositionsExactly(position: TrackPosition, total: u32, p: int)
    ensures var (start, end) := SkipBounds(position, total);
            start <= p <= end
            <==> && 1 <= p <= total
                 && (position.First? || position.Only? ==> p > 2939)
                 && (position.Last? || position.Only? ==> p <= total - 2940)
  {
  }

  lemma {:induction false} FoldedSplits(s: seq<u32>, first: int)
    ensures Wrap32(Folded(s, first)) == Wrap32(Weighted(s, first) + HighWords(s, first))
  {
    if s != [] {
      FoldedSplits(s[..|s| - 1], first);
      var product := (first + |s| - 1) * s[|s| - 1];
      assert product == TWO_32 * (product / TWO_32) + product % TWO_32;
      var shorter := s[..|s| - 1];
      WrapAdd(Folded(shorter, first), product % TWO_32 + product / TWO_32);
      WrapAdd(Weighted(shorter, first) + HighWords(shorter, first), product % TWO_32 + product / TWO_32);
      WrapDropsMultiples(
        Weighted(shorter, first) + HighWords(shorter, first) + product % TWO_32 + product / TWO_32,
        product / TWO_32);
    }
  }

  // For either code path the v2 checksum is the v1 checksum plus the overflowing high words.
  lemma V2IsV1PlusHighWords(window: seq<u32>, first: int)
    ensures ChecksumOf(window, first).v2
         == WrappingAdd(ChecksumOf(window, first).v1, Wrap32(HighWords(window, first)))
  {
    FoldedSplits(window, first);
    WrapAdd(Weighted(window, first), Wrap32(HighWords(window, first)));
    WrapAdd(HighWords(window, first), Weighted(window, first));
  }

  // One sample contributes its position times its value, over the integers.
  lemma {:induction false} WeightedChange(s: seq<u32>, first: int, k: nat, x: u32)
    requires k < |s|
    ensures Weighted(s[k := x], first) == Weighted(s, first) + ((first + k) * x - (first + k) * s[k])
  {
    var t := s[k := x];
    if k < |s| - 1 {
      assert t[..|t| - 1] == s[..|s| - 1][k := x];
      WeightedChange(s[..|s| - 1], first, k, x);
    } else {
      assert t[..|t| - 1] == s[..|s| - 1];
    }
  }

  lemma {:induction false} FoldedChange(s: seq<u32>, first: int, k: nat, x: u32)
    requires k < |s|
    ensures var (now, was) := ((first + k) * x, (first + k) * s[k]);
            Folded(s[k := x], first)
            == Folded(s, first) + (now % 0x1_0000_0000 + now / 0x1_0000_0000)
                                - (was % 0x1_0000_0000 + was / 0x1_0000_0000)
  {
    var t := s[k := x];
    if k < |s| - 1 {
      assert t[..|t| - 1] == s[..|s| - 1][k := x];
      FoldedChange(s[..|s| - 1], first, k, x);
    } else {
      assert t[..|t| - 1] == s[..|s| - 1];
    }
  }

  lemma {:induction false} SilenceSumsToZero(s: seq<u32>, first: int)
    requires forall i :: 0 <= i < |s| ==> s[i] == 0
    ensures Weighted(s, first) == 0 && Folded(s, first) == 0
  {
    if s != [] {
      SilenceSumsToZero(s[..|s| - 1], first);
    }
  }

  // Changing one sample of a window moves v1 by the change of the product of its position and
  // its value, and v2 by the change of that product's low word plus high word.
  lemma SampleWeighsItsPosition(window: seq<u32>, first: int, k: nat, x: u32)
    requires k < |window|
    ensures var (before, after) := (ChecksumOf(window, first), ChecksumOf(window[k := x], first));
            var (now, was) := ((first + k) * x, (first + k) * window[k]);
            && after.v1 == (before.v1 + now - was) % 0x1_0000_0000
            && after.v2 == (before.v2 + (now % 0x1_0000_0000 + now / 0x1_0000_0000)
                                      - (was % 0x1_0000_0000 + was / 0x1_0000_0000)) % 0x1_0000_0000
  {
    var (now, was) := ((first + k) * x, (first + k) * window[k]);
    WeightedChange(window, first, k, x);
    FoldedChange(window, first, k, x);
    WrapAdd(Weighted(window, first), now - was);
    WrapAdd(Folded(window, first), now % 0x1_0000_0000 + now / 0x1_0000_0000 - (was % 0x1_0000_0000 + was / 0x1_0000_0000));
  }

  // The sample at index k stands at position k + 1. Outside the checked part of the track it
  // changes nothing; inside, it weighs its position.
  lemma TrackSampleWeighsItsPosition(samples: seq<u32>, position: TrackPosition, k: nat, x: u32)
    requires k < |samples| < TWO_32
    ensures var (before, after) := (TrackCrcOf(samples, position), TrackCrcOf(samples[k := x], position));
            var (now, was) := ((k + 1) * x, (k + 1) * samples[k]);
            if (position.First? || position.Only? ==> k >= 2939)
               && (position.Last? || position.Only? ==> k < |samples| - 2940)
            then && after.v1 == (before.v1 + now - was) % 0x1_0000_0000
                 && after.v2 == (before.v2 + (now % 0x1_0000_0000 + now / 0x1_0000_0000)
                                           - (was % 0x1_0000_0000 + was / 0x1_0000_0000)) % 0x1_0000_0000
            else after == before
  {
    var (start, end) := SkipBounds(position, |samples|);
    CheckedPositionsExactly(position, |samples|, k + 1);
    hide SkipBounds;
    if start <= end {
      var window, t := samples[start - 1..end], samples[k := x];
      if start <= k + 1 <= end {
        assert t[start - 1..end] == window[k + 1 - start := x];
        hide ChecksumOf;
        SampleWeighsItsPosition(window, start, k + 1 - start, x);
        assert start + (k + 1 - start) == k + 1;
      } else {
        assert t[start - 1..end] == window;
      }
    }
  }

  lemma SilentTrackIsZero(samples: seq<u32>, position: TrackPosition)
    requires |samples| < TWO_32 && forall i :: 0 <= i < |samples| ==> samples[i] == 0
    ensures TrackCrcOf(samples, position) == TrackCrc(0, 0)
  {
    var (start, end) := SkipBounds(position, |samples|);
    if start <= end {
      SilenceSumsToZero(samples[start - 1..end], start);
    }
  }

  // The flattened track is the sectors' samples in reading order.
  lemma {:induction false} FlattenAt(sectors: seq<SectorRead>, k: nat, i: nat)
    requires k < |sectors| && i < 588 && forall r <- sectors :: r.Frame?
    ensures sectors[k] in sectors && Flatten(sectors)[588 * k + i] == sectors[k].samples[i]
  {
    var front := sectors[..|sectors| - 1];
    if k < |front| {
      FlattenAt(front, k, i);
    }
  }

  lemma CrcSoFarIgnoresTail(samples: seq<u32>, longer: seq<u32>, start: u32, end: u32, count: nat)
    requires 1 <= start && count <= |samples| && samples <= longer
    ensures CrcSoFar(samples, start, end, count) == CrcSoFar(longer, start, end, count)
  {
    var stop := if count < end then count else end;
    if start <= stop {
      assert samples[start - 1..stop] == longer[start - 1..stop];
    }
  }

  lemma CrcSoFarStep(samples: seq<u32>, start: u32, end: u32, count: nat)
    requires 1 <= start && count < |samples|
    ensures CrcSoFar(samples, start, end, count + 1)
         == if start <= count + 1 <= end
            then Accumulate(CrcSoFar(samples, start, end, count), count + 1, samples[count])
            else CrcSoFar(samples, start, end, count)
  {
    if start <= count + 1 <= end {
      var longer := samples[start - 1..count + 1];
      var shorter := longer[..|longer| - 1];
      assert shorter == samples[start - 1..count];
      assert longer[|longer| - 1] == samples[count];
      assert CrcSoFar(samples, start, end, count) == ChecksumOf(shorter, start);
      var product := (count + 1) * samples[count];
      WrapAdd(Weighted(shorter, start), Wrap32(product));
      WrapAdd(product, Weighted(shorter, start));
      WrapAdd(Folded(shorter, start), product % TWO_32 + product / TWO_32);
      AccumulateWraps(CrcSoFar(samples, start, end, count), count + 1, samples[count]);
    }
  }

  // ---------------------------------------------------------------- the loops

  function Accumulate(crc: TrackCrc, position: nat, sample: u32): TrackCrc {
    var product := position * sample;
    TrackCrc(
      WrappingAdd(crc.v1, Wrap32(product)),
      WrappingAdd(WrappingAdd(crc.v2, Wrap32(product / TWO_32)), Wrap32(product)))
  }

  lemma AccumulateWraps(crc: TrackCrc, position: nat, sample: u32)
    ensures var product := position * sample;
            Accumulate(crc, position, sample).v2 == Wrap32(crc.v2 + (product % TWO_32 + product / TWO_32))
  {
    var product := position * sample;
    WrapAdd(product / TWO_32, crc.v2);
    WrapAdd(crc.v2 + Wrap32(product / TWO_32), Wrap32(product));
    WrapAdd(product / TWO_32, crc.v2 + Wrap32(product));
  }

  method TrackCrcSamples(samples: seq<u32>, position: TrackPosition) returns (crc: TrackCrc)
    requires |samples| < TWO_32
    ensures crc == TrackCrcOf(samples, position)
  {
    var (checkStart, checkEnd) := SkipBounds(position, |samples|);
    crc := TrackCrc(0, 0);
    for index := 0 to |samples|
      invariant crc == CrcSoFar(samples, checkStart, checkEnd, index)
    {
      CrcSoFarStep(samples, checkStart, checkEnd, index);
      var pos := index + 1;
      if pos >= checkStart && pos <= checkEnd {
        crc := Accumulate(crc, pos, samples[index]);
      }
    }
  }

  ghost predicate AllFrames(sectors: seq<SectorRead>) {
    forall r <- sectors :: r.Frame?
  }

  lemma FlattenStep(sectors: seq<SectorRead>, k: nat)
    requires k < |sectors| && AllFrames(sectors[..k]) && sectors[k].Frame?
    ensures AllFrames(sectors[..k + 1])
    ensures Flatten(sectors[..k + 1]) == Flatten(sectors[..k]) + sectors[k].samples
  {
    assert sectors[..k + 1][..k] == sectors[..k];
  }

  lemma NothingAccumulated(sectors: seq<SectorRead>, start: u32, end: u32)
    requires 1 <= start
    ensures AllFrames(sectors[..0]) && CrcSoFar(Flatten(sectors[..0]), start, end, 0) == TrackCrc(0, 0)
  {
  }

  lemma EverythingAccumulated(samples: seq<u32>, position: TrackPosition)
    requires |samples| < TWO_32
    ensures var (start, end) := SkipBounds(position, |samples|);
            CrcSoFar(samples, start, end, |samples|) == TrackCrcOf(samples, position)
  {
  }

  method TrackCrcStreaming(sectors: seq<SectorRead>, totalSamples: u32, position: TrackPosition)
    returns (r: Result<TrackCrc, CrcError>)
    requires 588 * |sectors| < TWO_32
    // Exactly a failed read gives an analysis error, and it is the first one that is reported.
    ensures r.Failure? && r.error.Analysis? <==> !AllFrames(sectors)
    ensures r.Failure? && r.error.Analysis? ==>
              exists i :: 0 <= i < |sectors| && AllFrames(sectors[..i]) && sectors[i] == Failed(r.error.message)
    // Otherwise the sample count must agree, and the checksum is that of the flattened track.
    ensures AllFrames(sectors) ==>
              r == if 588 * |sectors| != totalSamples
                   then Failure(SampleCount(588 * |sectors|, totalSamples))
                   else Success(TrackCrcOf(Flatten(sectors), position))
  {
    hide ChecksumOf, Accumulate, Flatten, CrcSoFar;
    var (checkStart, checkEnd) := SkipBounds(position, totalSamples);
    var crc := TrackCrc(0, 0);
    var pos, emitted := 1, 0;
    NothingAccumulated(sectors, checkStart, checkEnd);
    for k := 0 to |sectors|
      invariant AllFrames(sectors[..k])
      invariant emitted == 588 * k && pos == emitted + 1
      invariant crc == CrcSoFar(Flatten(sectors[..k]), checkStart, checkEnd, emitted)
    {
      if sectors[k].Failed? {
        assert sectors[k] in sectors;
        return Failure(Analysis(sectors[k].message));
      }
      var sector := sectors[k].samples;
      FlattenStep(sectors, k);
      ghost var through := Flatten(sectors[..k + 1]);
      CrcSoFarIgnoresTail(Flatten(sectors[..k]), through, checkStart, checkEnd, emitted);
      for i := 0 to 588
        invariant pos == emitted + i + 1
        invariant crc == CrcSoFar(through, checkStart, checkEnd, emitted + i)
      {
        CrcSoFarStep(through, checkStart, checkEnd, emitted + i);
        if pos >= checkStart && pos <= checkEnd {
          crc := Accumulate(crc, pos, sector[i]);
        }
        pos := pos + 1;
      }
      emitted := emitted + 588;
    }
    assert sectors[..|sectors|] == sectors;
    if emitted != totalSamples {
      return Failure(SampleCount(emitted, totalSamples));
    }
    EverythingAccumulated(Flatten(sectors), position);
    return Success(crc);
  }
}
