/**
  Windows of the concatenated disc and their checksums at a sample shift: the direct,
  sample-by-sample definition, and the constant-time evaluation over prefix sums.
 */
module PrefixSums {
  import opened Words
  import opened Results
  import opened Crc

  const FRAME_450_START: nat := 264600
  const FRAME_450_END: nat := 265188

  datatype DiscTrack = DiscTrack(position: u8, samples: seq<u32>)

  datatype TrackWindow = TrackWindow(position: u8, discPosition: TrackPosition, start: nat, len: nat)

  // ---------------------------------------------------------------- specification

  ghost function Concatenated(tracks: seq<DiscTrack>): seq<u32> {
    if tracks == [] then [] else Concatenated(tracks[..|tracks| - 1]) + tracks[|tracks| - 1].samples
  }

  function DiscPosition(index: nat, count: nat): TrackPosition
    requires index < count
  {
    if count == 1 then Only
    else if index == 0 then First
    else if index + 1 == count then Last
    else Middle
  }

  ghost function WindowAt(tracks: seq<DiscTrack>, i: nat): TrackWindow
    requires i < |tracks|
  {
    TrackWindow(tracks[i].position, DiscPosition(i, |tracks|),
                |Concatenated(tracks[..i])|, |tracks[i].samples|)
  }

  ghost function WindowsOf(tracks: seq<DiscTrack>): seq<TrackWindow> {
    seq(|tracks|, i requires 0 <= i < |tracks| => WindowAt(tracks, i))
  }

  // `count` samples from `base`, read `shift` samples later; None when any falls off the disc.
  ghost function Shifted(disc: seq<u32>, base: nat, count: nat, shift: int): Option<seq<u32>> {
    if 0 <= base + shift && base + shift + count <= |disc|
    then Some(disc[base + shift..base + shift + count])
    else None
  }

  function CheckBounds(w: TrackWindow): (u32, u32) { SkipBounds(w.discPosition, Wrap32(w.len)) }

  // Both checksums of the window at the shift, sample by sample.
  ghost function DirectCrc(disc: seq<u32>, w: TrackWindow, shift: int): TrackCrc {
    var (first, last) := CheckBounds(w);
    if first > last then TrackCrc(0, 0)
    else match Shifted(disc, w.start + first - 1, last - first + 1, shift)
         case None => TrackCrc(0, 0)
         case Some(samples) => ChecksumOf(samples, first)
  }

  // The one-frame checksum of frame 450, for tracks that have one.
  ghost function DirectFrame450(disc: seq<u32>, w: TrackWindow, shift: int): Option<u32> {
    if FRAME_450_END > w.len then None
    else match Shifted(disc, w.start + FRAME_450_START, SAMPLES_PER_FRAME, shift)
         case None => Some(0)
         case Some(samples) => Some(Wrap32(Weighted(samples, 1)))
  }

  ghost function Plain(s: seq<u32>): int {
    if s == [] then 0 else Plain(s[..|s| - 1]) + s[|s| - 1]
  }

  // ---------------------------------------------------------------- prefix sums

  datatype Prefix = Prefix(samples: seq<u32>, weighted: seq<u32>)
  {
    ghost predicate Represents(disc: seq<u32>) {
      && |samples| == |weighted| == |disc| + 1
      && (forall i :: 0 <= i <= |disc| ==> samples[i] == Wrap32(Plain(disc[..i])))
      && (forall i :: 0 <= i <= |disc| ==> weighted[i] == Wrap32(Weighted(disc[..i], 0)))
    }

    function WeightedRange(start: nat, end: nat, firstMultiplier: u32): u32
      requires start < |samples| && end < |samples| && |samples| == |weighted|
    {
      var sampleSum := WrappingSub(samples[end], samples[start]);
      var globalWeighted := WrappingSub(weighted[end], weighted[start]);
      var adjustment := WrappingSub(firstMultiplier, Wrap32(start));
      WrappingAdd(globalWeighted, WrappingMul(adjustment, sampleSum))
    }
  }

  method NewPrefix(disc: seq<u32>) returns (prefix: Prefix)
    ensures prefix.Represents(disc)
  {
    var sums: seq<u32>, weighted: seq<u32> := [0], [0];
    for index := 0 to |disc|
      invariant |sums| == |weighted| == index + 1
      invariant forall i :: 0 <= i <= index ==> sums[i] == Wrap32(Plain(disc[..i]))
      invariant forall i :: 0 <= i <= index ==> weighted[i] == Wrap32(Weighted(disc[..i], 0))
    {
      PrefixStep(disc, index);
      sums := sums + [WrappingAdd(sums[index], disc[index])];
      weighted := weighted + [WrappingAdd(weighted[index], WrappingMul(Wrap32(index), disc[index]))];
    }
    return Prefix(sums, weighted);
  }

  lemma PrefixStep(disc: seq<u32>, index: nat)
    requires index < |disc|
    ensures Wrap32(Plain(disc[..index + 1])) == WrappingAdd(Wrap32(Plain(disc[..index])), disc[index])
    ensures Wrap32(Weighted(disc[..index + 1], 0))
         == WrappingAdd(Wrap32(Weighted(disc[..index], 0)), WrappingMul(Wrap32(index), disc[index]))
  {
    var s := disc[..index + 1];
    assert s[..index] == disc[..index];
    WrapAdd(Plain(disc[..index]), disc[index]);
    WrapMul(index, disc[index]);
    WrapAdd(Weighted(disc[..index], 0), Wrap32(index * disc[index]));
    WrapAdd(index * disc[index], Weighted(disc[..index], 0));
  }

  // The range sum as a difference of prefix sums, over the integers.
  lemma {:induction false} RangeIsDifference(disc: seq<u32>, start: nat, end: nat, first: int)
    requires start <= end <= |disc|
    ensures Weighted(disc[start..end], first)
         == Weighted(disc[..end], 0) - Weighted(disc[..start], 0)
            + (first - start) * (Plain(disc[..end]) - Plain(disc[..start]))
  {
    if start < end {
      RangeIsDifference(disc, start, end - 1, first);
      LastOfRange(disc, start, end, first);
      LastOfRange(disc, 0, end, 0);
      assert disc[0..end] == disc[..end] && disc[0..end - 1] == disc[..end - 1];
      hide Weighted, Plain;
      Distribute(first, start, end, disc[end - 1], Plain(disc[..end - 1]) - Plain(disc[..start]));
    } else {
      assert disc[start..end] == [];
    }
  }

  lemma LastOfRange(disc: seq<u32>, start: nat, end: nat, first: int)
    requires start < end <= |disc|
    ensures Weighted(disc[start..end], first)
         == Weighted(disc[start..end - 1], first) + (first + (end - start) - 1) * disc[end - 1]
    ensures Plain(disc[start..end]) == Plain(disc[start..end - 1]) + disc[end - 1]
  {
    var range := disc[start..end];
    assert range[..|range| - 1] == disc[start..end - 1];
  }

  lemma Distribute(first: int, start: int, end: int, x: int, d: int)
    ensures (first + (end - start) - 1) * x + (first - start) * d == (0 + (end - 0) - 1) * x + (first - start) * (d + x)
  {
    assert (first + (end - start) - 1) * x == (end - 1) * x + (first - start) * x;
  }

  lemma WrapLinear(g: int, m: int, s: int)
    ensures WrappingAdd(Wrap32(g), WrappingMul(Wrap32(m), Wrap32(s))) == Wrap32(g + m * s)
  {
    WrapMul(m, Wrap32(s));
    WrapMul(s, m);
    assert m * Wrap32(s) == Wrap32(s) * m && m * s == s * m;
    WrapAddBoth(g, m * s);
    hide Wrap32;
  }

  // For every range and multiplier, four lookups give the weighted sum modulo 2^32.
  lemma WeightedRangeIsDirectSum(prefix: Prefix, disc: seq<u32>, start: nat, end: nat, first: u32)
    requires prefix.Represents(disc) && start <= end <= |disc|
    ensures prefix.WeightedRange(start, end, first) == Wrap32(Weighted(disc[start..end], first))
  {
    hide Weighted, Plain, Prefix.Represents, Prefix.WeightedRange, Wrap32;
    RangeIsDifference(disc, start, end, first);
    RepresentsAt(prefix, disc, start);
    RepresentsAt(prefix, disc, end);
    RangeOfTotals(prefix, start, end, first, Weighted(disc[..end], 0), Weighted(disc[..start], 0),
                  Plain(disc[..end]), Plain(disc[..start]));
  }

  lemma RepresentsAt(prefix: Prefix, disc: seq<u32>, i: nat)
    requires prefix.Represents(disc) && i <= |disc|
    ensures i < |prefix.samples| == |prefix.weighted|
    ensures prefix.samples[i] == Wrap32(Plain(disc[..i])) && prefix.weighted[i] == Wrap32(Weighted(disc[..i], 0))
  {
  }

  lemma RangeOfTotals(prefix: Prefix, start: nat, end: nat, first: u32, w1: int, w0: int, s1: int, s0: int)
    requires start < |prefix.samples| && end < |prefix.samples| && |prefix.samples| == |prefix.weighted|
    requires prefix.samples[end] == Wrap32(s1) && prefix.samples[start] == Wrap32(s0)
    requires prefix.weighted[end] == Wrap32(w1) && prefix.weighted[start] == Wrap32(w0)
    ensures prefix.WeightedRange(start, end, first) == Wrap32(w1 - w0 + (first - start) * (s1 - s0))
  {
    hide Wrap32, Prefix.WeightedRange;
    WrapSub(w1, w0);
    WrapSub(s1, s0);
    WrapSub(first, start);
    WrapOfWord(first);
    RangeFromWraps(prefix, start, end, first, w1 - w0, first - start, s1 - s0);
  }

  lemma WrapOfWord(x: u32)
    ensures Wrap32(x) == x
  {
  }

  lemma RangeFromWraps(prefix: Prefix, start: nat, end: nat, first: u32, g: int, m: int, s: int)
    requires start < |prefix.samples| && end < |prefix.samples| && |prefix.samples| == |prefix.weighted|
    requires WrappingSub(prefix.samples[end], prefix.samples[start]) == Wrap32(s)
    requires WrappingSub(prefix.weighted[end], prefix.weighted[start]) == Wrap32(g)
    requires WrappingSub(first, Wrap32(start)) == Wrap32(m)
    ensures prefix.WeightedRange(start, end, first) == Wrap32(g + m * s)
  {
    hide Wrap32, WrappingSub, WrappingAdd, WrappingMul;
    WrapLinear(g, m, s);
  }

  // ---------------------------------------------------------------- the fast checksums

  function SourceIndex(base: nat, shift: int, discLen: nat): Option<nat> {
    var shifted := base + shift;
    if shifted >= 0 && shifted <= discLen then Some(shifted) else None
  }

  function ShiftedWeighted(prefix: Prefix, w: TrackWindow, shift: int, localStart: nat, localEnd: nat, first: u32)
    : Option<u32>
    requires |prefix.samples| == |prefix.weighted| >= 1
  {
    match SourceIndex(w.start + localStart, shift, |prefix.samples| - 1)
    case None => None
    case Some(start) =>
      if localEnd < localStart then None
      else
        var end := start + (localEnd - localStart);
        if end < |prefix.samples| then Some(prefix.WeightedRange(start, end, first)) else None
  }

  function OrZero(crc: Option<u32>): u32 { if crc.Some? then crc.value else 0 }

  function ShiftedV1(prefix: Prefix, w: TrackWindow, shift: int): u32
    requires |prefix.samples| == |prefix.weighted| >= 1
  {
    var (first, last) := CheckBounds(w);
    if first > last then 0
    else OrZero(ShiftedWeighted(prefix, w, shift, first - 1, last, first))
  }

  function ShiftedFrame450(prefix: Prefix, w: TrackWindow, shift: int): Option<u32>
    requires |prefix.samples| == |prefix.weighted| >= 1
  {
    if FRAME_450_END <= w.len
    then Some(OrZero(ShiftedWeighted(prefix, w, shift, FRAME_450_START, FRAME_450_END, 1)))
    else None
  }

  method ShiftedV2(disc: seq<u32>, w: TrackWindow, shift: int) returns (crc: u32)
    ensures crc == DirectCrc(disc, w, shift).v2
  {
    var (first, last) := CheckBounds(w);
    if first > last {
      return 0;
    }
    var source := SourceIndex(w.start + first - 1, shift, |disc|);
    if source == None {
      return 0;
    }
    var start, count := source.value, last - first + 1;
    if start + count > |disc| {
      return 0;
    }
    var samples := disc[start..start + count];
    crc := 0;
    for index := 0 to |samples|
      invariant crc == Wrap32(Folded(samples[..index], first))
    {
      var multiplier := first + index;
      var product := multiplier * samples[index];
      FoldStep(samples, index, first, crc, product);
      crc := WrappingAdd(WrappingAdd(crc, Wrap32(product)), Wrap32(product / TWO_32));
    }
    assert samples[..|samples|] == samples;
  }

  lemma FoldStep(samples: seq<u32>, index: nat, first: u32, crc: u32, product: int)
    requires index < |samples| && product == (first + index) * samples[index]
    requires crc == Wrap32(Folded(samples[..index], first))
    ensures Wrap32(Folded(samples[..index + 1], first))
         == WrappingAdd(WrappingAdd(crc, Wrap32(product)), Wrap32(product / TWO_32))
  {
    assert samples[..index + 1][..index] == samples[..index];
    assert Folded(samples[..index + 1], first)
        == Folded(samples[..index], first) + (product % TWO_32 + product / TWO_32);
    FoldWraps(Folded(samples[..index], first), product);
  }

  lemma FoldWraps(folded: int, product: int)
    ensures Wrap32(folded + (product % TWO_32 + product / TWO_32))
         == WrappingAdd(WrappingAdd(Wrap32(folded), Wrap32(product)), Wrap32(product / TWO_32))
  {
    WrapAddBoth(folded, product);
    WrapAddBoth(folded + product, product / TWO_32);
    WrapDropsMultiples(folded + product % TWO_32 + product / TWO_32, product / TWO_32);
  }

  // At every shift, in range or not, the prefix sums give the direct v1 checksum.
  lemma ShiftedV1IsDirect(prefix: Prefix, disc: seq<u32>, w: TrackWindow, shift: int)
    requires prefix.Represents(disc)
    ensures ShiftedV1(prefix, w, shift) == DirectCrc(disc, w, shift).v1
  {
    hide SkipBounds, Weighted, Folded, Plain, Wrap32;
    var (first, last) := CheckBounds(w);
    var start := w.start + first - 1 + shift;
    var count := last - first + 1;
    if first <= last && 0 <= start && start + count <= |disc| {
      WeightedRangeIsDirectSum(prefix, disc, start, start + count, first);
      hide Prefix.WeightedRange;
    }
  }

  lemma ShiftedFrame450IsDirect(prefix: Prefix, disc: seq<u32>, w: TrackWindow, shift: int)
    requires prefix.Represents(disc)
    ensures ShiftedFrame450(prefix, w, shift) == DirectFrame450(disc, w, shift)
  {
    hide Weighted, Plain, Wrap32;
    var start := w.start + FRAME_450_START + shift;
    if 0 <= start && start + SAMPLES_PER_FRAME <= |disc| {
      WeightedRangeIsDirectSum(prefix, disc, start, start + SAMPLES_PER_FRAME, 1);
    }
  }
}
