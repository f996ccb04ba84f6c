/**
  The table of contents, the track lengths derived from it, and a disc's identifiers.
 */
module Tocs {
  import opened Words
  import opened Results

  datatype Toc = Toc(firstTrack: u8, lastTrack: u8, leadoutSector: u32, trackOffsets: seq<u32>)

  // Every identifier a disc can be looked up by.
  datatype DiscIds = DiscIds(
    mbDiscid: Option<string>, cddbId: Option<string>, arDiscid1: Option<string>,
    arDiscid2: Option<string>, barcode: Option<string>, catalogNumber: Option<string>)

  datatype TrackSpan = TrackSpan(position: u8, startSector: u32, lengthFrames: nat)

  // End of track idx: the next track's start, or the lead-out after the last.
  function EndSector(toc: Toc, idx: nat): u32 {
    if idx + 1 < |toc.trackOffsets| then toc.trackOffsets[idx + 1] else toc.leadoutSector
  }

  function TrackLengthFrames(toc: Toc, idx: nat): Option<nat> {
    if idx < |toc.trackOffsets|
    then Some(SaturatingSub(EndSector(toc, idx), toc.trackOffsets[idx]))
    else None
  }

  function TotalLengthFrames(toc: Toc): nat {
    if toc.trackOffsets == [] then 0 else SaturatingSub(toc.leadoutSector, toc.trackOffsets[0])
  }

  // Track numbers must fit a byte.
  function TrackSpans(toc: Toc): (spans: seq<TrackSpan>)
    requires toc.firstTrack + |toc.trackOffsets| <= 0x100
    ensures |spans| == |toc.trackOffsets|
  {
    seq(|toc.trackOffsets|, i requires 0 <= i < |toc.trackOffsets| =>
      TrackSpan(toc.firstTrack + i, toc.trackOffsets[i],
                SaturatingSub(EndSector(toc, i), toc.trackOffsets[i])))
  }

  // Strictly increasing offsets and a lead-out after the last of them.
  ghost predicate Ordered(toc: Toc) {
    && toc.trackOffsets != []
    && (forall i :: 0 <= i < |toc.trackOffsets| - 1 ==> toc.trackOffsets[i] < toc.trackOffsets[i + 1])
    && toc.trackOffsets[|toc.trackOffsets| - 1] < toc.leadoutSector
  }

  ghost function SumOfLengths(toc: Toc, n: nat): nat
    requires n <= |toc.trackOffsets|
  {
    if n == 0 then 0 else SumOfLengths(toc, n - 1) + TrackLengthFrames(toc, n - 1).value
  }

  lemma {:induction false} SumTelescopes(toc: Toc, n: nat)
    requires Ordered(toc) && 1 <= n <= |toc.trackOffsets|
    ensures SumOfLengths(toc, n) == EndSector(toc, n - 1) - toc.trackOffsets[0]
  {
    if n == 1 {
      assert SumOfLengths(toc, 0) == 0;
    } else {
      SumTelescopes(toc, n - 1);
    }
  }

  // Every track of an ordered table has positive length, and the lengths fill the disc.
  lemma LengthsFillTheDisc(toc: Toc)
    requires Ordered(toc)
    ensures forall i :: 0 <= i < |toc.trackOffsets| ==> TrackLengthFrames(toc, i).value > 0
    ensures SumOfLengths(toc, |toc.trackOffsets|) == TotalLengthFrames(toc) > 0
  {
    var n := |toc.trackOffsets|;
    SumTelescopes(toc, n);
    forall i | 0 <= i < n
      ensures TrackLengthFrames(toc, i).value > 0
    {
      if i + 1 < n {
        assert toc.trackOffsets[i] < toc.trackOffsets[i + 1];
      }
    }
    assert SumOfLengths(toc, n) >= TrackLengthFrames(toc, n - 1).value;
  }

  // A track runs to the next track's start, the last to the lead-out.
  lemma TrackLengthExactly(toc: Toc, i: nat)
    requires Ordered(toc)
    ensures i >= |toc.trackOffsets| ==> TrackLengthFrames(toc, i) == None
    ensures i < |toc.trackOffsets| - 1 ==>
              TrackLengthFrames(toc, i) == Some(toc.trackOffsets[i + 1] - toc.trackOffsets[i])
    ensures i == |toc.trackOffsets| - 1 ==>
              TrackLengthFrames(toc, i) == Some(toc.leadoutSector - toc.trackOffsets[i])
    ensures TotalLengthFrames(toc) == toc.leadoutSector - toc.trackOffsets[0]
  {
    LengthsFillTheDisc(toc);
    if i < |toc.trackOffsets| - 1 {
      assert toc.trackOffsets[i] < toc.trackOffsets[i + 1];
    }
    SumTelescopes(toc, |toc.trackOffsets|);
  }
}
