/**
  How the shifted windows sit on the disc: at shift 0 each window is its own track, and
  for which discs no checked window leaves the stream within the default search.
 */
module OffsetAlignment {
  import opened Words
  import opened Results
  import opened Crc
  import opened Dbar
  import opened TrackVerify
  import opened PrefixSums
  import opened OffsetSearch

  // ---------------------------------------------------------------- lengths

  ghost function StartOf(tracks: seq<DiscTrack>, i: nat): nat
    requires i <= |tracks|
  {
    |Concatenated(tracks[..i])|
  }

  lemma StartStep(tracks: seq<DiscTrack>, i: nat)
    requires i < |tracks|
    ensures StartOf(tracks, i + 1) == StartOf(tracks, i) + |tracks[i].samples|
  {
    assert tracks[..i + 1][..i] == tracks[..i];
  }

  lemma {:induction false} StartsAscend(tracks: seq<DiscTrack>, i: nat, j: nat)
    requires i <= j <= |tracks|
    ensures StartOf(tracks, i) <= StartOf(tracks, j)
    decreases j
  {
    if i < j {
      StartsAscend(tracks, i, j - 1);
      StartStep(tracks, j - 1);
    }
  }

  lemma Extent(tracks: seq<DiscTrack>)
    ensures StartOf(tracks, 0) == 0 && StartOf(tracks, |tracks|) == |Concatenated(tracks)|
  {
    assert tracks[..|tracks|] == tracks;
    assert tracks[..0] == [];
  }

  lemma {:induction false} OwnSlice(tracks: seq<DiscTrack>, i: nat)
    requires i < |tracks|
    ensures var start := StartOf(tracks, i);
            && start + |tracks[i].samples| <= |Concatenated(tracks)|
            && Concatenated(tracks)[start..start + |tracks[i].samples|] == tracks[i].samples
  {
    var front := tracks[..|tracks| - 1];
    var start := StartOf(tracks, i);
    if i < |front| {
      OwnSlice(front, i);
      assert front[..i] == tracks[..i];
      assert Concatenated(tracks)[start..start + |tracks[i].samples|]
          == Concatenated(front)[start..start + |tracks[i].samples|];
    } else {
      assert tracks[..i] == front;
    }
  }

  // ---------------------------------------------------------------- shift 0

  // At shift 0 each window of the disc is its own track: the checksums are those of the
  // track taken alone.
  lemma ShiftZeroIsTheTrackAlone(tracks: seq<DiscTrack>, i: nat)
    requires i < |tracks| && |tracks[i].samples| < TWO_32
    ensures DirectCrc(Concatenated(tracks), WindowAt(tracks, i), 0)
         == TrackCrcOf(tracks[i].samples, DiscPosition(i, |tracks|))
  {
    OwnSlice(tracks, i);
    WindowOverItsTrack(Concatenated(tracks), WindowAt(tracks, i), tracks[i].samples);
  }

  lemma WindowOverItsTrack(disc: seq<u32>, w: TrackWindow, samples: seq<u32>)
    requires w.len == |samples| < TWO_32 && w.start + w.len <= |disc|
    requires disc[w.start..w.start + w.len] == samples
    ensures DirectCrc(disc, w, 0) == TrackCrcOf(samples, w.discPosition)
  {
    hide ChecksumOf, SkipBounds, Shifted;
    assert Wrap32(w.len) == |samples|;
    var (first, last) := SkipBounds(w.discPosition, |samples|);
    if first <= last {
      SliceOfSlice(disc, w.start, w.len, first - 1, last);
      ShiftedByNothing(disc, w.start + first - 1, last - first + 1);
    }
  }

  lemma ShiftedByNothing(disc: seq<u32>, base: nat, count: nat)
    requires base + count <= |disc|
    ensures Shifted(disc, base, count, 0) == Some(disc[base..base + count])
  {
  }

  lemma SliceOfSlice(s: seq<u32>, start: nat, len: nat, lo: nat, hi: nat)
    requires start + len <= |s| && lo <= hi <= len
    ensures s[start..start + len][lo..hi] == s[start + lo..start + hi]
  {
    var a, b := s[start..start + len][lo..hi], s[start + lo..start + hi];
    assert forall k :: 0 <= k < hi - lo ==> a[k] == s[start + lo + k] && b[k] == s[start + lo + k];
  }

  // The candidate at shift 0 reports what verifying the track alone reports; only a track
  // the file says nothing about is called mismatched instead of without data.
  lemma ShiftZeroAgreesWithVerifyTrack(file: DbarFile, tracks: seq<DiscTrack>, i: nat)
    requires file.Valid() && i < |tracks| && |tracks[i].samples| < TWO_32
    ensures var shifted := TrackAt(DiscOf(file, tracks), WindowAt(tracks, i), 0);
            var alone := VerificationOf(file.responses, tracks[i].position,
                                        TrackCrcOf(tracks[i].samples, DiscPosition(i, |tracks|)));
            && shifted.computed == alone.computed
            && shifted.v1Matches == alone.v1Matches
            && shifted.v2Matches == alone.v2Matches
            && (alone.status != NoData ==> shifted.status == alone.status)
            && (alone.status == NoData <==> forall e :: !Offers(file.responses, tracks[i].position, e))
            && (alone.status == NoData ==> shifted.status == Mismatched)
  {
    ShiftZeroIsTheTrackAlone(tracks, i);
    StatusMeansMatch(file.responses, tracks[i].position,
                     TrackCrcOf(tracks[i].samples, DiscPosition(i, |tracks|)));
  }

  // ---------------------------------------------------------------- staying on the disc

  // The window checks something, and all of it is on the disc at this shift.
  ghost predicate StaysInside(discLen: nat, w: TrackWindow, shift: int) {
    var (first, last) := CheckBounds(w);
    first <= last ==> 0 <= w.start + first - 1 + shift && w.start + last + shift <= discLen
  }

  // The track's frame 450, if it has one, is on the disc at this shift.
  ghost predicate FrameStaysInside(discLen: nat, w: TrackWindow, shift: int) {
    w.len >= FRAME_450_END ==>
      0 <= w.start + FRAME_450_START + shift && w.start + FRAME_450_END + shift <= discLen
  }

  lemma InsideAvoidsTheFallback(disc: seq<u32>, w: TrackWindow, shift: int)
    ensures var (first, last) := CheckBounds(w);
            StaysInside(|disc|, w, shift) && first <= last ==>
              DirectCrc(disc, w, shift)
              == ChecksumOf(disc[w.start + first - 1 + shift..w.start + last + shift], first)
    ensures FrameStaysInside(|disc|, w, shift)
       <==> (w.len >= FRAME_450_END ==> Shifted(disc, w.start + FRAME_450_START, SAMPLES_PER_FRAME, shift).Some?)
  {
  }

  ghost predicate AllStayInside(tracks: seq<DiscTrack>) {
    forall i, shift :: 0 <= i < |tracks| && -2939 <= shift <= 2939 ==>
      StaysInside(|Concatenated(tracks)|, WindowAt(tracks, i), shift)
  }

  ghost predicate FramesStayInside(tracks: seq<DiscTrack>) {
    forall i, shift :: 0 <= i < |tracks| && -2939 <= shift <= 2939 ==>
      FrameStaysInside(|Concatenated(tracks)|, WindowAt(tracks, i), shift)
  }

  // Everything the default search reads is on the disc.
  ghost predicate SearchStaysInside(tracks: seq<DiscTrack>) { AllStayInside(tracks) && FramesStayInside(tracks) }

  // Within the default search no checked window leaves the disc when the first and the last
  // of several tracks hold 2939 samples; a lone track needs nothing.
  lemma LongOuterTracksSuffice(tracks: seq<DiscTrack>)
    requires |tracks| > 1 ==> |tracks[0].samples| >= 2939 && |tracks[|tracks| - 1].samples| >= 2939
    ensures AllStayInside(tracks)
  {
    hide StaysInside;
    forall i, shift | 0 <= i < |tracks| && -2939 <= shift <= 2939
      ensures StaysInside(|Concatenated(tracks)|, WindowAt(tracks, i), shift)
    {
      OuterTracksGiveRoom(tracks, i);
      RoomKeepsInside(tracks, i, shift);
    }
  }

  lemma OuterTracksGiveRoom(tracks: seq<DiscTrack>, i: nat)
    requires i < |tracks|
    requires |tracks| > 1 ==> |tracks[0].samples| >= 2939 && |tracks[|tracks| - 1].samples| >= 2939
    ensures HasRoom(tracks, i)
  {
    hide StartOf;
    var n := |tracks|;
    Extent(tracks);
    if i > 0 {
      StartStep(tracks, 0);
      StartsAscend(tracks, 1, i);
    }
    if i + 1 < n {
      StartStep(tracks, n - 1);
      StartsAscend(tracks, i + 1, n - 1);
    }
  }

  // The positions a window checks, within what its track leaves out at the ends of the disc.
  lemma CheckedPart(tracks: seq<DiscTrack>, i: nat)
    requires i < |tracks|
    ensures var (first, last) := CheckBounds(WindowAt(tracks, i));
            && first == (if i == 0 then 2940 else 1)
            && last <= |tracks[i].samples|
            && (i == |tracks| - 1 && last > 0 ==> last <= |tracks[i].samples| - 2940)
            && (|tracks[i].samples| < TWO_32 ==>
                  last == if i < |tracks| - 1 then |tracks[i].samples| else SaturatingSub(|tracks[i].samples|, 2940))
  {
    var len := |tracks[i].samples|;
    assert Wrap32(len) <= len && (len < TWO_32 ==> Wrap32(len) == len);
    hide Wrap32;
  }

  lemma RoomKeepsInside(tracks: seq<DiscTrack>, i: nat, shift: int)
    requires i < |tracks| && -2939 <= shift <= 2939 && HasRoom(tracks, i)
    ensures StaysInside(|Concatenated(tracks)|, WindowAt(tracks, i), shift)
  {
    CheckedPart(tracks, i);
    Extent(tracks);
    StartStep(tracks, i);
    StartsAscend(tracks, i + 1, |tracks|);
    assert StartOf(tracks, i) == WindowAt(tracks, i).start;
    hide CheckBounds, StartOf;
  }

  // The window checks some sample.
  ghost predicate Checks(w: TrackWindow) {
    var (first, last) := CheckBounds(w);
    first <= last
  }

  // 2939 samples of other tracks before the track, unless it is the first, and after it,
  // unless it is the last.
  ghost predicate HasRoom(tracks: seq<DiscTrack>, i: nat)
    requires i < |tracks|
  {
    && (i > 0 ==> StartOf(tracks, i) >= 2939)
    && (i < |tracks| - 1 ==> StartOf(tracks, |tracks|) - StartOf(tracks, i + 1) >= 2939)
  }

  // 2939 samples of the disc after the track's frame 450.
  ghost predicate HasFrameRoom(tracks: seq<DiscTrack>, i: nat)
    requires i < |tracks|
  {
    StartOf(tracks, i) + FRAME_450_END + 2939 <= StartOf(tracks, |tracks|)
  }

  // The checked windows stay inside exactly when every track whose window checks something has
  // room on both sides, and the frames exactly when every track that has a frame 450 has room
  // after it. The documented containment is both.
  lemma ContainmentExactly(tracks: seq<DiscTrack>)
    requires forall t <- tracks :: |t.samples| < TWO_32
    ensures AllStayInside(tracks)
       <==> forall i :: 0 <= i < |tracks| && Checks(WindowAt(tracks, i)) ==> HasRoom(tracks, i)
    ensures FramesStayInside(tracks)
       <==> forall i :: 0 <= i < |tracks| && |tracks[i].samples| >= FRAME_450_END ==> HasFrameRoom(tracks, i)
    ensures SearchStaysInside(tracks)
       <==> forall i :: 0 <= i < |tracks| ==>
              && (Checks(WindowAt(tracks, i)) ==> HasRoom(tracks, i))
              && (|tracks[i].samples| >= FRAME_450_END ==> HasFrameRoom(tracks, i))
  {
    WindowsContainedExactly(tracks);
    FramesContainedExactly(tracks);
    hide AllStayInside, FramesStayInside, Checks, HasRoom, HasFrameRoom;
  }

  lemma FramesContainedExactly(tracks: seq<DiscTrack>)
    ensures FramesStayInside(tracks)
       <==> forall i :: 0 <= i < |tracks| && |tracks[i].samples| >= FRAME_450_END ==> HasFrameRoom(tracks, i)
  {
    Extent(tracks);
    if FramesStayInside(tracks) {
      forall i | 0 <= i < |tracks| && |tracks[i].samples| >= FRAME_450_END
        ensures HasFrameRoom(tracks, i)
      {
        assert FrameStaysInside(|Concatenated(tracks)|, WindowAt(tracks, i), 2939);
      }
    }
  }

  lemma WindowsContainedExactly(tracks: seq<DiscTrack>)
    requires forall t <- tracks :: |t.samples| < TWO_32
    ensures AllStayInside(tracks)
       <==> forall i :: 0 <= i < |tracks| && Checks(WindowAt(tracks, i)) ==> HasRoom(tracks, i)
  {
    hide StaysInside, Checks, HasRoom;
    if AllStayInside(tracks) {
      forall i | 0 <= i < |tracks| && Checks(WindowAt(tracks, i))
        ensures HasRoom(tracks, i)
      {
        RoomIsNeeded(tracks, i);
      }
    } else {
      var i, shift :| 0 <= i < |tracks| && -2939 <= shift <= 2939
                      && !StaysInside(|Concatenated(tracks)|, WindowAt(tracks, i), shift);
      RoomSuffices(tracks, i, shift);
    }
  }

  lemma RoomIsNeeded(tracks: seq<DiscTrack>, i: nat)
    requires i < |tracks| && |tracks[i].samples| < TWO_32 && Checks(WindowAt(tracks, i))
    requires StaysInside(|Concatenated(tracks)|, WindowAt(tracks, i), -2939)
    requires StaysInside(|Concatenated(tracks)|, WindowAt(tracks, i), 2939)
    ensures HasRoom(tracks, i)
  {
    CheckedPart(tracks, i);
    Extent(tracks);
    StartStep(tracks, i);
    assert StartOf(tracks, i) == WindowAt(tracks, i).start;
    hide CheckBounds, StartOf;
  }

  lemma RoomSuffices(tracks: seq<DiscTrack>, i: nat, shift: int)
    requires i < |tracks| && |tracks[i].samples| < TWO_32 && -2939 <= shift <= 2939
    requires !StaysInside(|Concatenated(tracks)|, WindowAt(tracks, i), shift)
    ensures Checks(WindowAt(tracks, i)) && !HasRoom(tracks, i)
  {
    if HasRoom(tracks, i) {
      RoomKeepsInside(tracks, i, shift);
    }
    hide CheckBounds;
  }

  // With long outer tracks everything stays inside unless the last track ends within 2939
  // samples after its frame 450.
  lemma LongOuterTracksExactly(tracks: seq<DiscTrack>)
    requires tracks != []
    requires |tracks| > 1 ==> |tracks[0].samples| >= 2939 && |tracks[|tracks| - 1].samples| >= 2939
    ensures SearchStaysInside(tracks)
       <==> !(FRAME_450_END <= |tracks[|tracks| - 1].samples| < FRAME_450_END + 2939)
  {
    LongOuterTracksSuffice(tracks);
    FramesContainedExactly(tracks);
    hide AllStayInside, FramesStayInside;
    var n := |tracks|;
    forall i | 0 <= i < n - 1 && |tracks[i].samples| >= FRAME_450_END
      ensures HasFrameRoom(tracks, i)
    {
      StartStep(tracks, i);
      StartsAscend(tracks, i + 1, n - 1);
      StartStep(tracks, n - 1);
    }
    StartStep(tracks, n - 1);
  }

  // Beside a first track of one sample, a checked window leaves the disc.
  lemma ShortFirstTrackLeavesTheDisc(tracks: seq<DiscTrack>)
    requires |tracks| == 2 && |tracks[0].samples| == 1 && |tracks[1].samples| == 2941
    ensures !AllStayInside(tracks)
  {
    Extent(tracks);
    StartStep(tracks, 0);
    assert !StaysInside(|Concatenated(tracks)|, WindowAt(tracks, 1), -2939);
  }

  // The frame 450 of a lone track that ends with it leaves the disc, and counts as zero.
  lemma LoneTrackFrameLeavesTheDisc(t: DiscTrack)
    requires |t.samples| == FRAME_450_END
    ensures AllStayInside([t]) && !FramesStayInside([t])
    ensures DirectFrame450(t.samples, WindowAt([t], 0), 2939) == Some(0)
  {
    LongOuterTracksSuffice([t]);
    Extent([t]);
    OwnSlice([t], 0);
    StartStep([t], 0);
    assert !FrameStaysInside(|Concatenated([t])|, WindowAt([t], 0), 2939);
  }
}
