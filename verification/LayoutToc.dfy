/**
  From a disc layout to the audio table of contents, with the CD-Extra correction.
 */
module LayoutToc {
  import opened Words
  import opened Results
  import opened Tocs
  import opened DiscId

  const CD_EXTRA_DATA_OFFSET: nat := 11400

  datatype TrackKind = Audio | Data | Unknown

  datatype TrackLayout = TrackLayout(number: u8, absoluteOffset: u32, lengthSectors: u32, kind: TrackKind)

  datatype TocError =
    | NoTracks | MixedMode | NoAudioTracks | DataBelowLeadIn
    | NumbersDescend | OffsetsNotIncreasing | LeadoutTooEarly

  // Index of the first data track, or the number of tracks.
  function FirstData(layout: seq<TrackLayout>): (n: nat)
    ensures n <= |layout|
    ensures n < |layout| ==> layout[n].kind == Data
    ensures forall i :: 0 <= i < n ==> layout[i].kind != Data
  {
    if layout == [] || layout[0].kind == Data then 0
    else
      assert forall i :: 0 < i < |layout| ==> layout[i] == layout[1..][i - 1];
      1 + FirstData(layout[1..])
  }

  function Offsets(layout: seq<TrackLayout>): (offsets: seq<u32>)
    ensures |offsets| == |layout|
  {
    seq(|layout|, i requires 0 <= i < |layout| => layout[i].absoluteOffset)
  }

  function ValidateToc(toc: Toc): Option<TocError>
    requires toc.trackOffsets != []
  {
    if toc.firstTrack > toc.lastTrack then Some(NumbersDescend)
    else if exists i :: 0 <= i < |toc.trackOffsets| - 1 && toc.trackOffsets[i] >= toc.trackOffsets[i + 1] then
      Some(OffsetsNotIncreasing)
    else if toc.leadoutSector <= toc.trackOffsets[|toc.trackOffsets| - 1] then Some(LeadoutTooEarly)
    else None
  }

  // Offsets and lengths are sector counts of one disc, so their sum fits a word.
  predicate FitsWord(layout: seq<TrackLayout>) {
    forall t <- layout :: t.absoluteOffset + t.lengthSectors < TWO_32
  }

  predicate AnyAudioLike(layout: seq<TrackLayout>) {
    exists t <- layout :: t.kind != Data
  }

  // The table of the first n tracks: it ends where the last of them does, or at the corrected
  // start of the data track that follows.
  function TableOf(layout: seq<TrackLayout>, n: nat): Toc
    requires FitsWord(layout) && 0 < n <= |layout|
    requires n < |layout| ==> layout[n].absoluteOffset >= CD_EXTRA_DATA_OFFSET
  {
    assert layout[n - 1] in layout;
    var leadout := if n < |layout| then layout[n].absoluteOffset - CD_EXTRA_DATA_OFFSET
                   else layout[n - 1].absoluteOffset + layout[n - 1].lengthSectors;
    Toc(layout[0].number, layout[n - 1].number, leadout, Offsets(layout[..n]))
  }

  function LayoutToToc(layout: seq<TrackLayout>): Result<Toc, TocError>
    requires FitsWord(layout)
  {
    if layout == [] then Failure(NoTracks)
    else
      var n := FirstData(layout);
      if AnyAudioLike(layout[n..]) then Failure(MixedMode)
      else if n == 0 then Failure(NoAudioTracks)
      else if n < |layout| && layout[n].absoluteOffset < CD_EXTRA_DATA_OFFSET then Failure(DataBelowLeadIn)
      else
        match ValidateToc(TableOf(layout, n))
        case Some(e) => Failure(e)
        case None => Success(TableOf(layout, n))
  }

  // ---------------------------------------------------------------- what is accepted

  // The table describes the first n tracks of the layout, which are its audio, followed only by
  // data; the lead-out is the end of the last audio track, or lies 11,400 sectors before the
  // first data track.
  ghost predicate Describes(layout: seq<TrackLayout>, n: nat, toc: Toc) {
    && 1 <= n <= |layout|
    && (forall i :: 0 <= i < n ==> layout[i].kind != Data)
    && (forall i :: n <= i < |layout| ==> layout[i].kind == Data)
    && toc.firstTrack == layout[0].number && toc.lastTrack == layout[n - 1].number
    && |toc.trackOffsets| == n
    && (forall i :: 0 <= i < n ==> toc.trackOffsets[i] == layout[i].absoluteOffset)
    && (n < |layout| ==> toc.leadoutSector + 11400 == layout[n].absoluteOffset)
    && (n == |layout| ==> toc.leadoutSector == layout[n - 1].absoluteOffset + layout[n - 1].lengthSectors)
  }

  lemma {:induction false} FirstDataIsTheSplit(layout: seq<TrackLayout>, n: nat)
    requires n <= |layout|
    requires forall i :: 0 <= i < n ==> layout[i].kind != Data
    requires forall i :: n <= i < |layout| ==> layout[i].kind == Data
    ensures FirstData(layout) == n
  {
    if n > 0 {
      assert layout[0].kind != Data;
      FirstDataIsTheSplit(layout[1..], n - 1);
    }
  }

  // A layout is accepted as a table exactly when the table describes its leading audio run,
  // its numbers do not descend, its offsets increase strictly and its lead-out comes later.
  lemma AcceptedExactly(layout: seq<TrackLayout>, toc: Toc)
    requires FitsWord(layout)
    ensures LayoutToToc(layout) == Success(toc)
       <==> (exists n :: Describes(layout, n, toc)) && toc.firstTrack <= toc.lastTrack && Ordered(toc)
  {
    if LayoutToToc(layout) == Success(toc) {
      AcceptedIsDescribed(layout, toc);
    }
    if n: nat :| Describes(layout, n, toc) && toc.firstTrack <= toc.lastTrack && Ordered(toc) {
      DescribedIsAccepted(layout, n, toc);
    }
  }

  lemma AcceptedIsDescribed(layout: seq<TrackLayout>, toc: Toc)
    requires FitsWord(layout) && LayoutToToc(layout) == Success(toc)
    ensures Describes(layout, FirstData(layout), toc) && toc.firstTrack <= toc.lastTrack && Ordered(toc)
  {
    var n := FirstData(layout);
    forall i | n <= i < |layout|
      ensures layout[i].kind == Data
    {
      assert layout[n..][i - n] == layout[i] && layout[i] in layout[n..];
    }
    hide FirstData;
    assert ValidateToc(toc) == None;
  }

  lemma DescribedIsAccepted(layout: seq<TrackLayout>, n: nat, toc: Toc)
    requires FitsWord(layout) && Describes(layout, n, toc) && toc.firstTrack <= toc.lastTrack && Ordered(toc)
    ensures LayoutToToc(layout) == Success(toc)
  {
    FirstDataIsTheSplit(layout, n);
    hide FirstData;
    forall t | t in layout[n..]
      ensures t.kind == Data
    {
      var k :| 0 <= k < |layout| - n && layout[n..][k] == t;
      assert t == layout[n + k];
    }
    assert Offsets(layout[..n]) == toc.trackOffsets;
    assert ValidateToc(toc) == None;
  }

  ghost predicate Mixed(layout: seq<TrackLayout>) {
    exists i, j :: 0 <= i < j < |layout| && layout[i].kind == Data && layout[j].kind != Data
  }

  // Some track of the first n starts no later than the one before it.
  ghost predicate StartsFall(layout: seq<TrackLayout>, n: nat)
    requires n <= |layout|
  {
    exists i :: 0 <= i < n - 1 && layout[i].absoluteOffset >= layout[i + 1].absoluteOffset
  }

  lemma ValidationExactly(layout: seq<TrackLayout>, n: nat)
    requires FitsWord(layout) && 0 < n <= |layout| && (n < |layout| ==> layout[n].absoluteOffset >= 11400)
    ensures ValidateToc(TableOf(layout, n))
         == if layout[0].number > layout[n - 1].number then Some(NumbersDescend)
            else if StartsFall(layout, n) then Some(OffsetsNotIncreasing)
            else if EndOf(layout, n) <= layout[n - 1].absoluteOffset then Some(LeadoutTooEarly)
            else None
  {
    var toc := TableOf(layout, n);
    assert forall i :: 0 <= i < n ==> toc.trackOffsets[i] == layout[i].absoluteOffset;
    hide Offsets, FitsWord;
  }

  // Where the audio ends: 11,400 sectors before the data that follows, or at the last track's end.
  ghost function EndOf(layout: seq<TrackLayout>, n: nat): int
    requires 0 < n <= |layout|
  {
    if n < |layout| then layout[n].absoluteOffset - 11400 else layout[n - 1].absoluteOffset + layout[n - 1].lengthSectors
  }

  lemma TrailingIsDataExactly(layout: seq<TrackLayout>)
    ensures AnyAudioLike(layout[FirstData(layout)..]) <==> Mixed(layout)
  {
    var n := FirstData(layout);
    hide FirstData;
    if t :| t in layout[n..] && t.kind != Data {
      var k :| 0 <= k < |layout| - n && layout[n..][k] == t;
      assert layout[n].kind == Data && layout[n + k].kind != Data;
    }
    if i, j :| 0 <= i < j < |layout| && layout[i].kind == Data && layout[j].kind != Data {
      assert layout[n..][j - n] == layout[j] && layout[j] in layout[n..];
    }
  }

  // What is refused, and which refusal comes first.
  lemma RefusedExactly(layout: seq<TrackLayout>)
    requires FitsWord(layout)
    ensures layout == [] ==> LayoutToToc(layout) == Failure(NoTracks)
    ensures Mixed(layout) ==> LayoutToToc(layout) == Failure(MixedMode)
    ensures var n, r := FirstData(layout), LayoutToToc(layout);
            !Mixed(layout) && layout != [] ==>
              if n == 0 then r == Failure(NoAudioTracks)
              else if n < |layout| && layout[n].absoluteOffset < 11400 then r == Failure(DataBelowLeadIn)
              else if layout[0].number > layout[n - 1].number then r == Failure(NumbersDescend)
              else if StartsFall(layout, n) then r == Failure(OffsetsNotIncreasing)
              else if EndOf(layout, n) <= layout[n - 1].absoluteOffset then r == Failure(LeadoutTooEarly)
              else r.Success?
  {
    TrailingIsDataExactly(layout);
    assert Mixed(layout) ==> layout != [];
    var n := FirstData(layout);
    if 0 < n && (n < |layout| ==> layout[n].absoluteOffset >= 11400) {
      ValidationExactly(layout, n);
    }
    hide FirstData, Mixed, AnyAudioLike, StartsFall, EndOf, ValidateToc, TableOf, FitsWord;
  }

  // Every accepted disc has tracks of positive length that together fill it.
  lemma AcceptedTracksFillTheDisc(layout: seq<TrackLayout>)
    requires FitsWord(layout) && LayoutToToc(layout).Success?
    ensures var toc := LayoutToToc(layout).value;
            && (forall i :: 0 <= i < |toc.trackOffsets| ==> TrackLengthFrames(toc, i).value > 0)
            && SumOfLengths(toc, |toc.trackOffsets|) == TotalLengthFrames(toc) > 0
  {
    AcceptedExactly(layout, LayoutToToc(layout).value);
    LengthsFillTheDisc(LayoutToToc(layout).value);
  }

  // Mixed mode is refused exactly when some data track precedes a track that is not data.
  lemma MixedModeExactly(layout: seq<TrackLayout>)
    requires FitsWord(layout)
    ensures LayoutToToc(layout) == Failure(MixedMode)
       <==> exists i, j :: 0 <= i < j < |layout| && layout[i].kind == Data && layout[j].kind != Data
  {
    var n := FirstData(layout);
    if i, j :| 0 <= i < j < |layout| && layout[i].kind == Data && layout[j].kind != Data {
      assert layout[n..][j - n] == layout[j];
      assert layout[j] in layout[n..];
    }
    if t :| t in layout[n..] && t.kind != Data {
      var k :| 0 <= k < |layout[n..]| && layout[n..][k] == t;
      assert layout[n].kind == Data && layout[n + k].kind != Data;
    }
  }

  // ---------------------------------------------------------------- numbers and offsets

  // The numbers of the first n tracks go up by one.
  ghost predicate Consecutive(layout: seq<TrackLayout>, n: nat)
    requires n <= |layout|
  {
    forall i :: 0 <= i < n - 1 ==> layout[i + 1].number == layout[i].number + 1
  }

  lemma {:induction false} ConsecutiveNumbers(layout: seq<TrackLayout>, n: nat, i: nat)
    requires i < n <= |layout| && Consecutive(layout, n)
    ensures layout[i].number == layout[0].number + i
  {
    if i > 0 {
      ConsecutiveNumbers(layout, n, i - 1);
      assert layout[i - 1 + 1].number == layout[i - 1].number + 1;
    }
  }

  // Offset k is the start of the audio track numbered k after the first.
  ghost predicate StandsUnderItsNumber(layout: seq<TrackLayout>, toc: Toc, k: nat)
    requires k < |toc.trackOffsets|
  {
    exists i :: 0 <= i < FirstData(layout)
                && layout[i].number == toc.firstTrack + k && layout[i].absoluteOffset == toc.trackOffsets[k]
  }

  lemma {:induction false} OffsetsDiffer(toc: Toc, i: nat, j: nat)
    requires Ordered(toc) && i < j < |toc.trackOffsets|
    ensures toc.trackOffsets[i] < toc.trackOffsets[j]
  {
    OffsetsAscend(toc, i, j - 1);
    assert toc.trackOffsets[j - 1] < toc.trackOffsets[j - 1 + 1];
  }

  lemma SameOffsetSameIndex(toc: Toc, i: nat, j: nat)
    requires Ordered(toc) && i < |toc.trackOffsets| && j < |toc.trackOffsets|
    requires toc.trackOffsets[i] == toc.trackOffsets[j]
    ensures i == j
  {
    if i < j {
      OffsetsDiffer(toc, i, j);
    } else if j < i {
      OffsetsDiffer(toc, j, i);
    }
  }

  // Track i of the layout carries the number the table counts for it.
  ghost predicate CountedRight(layout: seq<TrackLayout>, i: nat)
    requires i < |layout|
  {
    layout[i].number == layout[0].number + i
  }

  lemma ConsecutiveIsCountedRight(layout: seq<TrackLayout>, n: nat)
    requires n <= |layout|
    ensures Consecutive(layout, n) <==> forall i :: 0 <= i < n ==> CountedRight(layout, i)
  {
    if Consecutive(layout, n) {
      forall i | 0 <= i < n
        ensures CountedRight(layout, i)
      {
        ConsecutiveNumbers(layout, n, i);
      }
    } else {
      var i :| 0 <= i < n - 1 && layout[i + 1].number != layout[i].number + 1;
      assert !CountedRight(layout, i) || !CountedRight(layout, i + 1);
    }
  }

  lemma StandsUnderExactly(layout: seq<TrackLayout>, toc: Toc, k: nat)
    requires FitsWord(layout) && LayoutToToc(layout) == Success(toc) && k < |toc.trackOffsets|
    ensures k < |layout| && (StandsUnderItsNumber(layout, toc, k) <==> CountedRight(layout, k))
  {
    hide FirstData, LayoutToToc;
    AcceptedIsDescribed(layout, toc);
    if StandsUnderItsNumber(layout, toc, k) {
      var i :| 0 <= i < FirstData(layout)
               && layout[i].number == toc.firstTrack + k && layout[i].absoluteOffset == toc.trackOffsets[k];
      SameOffsetSameIndex(toc, i, k);
    }
  }

  lemma PrintedUnderOwnNumberExactly(layout: seq<TrackLayout>, toc: Toc, i: nat)
    requires FitsWord(layout) && LayoutToToc(layout) == Success(toc) && i < |toc.trackOffsets|
    ensures i < |layout|
    ensures OffsetOf(toc, layout[i].number) == layout[i].absoluteOffset
       <==> CountedRight(layout, i) && layout[i].number <= toc.lastTrack
  {
    hide FirstData, LayoutToToc;
    AcceptedIsDescribed(layout, toc);
    var number := layout[i].number;
    assert number >= toc.firstTrack ==> (number - toc.firstTrack) % 0x100 == number - toc.firstTrack;
    if i > 0 {
      OffsetsDiffer(toc, 0, i);
      if OffsetOf(toc, number) == layout[i].absoluteOffset {
        SameOffsetSameIndex(toc, number - toc.firstTrack, i);
      }
    }
  }

  // Every offset of an accepted table stands under the number of its track, as the table is
  // documented to be indexed, exactly when the audio numbers are consecutive; just then the
  // MusicBrainz string has every track's offset under its number, and the fallback tracklist
  // every track at its number.
  lemma OffsetsStandUnderNumbersExactly(layout: seq<TrackLayout>)
    requires FitsWord(layout) && LayoutToToc(layout).Success?
    ensures var toc, n := LayoutToToc(layout).value, FirstData(layout);
            && |toc.trackOffsets| == n
            && ((forall k :: 0 <= k < n ==> StandsUnderItsNumber(layout, toc, k)) <==> Consecutive(layout, n))
            && ((forall i :: 0 <= i < n ==> OffsetOf(toc, layout[i].number) == layout[i].absoluteOffset)
                <==> Consecutive(layout, n))
            && (toc.firstTrack + n <= 0x100 ==>
                  ((forall i :: 0 <= i < n ==> TrackSpans(toc)[i].position == layout[i].number) <==> Consecutive(layout, n)))
  {
    hide FirstData, LayoutToToc, StandsUnderItsNumber, OffsetOf;
    var toc, n := LayoutToToc(layout).value, FirstData(layout);
    AcceptedIsDescribed(layout, toc);
    ConsecutiveIsCountedRight(layout, n);
    assert CountedRight(layout, 0);
    forall i | 0 <= i < n
      ensures StandsUnderItsNumber(layout, toc, i) <==> CountedRight(layout, i)
      ensures CountedRight(layout, i) && layout[i].number <= toc.lastTrack
         <==> OffsetOf(toc, layout[i].number) == layout[i].absoluteOffset
    {
      StandsUnderExactly(layout, toc, i);
      PrintedUnderOwnNumberExactly(layout, toc, i);
    }
    if Consecutive(layout, n) {
      assert CountedRight(layout, n - 1);
      assert forall i :: 0 <= i < n ==> CountedRight(layout, i);
    }
  }

  // The lowest byte of the CDDB number is the number of audio tracks exactly when there are as
  // many of them as numbers from the first to the last.
  lemma CountByteIsTrackCountExactly(layout: seq<TrackLayout>)
    requires FitsWord(layout) && LayoutToToc(layout).Success? && Countable(LayoutToToc(layout).value)
    ensures var toc := LayoutToToc(layout).value;
            CddbNumber(toc) % 0x100 == FirstData(layout) <==> FirstData(layout) == toc.lastTrack - toc.firstTrack + 1
  {
    hide CddbNumber, FirstData, LayoutToToc;
    CountByte(LayoutToToc(layout).value);
  }

  // The numbers need not be consecutive: a gap is accepted. Then the track count taken from the
  // numbers is not the number of tracks, and the last track's offset is printed under the number
  // after the first, and zero under its own.
  lemma GappedNumbersAreAccepted(first: u8, last: u8, start: u32, length: u32)
    requires first + 1 < last && start + 2 * length < TWO_32 && length > 0
    ensures var layout := [TrackLayout(first, start, length, Audio), TrackLayout(last, start + length, length, Audio)];
            && FitsWord(layout)
            && LayoutToToc(layout).Success?
            && var toc := LayoutToToc(layout).value;
               && toc.lastTrack - toc.firstTrack + 1 != |toc.trackOffsets|
               && OffsetOf(toc, first + 1) == start + length && OffsetOf(toc, last) == 0
  {
    var layout := [TrackLayout(first, start, length, Audio), TrackLayout(last, start + length, length, Audio)];
    AcceptedExactly(layout, Toc(first, last, start + 2 * length, [start, start + length]));
    assert Describes(layout, 2, Toc(first, last, start + 2 * length, [start, start + length]));
  }

  // The table of an accepted layout, numbered as on a disc, loses an offset in the MusicBrainz
  // string exactly when there are more audio tracks than numbers from the first to the last.
  lemma AcceptedLosesOffsetsExactly(layout: seq<TrackLayout>)
    requires FitsWord(layout) && LayoutToToc(layout).Success? && Numbered(LayoutToToc(layout).value)
    ensures var toc := LayoutToToc(layout).value;
            (exists k :: 0 <= k < |toc.trackOffsets| && Lost(toc, k))
            <==> FirstData(layout) > toc.lastTrack - toc.firstTrack + 1
  {
    hide Lost, FirstData, LayoutToToc;
    var toc := LayoutToToc(layout).value;
    AcceptedIsDescribed(layout, toc);
    ShorterTableSharesString(toc);
  }

  // Numbers that ascend from track to track never lose an offset.
  lemma AscendingNumbersLoseNothing(layout: seq<TrackLayout>)
    requires FitsWord(layout) && LayoutToToc(layout).Success? && Numbered(LayoutToToc(layout).value)
    requires forall i :: 0 <= i < FirstData(layout) - 1 ==> layout[i].number < layout[i + 1].number
    ensures var toc := LayoutToToc(layout).value;
            forall k :: 0 <= k < |toc.trackOffsets| ==> !Lost(toc, k)
  {
    hide Lost, LayoutToToc;
    AcceptedIsDescribed(layout, LayoutToToc(layout).value);
    AcceptedLosesOffsetsExactly(layout);
    NumbersAscend(layout, FirstData(layout) - 1);
  }

  lemma {:induction false} NumbersAscend(layout: seq<TrackLayout>, i: nat)
    requires i < FirstData(layout)
    requires forall j :: 0 <= j < FirstData(layout) - 1 ==> layout[j].number < layout[j + 1].number
    ensures layout[i].number >= layout[0].number + i
  {
    if i > 0 {
      NumbersAscend(layout, i - 1);
      assert layout[i - 1].number < layout[i - 1 + 1].number;
    }
  }

  // Tracks numbered 1, 5 and 2 are accepted, and share their string with the accepted layout
  // that has the last two as one track.
  lemma InnerNumberHidesTrack(start: u32, length: u32)
    requires start + 3 * length < TWO_32 && length > 0
    ensures var three := [TrackLayout(1, start, length, Audio), TrackLayout(5, start + length, length, Audio),
                          TrackLayout(2, start + 2 * length, length, Audio)];
            var two := [TrackLayout(1, start, length, Audio), TrackLayout(2, start + length, 2 * length, Audio)];
            && FitsWord(three) && FitsWord(two)
            && LayoutToToc(three).Success? && LayoutToToc(two).Success?
            && LayoutToToc(three).value != LayoutToToc(two).value
            && Preimage(LayoutToToc(three).value) == Preimage(LayoutToToc(two).value)
  {
    hide Preimage, FirstData, LayoutToToc;
    var three := [TrackLayout(1, start, length, Audio), TrackLayout(5, start + length, length, Audio),
                  TrackLayout(2, start + 2 * length, length, Audio)];
    var two := [TrackLayout(1, start, length, Audio), TrackLayout(2, start + length, 2 * length, Audio)];
    var longer := Toc(1, 2, start + 3 * length, [start, start + length, start + 2 * length]);
    var shorter := Toc(1, 2, start + 3 * length, [start, start + length]);
    DescribedIsAccepted(three, 3, longer);
    DescribedIsAccepted(two, 2, shorter);
    assert Printed(longer) == shorter.trackOffsets;
    assert |longer.trackOffsets| != |shorter.trackOffsets|;
    PreimageShowsExactly(longer, shorter);
  }
}
