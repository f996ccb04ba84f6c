/**
  Override paths: parsing, rendering, and applying an override to a disc and its tracks.
 */
module Overrides {
  import opened Words
  import opened Results
  import opened CatalogDb

  // An index fits a 64-bit word.
  datatype Segment = Field(name: string) | Indexed(name: string, index: u64)

  datatype PathFault =
    | EmptySegment | UnmatchedClose | UnterminatedOpen | TrailingText | MissingName | NonNumericIndex

  datatype OverrideError =
    | MalformedPath(fault: PathFault)
    | UnknownSegment(segment: string)
    | IndexOutOfRange(index: nat, len: nat)
    | UnknownField(target: string, field: string)
    | ValueParse(field: string, value: string)
    | TargetMismatch(target: string, path: string)

  // ---------------------------------------------------------------- numbers

  predicate IsDigit(c: char) { '0' <= c <= '9' }

  function DigitValue(c: char): nat
    requires IsDigit(c)
  {
    c as nat - '0' as nat
  }

  function Decimal(s: string): nat
    requires forall c <- s :: IsDigit(c)
  {
    if s == "" then 0 else 10 * Decimal(s[..|s| - 1]) + DigitValue(s[|s| - 1])
  }

  // Digits after an optional plus sign, within the bound; nothing else.
  function ParseUnsigned(s: string, bound: nat): Option<nat> {
    var digits := if s != "" && s[0] == '+' then s[1..] else s;
    if digits == "" || exists c <- digits :: !IsDigit(c) then None
    else if Decimal(digits) < bound then Some(Decimal(digits))
    else None
  }

  function RenderNumber(n: nat): (s: string)
    ensures s != "" && forall c <- s :: IsDigit(c)
  {
    var last := ('0' as nat + n % 10) as char;
    if n < 10 then [last] else RenderNumber(n / 10) + [last]
  }

  lemma {:induction false} DecimalOfRendered(n: nat)
    ensures Decimal(RenderNumber(n)) == n
  {
    var s := RenderNumber(n);
    if n >= 10 {
      DecimalOfRendered(n / 10);
      assert s[..|s| - 1] == RenderNumber(n / 10);
    } else {
      assert s[..0] == "";
    }
  }

  lemma RenderedNumberParses(n: nat, bound: nat)
    requires n < bound
    ensures ParseUnsigned(RenderNumber(n), bound) == Some(n)
  {
    DecimalOfRendered(n);
    assert RenderNumber(n)[0] in RenderNumber(n);
  }

  // ---------------------------------------------------------------- splitting

  // Index of the first occurrence of c, or the length.
  function Find(s: string, c: char): (i: nat)
    ensures i <= |s|
    ensures i < |s| ==> s[i] == c
    ensures forall k :: 0 <= k < i ==> s[k] != c
  {
    if s == "" || s[0] == c then 0
    else
      assert forall k :: 0 < k < |s| ==> s[k] == s[1..][k - 1];
      1 + Find(s[1..], c)
  }

  // The pieces between dots: one more than there are dots.
  function SplitDots(s: string): (pieces: seq<string>)
    ensures pieces != []
    decreases |s|
  {
    var i := Find(s, '.');
    if i == |s| then [s] else [s[..i]] + SplitDots(s[i + 1..])
  }

  lemma FindIs(s: string, c: char, i: nat)
    requires i <= |s| && (i < |s| ==> s[i] == c) && forall k :: 0 <= k < i ==> s[k] != c
    ensures Find(s, c) == i
  {
  }

  lemma SplitOfJoined(a: string, b: string)
    requires '.' !in a
    ensures SplitDots(a + "." + b) == [a] + SplitDots(b)
  {
    var s := a + "." + b;
    FindIs(s, '.', |a|);
    assert s[..|a|] == a && s[|a| + 1..] == b;
  }

  lemma SplitOfDotless(a: string)
    requires '.' !in a
    ensures SplitDots(a) == [a]
  {
    FindIs(a, '.', |a|);
  }

  lemma {:induction false} PiecesHaveNoDot(s: string)
    ensures forall p <- SplitDots(s) :: '.' !in p
    decreases |s|
  {
    var i := Find(s, '.');
    if i < |s| {
      PiecesHaveNoDot(s[i + 1..]);
      assert forall k :: 0 <= k < i ==> s[..i][k] == s[k];
    }
  }

  // ---------------------------------------------------------------- segments

  function ParseSegment(raw: string): Result<Segment, OverrideError> {
    if raw == "" then Failure(MalformedPath(EmptySegment))
    else
      var open := Find(raw, '[');
      if open == |raw| then
        if ']' in raw then Failure(MalformedPath(UnmatchedClose)) else Success(Field(raw))
      else if ']' !in raw then Failure(MalformedPath(UnterminatedOpen))
      else if raw[|raw| - 1] != ']' then Failure(MalformedPath(TrailingText))
      else if open == 0 then Failure(MalformedPath(MissingName))
      else
        match ParseUnsigned(raw[open + 1..|raw| - 1], 0x1_0000_0000_0000_0000)
        case None => Failure(MalformedPath(NonNumericIndex))
        case Some(index) => Success(Indexed(raw[..open], index))
  }

  function RenderSegment(s: Segment): string {
    match s
    case Field(name) => name
    case Indexed(name, index) => name + "[" + RenderNumber(index) + "]"
  }

  function ParseAll(pieces: seq<string>): Result<seq<Segment>, OverrideError> {
    if pieces == [] then Success([])
    else
      match ParseSegment(pieces[0])
      case Failure(e) => Failure(e)
      case Success(first) =>
        match ParseAll(pieces[1..])
        case Failure(e) => Failure(e)
        case Success(rest) => Success([first] + rest)
  }

  function ParseSubPath(input: Option<string>): Result<seq<Segment>, OverrideError> {
    if input.None? || input.value == "" then Success([]) else ParseAll(SplitDots(input.value))
  }

  function RenderPath(path: seq<Segment>): string {
    if path == [] then ""
    else if |path| == 1 then RenderSegment(path[0])
    else RenderSegment(path[0]) + "." + RenderPath(path[1..])
  }

  // Names a path can carry: not empty, without a dot or an opening bracket, and for a plain
  // field without a closing bracket either.
  predicate WellFormed(s: Segment) {
    && s.name != "" && '.' !in s.name && '[' !in s.name
    && (s.Field? ==> ']' !in s.name)
  }

  // ---------------------------------------------------------------- round trip

  lemma RenderedSegmentParses(s: Segment)
    requires WellFormed(s)
    ensures ParseSegment(RenderSegment(s)) == Success(s)
    ensures '.' !in RenderSegment(s) && RenderSegment(s) != ""
  {
    match s
    case Field(name) =>
      FindIs(name, '[', |name|);
    case Indexed(name, index) =>
      var digits := RenderNumber(index);
      var raw := name + "[" + digits + "]";
      FindIs(raw, '[', |name|);
      RenderedNumberParses(index, 0x1_0000_0000_0000_0000);
      assert raw[|name| + 1..|raw| - 1] == digits;
      assert raw[..|name|] == name;
      assert raw[|raw| - 1] == ']' && ']' in raw;
      assert '.' !in digits;
  }

  lemma ParsedSegmentIsWellFormed(raw: string)
    requires ParseSegment(raw).Success? && '.' !in raw
    ensures WellFormed(ParseSegment(raw).value)
  {
    var open := Find(raw, '[');
    if open < |raw| {
      assert forall k :: 0 <= k < open ==> raw[..open][k] == raw[k];
    }
  }

  lemma {:induction false} RenderedPiecesParse(path: seq<Segment>)
    requires path != [] && forall s <- path :: WellFormed(s)
    ensures RenderPath(path) != "" && ParseAll(SplitDots(RenderPath(path))) == Success(path)
  {
    hide ParseSegment, RenderSegment, WellFormed;
    assert path[0] in path;
    RenderedSegmentParses(path[0]);
    var first := RenderSegment(path[0]);
    if |path| == 1 {
      SplitOfDotless(first);
      assert [first][1..] == [] && ParseAll([]) == Success([]);
      assert path == [path[0]] + [];
    } else {
      assert forall s <- path[1..] :: s in path;
      RenderedPiecesParse(path[1..]);
      SplitOfJoined(first, RenderPath(path[1..]));
      var rest := SplitDots(RenderPath(path[1..]));
      assert ([first] + rest)[1..] == rest;
      assert path == [path[0]] + path[1..];
    }
  }

  lemma {:induction false} ParsedPathIsWellFormed(pieces: seq<string>)
    requires ParseAll(pieces).Success? && forall p <- pieces :: '.' !in p
    ensures forall s <- ParseAll(pieces).value :: WellFormed(s)
  {
    hide ParseSegment, WellFormed;
    if pieces != [] {
      assert pieces[0] in pieces;
      ParsedSegmentIsWellFormed(pieces[0]);
      assert forall p <- pieces[1..] :: p in pieces;
      ParsedPathIsWellFormed(pieces[1..]);
    }
  }

  // Parsing a rendered path gives it back exactly when all its names are well formed.
  lemma RoundTripExactly(path: seq<Segment>)
    ensures ParseSubPath(Some(RenderPath(path))) == Success(path) <==> forall s <- path :: WellFormed(s)
  {
    hide ParseSegment, RenderSegment, WellFormed;
    if path != [] && forall s <- path :: WellFormed(s) {
      RenderedPiecesParse(path);
    }
    if ParseSubPath(Some(RenderPath(path))) == Success(path) && RenderPath(path) != "" {
      PiecesHaveNoDot(RenderPath(path));
      ParsedPathIsWellFormed(SplitDots(RenderPath(path)));
    }
  }

  // Numbers are decimal, with a leading plus sign allowed; a path is written name[index] and its
  // parts are joined by dots.
  lemma PathText(s: string, digit: char, name: string, index: u64, front: Segment, rest: seq<Segment>)
    requires (forall c <- s :: '0' <= c <= '9') && '0' <= digit <= '9'
    ensures Decimal("") == 0 && (forall c <- s + [digit] :: IsDigit(c))
    ensures Decimal(s + [digit]) == 10 * Decimal(s) + (digit as int - '0' as int)
    ensures RenderSegment(Field(name)) == name
    ensures RenderSegment(Indexed(name, index)) == name + "[" + RenderNumber(index) + "]"
    ensures rest != [] ==> RenderPath([front] + rest) == RenderSegment(front) + "." + RenderPath(rest)
    ensures RenderPath([front]) == RenderSegment(front) && RenderPath([]) == ""
  {
    assert (s + [digit])[..|s|] == s;
    assert ([front] + rest)[1..] == rest;
  }

  // ---------------------------------------------------------------- applying

  // An empty override clears the field.
  function Nullable(value: string): Option<string> { if value == "" then None else Some(value) }

  function WithDiscField(disc: DiscRow, field: string, value: string): Result<DiscRow, OverrideError> {
    if field == "format" then Success(disc.(format := value))
    else if field == "mb_discid" then Success(disc.(mbDiscid := Nullable(value)))
    else if field == "cddb_id" then Success(disc.(cddbId := Nullable(value)))
    else if field == "ar_discid1" then Success(disc.(arDiscid1 := Nullable(value)))
    else if field == "ar_discid2" then Success(disc.(arDiscid2 := Nullable(value)))
    else Failure(UnknownField("Disc", field))
  }

  function WithTrackField(track: TrackRow, field: string, value: string): Result<TrackRow, OverrideError> {
    if field == "title" then Success(track.(title := Nullable(value)))
    else if field == "artist_credit" then Success(track.(artistCredit := Nullable(value)))
    else if field == "length_frames" then
      if value == "" then Success(track.(lengthFrames := None))
      else match ParseUnsigned(value, 0x1_0000_0000_0000_0000)
           case None => Failure(ValueParse(field, value))
           case Some(frames) => Success(track.(lengthFrames := Some(frames)))
    else if field == "isrc" then Success(track.(isrc := Nullable(value)))
    else if field == "mbid" then Success(track.(mbid := Nullable(value)))
    else if field == "recording_mbid" then Success(track.(recordingMbid := Nullable(value)))
    else Failure(UnknownField("Track", field))
  }

  // A disc field reads back as the value, empty meaning absent except for the format, and nothing
  // else changes; any other field is refused.
  lemma DiscFieldExactly(disc: DiscRow, field: string, value: string)
    ensures var given := if value == "" then None else Some(value);
            WithDiscField(disc, field, value)
            == match field
               case "format" => Success(disc.(format := value))
               case "mb_discid" => Success(disc.(mbDiscid := given))
               case "cddb_id" => Success(disc.(cddbId := given))
               case "ar_discid1" => Success(disc.(arDiscid1 := given))
               case "ar_discid2" => Success(disc.(arDiscid2 := given))
               case _ => Failure(UnknownField("Disc", field))
  {
  }

  const DISC_FIELDS: set<string> := {"format", "mb_discid", "cddb_id", "ar_discid1", "ar_discid2"}
  const TRACK_FIELDS: set<string> := {"title", "artist_credit", "length_frames", "isrc", "mbid", "recording_mbid"}

  // The path names one track of the disc, counted from 1, and nothing below it.
  predicate NamesTrack(path: seq<Segment>, count: nat) {
    |path| == 1 && path[0].Indexed? && path[0].name == "track" && 1 <= path[0].index <= count
  }

  // Field and value that a track accepts.
  predicate TrackAccepts(field: string, value: string) {
    field in TRACK_FIELDS
    && (field == "length_frames" && value != "" ==> ParseUnsigned(value, 0x1_0000_0000_0000_0000).Some?)
  }

  // The value read back from the named field.
  function TrackText(track: TrackRow, field: string): Option<string> {
    if field == "title" then track.title
    else if field == "artist_credit" then track.artistCredit
    else if field == "isrc" then track.isrc
    else if field == "mbid" then track.mbid
    else if field == "recording_mbid" then track.recordingMbid
    else None
  }

  // Every field but the named one is as before, the disc and the position always.
  ghost predicate OnlyFieldChanged(before: TrackRow, after: TrackRow, field: string) {
    && after.discId == before.discId && after.position == before.position
    && (forall other <- TRACK_FIELDS :: other != field ==> TrackText(after, other) == TrackText(before, other))
    && (field != "length_frames" ==> after.lengthFrames == before.lengthFrames)
  }

  // Refused below a track, for an unknown field and for a length that is no number; otherwise
  // the field reads back as the value, empty meaning absent, and nothing else changes.
  method ApplyToTrack(track: TrackRow, path: seq<Segment>, field: string, value: string)
    returns (r: Result<TrackRow, OverrideError>)
    ensures r.Success? <==> path == [] && TrackAccepts(field, value)
    ensures r.Success? ==>
              && OnlyFieldChanged(track, r.value, field)
              && (field != "length_frames" ==> TrackText(r.value, field) == Nullable(value))
              && (field == "length_frames" ==>
                    r.value.lengthFrames
                    == if value == "" then None else ParseUnsigned(value, 0x1_0000_0000_0000_0000))
    ensures r.Failure? ==>
              match r.error
              case TargetMismatch(target, at) => path != [] && target == "Track" && at == RenderPath(path)
              case UnknownField(target, name) => path == [] && target == "Track" && name == field && field !in TRACK_FIELDS
              case ValueParse(name, given) => path == [] && name == field == "length_frames" && given == value
              case _ => false
  {
    if |path| != 0 {
      return Failure(TargetMismatch("Track", RenderPath(path)));
    }
    return WithTrackField(track, field, value);
  }

  // Those clauses leave one row, the one the field update gives.
  lemma FieldUpdateIsTheOnlyOne(track: TrackRow, after: TrackRow, field: string, value: string)
    requires TrackAccepts(field, value) && OnlyFieldChanged(track, after, field)
    requires field != "length_frames" ==> TrackText(after, field) == Nullable(value)
    requires field == "length_frames" ==>
               after.lengthFrames == if value == "" then None else ParseUnsigned(value, 0x1_0000_0000_0000_0000)
    ensures WithTrackField(track, field, value) == Success(after)
  {
    hide ParseUnsigned;
    assert TrackText(after, "title") == after.title && TrackText(after, "artist_credit") == after.artistCredit;
    assert TrackText(after, "isrc") == after.isrc && TrackText(after, "mbid") == after.mbid;
    assert TrackText(after, "recording_mbid") == after.recordingMbid;
    assert "title" in TRACK_FIELDS && "artist_credit" in TRACK_FIELDS && "isrc" in TRACK_FIELDS;
    assert "mbid" in TRACK_FIELDS && "recording_mbid" in TRACK_FIELDS;
  }

  // An override that fails changes neither the disc nor any track; one that succeeds sets one
  // field of the disc, or of the one track the path names, and nothing else.
  method ApplyToDisc(disc: DiscRow, tracks: array<TrackRow>, path: seq<Segment>, field: string, value: string)
    returns (r: Result<DiscRow, OverrideError>)
    modifies tracks
    ensures r.Failure? ==> tracks[..] == old(tracks[..])
    ensures r.Success? ==>
              if path == [] then Success(r.value) == WithDiscField(disc, field, value) && tracks[..] == old(tracks[..])
              else
                && NamesTrack(path, tracks.Length)
                && r.value == disc
                && Success(tracks[path[0].index - 1]) == WithTrackField(old(tracks[path[0].index - 1]), field, value)
                && tracks[..] == old(tracks[..])[path[0].index - 1 := tracks[path[0].index - 1]]
    ensures r.Success? <==>
              if path == [] then field in DISC_FIELDS
              else
                && NamesTrack(path, tracks.Length)
                && TrackAccepts(field, value)
  {
    if |path| == 0 {
      return WithDiscField(disc, field, value);
    }
    var segment, rest := path[0], path[1..];
    if !(segment.Indexed? && segment.name == "track") {
      return Failure(UnknownSegment(RenderSegment(segment)));
    }
    if segment.index == 0 || segment.index > tracks.Length {
      return Failure(IndexOutOfRange(segment.index, tracks.Length));
    }
    var zero := segment.index - 1;
    var updated := ApplyToTrack(tracks[zero], rest, field, value);
    if updated.Failure? {
      return Failure(updated.error);
    }
    FieldUpdateIsTheOnlyOne(tracks[zero], updated.value, field, value);
    tracks[zero] := updated.value;
    return Success(disc);
  }
}
