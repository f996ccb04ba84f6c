/**
  Comparing one track's computed checksums with every pressing of a dBAR file. The
  primary checksum of an entry is not labelled, so v1 and v2 are compared independently.
 */
module TrackVerify {
  import opened Words
  import opened Results
  import opened Crc
  import opened Dbar

  datatype ChecksumVersion = V1 | V2 | Both

  datatype TrackStatus = Verified | Mismatched | NoData | Ambiguous

  datatype CrcMatch = CrcMatch(pressing: nat, confidence: u8, checksum: u32, version: ChecksumVersion)

  datatype TrackVerification = TrackVerification(
    position: u8, computed: TrackCrc, v1Matches: seq<CrcMatch>, v2Matches: seq<CrcMatch>,
    sampleShift: Option<int>, frame450Support: bool, status: TrackStatus)

  // ---------------------------------------------------------------- specification

  function VersionOf(checksum: u32, computed: TrackCrc): ChecksumVersion {
    if computed.v1 == computed.v2 then Both else if checksum == computed.v1 then V1 else V2
  }

  // The entries whose primary checksum is `wanted`, in file order.
  function Matches(entries: seq<Entry>, wanted: u32, computed: TrackCrc): (matches: seq<CrcMatch>)
  {
    if entries == [] then []
    else
      var last := entries[|entries| - 1];
      Matches(entries[..|entries| - 1], wanted, computed)
      + if last.expected.checksum != wanted then []
        else [CrcMatch(last.pressing, last.expected.confidence, wanted, VersionOf(wanted, computed))]
  }

  ghost function VerificationOf(responses: seq<DbarResponse>, position: u8, computed: TrackCrc): TrackVerification
    requires forall r <- responses :: r.Valid()
  {
    var entries := EntriesForTrack(responses, position);
    var v1Matches := Matches(entries, computed.v1, computed);
    var v2Matches := Matches(entries, computed.v2, computed);
    TrackVerification(position, computed, v1Matches, v2Matches, Some(0), false,
      if v1Matches != [] || v2Matches != [] then Verified
      else if entries != [] then Mismatched
      else NoData)
  }

  function MaxConfidence(matches: seq<CrcMatch>): (best: Option<u8>)
    ensures best == None <==> matches == []
    ensures best.Some? ==> forall m <- matches :: m.confidence <= best.value
    ensures best.Some? ==> exists m <- matches :: m.confidence == best.value
  {
    if matches == [] then None
    else
      var last := matches[|matches| - 1];
      match MaxConfidence(matches[..|matches| - 1])
      case None => Some(last.confidence)
      case Some(best) => Some(if last.confidence >= best then last.confidence else best)
  }

  function BestConfidence(t: TrackVerification): Option<u8> {
    MaxConfidence(t.v1Matches + t.v2Matches)
  }

  // The last match of greatest confidence, as an iterator's maximum by key picks it.
  function LastMaximum(matches: seq<CrcMatch>): Option<CrcMatch> {
    if matches == [] then None
    else
      var last := matches[|matches| - 1];
      match LastMaximum(matches[..|matches| - 1])
      case None => Some(last)
      case Some(best) => Some(if last.confidence >= best.confidence then last else best)
  }

  function BestMatch(t: TrackVerification): Option<CrcMatch> {
    LastMaximum(t.v2Matches + t.v1Matches)
  }

  // ---------------------------------------------------------------- the loop

  method VerifyTrack(file: DbarFile, position: u8, computed: TrackCrc) returns (r: TrackVerification)
    requires file.Valid()
    ensures r == VerificationOf(file.responses, position, computed)
  {
    var entries := EntriesForTrack(file.responses, position);
    var v1Matches: seq<CrcMatch>, v2Matches: seq<CrcMatch> := [], [];
    for i := 0 to |entries|
      invariant v1Matches == Matches(entries[..i], computed.v1, computed)
      invariant v2Matches == Matches(entries[..i], computed.v2, computed)
    {
      assert entries[..i + 1][..i] == entries[..i];
      var pressing, entry := entries[i].pressing, entries[i].expected;
      var v2 := entry.checksum == computed.v2;
      var v1 := entry.checksum == computed.v1;
      if v1 {
        v1Matches := v1Matches + [CrcMatch(pressing, entry.confidence, entry.checksum, if v2 then Both else V1)];
      }
      if v2 {
        v2Matches := v2Matches + [CrcMatch(pressing, entry.confidence, entry.checksum, if v1 then Both else V2)];
      }
    }
    assert entries[..|entries|] == entries;
    var status :=
      if v1Matches == [] && v2Matches == [] then if entries != [] then Mismatched else NoData
      else Verified;
    return TrackVerification(position, computed, v1Matches, v2Matches, Some(0), false, status);
  }

  // `crcs` in any order; the results come in the same order.
  method VerifyDisc(file: DbarFile, crcs: seq<(u8, TrackCrc)>) returns (tracks: seq<TrackVerification>)
    requires file.Valid()
    ensures |tracks| == |crcs|
    ensures forall i :: 0 <= i < |crcs| ==> tracks[i] == VerificationOf(file.responses, crcs[i].0, crcs[i].1)
  {
    tracks := [];
    for i := 0 to |crcs|
      invariant |tracks| == i
      invariant forall j :: 0 <= j < i ==> tracks[j] == VerificationOf(file.responses, crcs[j].0, crcs[j].1)
    {
      var track := VerifyTrack(file, crcs[i].0, crcs[i].1);
      tracks := tracks + [track];
    }
  }

  // ---------------------------------------------------------------- properties

  // A match is an offered entry carrying the wanted checksum, and every such entry is a match.
  lemma {:induction false} MatchesAreEntries(entries: seq<Entry>, wanted: u32, computed: TrackCrc)
    ensures forall m :: m in Matches(entries, wanted, computed)
              ==> m.checksum == wanted && m.version == VersionOf(wanted, computed)
                  && exists e <- entries :: e.pressing == m.pressing && e.expected.checksum == wanted
                                            && e.expected.confidence == m.confidence
    ensures forall e <- entries :: e.expected.checksum == wanted ==>
              CrcMatch(e.pressing, e.expected.confidence, wanted, VersionOf(wanted, computed))
              in Matches(entries, wanted, computed)
  {
    if entries != [] {
      MatchesAreEntries(entries[..|entries| - 1], wanted, computed);
      assert entries == entries[..|entries| - 1] + [entries[|entries| - 1]];
    }
  }

  ghost predicate PressingsAscend(list: seq<CrcMatch>) {
    forall i, j :: 0 <= i < j < |list| ==> list[i].pressing < list[j].pressing
  }

  // The list holds, pressings ascending, one match for each offered entry whose primary checksum
  // is the wanted one, with its confidence and with the versions that equal it.
  ghost predicate MatchList(responses: seq<DbarResponse>, position: u8, wanted: u32, computed: TrackCrc, list: seq<CrcMatch>) {
    && PressingsAscend(list)
    && (forall m :: m in list <==>
          && m.checksum == wanted
          && m.version == (if computed.v1 == computed.v2 then Both else if wanted == computed.v1 then V1 else V2)
          && exists e :: Offers(responses, position, e) && e.pressing == m.pressing
                         && e.expected.checksum == wanted && e.expected.confidence == m.confidence)
  }

  lemma {:induction false} MatchesStayBelow(entries: seq<Entry>, wanted: u32, computed: TrackCrc, bound: nat)
    requires forall e <- entries :: e.pressing < bound
    ensures forall m <- Matches(entries, wanted, computed) :: m.pressing < bound
  {
    hide VersionOf;
    if entries != [] {
      MatchesStayBelow(entries[..|entries| - 1], wanted, computed, bound);
    }
  }

  lemma AppendedAscends(list: seq<CrcMatch>, m: CrcMatch)
    requires PressingsAscend(list) && forall k <- list :: k.pressing < m.pressing
    ensures PressingsAscend(list + [m])
  {
  }

  lemma {:induction false} MatchesAscend(entries: seq<Entry>, wanted: u32, computed: TrackCrc)
    requires forall i, j :: 0 <= i < j < |entries| ==> entries[i].pressing < entries[j].pressing
    ensures PressingsAscend(Matches(entries, wanted, computed))
  {
    if entries != [] {
      var front, last := entries[..|entries| - 1], entries[|entries| - 1];
      assert forall e <- front :: e.pressing < last.pressing;
      MatchesAscend(front, wanted, computed);
      MatchesStayBelow(front, wanted, computed, last.pressing);
      hide PressingsAscend;
      if last.expected.checksum == wanted {
        AppendedAscends(Matches(front, wanted, computed),
                        CrcMatch(last.pressing, last.expected.confidence, wanted, VersionOf(wanted, computed)));
      } else {
        assert Matches(entries, wanted, computed) == Matches(front, wanted, computed) + [];
      }
    }
  }

  lemma MatchesExactly(responses: seq<DbarResponse>, position: u8, wanted: u32, computed: TrackCrc)
    requires forall r <- responses :: r.Valid()
    ensures MatchList(responses, position, wanted, computed,
                      Matches(EntriesForTrack(responses, position), wanted, computed))
  {
    hide EntriesForTrack, Matches, Offers;
    var entries := EntriesForTrack(responses, position);
    EntriesAreExactlyThoseOffered(responses, position);
    MatchesAreEntries(entries, wanted, computed);
    MatchesAscend(entries, wanted, computed);
  }

  // Every offered entry with the wanted checksum is in the list, and every match comes from one.
  lemma ListedIn(responses: seq<DbarResponse>, position: u8, wanted: u32, computed: TrackCrc, list: seq<CrcMatch>, e: Entry)
    requires MatchList(responses, position, wanted, computed, list)
    requires Offers(responses, position, e) && e.expected.checksum == wanted
    ensures exists m <- list :: m.confidence == e.expected.confidence
  {
    var version := if computed.v1 == computed.v2 then Both else if wanted == computed.v1 then V1 else V2;
    assert CrcMatch(e.pressing, e.expected.confidence, wanted, version) in list;
  }

  lemma ListedFrom(responses: seq<DbarResponse>, position: u8, wanted: u32, computed: TrackCrc, list: seq<CrcMatch>, m: CrcMatch)
    returns (e: Entry)
    requires MatchList(responses, position, wanted, computed, list) && m in list
    ensures Offers(responses, position, e) && e.expected.checksum == wanted && e.expected.confidence == m.confidence
  {
    e :| Offers(responses, position, e) && e.pressing == m.pressing
         && e.expected.checksum == wanted && e.expected.confidence == m.confidence;
  }

  // What verifying one track reports.
  lemma VerificationExactly(responses: seq<DbarResponse>, position: u8, computed: TrackCrc)
    requires forall r <- responses :: r.Valid()
    ensures var t := VerificationOf(responses, position, computed);
            && t.position == position && t.computed == computed && t.sampleShift == Some(0) && !t.frame450Support
            && MatchList(responses, position, computed.v1, computed, t.v1Matches)
            && MatchList(responses, position, computed.v2, computed, t.v2Matches)
  {
    MatchesExactly(responses, position, computed.v1, computed);
    MatchesExactly(responses, position, computed.v2, computed);
  }

  // A track is verified exactly when the file offers its position an entry whose primary
  // checksum is the computed v1 or v2, and has no data exactly when it offers no entry.
  lemma StatusMeansMatch(responses: seq<DbarResponse>, position: u8, computed: TrackCrc)
    requires forall r <- responses :: r.Valid()
    ensures var status := VerificationOf(responses, position, computed).status;
            && (status.Verified? <==> exists e :: Offers(responses, position, e)
                                                  && (e.expected.checksum == computed.v1
                                                      || e.expected.checksum == computed.v2))
            && (status.NoData? <==> forall e :: !Offers(responses, position, e))
            && !status.Ambiguous?
  {
    var entries := EntriesForTrack(responses, position);
    EntriesAreExactlyThoseOffered(responses, position);
    MatchesAreEntries(entries, computed.v1, computed);
    MatchesAreEntries(entries, computed.v2, computed);
    if Matches(entries, computed.v1, computed) != [] {
      var m := Matches(entries, computed.v1, computed)[0];
      assert m in Matches(entries, computed.v1, computed);
    }
    if Matches(entries, computed.v2, computed) != [] {
      var m := Matches(entries, computed.v2, computed)[0];
      assert m in Matches(entries, computed.v2, computed);
    }
    if entries != [] {
      assert Offers(responses, position, entries[0]);
    }
  }

  lemma {:induction false} LastMaximumIsMaximal(matches: seq<CrcMatch>)
    ensures LastMaximum(matches).Some? <==> matches != []
    ensures matches != [] ==>
              LastMaximum(matches).value in matches
              && Some(LastMaximum(matches).value.confidence) == MaxConfidence(matches)
  {
    if matches != [] {
      LastMaximumIsMaximal(matches[..|matches| - 1]);
    }
  }

  lemma {:induction false} LastMaximumOfSum(a: seq<CrcMatch>, b: seq<CrcMatch>)
    ensures LastMaximum(a + b)
         == if b == [] then LastMaximum(a)
            else if a == [] || LastMaximum(b).value.confidence >= LastMaximum(a).value.confidence
            then LastMaximum(b)
            else LastMaximum(a)
  {
    LastMaximumIsMaximal(a);
    LastMaximumIsMaximal(b);
    hide MaxConfidence, LastMaximum;
    if b == [] {
      assert a + b == a;
    } else {
      var front := b[..|b| - 1];
      LastMaximumOfSum(a, front);
      LastMaximumIsMaximal(front);
      LastMaximumUnfolds(b);
      LastMaximumUnfolds(a + b);
      assert (a + b)[..|a + b| - 1] == a + front;
      assert (a + b)[|a + b| - 1] == b[|b| - 1];
    }
  }

  lemma LastMaximumUnfolds(matches: seq<CrcMatch>)
    requires matches != []
    ensures var last := matches[|matches| - 1];
            var best := LastMaximum(matches[..|matches| - 1]);
            LastMaximum(matches)
            == if best.Some? && last.confidence < best.value.confidence then best else Some(last)
  {
  }

  // The best match has the best confidence of either version.
  lemma BestMatchHasBestConfidence(t: TrackVerification)
    ensures BestMatch(t).Some? <==> BestConfidence(t).Some?
    ensures BestMatch(t).Some? ==> BestMatch(t).value.confidence == BestConfidence(t).value
    ensures BestMatch(t).Some? ==> BestMatch(t).value in t.v1Matches || BestMatch(t).value in t.v2Matches
  {
    LastMaximumIsMaximal(t.v2Matches + t.v1Matches);
    if BestMatch(t).Some? {
      var all := t.v1Matches + t.v2Matches;
      assert BestMatch(t).value in all;
      var m :| m in all && m.confidence == BestConfidence(t).value;
      assert m in t.v2Matches + t.v1Matches;
    }
  }

  // When the two checksums differ, a v2 match is preferred only if it is strictly more
  // confident: at equal confidence the v1 match is returned, against the documented preference.
  lemma BestMatchPrefersV2OnlyWhenStrictlyBetter(responses: seq<DbarResponse>, position: u8, computed: TrackCrc)
    requires forall r <- responses :: r.Valid()
    requires computed.v1 != computed.v2
    ensures var t := VerificationOf(responses, position, computed);
            BestMatch(t).Some? && BestMatch(t).value.version == V2
            <==> t.v2Matches != []
                 && (t.v1Matches == []
                     || MaxConfidence(t.v2Matches).value > MaxConfidence(t.v1Matches).value)
  {
    var t := VerificationOf(responses, position, computed);
    var entries := EntriesForTrack(responses, position);
    MatchesAreEntries(entries, computed.v1, computed);
    MatchesAreEntries(entries, computed.v2, computed);
    LastMaximumIsMaximal(t.v1Matches);
    LastMaximumIsMaximal(t.v2Matches);
    LastMaximumOfSum(t.v2Matches, t.v1Matches);
  }

  lemma EntriesOfTwoPressings(a: DbarResponse, b: DbarResponse)
    requires a.Valid() && b.Valid() && a.trackCount == b.trackCount == 1
    ensures EntriesForTrack([a, b], 1) == [Entry(0, a.tracks[0]), Entry(1, b.tracks[0])]
  {
    assert [a, b][..1] == [a] && [a][..0] == [];
    assert EntriesForTrack([a], 1) == [Entry(0, a.tracks[0])];
  }

  // Two pressings of equal confidence, one matching each version: the documentation
  // promises v2 and the code answers v1.
  lemma TieReturnsV1(confidence: u8, computed: TrackCrc)
    requires computed.v1 != computed.v2
    ensures var responses := [DbarResponse(1, 0, 0, 0, [ExpectedChecksum(confidence, computed.v1, 0)]),
                              DbarResponse(1, 0, 0, 0, [ExpectedChecksum(confidence, computed.v2, 0)])];
            && (forall r <- responses :: r.Valid())
            && BestMatch(VerificationOf(responses, 1, computed))
               == Some(CrcMatch(0, confidence, computed.v1, V1))
  {
    hide EntriesForTrack, LastMaximum;
    var a := DbarResponse(1, 0, 0, 0, [ExpectedChecksum(confidence, computed.v1, 0)]);
    var b := DbarResponse(1, 0, 0, 0, [ExpectedChecksum(confidence, computed.v2, 0)]);
    EntriesOfTwoPressings(a, b);
    var e1, e2 := Entry(0, a.tracks[0]), Entry(1, b.tracks[0]);
    assert [e1, e2][..1] == [e1] && [e1][..0] == [];
    var m1, m2 := CrcMatch(0, confidence, computed.v1, V1), CrcMatch(1, confidence, computed.v2, V2);
    assert Matches([e1, e2], computed.v1, computed) == Matches([e1], computed.v1, computed) == [m1];
    assert Matches([e1], computed.v2, computed) == [];
    assert Matches([e1, e2], computed.v2, computed) == [m2];
    LastMaximumIsMaximal([m1]);
    LastMaximumIsMaximal([m2]);
    LastMaximumOfSum([m2], [m1]);
  }
}
