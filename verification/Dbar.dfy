/**
  The dBAR response file: a concatenation of responses, all integers little-endian.
  `Print` is the inverse the original does not have; the theorems at the end say that
  parsing and printing undo each other.
 */
module Dbar {
  import opened Words
  import opened Results

  const HEADER_LEN: nat := 13
  const ENTRY_LEN: nat := 9

  datatype ExpectedChecksum = ExpectedChecksum(confidence: u8, checksum: u32, checksum450: u32)

  datatype DbarResponse = DbarResponse(trackCount: u8, arId1: u32, arId2: u32, cddbId: u32,
                                       tracks: seq<ExpectedChecksum>)
  {
    // The invariant documented on the `tracks` field.
    ghost predicate Valid() { |tracks| == trackCount }
  }

  datatype DbarFile = DbarFile(responses: seq<DbarResponse>)
  {
    ghost predicate Valid() { forall r <- responses :: r.Valid() }
  }

  datatype DbarError =
    | TruncatedHeader(at: nat, remaining: nat)
    | TruncatedEntries(at: nat, remaining: nat, need: nat)
    | HeaderMismatch(index: nat)

  // ---------------------------------------------------------------- words on the wire

  function ReadLe(b: seq<u8>): u32
    requires |b| == 4
  {
    Join(b[0], Join(b[1], Join(b[2], b[3])))
  }

  // One byte below a more significant part.
  function Join(low: u8, high: nat): (x: nat)
    ensures x % 0x100 == low && x / 0x100 == high
  {
    low + 0x100 * (high as int)
  }

  function PrintLe(x: u32): (b: seq<u8>)
    ensures |b| == 4 && ReadLe(b) == x
  {
    var x1 := x / 0x100;
    var x2 := x1 / 0x100;
    [x % 0x100, x1 % 0x100, x2 % 0x100, x2 / 0x100]
  }

  lemma PrintReadLe(b: seq<u8>)
    requires |b| == 4
    ensures PrintLe(ReadLe(b)) == b
  {
  }

  // ---------------------------------------------------------------- printing

  function PrintEntry(e: ExpectedChecksum): (b: seq<u8>)
    ensures |b| == ENTRY_LEN
  {
    [e.confidence] + PrintLe(e.checksum) + PrintLe(e.checksum450)
  }

  function PrintEntries(entries: seq<ExpectedChecksum>): (b: seq<u8>)
    ensures |b| == ENTRY_LEN * |entries|
  {
    if entries == [] then [] else PrintEntry(entries[0]) + PrintEntries(entries[1..])
  }

  function PrintHeader(r: DbarResponse): (b: seq<u8>)
    ensures |b| == HEADER_LEN
  {
    [r.trackCount] + PrintLe(r.arId1) + PrintLe(r.arId2) + PrintLe(r.cddbId)
  }

  function Print(responses: seq<DbarResponse>): seq<u8> {
    if responses == [] then []
    else PrintHeader(responses[0]) + PrintEntries(responses[0].tracks) + Print(responses[1..])
  }

  // ---------------------------------------------------------------- parsing

  function ReadEntry(b: seq<u8>): ExpectedChecksum
    requires |b| >= ENTRY_LEN
  {
    ExpectedChecksum(b[0], ReadLe(b[1..5]), ReadLe(b[5..9]))
  }

  function ReadEntries(b: seq<u8>, n: nat): (entries: seq<ExpectedChecksum>)
    requires |b| >= ENTRY_LEN * n
    ensures |entries| == n
  {
    if n == 0 then [] else [ReadEntry(b)] + ReadEntries(b[ENTRY_LEN..], n - 1)
  }

  function ReadResponse(b: seq<u8>): (r: DbarResponse)
    requires |b| >= HEADER_LEN && |b| - HEADER_LEN >= ENTRY_LEN * b[0]
    ensures r.Valid()
  {
    DbarResponse(b[0], ReadLe(b[1..5]), ReadLe(b[5..9]), ReadLe(b[9..13]),
                 ReadEntries(b[HEADER_LEN..], b[0]))
  }

  function ResponseLength(b: seq<u8>): nat
    requires b != []
  {
    HEADER_LEN + ENTRY_LEN * b[0]
  }

  // What parsing yields on the rest `b` of a buffer of which `at` bytes are consumed.
  function ParseRest(b: seq<u8>, at: nat): Result<seq<DbarResponse>, DbarError>
    decreases |b|
  {
    if b == [] then Success([])
    else if |b| < HEADER_LEN then Failure(TruncatedHeader(at, |b|))
    else if |b| - HEADER_LEN < ENTRY_LEN * b[0] then
      Failure(TruncatedEntries(at + HEADER_LEN, |b| - HEADER_LEN, ENTRY_LEN * b[0]))
    else
      Prepend([ReadResponse(b)], ParseRest(b[ResponseLength(b)..], at + ResponseLength(b)))
  }

  function Prepend<E>(first: seq<DbarResponse>, rest: Result<seq<DbarResponse>, E>): Result<seq<DbarResponse>, E> {
    match rest
    case Success(responses) => Success(first + responses)
    case Failure(e) => Failure(e)
  }

  method Parse(bytes: seq<u8>) returns (r: Result<DbarFile, DbarError>)
    ensures match ParseRest(bytes, 0)
            case Success(responses) => r == Success(DbarFile(responses))
            case Failure(e) => r == Failure(e)
    // An accepted buffer is the printed form of exactly one well-formed file ...
    ensures r.Success? ==> r.value.Valid() && Print(r.value.responses) == bytes
    // ... and a rejected one is the printed form of none.
    ensures r.Failure? ==> forall d: DbarFile | d.Valid() :: Print(d.responses) != bytes
  {
    hide ParseRest, Prepend, Print, PrintHeader, PrintEntries, ReadEntries, ReadLe;
    var responses: seq<DbarResponse> := [];
    var cur := 0;
    assert bytes[0..] == bytes;
    PrependNothing(ParseRest(bytes, 0));
    RejectedIsNotPrinted(bytes);
    PrintParsed(bytes, 0);
    while cur < |bytes|
      invariant 0 <= cur <= |bytes|
      invariant ParseRest(bytes, 0) == Prepend(responses, ParseRest(bytes[cur..], cur))
      decreases |bytes| - cur
    {
      ParseRestStep(bytes, cur);
      if |bytes| - cur < HEADER_LEN {
        PrependFailure(responses, ParseRest(bytes[cur..], cur));
        return Failure(TruncatedHeader(cur, |bytes| - cur));
      }
      var trackCount := bytes[cur];
      var arId1 := ReadLe(bytes[cur + 1..cur + 5]);
      var arId2 := ReadLe(bytes[cur + 5..cur + 9]);
      var cddbId := ReadLe(bytes[cur + 9..cur + 13]);
      cur := cur + HEADER_LEN;
      var need := trackCount * ENTRY_LEN;
      if |bytes| - cur < need {
        PrependFailure(responses, ParseRest(bytes[cur - HEADER_LEN..], cur - HEADER_LEN));
        return Failure(TruncatedEntries(cur, |bytes| - cur, need));
      }
      var tracks := ParseEntries(bytes, cur, trackCount);
      cur := cur + need;
      ghost var response := DbarResponse(trackCount, arId1, arId2, cddbId, tracks);
      PrependPrepend(responses, [response], ParseRest(bytes[cur..], cur));
      responses := responses + [DbarResponse(trackCount, arId1, arId2, cddbId, tracks)];
    }
    ParseRestEnd(bytes, cur, responses);
    return Success(DbarFile(responses));
  }

  // The inner loop over one response's entries.
  method ParseEntries(bytes: seq<u8>, start: nat, count: nat) returns (tracks: seq<ExpectedChecksum>)
    requires start + ENTRY_LEN * count <= |bytes|
    ensures tracks == ReadEntries(bytes[start..], count)
  {
    tracks := [];
    var cur := start;
    for i := 0 to count
      invariant cur == start + ENTRY_LEN * i
      invariant tracks + ReadEntries(bytes[cur..], count - i) == ReadEntries(bytes[start..], count)
    {
      ghost var rest := bytes[cur..];
      var confidence := bytes[cur];
      var checksum := ReadLe(bytes[cur + 1..cur + 5]);
      var checksum450 := ReadLe(bytes[cur + 5..cur + 9]);
      assert rest[1..5] == bytes[cur + 1..cur + 5] && rest[5..9] == bytes[cur + 5..cur + 9];
      cur := cur + ENTRY_LEN;
      assert bytes[cur..] == rest[ENTRY_LEN..];
      tracks := tracks + [ExpectedChecksum(confidence, checksum, checksum450)];
    }
  }

  method ValidateRequest(file: DbarFile, trackCount: u8, arId1: u32, arId2: u32, cddbId: u32)
    returns (r: Result<(), DbarError>)
    ensures r.Success? <==> forall i :: 0 <= i < |file.responses| ==>
                              HeaderMatches(file.responses[i], trackCount, arId1, arId2, cddbId)
    ensures r.Failure? ==>
              && r.error.HeaderMismatch?
              && r.error.index < |file.responses|
              && !HeaderMatches(file.responses[r.error.index], trackCount, arId1, arId2, cddbId)
              && forall i :: 0 <= i < r.error.index ==>
                   HeaderMatches(file.responses[i], trackCount, arId1, arId2, cddbId)
  {
    for index := 0 to |file.responses|
      invariant forall i :: 0 <= i < index ==> HeaderMatches(file.responses[i], trackCount, arId1, arId2, cddbId)
    {
      var response := file.responses[index];
      if response.trackCount != trackCount || response.arId1 != arId1 || response.arId2 != arId2
         || response.cddbId != cddbId {
        return Failure(HeaderMismatch(index));
      }
    }
    return Success(());
  }

  predicate HeaderMatches(r: DbarResponse, trackCount: u8, arId1: u32, arId2: u32, cddbId: u32) {
    (r.trackCount, r.arId1, r.arId2, r.cddbId) == (trackCount, arId1, arId2, cddbId)
  }

  // ---------------------------------------------------------------- expected entries of one track

  datatype Entry = Entry(pressing: nat, expected: ExpectedChecksum)

  // Entries for a 1-indexed position, one per pressing that has the track, in file order.
  function EntriesForTrack(responses: seq<DbarResponse>, position: u8): (entries: seq<Entry>)
    requires forall r <- responses :: r.Valid()
  {
    if responses == [] then []
    else
      var n := |responses| - 1;
      var r := responses[n];
      assert r in responses && r.Valid();
      EntriesForTrack(responses[..n], position)
      + if position == 0 || position > r.trackCount then [] else [Entry(n, r.tracks[position - 1])]
  }

  ghost predicate Offers(responses: seq<DbarResponse>, position: u8, entry: Entry) {
    && entry.pressing < |responses|
    && 1 <= position <= |responses[entry.pressing].tracks|
    && entry.expected == responses[entry.pressing].tracks[position - 1]
  }

  // Exactly the entries the file offers for the position, each once, pressings ascending.
  lemma {:induction false} EntriesAreExactlyThoseOffered(responses: seq<DbarResponse>, position: u8)
    requires forall r <- responses :: r.Valid()
    ensures forall e :: e in EntriesForTrack(responses, position) <==> Offers(responses, position, e)
    ensures forall i, j :: 0 <= i < j < |EntriesForTrack(responses, position)| ==>
              EntriesForTrack(responses, position)[i].pressing < EntriesForTrack(responses, position)[j].pressing
  {
    if responses != [] {
      var n := |responses| - 1;
      var earlier := EntriesForTrack(responses[..n], position);
      EntriesAreExactlyThoseOffered(responses[..n], position);
      assert responses[n] in responses && responses[n].Valid();
      forall e: Entry
        ensures Offers(responses, position, e)
           <==> Offers(responses[..n], position, e) || (e.pressing == n && Offers(responses, position, e))
      {
      }
      forall i | 0 <= i < |earlier|
        ensures earlier[i].pressing < n
      {
        assert earlier[i] in earlier && Offers(responses[..n], position, earlier[i]);
      }
    }
  }

  // ---------------------------------------------------------------- theorems

  lemma PrependPrepend<E>(a: seq<DbarResponse>, b: seq<DbarResponse>, rest: Result<seq<DbarResponse>, E>)
    ensures Prepend(a, Prepend(b, rest)) == Prepend(a + b, rest)
  {
    if rest.Success? {
      assert a + (b + rest.value) == a + b + rest.value;
    }
  }

  lemma PrependFailure<E>(a: seq<DbarResponse>, rest: Result<seq<DbarResponse>, E>)
    requires rest.Failure?
    ensures Prepend(a, rest) == rest
  {
  }

  // One iteration of the parse loop, from cursor `cur`.
  lemma ParseRestStep(bytes: seq<u8>, cur: nat)
    requires cur < |bytes|
    ensures var left := |bytes| - cur;
            ParseRest(bytes[cur..], cur)
            == if left < HEADER_LEN then Failure(TruncatedHeader(cur, left))
               else if left - HEADER_LEN < ENTRY_LEN * bytes[cur] then
                 Failure(TruncatedEntries(cur + HEADER_LEN, left - HEADER_LEN, ENTRY_LEN * bytes[cur]))
               else
                 var next := cur + HEADER_LEN + ENTRY_LEN * bytes[cur];
                 var response := DbarResponse(bytes[cur],
                                              ReadLe(bytes[cur + 1..cur + 5]),
                                              ReadLe(bytes[cur + 5..cur + 9]),
                                              ReadLe(bytes[cur + 9..cur + 13]),
                                              ReadEntries(bytes[cur + HEADER_LEN..], bytes[cur]));
                 Prepend([response], ParseRest(bytes[next..], next))
  {
    hide PrintHeader, PrintEntries, Prepend, ReadEntries, ReadLe;
    var rest := bytes[cur..];
    if |rest| >= HEADER_LEN {
      assert rest[1..5] == bytes[cur + 1..cur + 5];
      assert rest[5..9] == bytes[cur + 5..cur + 9];
      assert rest[9..13] == bytes[cur + 9..cur + 13];
      assert rest[HEADER_LEN..] == bytes[cur + HEADER_LEN..];
      if |rest| - HEADER_LEN >= ENTRY_LEN * rest[0] {
        assert rest[ResponseLength(rest)..] == bytes[cur + ResponseLength(rest)..];
      }
    }
  }

  lemma ParseRestEnd(bytes: seq<u8>, cur: nat, responses: seq<DbarResponse>)
    requires cur == |bytes|
    ensures Prepend(responses, ParseRest(bytes[cur..], cur)) == Success(responses)
  {
    assert bytes[cur..] == [];
    assert responses + [] == responses;
  }

  lemma PrependNothing<E>(rest: Result<seq<DbarResponse>, E>)
    ensures Prepend([], rest) == rest
  {
    if rest.Success? {
      assert [] + rest.value == rest.value;
    }
  }

  lemma ReadPrintedEntry(e: ExpectedChecksum, tail: seq<u8>)
    ensures ReadEntry(PrintEntry(e) + tail) == e
    ensures (PrintEntry(e) + tail)[ENTRY_LEN..] == tail
  {
    var b := PrintEntry(e) + tail;
    assert b[1..5] == PrintLe(e.checksum);
    assert b[5..9] == PrintLe(e.checksum450);
  }

  lemma {:induction false} ReadPrintedEntries(entries: seq<ExpectedChecksum>, tail: seq<u8>)
    ensures ReadEntries(PrintEntries(entries) + tail, |entries|) == entries
  {
    if entries != [] {
      var after := PrintEntries(entries[1..]) + tail;
      ReadPrintedEntries(entries[1..], tail);
      ReadPrintedEntry(entries[0], after);
      assert PrintEntries(entries) + tail == PrintEntry(entries[0]) + after;
    }
  }

  lemma {:induction false} PrintReadEntries(b: seq<u8>, n: nat)
    requires |b| >= ENTRY_LEN * n
    ensures PrintEntries(ReadEntries(b, n)) == b[..ENTRY_LEN * n]
  {
    if n > 0 {
      PrintReadEntries(b[ENTRY_LEN..], n - 1);
      var e := ReadEntry(b);
      PrintReadLe(b[1..5]);
      PrintReadLe(b[5..9]);
      assert PrintEntry(e) == b[..ENTRY_LEN];
      assert ReadEntries(b, n)[1..] == ReadEntries(b[ENTRY_LEN..], n - 1);
      assert b[..ENTRY_LEN * n] == b[..ENTRY_LEN] + b[ENTRY_LEN..][..ENTRY_LEN * (n - 1)];
    }
  }

  lemma PrintReadResponse(b: seq<u8>)
    requires |b| >= HEADER_LEN && |b| - HEADER_LEN >= ENTRY_LEN * b[0]
    ensures PrintHeader(ReadResponse(b)) + PrintEntries(ReadResponse(b).tracks) == b[..ResponseLength(b)]
  {
    PrintReadLe(b[1..5]);
    PrintReadLe(b[5..9]);
    PrintReadLe(b[9..13]);
    PrintReadEntries(b[HEADER_LEN..], b[0]);
    assert PrintHeader(ReadResponse(b)) == b[..HEADER_LEN];
    assert b[..ResponseLength(b)] == b[..HEADER_LEN] + b[HEADER_LEN..][..ENTRY_LEN * b[0]];
  }

  lemma ReadPrintedResponse(r: DbarResponse, tail: seq<u8>)
    requires r.Valid()
    ensures var b := PrintHeader(r) + PrintEntries(r.tracks) + tail;
            |b| >= HEADER_LEN && |b| - HEADER_LEN >= ENTRY_LEN * b[0] && ReadResponse(b) == r
            && b[ResponseLength(b)..] == tail
  {
    var b := PrintHeader(r) + PrintEntries(r.tracks) + tail;
    assert b[0] == r.trackCount;
    assert b[1..5] == PrintLe(r.arId1);
    assert b[5..9] == PrintLe(r.arId2);
    assert b[9..13] == PrintLe(r.cddbId);
    assert b[HEADER_LEN..] == PrintEntries(r.tracks) + tail;
    ReadPrintedEntries(r.tracks, tail);
  }

  lemma ParsePrintedResponse(r: DbarResponse, tail: seq<u8>, at: nat)
    requires r.Valid()
    ensures var printed := PrintHeader(r) + PrintEntries(r.tracks);
            ParseRest(printed + tail, at) == Prepend([r], ParseRest(tail, at + |printed|))
  {
    ReadPrintedResponse(r, tail);
  }

  // parse(print(d)) = d, whatever follows the printed responses.
  lemma {:induction false} ParsePrinted(responses: seq<DbarResponse>, tail: seq<u8>, at: nat)
    requires forall r <- responses :: r.Valid()
    ensures ParseRest(Print(responses) + tail, at)
         == Prepend(responses, ParseRest(tail, at + |Print(responses)|))
  {
    hide *;
    if responses == [] {
      PrintNothing();
      assert [] + tail == tail;
      PrependNothing(ParseRest(tail, at));
    } else {
      var r, rest := responses[0], responses[1..];
      var printed := PrintHeader(r) + PrintEntries(r.tracks);
      PrintUnfolds(responses);
      assert Print(responses) + tail == printed + (Print(rest) + tail);
      ParsePrintedResponse(r, Print(rest) + tail, at);
      ParsePrinted(rest, tail, at + |printed|);
      PrependPrepend([r], rest, ParseRest(tail, at + |Print(responses)|));
      assert [r] + rest == responses;
    }
  }

  lemma PrintNothing()
    ensures Print([]) == []
  {
  }

  lemma PrintUnfolds(responses: seq<DbarResponse>)
    requires responses != []
    ensures Print(responses)
         == PrintHeader(responses[0]) + PrintEntries(responses[0].tracks) + Print(responses[1..])
  {
    hide PrintHeader, PrintEntries;
  }

  // Accepted bytes are exactly the printed form of what was parsed.
  lemma {:induction false} PrintParsed(b: seq<u8>, at: nat)
    ensures ParseRest(b, at).Success? ==>
              Print(ParseRest(b, at).value) == b && forall r <- ParseRest(b, at).value :: r.Valid()
    decreases |b|
  {
    hide ReadResponse, PrintHeader, PrintEntries;
    if ParseRest(b, at).Success? && b != [] {
      var n := ResponseLength(b);
      PrintParsed(b[n..], at + n);
      PrintReadResponse(b);
      assert ParseRest(b, at).value[1..] == ParseRest(b[n..], at + n).value;
      assert b == b[..n] + b[n..];
    }
  }

  lemma RejectedIsNotPrinted(bytes: seq<u8>)
    ensures ParseRest(bytes, 0).Failure? ==> forall d: DbarFile | d.Valid() :: Print(d.responses) != bytes
  {
    forall d: DbarFile | d.Valid() && Print(d.responses) == bytes
      ensures ParseRest(bytes, 0).Success?
    {
      ParsePrinted(d.responses, [], 0);
      assert Print(d.responses) + [] == bytes;
    }
  }

  // The two round trips in one statement: the parser is the inverse of the printer.
  lemma ParseInvertsPrint(bytes: seq<u8>, file: DbarFile)
    ensures ParseRest(bytes, 0) == Success(file.responses) <==> file.Valid() && Print(file.responses) == bytes
  {
    PrintParsed(bytes, 0);
    if file.Valid() && Print(file.responses) == bytes {
      ParsePrinted(file.responses, [], 0);
      assert bytes + [] == bytes;
      assert file.responses + [] == file.responses;
    }
  }

  // Parsing distributes over concatenation; a failure in the second part is reported
  // at its offset in the whole buffer.
  lemma ParseConcatenation(a: seq<u8>, b: seq<u8>)
    requires ParseRest(a, 0).Success?
    ensures ParseRest(a + b, 0) == Prepend(ParseRest(a, 0).value, ParseRest(b, |a|))
  {
    hide *;
    PrintParsed(a, 0);
    var responses := ParseRest(a, 0).value;
    assert Print(responses) == a;
    ParsePrinted(responses, b, 0);
  }

  // ---------------------------------------------------------------- the format, byte by byte

  // The four bytes at an offset are the word, least significant first.
  ghost predicate WordAt(b: seq<u8>, at: nat, x: u32)
    requires at + 4 <= |b|
  {
    x == (b[at] as int) + 0x100 * (b[at + 1] as int) + 0x1_0000 * (b[at + 2] as int) + 0x100_0000 * (b[at + 3] as int)
  }

  // Nine bytes at an offset: the confidence, the checksum, the checksum of frame 450.
  ghost predicate EntryAt(b: seq<u8>, at: nat, e: ExpectedChecksum)
    requires at + 9 <= |b|
  {
    e.confidence == b[at] && WordAt(b, at + 1, e.checksum) && WordAt(b, at + 5, e.checksum450)
  }

  // Thirteen bytes of header, then one entry for each track.
  ghost predicate ResponseAt(b: seq<u8>, at: nat, r: DbarResponse)
    requires at + 13 <= |b| && at + 13 + 9 * (b[at] as int) <= |b|
  {
    && r.trackCount == |r.tracks| == b[at]
    && WordAt(b, at + 1, r.arId1) && WordAt(b, at + 5, r.arId2) && WordAt(b, at + 9, r.cddbId)
    && forall k :: 0 <= k < |r.tracks| ==> EntryAt(b, at + 13 + 9 * k, r.tracks[k])
  }

  lemma ReadsWordAt(b: seq<u8>, at: nat)
    requires at + 4 <= |b|
    ensures WordAt(b, at, ReadLe(b[at..at + 4]))
  {
  }

  lemma {:induction false} ReadsEntriesAt(b: seq<u8>, at: nat, n: nat, k: nat)
    requires at + 9 * n <= |b| && k < n
    ensures EntryAt(b, at + 9 * k, ReadEntries(b[at..], n)[k])
    decreases k
  {
    hide ReadLe, WordAt;
    var rest := b[at..];
    if k == 0 {
      ReadsWordAt(b, at + 1);
      ReadsWordAt(b, at + 5);
      assert rest[1..5] == b[at + 1..at + 5] && rest[5..9] == b[at + 5..at + 9];
    } else {
      ReadsEntriesAt(b, at + 9, n - 1, k - 1);
      assert rest[9..] == b[at + 9..];
    }
  }

  // What the first response of a buffer is, or why there is none. `ParseConcatenation` carries
  // this to every later response.
  lemma FirstResponseOfBytes(b: seq<u8>)
    requires b != []
    ensures |b| < 13 ==> ParseRest(b, 0) == Failure(TruncatedHeader(0, |b|))
    ensures 13 <= |b| < 13 + 9 * (b[0] as int) ==>
              ParseRest(b, 0) == Failure(TruncatedEntries(13, |b| - 13, 9 * (b[0] as int)))
    ensures ParseRest(b, 0).Success? ==>
              && |b| >= 13 + 9 * (b[0] as int) && ParseRest(b, 0).value != []
              && ResponseAt(b, 0, ParseRest(b, 0).value[0])
  {
    assert b[0..] == b;
    ParseRestStep(b, 0);
    hide ReadLe, ReadEntries, ParseRest, WordAt, EntryAt;
    if |b| >= 13 + 9 * (b[0] as int) {
      ReadsWordAt(b, 1);
      ReadsWordAt(b, 5);
      ReadsWordAt(b, 9);
      forall k | 0 <= k < b[0]
        ensures EntryAt(b, 13 + 9 * k, ReadEntries(b[13..], b[0])[k])
      {
        ReadsEntriesAt(b, 13, b[0], k);
      }
    }
  }
}
