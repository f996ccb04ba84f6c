/**
  What resolution guarantees: a sorted permutation of the candidates, an ambiguity test
  that needs only the runner-up, and independence of the input order.
 */
module ScoringTheorems {
  import opened Results
  import opened Tocs
  import opened Metadata
  import opened Scoring
  import Lexicographic

  // ---------------------------------------------------------------- the order is strict and total

  lemma BeforeIsAsymmetric(x: ScoredCandidate, y: ScoredCandidate)
    requires Before(x, y)
    ensures !Before(y, x)
  {
    var rx, ry := x.score.Rank(), y.score.Rank();
    var cx, cy := Lexicographic.Codes(x.candidate.candidateKey), Lexicographic.Codes(y.candidate.candidateKey);
    Lexicographic.Irreflexive(rx);
    Lexicographic.Irreflexive(cx);
    if Lexicographic.Less(ry, rx) && Lexicographic.Less(rx, ry) {
      Lexicographic.Transitive(rx, ry, rx);
    }
    if Lexicographic.Less(cy, cx) && Lexicographic.Less(cx, cy) {
      Lexicographic.Transitive(cx, cy, cx);
    }
  }

  lemma BeforeIsTransitive(x: ScoredCandidate, y: ScoredCandidate, z: ScoredCandidate)
    requires Before(x, y) && Before(y, z)
    ensures Before(x, z)
  {
    var rx, ry, rz := x.score.Rank(), y.score.Rank(), z.score.Rank();
    if Lexicographic.Less(rz, ry) && Lexicographic.Less(ry, rx) {
      Lexicographic.Transitive(rz, ry, rx);
    } else if rx == ry == rz {
      Lexicographic.Transitive(Lexicographic.Codes(x.candidate.candidateKey),
                               Lexicographic.Codes(y.candidate.candidateKey),
                               Lexicographic.Codes(z.candidate.candidateKey));
    }
  }

  lemma BeforeOrTied(x: ScoredCandidate, y: ScoredCandidate)
    ensures Before(x, y) || Before(y, x) || Tied(x, y)
    ensures Tied(x, y) ==> !Before(x, y)
  {
    var cx, cy := Lexicographic.Codes(x.candidate.candidateKey), Lexicographic.Codes(y.candidate.candidateKey);
    Lexicographic.Trichotomy(x.score.Rank(), y.score.Rank());
    Lexicographic.Trichotomy(cx, cy);
    Lexicographic.Irreflexive(x.score.Rank());
    Lexicographic.Irreflexive(cx);
    if cx == cy {
      Lexicographic.CodesAreInjective(x.candidate.candidateKey, y.candidate.candidateKey);
    }
  }

  // Not preceding is transitive too.
  lemma NotBeforeIsTransitive(x: ScoredCandidate, y: ScoredCandidate, z: ScoredCandidate)
    requires !Before(y, x) && !Before(z, y)
    ensures !Before(z, x)
  {
    BeforeOrTied(x, y);
    BeforeOrTied(y, z);
    if Before(z, x) {
      if Before(x, y) {
        BeforeIsTransitive(z, x, y);
      } else if Before(y, z) {
        BeforeIsTransitive(y, z, x);
      }
    }
  }

  // ---------------------------------------------------------------- the sort

  lemma {:induction false} InsertKeepsOrder(sorted: seq<ScoredCandidate>, x: ScoredCandidate)
    requires InOrder(sorted)
    ensures InOrder(Insert(sorted, x))
    ensures multiset(Insert(sorted, x)) == multiset(sorted) + multiset{x}
  {
    hide Before;
    if sorted != [] {
      var front, last := sorted[..|sorted| - 1], sorted[|sorted| - 1];
      assert sorted == front + [last];
      if Before(x, last) {
        InsertKeepsOrder(front, x);
        var inserted := Insert(front, x);
        forall i | 0 <= i < |inserted|
          ensures !Before(last, inserted[i])
        {
          assert inserted[i] in multiset(inserted);
          if inserted[i] == x {
            BeforeIsAsymmetric(x, last);
          } else {
            assert inserted[i] in multiset(front);
            var k :| 0 <= k < |front| && front[k] == inserted[i];
            assert sorted[k] == front[k] && !Before(sorted[|sorted| - 1], sorted[k]);
          }
        }
        AppendKeepsOrder(inserted, last);
      } else {
        forall i | 0 <= i < |sorted|
          ensures !Before(x, sorted[i])
        {
          if i < |front| {
            assert !Before(sorted[|sorted| - 1], sorted[i]);
            NotBeforeIsTransitive(sorted[i], last, x);
          }
        }
        AppendKeepsOrder(sorted, x);
      }
    }
  }

  lemma AppendKeepsOrder(s: seq<ScoredCandidate>, x: ScoredCandidate)
    requires InOrder(s) && forall i :: 0 <= i < |s| ==> !Before(x, s[i])
    ensures InOrder(s + [x])
  {
    hide Before;
  }

  lemma {:induction false} SortIsOrderedPermutation(s: seq<ScoredCandidate>)
    ensures InOrder(StableSort(s))
    ensures multiset(StableSort(s)) == multiset(s)
  {
    if s != [] {
      SortIsOrderedPermutation(s[..|s| - 1]);
      InsertKeepsOrder(StableSort(s[..|s| - 1]), s[|s| - 1]);
      assert s == s[..|s| - 1] + [s[|s| - 1]];
    }
  }

  // No two different entries tie, so rank and key decide every comparison.
  ghost predicate Decisive(s: seq<ScoredCandidate>) {
    forall x, y :: x in s && y in s && Tied(x, y) ==> x == y
  }

  lemma SameHead(s: seq<ScoredCandidate>, t: seq<ScoredCandidate>)
    requires InOrder(s) && InOrder(t) && multiset(s) == multiset(t) && Decisive(s)
    requires s != [] && t != []
    ensures s[0] == t[0]
  {
    hide Before, Tied;
    assert s[0] in multiset(t) && t[0] in multiset(s);
    var i :| 0 <= i < |t| && t[i] == s[0];
    var j :| 0 <= j < |s| && s[j] == t[0];
    assert !Before(t[0], s[0]) || j == 0;
    assert !Before(s[0], t[0]) || i == 0;
    BeforeOrTied(s[0], t[0]);
  }

  lemma SameTail(s: seq<ScoredCandidate>, t: seq<ScoredCandidate>)
    requires multiset(s) == multiset(t) && s != [] && t != [] && s[0] == t[0]
    ensures multiset(s[1..]) == multiset(t[1..])
  {
    assert s == [s[0]] + s[1..] && t == [t[0]] + t[1..];
    assert multiset(s[1..]) == multiset(s) - multiset{s[0]};
    assert multiset(t[1..]) == multiset(t) - multiset{t[0]};
  }

  lemma {:induction false} OrderedPermutationIsUnique(s: seq<ScoredCandidate>, t: seq<ScoredCandidate>)
    requires InOrder(s) && InOrder(t) && multiset(s) == multiset(t) && Decisive(s)
    ensures s == t
  {
    hide Before, Tied;
    assert |multiset(s)| == |s| && |multiset(t)| == |t|;
    if s != [] {
      SameHead(s, t);
      SameTail(s, t);
      assert forall x :: x in s[1..] ==> x in s;
      OrderedPermutationIsUnique(s[1..], t[1..]);
      assert s == [s[0]] + s[1..] && t == [t[0]] + t[1..];
    }
  }

  // ---------------------------------------------------------------- scores ignore order

  lemma SameMembers(a: seq<ReleaseCandidate>, b: seq<ReleaseCandidate>)
    requires multiset(a) == multiset(b)
    ensures |a| == |b|
    ensures forall c :: c in a <==> c in b
  {
    assert |multiset(a)| == |a| && |multiset(b)| == |b|;
    forall c
      ensures c in a <==> c in b
    {
      assert c in a <==> c in multiset(a);
      assert c in b <==> c in multiset(b);
    }
  }

  lemma ScoreIgnoresOrder(toc: Toc, a: seq<ReleaseCandidate>, b: seq<ReleaseCandidate>, c: ReleaseCandidate)
    requires forall o :: o in a <==> o in b
    ensures ScoreOf(toc, a, c) == ScoreOf(toc, b, c)
  {
    hide ReleaseIdentity, CorroboratesRelease, CorroboratesBarcode, TrackAgreement, Completeness;
    assert Supporters(a, ReleaseIdentity(c)) == Supporters(b, ReleaseIdentity(c));
  }

  ghost function ScoredBy(toc: Toc, pool: seq<ReleaseCandidate>, candidates: seq<ReleaseCandidate>)
    : (scored: seq<ScoredCandidate>)
    ensures |scored| == |candidates|
  {
    seq(|candidates|, i requires 0 <= i < |candidates| =>
      ScoredCandidate(candidates[i], ScoreOf(toc, pool, candidates[i])))
  }

  lemma {:induction false} CountScored(toc: Toc, pool: seq<ReleaseCandidate>, candidates: seq<ReleaseCandidate>,
                                       x: ScoredCandidate)
    ensures multiset(ScoredBy(toc, pool, candidates))[x]
         == if x.score == ScoreOf(toc, pool, x.candidate) then multiset(candidates)[x.candidate] else 0
  {
    hide ScoreOf;
    if candidates != [] {
      var front, last := candidates[..|candidates| - 1], candidates[|candidates| - 1];
      CountScored(toc, pool, front, x);
      assert candidates == front + [last];
      assert ScoredBy(toc, pool, candidates)
          == ScoredBy(toc, pool, front) + [ScoredCandidate(last, ScoreOf(toc, pool, last))];
    }
  }

  lemma ScoredPermutation(toc: Toc, a: seq<ReleaseCandidate>, b: seq<ReleaseCandidate>)
    requires multiset(a) == multiset(b)
    ensures multiset(ScoredAll(toc, a)) == multiset(ScoredAll(toc, b))
  {
    hide ScoreOf;
    SameMembers(a, b);
    forall x
      ensures multiset(ScoredBy(toc, a, a))[x] == multiset(ScoredBy(toc, b, b))[x]
    {
      CountScored(toc, a, a, x);
      CountScored(toc, b, b, x);
      ScoreIgnoresOrder(toc, a, b, x.candidate);
    }
    assert ScoredBy(toc, a, a) == ScoredAll(toc, a);
    assert ScoredBy(toc, b, b) == ScoredAll(toc, b);
  }

  // ---------------------------------------------------------------- theorems

  // When no two different candidates tie on rank and key, every permutation of the input
  // resolves identically: selection, alternatives in order, and ambiguity.
  lemma ResolutionIgnoresOrder(toc: Toc, a: seq<ReleaseCandidate>, b: seq<ReleaseCandidate>)
    requires multiset(a) == multiset(b) && Decisive(ScoredAll(toc, a))
    ensures ResolutionOf(toc, a) == ResolutionOf(toc, b)
  {
    hide ScoredAll, StableSort;
    SameMembers(a, b);
    ScoredPermutation(toc, a, b);
    var sa, sb := ScoredAll(toc, a), ScoredAll(toc, b);
    SortIsOrderedPermutation(sa);
    SortIsOrderedPermutation(sb);
    forall x | x in StableSort(sa)
      ensures x in sa
    {
      assert x in multiset(StableSort(sa));
    }
    OrderedPermutationIsUnique(StableSort(sa), StableSort(sb));
  }

  ghost predicate DistinctKeys(candidates: seq<ReleaseCandidate>) {
    forall i, j :: 0 <= i < j < |candidates| ==> candidates[i].candidateKey != candidates[j].candidateKey
  }

  // Pairwise distinct keys are enough for that.
  lemma DistinctKeysDecide(toc: Toc, candidates: seq<ReleaseCandidate>)
    requires DistinctKeys(candidates)
    ensures Decisive(ScoredAll(toc, candidates))
  {
    hide ScoreOf;
    var scored := ScoredAll(toc, candidates);
    forall x, y | x in scored && y in scored && Tied(x, y)
      ensures x == y
    {
      var i :| 0 <= i < |scored| && scored[i] == x;
      var j :| 0 <= j < |scored| && scored[j] == y;
      assert i == j;
    }
  }

  // The entries that tie with x, in order.
  ghost function TiedWith(s: seq<ScoredCandidate>, x: ScoredCandidate): (tied: seq<ScoredCandidate>)
    ensures |tied| <= |s|
  {
    if s == [] then []
    else TiedWith(s[..|s| - 1], x) + if Tied(s[|s| - 1], x) then [s[|s| - 1]] else []
  }

  lemma TiedWithAppended(s: seq<ScoredCandidate>, y: ScoredCandidate, x: ScoredCandidate)
    ensures TiedWith(s + [y], x) == TiedWith(s, x) + if Tied(y, x) then [y] else []
  {
    assert (s + [y])[..|s|] == s;
  }

  lemma TiedTogether(y: ScoredCandidate, z: ScoredCandidate, x: ScoredCandidate)
    requires Tied(y, x) && Tied(z, x)
    ensures !Before(y, z)
  {
    BeforeOrTied(y, z);
  }

  lemma {:induction false} InsertKeepsTies(sorted: seq<ScoredCandidate>, y: ScoredCandidate, x: ScoredCandidate)
    ensures TiedWith(Insert(sorted, y), x) == TiedWith(sorted + [y], x)
  {
    hide Before, Tied, TiedWith;
    if sorted != [] && Before(y, sorted[|sorted| - 1]) {
      var front, last := sorted[..|sorted| - 1], sorted[|sorted| - 1];
      InsertKeepsTies(front, y, x);
      assert Insert(sorted, y) == Insert(front, y) + [last];
      hide Insert;
      assert sorted == front + [last];
      TiedWithAppended(sorted, y, x);
      TiedWithAppended(front, y, x);
      TiedWithAppended(front, last, x);
      TiedWithAppended(Insert(front, y), last, x);
      if Tied(y, x) && Tied(last, x) {
        TiedTogether(y, last, x);
      }
    }
  }

  // The sort keeps tied entries in input order.
  lemma {:induction false} SortKeepsTies(s: seq<ScoredCandidate>, x: ScoredCandidate)
    ensures TiedWith(StableSort(s), x) == TiedWith(s, x)
  {
    if s != [] {
      hide Tied;
      var front, last := s[..|s| - 1], s[|s| - 1];
      assert s == front + [last];
      SortKeepsTies(front, x);
      InsertKeepsTies(StableSort(front), last, x);
      TiedWithAppended(StableSort(front), last, x);
      TiedWithAppended(front, last, x);
    }
  }

  // An entry sits among its ties at the number of ties before it.
  lemma {:induction false} TiedWithAt(s: seq<ScoredCandidate>, i: nat, x: ScoredCandidate)
    requires i < |s| && Tied(s[i], x)
    ensures var n := |TiedWith(s[..i], x)|;
            n < |TiedWith(s, x)| && TiedWith(s, x)[n] == s[i]
  {
    hide Tied;
    var front := s[..|s| - 1];
    if i < |front| {
      TiedWithAt(front, i, x);
      assert front[..i] == s[..i];
    } else {
      assert front == s[..i];
    }
  }

  // Exchanging two entries that tie and differ changes what the sort returns.
  lemma ExchangeShows(s: seq<ScoredCandidate>, i: nat, j: nat)
    requires i < j < |s| && Tied(s[i], s[j]) && s[i] != s[j]
    ensures StableSort(s[i := s[j]][j := s[i]]) != StableSort(s)
  {
    var x, t := s[i], s[i := s[j]][j := s[i]];
    hide Before, StableSort;
    SortKeepsTies(s, x);
    SortKeepsTies(t, x);
    TiedWithAt(s, i, x);
    TiedWithAt(t, i, x);
    assert s[..i] == t[..i];
  }

  lemma ExchangePermutes(a: seq<ReleaseCandidate>, i: nat, j: nat)
    requires i < j < |a|
    ensures multiset(a[i := a[j]][j := a[i]]) == multiset(a)
  {
  }

  // Exchanging two different candidates that tie on rank and key changes the resolution.
  lemma TieFollowsInputOrder(toc: Toc, a: seq<ReleaseCandidate>, i: nat, j: nat)
    requires i < j < |a| && Tied(ScoredAll(toc, a)[i], ScoredAll(toc, a)[j]) && a[i] != a[j]
    ensures var b := a[i := a[j]][j := a[i]];
            multiset(b) == multiset(a) && ResolutionOf(toc, b) != ResolutionOf(toc, a)
  {
    hide ScoreOf, StableSort;
    var b := a[i := a[j]][j := a[i]];
    ExchangePermutes(a, i, j);
    SameMembers(a, b);
    var sa, sb := ScoredAll(toc, a), ScoredAll(toc, b);
    forall k | 0 <= k < |b|
      ensures sb[k] == sa[i := sa[j]][j := sa[i]][k]
    {
      ScoreIgnoresOrder(toc, a, b, b[k]);
    }
    assert sb == sa[i := sa[j]][j := sa[i]];
    ExchangeShows(sa, i, j);
    var ta, tb := StableSort(sa), StableSort(sb);
    assert ta == [ta[0]] + ta[1..] && tb == [tb[0]] + tb[1..];
  }

  // The input order is immaterial exactly when no two different candidates tie on rank and key.
  lemma OrderIsImmaterialExactly(toc: Toc, a: seq<ReleaseCandidate>)
    ensures Decisive(ScoredAll(toc, a))
       <==> forall b :: multiset(b) == multiset(a) ==> ResolutionOf(toc, b) == ResolutionOf(toc, a)
  {
    hide ScoreOf, Tied, ResolutionOf;
    if Decisive(ScoredAll(toc, a)) {
      forall b | multiset(b) == multiset(a)
        ensures ResolutionOf(toc, b) == ResolutionOf(toc, a)
      {
        ResolutionIgnoresOrder(toc, a, b);
      }
    } else {
      var scored := ScoredAll(toc, a);
      var x, y :| x in scored && y in scored && Tied(x, y) && x != y;
      var i :| 0 <= i < |scored| && scored[i] == x;
      var j :| 0 <= j < |scored| && scored[j] == y;
      assert a[i] != a[j];
      if i < j {
        TieFollowsInputOrder(toc, a, i, j);
      } else {
        TiedIsSymmetric(x, y);
        TieFollowsInputOrder(toc, a, j, i);
      }
    }
  }

  lemma TiedIsSymmetric(x: ScoredCandidate, y: ScoredCandidate)
    requires Tied(x, y)
    ensures Tied(y, x)
  {
  }

  // Selected plus alternatives is a permutation of the scored input in descending rank, equal
  // ranks by ascending key; nothing outranks the selection.
  lemma ResolutionIsOrderedPermutation(toc: Toc, candidates: seq<ReleaseCandidate>)
    requires candidates != []
    ensures var r := ResolutionOf(toc, candidates).value;
            && multiset([r.selected] + r.alternatives) == multiset(ScoredAll(toc, candidates))
            && InOrder([r.selected] + r.alternatives)
            && (forall x <- r.alternatives :: !Lexicographic.Less(r.selected.score.Rank(), x.score.Rank()))
  {
    hide ScoredAll, StableSort;
    var scored := ScoredAll(toc, candidates);
    SortIsOrderedPermutation(scored);
    var r := ResolutionOf(toc, candidates).value;
    var sorted := StableSort(scored);
    assert [r.selected] + r.alternatives == sorted;
    forall x | x in r.alternatives
      ensures !Lexicographic.Less(r.selected.score.Rank(), x.score.Rank())
    {
      var i :| 0 <= i < |r.alternatives| && r.alternatives[i] == x;
      assert sorted[i + 1] == x;
    }
  }

  // Comparing with the runner-up alone is enough: the result is ambiguous exactly when some
  // alternative shares all the evidence of the selection.
  lemma RunnerUpSuffices(toc: Toc, candidates: seq<ReleaseCandidate>)
    requires candidates != []
    ensures var r := ResolutionOf(toc, candidates).value;
            r.ambiguous <==> exists x <- r.alternatives :: x.score.Evidence() == r.selected.score.Evidence()
  {
    hide ScoredAll, StableSort, Before;
    ResolutionIsOrderedPermutation(toc, candidates);
    var r := ResolutionOf(toc, candidates).value;
    var sorted := StableSort(ScoredAll(toc, candidates));
    assert [r.selected] + r.alternatives == sorted;
    if r.ambiguous {
      assert r.alternatives[0] in r.alternatives;
    }
    if x :| x in r.alternatives && x.score.Evidence() == r.selected.score.Evidence() {
      var i :| 0 <= i < |r.alternatives| && r.alternatives[i] == x;
      assert sorted[0] == r.selected && sorted[1] == r.alternatives[0] && sorted[i + 1] == x;
      EvidenceBetween(sorted[0], sorted[1], sorted[i + 1]);
    }
  }

  // In a sorted run, evidence shared by the ends is shared by everything between.
  lemma EvidenceBetween(x: ScoredCandidate, y: ScoredCandidate, z: ScoredCandidate)
    requires !Before(y, x) && (y == z || !Before(z, y))
    requires x.score.Evidence() == z.score.Evidence()
    ensures y.score.Evidence() == x.score.Evidence()
  {
    var rx, ry, rz := x.score.Rank(), y.score.Rank(), z.score.Rank();
    assert rx[..6] == x.score.Evidence() && ry[..6] == y.score.Evidence() && rz[..6] == z.score.Evidence();
    Lexicographic.PrefixNotLess(rx, ry, 6);
    Lexicographic.Irreflexive(rz);
    Lexicographic.PrefixNotLess(ry, rz, 6);
    Lexicographic.Trichotomy(x.score.Evidence(), y.score.Evidence());
  }

  // ---------------------------------------------------------------- what the score measures

  ghost function AgreeingIndices(toc: Toc, tracks: seq<TrackMeta>, n: nat): set<nat>
    requires n <= |tracks|
  {
    set i: nat | i < n && AgreesWithin2(tracks[i].lengthFrames, TrackLengthFrames(toc, i))
  }

  // Agreement counts the track indices whose length is within two frames of the table.
  lemma {:induction false} AgreementCountsIndices(toc: Toc, tracks: seq<TrackMeta>, n: nat)
    requires n <= |tracks|
    ensures AgreeingTracks(toc, tracks, n) == |AgreeingIndices(toc, tracks, n)|
  {
    hide AgreesWithin2, TrackLengthFrames;
    if n == 0 {
      assert AgreeingIndices(toc, tracks, n) == {};
    } else {
      AgreementCountsIndices(toc, tracks, n - 1);
      var agrees := AgreesWithin2(tracks[n - 1].lengthFrames, TrackLengthFrames(toc, n - 1));
      assert AgreeingIndices(toc, tracks, n) == AgreeingIndices(toc, tracks, n - 1) + if agrees then {n - 1} else {};
    }
  }

  // Only tracks the table has can agree, so a matching track count outweighs every duration
  // agreement of a candidate without it, on discs of fewer than 10,000 tracks.
  lemma TrackCountOutweighsDurations(toc: Toc, x: ReleaseCandidate, y: ReleaseCandidate)
    requires |toc.trackOffsets| < 10000
    requires |x.tracks| == |toc.trackOffsets| && |y.tracks| != |toc.trackOffsets|
    ensures TrackAgreement(toc, x) > TrackAgreement(toc, y)
  {
    AgreementIsBounded(toc, y.tracks, |y.tracks|);
  }

  lemma {:induction false} AgreementIsBounded(toc: Toc, tracks: seq<TrackMeta>, n: nat)
    requires n <= |tracks|
    ensures AgreeingTracks(toc, tracks, n) <= n
    ensures AgreeingTracks(toc, tracks, n) <= |toc.trackOffsets|
  {
    if n > 0 {
      AgreementIsBounded(toc, tracks, n - 1);
    }
  }

  // Corroboration is mutual: whoever supports a candidate is supported by it.
  lemma CorroborationIsMutual(toc: Toc, candidates: seq<ReleaseCandidate>, x: ReleaseCandidate, y: ReleaseCandidate)
    requires x in candidates && y in candidates
    ensures CorroboratesRelease(x, y) ==>
              ScoreOf(toc, candidates, x).exactRelease == 1 && ScoreOf(toc, candidates, y).exactRelease == 1
    ensures CorroboratesBarcode(x, y) ==>
              ScoreOf(toc, candidates, x).barcodeCatalog == 1 && ScoreOf(toc, candidates, y).barcodeCatalog == 1
  {
    assert CorroboratesRelease(x, y) ==> CorroboratesRelease(y, x);
    assert CorroboratesBarcode(x, y) ==> CorroboratesBarcode(y, x);
  }

  // An exact disc association decides before everything else: unless no candidate has one,
  // the selected candidate has it.
  lemma ExactAssociationDecides(toc: Toc, candidates: seq<ReleaseCandidate>)
    requires candidates != []
    ensures ResolutionOf(toc, candidates).value.selected.candidate.exactDiscAssociation
       <==> exists c <- candidates :: c.exactDiscAssociation
  {
    hide StableSort, Before;
    ResolutionIsOrderedPermutation(toc, candidates);
    var r := ResolutionOf(toc, candidates).value;
    var scored := ScoredAll(toc, candidates);
    var all := [r.selected] + r.alternatives;
    assert all[0] in multiset(all);
    assert r.selected in multiset(scored) && r.selected in scored;
    forall c | c in candidates
      ensures c.exactDiscAssociation ==> r.selected.candidate.exactDiscAssociation
    {
      var i :| 0 <= i < |candidates| && candidates[i] == c;
      var x := scored[i];
      assert x in scored && x in multiset(scored) && x in multiset(all) && x in all;
      Lexicographic.Irreflexive(r.selected.score.Rank());
      assert !Lexicographic.Less(r.selected.score.Rank(), x.score.Rank());
      assert r.selected.score.Rank()[0] >= x.score.Rank()[0];
    }
    var k :| 0 <= k < |scored| && scored[k] == r.selected;
    assert candidates[k] in candidates && candidates[k] == r.selected.candidate;
  }

  // ---------------------------------------------------------------- the order, field by field

  // The first field in which the scores differ is greater in a.
  ghost predicate Exceeds(a: CandidateScore, b: CandidateScore) {
    if a.exactDisc != b.exactDisc then a.exactDisc > b.exactDisc
    else if a.exactRelease != b.exactRelease then a.exactRelease > b.exactRelease
    else if a.barcodeCatalog != b.barcodeCatalog then a.barcodeCatalog > b.barcodeCatalog
    else if a.support != b.support then a.support > b.support
    else if a.durations != b.durations then a.durations > b.durations
    else if a.completeness != b.completeness then a.completeness > b.completeness
    else a.priority > b.priority
  }

  // The key is a proper prefix of the other, or smaller where they first differ.
  ghost predicate SmallerKey(a: string, b: string) {
    exists n :: 0 <= n <= |a| && n <= |b| && a[..n] == b[..n]
                && if n == |a| then n < |b| else n < |b| && a[n] < b[n]
  }

  lemma {:induction false} LessFromFirstDifference(a: seq<int>, b: seq<int>, n: nat)
    requires n <= |a| && n <= |b| && a[..n] == b[..n]
    ensures Lexicographic.Less(a, b) <==> Lexicographic.Less(a[n..], b[n..])
  {
    if n > 0 {
      assert a[0] == a[..n][0] == b[..n][0] == b[0];
      assert a[1..][..n - 1] == a[..n][1..] && b[1..][..n - 1] == b[..n][1..];
      LessFromFirstDifference(a[1..], b[1..], n - 1);
      assert a[1..][n - 1..] == a[n..] && b[1..][n - 1..] == b[n..];
    }
  }

  lemma SmallerKeyIsLess(a: string, b: string)
    requires SmallerKey(a, b)
    ensures Lexicographic.Less(Lexicographic.Codes(a), Lexicographic.Codes(b))
  {
    var n :| 0 <= n <= |a| && n <= |b| && a[..n] == b[..n] && if n == |a| then n < |b| else n < |b| && a[n] < b[n];
    var ca, cb := Lexicographic.Codes(a), Lexicographic.Codes(b);
    forall i | 0 <= i < n
      ensures ca[i] == cb[i]
    {
      assert a[i] == a[..n][i] == b[..n][i] == b[i];
    }
    assert ca[..n] == cb[..n];
    LessFromFirstDifference(ca, cb, n);
    assert cb[n..] != [] && cb[n..][0] == cb[n];
    if n < |a| {
      assert ca[n..][0] == ca[n] && ca[n] < cb[n];
    }
  }

  lemma ExceedsIsLess(a: CandidateScore, b: CandidateScore)
    ensures Exceeds(a, b) <==> Lexicographic.Less(b.Rank(), a.Rank())
    ensures a == b ==> b.Rank() == a.Rank()
  {
    var a6, b6 := [a.priority], [b.priority];
    var a5, b5 := [a.completeness] + a6, [b.completeness] + b6;
    var a4, b4 := [a.durations] + a5, [b.durations] + b5;
    var a3, b3 := [a.support] + a4, [b.support] + b4;
    var a2, b2 := [a.barcodeCatalog] + a3, [b.barcodeCatalog] + b3;
    var a1, b1 := [a.exactRelease] + a2, [b.exactRelease] + b2;
    assert a.Rank() == [a.exactDisc] + a1 && b.Rank() == [b.exactDisc] + b1;
    LessOfCons(b.exactDisc, b1, a.exactDisc, a1);
    LessOfCons(b.exactRelease, b2, a.exactRelease, a2);
    LessOfCons(b.barcodeCatalog, b3, a.barcodeCatalog, a3);
    LessOfCons(b.support, b4, a.support, a4);
    LessOfCons(b.durations, b5, a.durations, a5);
    LessOfCons(b.completeness, b6, a.completeness, a6);
    LessOfCons(b.priority, [], a.priority, []);
    assert b6 == [b.priority] + [] && a6 == [a.priority] + [];
    hide Lexicographic.Less;
  }

  lemma LessOfCons(x: int, s: seq<int>, y: int, t: seq<int>)
    ensures Lexicographic.Less([x] + s, [y] + t) <==> x < y || (x == y && Lexicographic.Less(s, t))
  {
    assert ([x] + s)[1..] == s && ([y] + t)[1..] == t;
  }

  // The ranking is by the fields in this order, equal scores by smaller key: no later entry
  // exceeds an earlier one, nor has the same score and a smaller key. The result is ambiguous
  // exactly when the runner-up shares the six evidence fields of the selection.
  lemma RankedByFields(toc: Toc, candidates: seq<ReleaseCandidate>)
    requires candidates != []
    ensures var r := ResolutionOf(toc, candidates).value;
            var ranked := [r.selected] + r.alternatives;
            && |ranked| == |candidates|
            && (forall c <- candidates :: ScoredCandidate(c, ScoreOf(toc, candidates, c)) in ranked)
            && (forall i, j :: 0 <= i < j < |ranked| ==>
                  && !Exceeds(ranked[j].score, ranked[i].score)
                  && !(ranked[j].score == ranked[i].score
                       && SmallerKey(ranked[j].candidate.candidateKey, ranked[i].candidate.candidateKey)))
            && (r.ambiguous <==>
                  && r.alternatives != []
                  && var a, b := r.selected.score, r.alternatives[0].score;
                     && a.exactDisc == b.exactDisc && a.exactRelease == b.exactRelease
                     && a.barcodeCatalog == b.barcodeCatalog && a.support == b.support
                     && a.durations == b.durations && a.completeness == b.completeness)
  {
    ResolutionIsOrderedPermutation(toc, candidates);
    var r := ResolutionOf(toc, candidates).value;
    var ranked := [r.selected] + r.alternatives;
    EveryCandidateIsRanked(toc, candidates, ranked);
    hide ScoredAll, StableSort, Exceeds, SmallerKey, ScoreOf;
    forall i, j | 0 <= i < j < |ranked|
      ensures !Exceeds(ranked[j].score, ranked[i].score)
      ensures !(ranked[j].score == ranked[i].score
                && SmallerKey(ranked[j].candidate.candidateKey, ranked[i].candidate.candidateKey))
    {
      assert !Before(ranked[j], ranked[i]);
      ExceedsIsLess(ranked[j].score, ranked[i].score);
      if SmallerKey(ranked[j].candidate.candidateKey, ranked[i].candidate.candidateKey) {
        SmallerKeyIsLess(ranked[j].candidate.candidateKey, ranked[i].candidate.candidateKey);
      }
    }
    AmbiguousByFields(toc, candidates);
  }

  lemma EveryCandidateIsRanked(toc: Toc, candidates: seq<ReleaseCandidate>, ranked: seq<ScoredCandidate>)
    requires multiset(ranked) == multiset(ScoredAll(toc, candidates))
    ensures |ranked| == |candidates|
    ensures forall c <- candidates :: ScoredCandidate(c, ScoreOf(toc, candidates, c)) in ranked
  {
    hide ScoreOf;
    var scored := ScoredAll(toc, candidates);
    assert |multiset(ranked)| == |ranked| && |multiset(scored)| == |scored|;
    forall c | c in candidates
      ensures ScoredCandidate(c, ScoreOf(toc, candidates, c)) in ranked
    {
      var i :| 0 <= i < |candidates| && candidates[i] == c;
      assert scored[i] in multiset(scored) && scored[i] in multiset(ranked);
    }
  }

  lemma AmbiguousByFields(toc: Toc, candidates: seq<ReleaseCandidate>)
    requires candidates != []
    ensures var r := ResolutionOf(toc, candidates).value;
            r.ambiguous <==>
              && r.alternatives != []
              && var a, b := r.selected.score, r.alternatives[0].score;
                 && a.exactDisc == b.exactDisc && a.exactRelease == b.exactRelease
                 && a.barcodeCatalog == b.barcodeCatalog && a.support == b.support
                 && a.durations == b.durations && a.completeness == b.completeness
  {
    var r := ResolutionOf(toc, candidates).value;
    hide ScoredAll, StableSort;
    if r.alternatives != [] {
      var a, b := r.selected.score, r.alternatives[0].score;
      var ea, eb := a.Evidence(), b.Evidence();
      assert ea == eb <==> ea[0] == eb[0] && ea[1] == eb[1] && ea[2] == eb[2] && ea[3] == eb[3] && ea[4] == eb[4] && ea[5] == eb[5];
    }
  }

  // ---------------------------------------------------------------- the fields, from the candidates

  function AsOne(b: bool): nat { if b then 1 else 0 }

  // Another candidate, by key, carries the same release MBID.
  ghost predicate SharesMbid(candidates: seq<ReleaseCandidate>, c: ReleaseCandidate) {
    c.release.mbid.Some?
    && exists o <- candidates :: o.candidateKey != c.candidateKey && o.release.mbid == c.release.mbid
  }

  // Another candidate carries the same barcode, and the same catalog number or label, none empty.
  ghost predicate SharesBarcode(candidates: seq<ReleaseCandidate>, c: ReleaseCandidate) {
    exists o <- candidates ::
      o.candidateKey != c.candidateKey
      && c.release.barcode.Some? && c.release.barcode != Some("") && o.release.barcode == c.release.barcode
      && (|| (c.release.catalogNumber.Some? && c.release.catalogNumber != Some("")
              && o.release.catalogNumber == c.release.catalogNumber)
          || (c.release.labelName.Some? && c.release.labelName != Some("") && o.release.labelName == c.release.labelName))
  }

  // What names a release: its MBID, else its barcode with its catalog number, else its key.
  ghost predicate NamesRelease(c: ReleaseCandidate, name: string) {
    name == if c.release.mbid.Some? then "mb:" + c.release.mbid.value
            else if c.release.barcode.Some? then
              "barcode:" + c.release.barcode.value + ":"
              + (if c.release.catalogNumber.Some? then c.release.catalogNumber.value else "")
            else c.candidateKey
  }

  ghost function TracksInTime(toc: Toc, c: ReleaseCandidate): set<nat> {
    set i: nat | i < |c.tracks| && i < |toc.trackOffsets| && c.tracks[i].lengthFrames.Some?
                 && TrackLengthFrames(toc, i).Some?
                 && -2 <= c.tracks[i].lengthFrames.value - TrackLengthFrames(toc, i).value <= 2
  }

  // Each score field in terms of the candidates: the corroborations; the number of providers,
  // modulo 256, whose candidates name the same release; 10,000 for a matching track count plus
  // the tracks within two frames; the number of present fields; and the provider's place.
  lemma ScoreExactly(toc: Toc, candidates: seq<ReleaseCandidate>, c: ReleaseCandidate, name: string)
    requires NamesRelease(c, name)
    ensures var s := ScoreOf(toc, candidates, c);
            && s.exactDisc == AsOne(c.exactDiscAssociation)
            && s.exactRelease == AsOne(SharesMbid(candidates, c))
            && s.barcodeCatalog == AsOne(SharesBarcode(candidates, c))
            && s.support == |set o <- candidates | NamesRelease(o, name) :: o.provider| % 0x100
            && s.durations == (if |c.tracks| == |toc.trackOffsets| then 10000 else 0) + |TracksInTime(toc, c)|
            && s.completeness
               == AsOne(c.album.title.Some?) + AsOne(c.album.artistCredit.Some?) + AsOne(c.album.year.Some?)
                  + AsOne(c.release.country.Some?) + AsOne(c.release.labelName.Some?)
                  + AsOne(c.release.catalogNumber.Some?) + AsOne(c.release.barcode.Some?) + AsOne(c.tracks != [])
            && s.priority == (match c.provider
                              case "musicbrainz" => 4
                              case "discogs" => 3
                              case "tower" => 2
                              case "barcodelookup" => 1
                              case _ => 0)
  {
    CorroborationExactly(candidates, c);
    SupportExactly(candidates, c, name);
    DurationsExactly(toc, c);
    hide CorroboratesRelease, CorroboratesBarcode, Supporters, ReleaseIdentity, TrackAgreement, SharesMbid, SharesBarcode, TracksInTime;
  }

  lemma CorroborationExactly(candidates: seq<ReleaseCandidate>, c: ReleaseCandidate)
    ensures (exists o <- candidates :: CorroboratesRelease(c, o)) <==> SharesMbid(candidates, c)
    ensures (exists o <- candidates :: CorroboratesBarcode(c, o)) <==> SharesBarcode(candidates, c)
  {
    forall o: ReleaseCandidate
      ensures SameNonempty(c.release.barcode, o.release.barcode)
         <==> c.release.barcode.Some? && c.release.barcode != Some("") && o.release.barcode == c.release.barcode
    {
    }
  }

  lemma SupportExactly(candidates: seq<ReleaseCandidate>, c: ReleaseCandidate, name: string)
    requires NamesRelease(c, name)
    ensures |Supporters(candidates, ReleaseIdentity(c))| == |set o <- candidates | NamesRelease(o, name) :: o.provider|
  {
    assert ReleaseIdentity(c) == name;
    forall o
      ensures ReleaseIdentity(o) == name <==> NamesRelease(o, name)
    {
    }
    hide ReleaseIdentity, NamesRelease;
    assert Supporters(candidates, name) == set o <- candidates | NamesRelease(o, name) :: o.provider;
  }

  lemma DurationsExactly(toc: Toc, c: ReleaseCandidate)
    ensures TrackAgreement(toc, c) == (if |c.tracks| == |toc.trackOffsets| then 10000 else 0) + |TracksInTime(toc, c)|
  {
    AgreementCountsIndices(toc, c.tracks, |c.tracks|);
    assert AgreeingIndices(toc, c.tracks, |c.tracks|) == TracksInTime(toc, c);
  }
}
