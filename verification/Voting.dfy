/**
  One field, many providers: plurality of the present values, ties to the value voted for
  first. The tally is a hash map; its iteration order is an arbitrary choice here.
 */
module Voting {
  import opened Words
  import opened Results

  datatype Entity = AlbumEntity | ReleaseEntity | TrackEntity(position: u8)

  datatype Value = Text(text: string) | Number(number: nat)

  datatype RawDisagreement = RawDisagreement(
    entity: Entity, field: string, sourceA: string, valueA: Value, sourceB: string, valueB: Value)

  // One provider's answer for a field.
  datatype Vote<T> = Vote(provider: string, value: Option<T>)

  // ---------------------------------------------------------------- specification

  ghost function Count<T>(votes: seq<Vote<T>>, v: T): nat {
    if votes == [] then 0
    else Count(votes[..|votes| - 1], v) + if votes[|votes| - 1].value == Some(v) then 1 else 0
  }

  ghost predicate Voted<T>(votes: seq<Vote<T>>, v: T) {
    exists i :: 0 <= i < |votes| && votes[i].value == Some(v)
  }

  // Index of the first vote for v.
  ghost function FirstVote<T>(votes: seq<Vote<T>>, v: T): (first: nat)
    requires Voted(votes, v)
    ensures first < |votes| && votes[first].value == Some(v)
    ensures forall i :: 0 <= i < first ==> votes[i].value != Some(v)
  {
    if votes[0].value == Some(v) then 0
    else
      assert forall i :: 0 < i < |votes| ==> votes[1..][i - 1] == votes[i];
      1 + FirstVote(votes[1..], v)
  }

  // v has more votes than u, or as many and the earlier first vote.
  ghost predicate Beats<T>(votes: seq<Vote<T>>, v: T, u: T)
    requires Voted(votes, v) && Voted(votes, u)
  {
    Count(votes, u) < Count(votes, v)
    || (Count(votes, u) == Count(votes, v) && FirstVote(votes, v) < FirstVote(votes, u))
  }

  ghost predicate Wins<T(!new)>(votes: seq<Vote<T>>, v: T) {
    Voted(votes, v) && forall u :: Voted(votes, u) && u != v ==> Beats(votes, v, u)
  }

  // Scanning in priority order: the first value no earlier one has as many votes as.
  ghost function Leader<T>(votes: seq<Vote<T>>, n: nat): Option<T>
    requires n <= |votes|
  {
    if n == 0 then None
    else
      var before := Leader(votes, n - 1);
      match votes[n - 1].value
      case None => before
      case Some(v) =>
        if before.None? || Count(votes, v) > Count(votes, before.value) then Some(v) else before
  }

  ghost function Plurality<T>(votes: seq<Vote<T>>): Option<T> { Leader(votes, |votes|) }

  // One row per losing vote, in vote order, naming the winner's first voter.
  ghost function Losing<T>(field: string, entity: Entity, votes: seq<Vote<T>>, toValue: T -> Value,
                           winner: T, source: string): seq<RawDisagreement>
  {
    if votes == [] then []
    else
      var last := votes[|votes| - 1];
      Losing(field, entity, votes[..|votes| - 1], toValue, winner, source)
      + if last.value.None? || last.value.value == winner then []
        else [RawDisagreement(entity, field, source, toValue(winner), last.provider, toValue(last.value.value))]
  }

  ghost function Disagreements<T>(field: string, entity: Entity, votes: seq<Vote<T>>, toValue: T -> Value)
    : seq<RawDisagreement>
  {
    LeaderIsVoted(votes, |votes|);
    match Plurality(votes)
    case None => []
    case Some(w) => Losing(field, entity, votes, toValue, w, votes[FirstVote(votes, w)].provider)
  }

  // ---------------------------------------------------------------- properties

  lemma {:induction false} LeaderIsVoted<T>(votes: seq<Vote<T>>, n: nat)
    requires n <= |votes|
    ensures Leader(votes, n).Some? ==> Voted(votes, Leader(votes, n).value)
    ensures Leader(votes, n).None? <==> forall i :: 0 <= i < n ==> votes[i].value.None?
  {
    if n > 0 {
      LeaderIsVoted(votes, n - 1);
    }
  }

  // Among the values first voted for within the first n votes, the leader beats all others.
  lemma {:induction false} LeaderBeatsSeen<T>(votes: seq<Vote<T>>, n: nat, u: T)
    requires n <= |votes| && Voted(votes, u) && FirstVote(votes, u) < n
    ensures Leader(votes, n).Some?
    ensures Voted(votes, Leader(votes, n).value)
    ensures FirstVote(votes, Leader(votes, n).value) < n
    ensures u != Leader(votes, n).value ==> Beats(votes, Leader(votes, n).value, u)
  {
    hide FirstVote, Count;
    LeaderIsVoted(votes, n);
    LeaderIsVoted(votes, n - 1);
    var v := votes[n - 1].value;
    if FirstVote(votes, u) < n - 1 {
      LeaderBeatsSeen(votes, n - 1, u);
      if v.Some? && FirstVote(votes, v.value) < n - 1 {
        LeaderBeatsSeen(votes, n - 1, v.value);
      }
    } else {
      assert v == Some(u);
      if Leader(votes, n - 1).Some? {
        LeaderSeen(votes, n - 1);
      }
    }
  }

  lemma {:induction false} LeaderSeen<T>(votes: seq<Vote<T>>, n: nat)
    requires n <= |votes| && Leader(votes, n).Some?
    ensures Voted(votes, Leader(votes, n).value) && FirstVote(votes, Leader(votes, n).value) < n
  {
    LeaderIsVoted(votes, n);
    if votes[n - 1].value.None? || Leader(votes, n) == Leader(votes, n - 1) {
      LeaderSeen(votes, n - 1);
    }
  }

  // The plurality value is the one value that wins: most votes, ties to the first voted for.
  lemma PluralityWins<T(!new)>(votes: seq<Vote<T>>, v: T)
    ensures Plurality(votes) == Some(v) <==> Wins(votes, v)
    ensures Plurality(votes) == None <==> forall i :: 0 <= i < |votes| ==> votes[i].value.None?
  {
    LeaderIsVoted(votes, |votes|);
    forall u | Voted(votes, u)
      ensures Plurality(votes).Some? && (u != Plurality(votes).value ==> Beats(votes, Plurality(votes).value, u))
    {
      LeaderBeatsSeen(votes, |votes|, u);
    }
  }

  ghost function Present<T>(votes: seq<Vote<T>>): nat {
    if votes == [] then 0
    else Present(votes[..|votes| - 1]) + if votes[|votes| - 1].value.Some? then 1 else 0
  }

  lemma {:induction false} LosingCount<T>(field: string, entity: Entity, votes: seq<Vote<T>>, toValue: T -> Value,
                                          winner: T, source: string)
    ensures |Losing(field, entity, votes, toValue, winner, source)| + Count(votes, winner) == Present(votes)
  {
    if votes != [] {
      LosingCount(field, entity, votes[..|votes| - 1], toValue, winner, source);
    }
  }

  // Every present vote is either for the winner or one recorded disagreement.
  lemma VotesAreConserved<T>(field: string, entity: Entity, votes: seq<Vote<T>>, toValue: T -> Value)
    ensures Present(votes)
         == |Disagreements(field, entity, votes, toValue)|
            + if Plurality(votes).Some? then Count(votes, Plurality(votes).value) else 0
  {
    LeaderIsVoted(votes, |votes|);
    match Plurality(votes)
    case None => NoVotes(votes);
    case Some(w) => LosingCount(field, entity, votes, toValue, w, votes[FirstVote(votes, w)].provider);
  }

  lemma {:induction false} NoVotes<T>(votes: seq<Vote<T>>)
    requires forall i :: 0 <= i < |votes| ==> votes[i].value.None?
    ensures Present(votes) == 0
  {
    if votes != [] {
      NoVotes(votes[..|votes| - 1]);
    }
  }

  // ---------------------------------------------------------------- one row per value

  ghost predicate DistinctValues(rows: seq<RawDisagreement>) {
    forall i, j :: 0 <= i < j < |rows| ==> rows[i].valueB != rows[j].valueB
  }

  ghost predicate Recorded(rows: seq<RawDisagreement>, value: Value) {
    exists row <- rows :: row.valueB == value
  }

  ghost predicate Injective<T(!new)>(toValue: T -> Value) {
    forall x, y :: toValue(x) == toValue(y) ==> x == y
  }

  // Two votes carry the value.
  ghost predicate Repeated<T>(votes: seq<Vote<T>>, v: T) {
    exists i, j :: 0 <= i < j < |votes| && votes[i].value == votes[j].value == Some(v)
  }

  lemma {:induction false} CountSees<T>(votes: seq<Vote<T>>, v: T)
    ensures Count(votes, v) >= 1 <==> Voted(votes, v)
    ensures Count(votes, v) >= 2 <==> Repeated(votes, v)
  {
    if votes != [] {
      var n := |votes| - 1;
      CountSees(votes[..n], v);
      assert forall i :: 0 <= i < n ==> votes[..n][i] == votes[i];
      if Repeated(votes[..n], v) {
        var i, j :| 0 <= i < j < n && votes[..n][i].value == votes[..n][j].value == Some(v);
        assert votes[i].value == votes[j].value == Some(v);
      }
      if Voted(votes[..n], v) && votes[n].value == Some(v) {
        var i :| 0 <= i < n && votes[..n][i].value == Some(v);
        assert votes[i].value == votes[n].value == Some(v);
      }
    }
  }

  ghost predicate LosersVotedOnce<T(!new)>(votes: seq<Vote<T>>, winner: T) {
    forall v :: v != winner ==> Count(votes, v) <= 1
  }

  lemma LastVoteCounts<T(!new)>(votes: seq<Vote<T>>, winner: T)
    requires votes != []
    ensures var front, last := votes[..|votes| - 1], votes[|votes| - 1].value;
            && (forall v :: Count(votes, v) == Count(front, v) + if last == Some(v) then 1 else 0)
            && (LosersVotedOnce(votes, winner)
                <==> LosersVotedOnce(front, winner)
                     && (last.None? || last.value == winner || Count(front, last.value) == 0))
  {
    var front, last := votes[..|votes| - 1], votes[|votes| - 1].value;
    forall v
      ensures Count(votes, v) == Count(front, v) + if last == Some(v) then 1 else 0
    {
    }
    hide Count;
    if last.Some? && last.value != winner && LosersVotedOnce(votes, winner) {
      assert Count(votes, last.value) <= 1;
    }
    if LosersVotedOnce(votes, winner) {
      forall v | v != winner
        ensures Count(front, v) <= 1
      {
        assert Count(votes, v) <= 1;
      }
    }
  }

  // Every losing value is recorded, and none twice exactly when each has one vote.
  lemma {:induction false} LosingRows<T(!new)>(field: string, entity: Entity, votes: seq<Vote<T>>, toValue: T -> Value,
                                               winner: T, source: string)
    requires Injective(toValue)
    ensures var rows := Losing(field, entity, votes, toValue, winner, source);
            && (forall v :: v != winner ==> (Recorded(rows, toValue(v)) <==> Count(votes, v) >= 1))
            && (DistinctValues(rows) <==> LosersVotedOnce(votes, winner))
  {
    if votes == [] {
      assert LosersVotedOnce(votes, winner);
    } else {
      var front, last := votes[..|votes| - 1], votes[|votes| - 1];
      LosingRows(field, entity, front, toValue, winner, source);
      LastVoteCounts(votes, winner);
      var before := Losing(field, entity, front, toValue, winner, source);
      var rows := Losing(field, entity, votes, toValue, winner, source);
      if last.value.None? || last.value.value == winner {
        assert rows == before;
      } else {
        var row := RawDisagreement(entity, field, source, toValue(winner), last.provider, toValue(last.value.value));
        assert rows == before + [row];
        RowAppended(before, row);
      }
      hide Count, Recorded, DistinctValues, LosersVotedOnce, Losing;
      assert forall v :: v != winner ==> (Recorded(rows, toValue(v)) <==> Count(votes, v) >= 1);
    }
  }

  lemma RowAppended(rows: seq<RawDisagreement>, row: RawDisagreement)
    ensures DistinctValues(rows + [row]) <==> DistinctValues(rows) && !Recorded(rows, row.valueB)
    ensures forall value :: Recorded(rows + [row], value) <==> Recorded(rows, value) || row.valueB == value
  {
    var more := rows + [row];
    assert row in more && forall r <- rows :: r in more;
    if DistinctValues(more) {
      assert forall i :: 0 <= i < |rows| ==> more[i] == rows[i];
      forall r | r in rows
        ensures r.valueB != row.valueB
      {
        var i :| 0 <= i < |rows| && rows[i] == r;
        assert more[i].valueB != more[|rows|].valueB;
      }
    }
  }

  // Every losing value is recorded. There is one row per value, as documented, exactly when
  // no losing value has two votes, that is when at most one value has.
  lemma OneRowPerValueExactly<T(!new)>(field: string, entity: Entity, votes: seq<Vote<T>>, toValue: T -> Value)
    requires Injective(toValue)
    ensures var rows := Disagreements(field, entity, votes, toValue);
            && (forall v :: Voted(votes, v) && Plurality(votes) != Some(v) ==> Recorded(rows, toValue(v)))
            && (DistinctValues(rows) <==> forall v :: Repeated(votes, v) ==> Plurality(votes) == Some(v))
            && (DistinctValues(rows) <==> forall u, v :: Repeated(votes, u) && Repeated(votes, v) ==> u == v)
  {
    hide Count, FirstVote, Leader, Losing, Repeated, Voted, Recorded, DistinctValues;
    LeaderIsVoted(votes, |votes|);
    forall v
      ensures Count(votes, v) >= 1 <==> Voted(votes, v)
      ensures Count(votes, v) >= 2 <==> Repeated(votes, v)
    {
      CountSees(votes, v);
    }
    match Plurality(votes)
    case None =>
      NoRows(field, entity, votes, toValue);
    case Some(w) =>
      PluralityWins(votes, w);
      assert LosersVotedOnce(votes, w) <==> forall v :: Repeated(votes, v) ==> v == w by {
        assert forall v :: Count(votes, v) <= 1 <==> !Repeated(votes, v);
      }
      LosingRows(field, entity, votes, toValue, w, votes[FirstVote(votes, w)].provider);
      forall v | Repeated(votes, v) && v != w
        ensures Repeated(votes, w)
      {
        assert Beats(votes, w, v);
      }
  }

  lemma NoRows<T(!new)>(field: string, entity: Entity, votes: seq<Vote<T>>, toValue: T -> Value)
    requires Plurality(votes) == None
    ensures DistinctValues(Disagreements(field, entity, votes, toValue))
    ensures forall v :: !Voted(votes, v) && !Repeated(votes, v)
  {
    LeaderIsVoted(votes, |votes|);
  }

  lemma LosingNext<T>(field: string, entity: Entity, front: seq<Vote<T>>, last: Vote<T>, toValue: T -> Value,
                      winner: T, source: string)
    ensures Losing(field, entity, front + [last], toValue, winner, source)
         == Losing(field, entity, front, toValue, winner, source)
            + if last.value.None? || last.value.value == winner then []
              else [RawDisagreement(entity, field, source, toValue(winner), last.provider, toValue(last.value.value))]
  {
    assert (front + [last])[..|front|] == front;
  }

  // Two providers that lose with the same value give two rows for it.
  lemma RepeatedLoserIsLoggedTwice<T(!new)>(field: string, entity: Entity, a: T, b: T, names: seq<string>, toValue: T -> Value)
    requires a != b && |names| == 4
    ensures Disagreements(field, entity,
                          [Vote(names[0], Some(a)), Vote(names[1], Some(a)), Vote(names[2], Some(b)), Vote(names[3], Some(b))],
                          toValue)
         == [RawDisagreement(entity, field, names[0], toValue(a), names[2], toValue(b)),
             RawDisagreement(entity, field, names[0], toValue(a), names[3], toValue(b))]
  {
    var votes := [Vote(names[0], Some(a)), Vote(names[1], Some(a)), Vote(names[2], Some(b)), Vote(names[3], Some(b))];
    assert votes[..3] == [votes[0], votes[1], votes[2]];
    assert votes[..3][..2] == [votes[0], votes[1]];
    assert votes[..3][..2][..1] == [votes[0]] && [votes[0]][..0] == [];
    assert Count([votes[0]], a) == 1 && Count([votes[0]], b) == 0;
    assert Count(votes[..3][..2], a) == 2 && Count(votes[..3][..2], b) == 0;
    assert Count(votes[..3], a) == 2 && Count(votes[..3], b) == 1;
    assert Count(votes, a) == Count(votes, b) == 2;
    assert Leader(votes, 0) == None;
    assert Leader(votes, 1) == Some(a);
    assert Leader(votes, 2) == Some(a);
    assert Leader(votes, 3) == Some(a);
    assert Leader(votes, 4) == Some(a);
    assert FirstVote(votes, a) == 0;
    assert Plurality(votes) == Some(a) && votes[FirstVote(votes, a)].provider == names[0];
    hide Count, FirstVote, Leader;
    LosingNext(field, entity, [], votes[0], toValue, a, names[0]);
    LosingNext(field, entity, [votes[0]], votes[1], toValue, a, names[0]);
    LosingNext(field, entity, [votes[0], votes[1]], votes[2], toValue, a, names[0]);
    LosingNext(field, entity, [votes[0], votes[1], votes[2]], votes[3], toValue, a, names[0]);
  }

  // ---------------------------------------------------------------- votes by index

  ghost function VotesFor<T>(votes: seq<Vote<T>>, v: T): set<nat> {
    set i: nat | i < |votes| && votes[i].value == Some(v)
  }

  lemma {:induction false} CountIsNumberOfVotes<T>(votes: seq<Vote<T>>, v: T)
    ensures Count(votes, v) == |VotesFor(votes, v)|
  {
    if votes == [] {
      assert VotesFor(votes, v) == {};
    } else {
      var n := |votes| - 1;
      CountIsNumberOfVotes(votes[..n], v);
      assert VotesFor(votes, v) == VotesFor(votes[..n], v) + if votes[n].value == Some(v) then {n} else {};
    }
  }

  // More votes, or as many and an earlier one than all of the other's.
  ghost predicate Leads<T>(votes: seq<Vote<T>>, v: T, u: T) {
    var (mine, others) := (VotesFor(votes, v), VotesFor(votes, u));
    |mine| > |others| || (|mine| == |others| && exists i :: i in mine && forall j :: j in others ==> i < j)
  }

  lemma BeatsIsLeads<T>(votes: seq<Vote<T>>, v: T, u: T)
    requires Voted(votes, v) && Voted(votes, u) && v != u
    ensures Beats(votes, v, u) <==> Leads(votes, v, u)
  {
    hide FirstVote;
    CountIsNumberOfVotes(votes, v);
    CountIsNumberOfVotes(votes, u);
    var first, other := FirstVote(votes, v), FirstVote(votes, u);
    assert first in VotesFor(votes, v) && other in VotesFor(votes, u);
    DistinctFirstVotes(votes, v, u);
  }

  // The winner is the value voted for that leads every other one voted for.
  lemma PluralityExactly<T(!new)>(votes: seq<Vote<T>>, v: T)
    ensures Plurality(votes) == Some(v)
       <==> VotesFor(votes, v) != {} && forall u :: u != v && VotesFor(votes, u) != {} ==> Leads(votes, v, u)
  {
    hide Beats, Leads, Leader, FirstVote;
    PluralityWins(votes, v);
    forall u
      ensures Voted(votes, u) <==> VotesFor(votes, u) != {}
    {
      VotedHasIndex(votes, u);
    }
    hide VotesFor, Voted;
    forall u | Voted(votes, u) && Voted(votes, v) && u != v
      ensures Beats(votes, v, u) <==> Leads(votes, v, u)
    {
      BeatsIsLeads(votes, v, u);
    }
  }

  lemma VotedHasIndex<T>(votes: seq<Vote<T>>, u: T)
    ensures Voted(votes, u) <==> VotesFor(votes, u) != {}
  {
    if i :| 0 <= i < |votes| && votes[i].value == Some(u) {
      assert i in VotesFor(votes, u);
    }
  }

  ghost function LosingVotes<T>(votes: seq<Vote<T>>, winner: T, n: nat): set<nat>
    requires n <= |votes|
  {
    set i: nat | i < n && votes[i].value.Some? && votes[i].value != Some(winner)
  }

  // The rows vote n - 1 adds: one if it loses.
  lemma LosingOfPrefix<T>(field: string, entity: Entity, votes: seq<Vote<T>>, toValue: T -> Value,
                          winner: T, source: string, n: nat)
    requires 1 <= n <= |votes|
    ensures var last := votes[n - 1];
            var loses := last.value.Some? && last.value != Some(winner);
            && Losing(field, entity, votes[..n], toValue, winner, source)
               == Losing(field, entity, votes[..n - 1], toValue, winner, source)
                  + (if loses then [RawDisagreement(entity, field, source, toValue(winner), last.provider, toValue(last.value.value))]
                     else [])
            && |LosingVotes(votes, winner, n)| == |LosingVotes(votes, winner, n - 1)| + if loses then 1 else 0
  {
    LosingNext(field, entity, votes[..n - 1], votes[n - 1], toValue, winner, source);
    assert votes[..n - 1] + [votes[n - 1]] == votes[..n];
    var loses := votes[n - 1].value.Some? && votes[n - 1].value != Some(winner);
    assert LosingVotes(votes, winner, n) == LosingVotes(votes, winner, n - 1) + if loses then {n - 1} else {};
  }

  lemma {:induction false} LosingAt<T>(field: string, entity: Entity, votes: seq<Vote<T>>, toValue: T -> Value,
                                       winner: T, source: string, n: nat, i: nat)
    requires n <= |votes|
    ensures var rows := Losing(field, entity, votes[..n], toValue, winner, source);
            && |rows| == |LosingVotes(votes, winner, n)|
            && (i < n && votes[i].value.Some? && votes[i].value != Some(winner) ==>
                  var k := |LosingVotes(votes, winner, i)|;
                  k < |rows|
                  && rows[k] == RawDisagreement(entity, field, source, toValue(winner),
                                                votes[i].provider, toValue(votes[i].value.value)))
  {
    if n == 0 {
      assert LosingVotes(votes, winner, 0) == {};
    } else {
      hide *;
      LosingAt(field, entity, votes, toValue, winner, source, n - 1, i);
      LosingOfPrefix(field, entity, votes, toValue, winner, source, n);
    }
  }

  // The row of the k-th losing vote is the k-th row, and names the winner's first voter and the
  // vote's own provider and value; there are no other rows.
  lemma LosingVotesAreLogged<T(!new)>(field: string, entity: Entity, votes: seq<Vote<T>>, toValue: T -> Value,
                                      winner: T, first: nat, i: nat)
    requires Plurality(votes) == Some(winner)
    requires first < |votes| && votes[first].value == Some(winner)
    requires forall j :: 0 <= j < first ==> votes[j].value != Some(winner)
    ensures var rows := Disagreements(field, entity, votes, toValue);
            && |rows| == |LosingVotes(votes, winner, |votes|)|
            && (i < |votes| && votes[i].value.Some? && votes[i].value != Some(winner) ==>
                  var k := |LosingVotes(votes, winner, i)|;
                  k < |rows|
                  && rows[k] == RawDisagreement(entity, field, votes[first].provider, toValue(winner),
                                                votes[i].provider, toValue(votes[i].value.value)))
  {
    hide FirstVote, Leader, Losing;
    LeaderIsVoted(votes, |votes|);
    assert FirstVote(votes, winner) == first;
    LosingAt(field, entity, votes, toValue, winner, votes[first].provider, |votes|, i);
    assert votes[..|votes|] == votes;
  }

  // ---------------------------------------------------------------- the tally

  datatype Tally = Tally(count: nat, provider: string, first: nat)
  {
    // Not greater in the winner's order: fewer votes, or as many and a later first vote.
    predicate AtMost(other: Tally) {
      count < other.count || (count == other.count && first >= other.first)
    }
  }

  ghost predicate TallyOf<T(!new)>(votes: seq<Vote<T>>, n: nat, tallies: map<T, Tally>)
    requires n <= |votes|
  {
    && (forall v :: v in tallies <==> Voted(votes[..n], v))
    && (forall v :: v in tallies ==>
          && tallies[v].count == Count(votes[..n], v)
          && Voted(votes, v)
          && tallies[v].first == FirstVote(votes, v) < n
          && tallies[v].provider == votes[FirstVote(votes, v)].provider)
  }

  method TallyVotes<T(==, !new)>(votes: seq<Vote<T>>) returns (tallies: map<T, Tally>)
    ensures TallyOf(votes, |votes|, tallies)
  {
    hide FirstVote, Count;
    tallies := map[];
    for i := 0 to |votes|
      invariant TallyOf(votes, i, tallies)
    {
      hide TallyOf;
      TallyStep(votes, i, tallies);
      if votes[i].value.Some? {
        var v := votes[i].value.value;
        if v in tallies {
          tallies := tallies[v := tallies[v].(count := tallies[v].count + 1)];
        } else {
          tallies := tallies[v := Tally(1, votes[i].provider, i)];
        }
      }
    }
  }

  lemma DistinctFirstVotes<T>(votes: seq<Vote<T>>, v: T, u: T)
    requires Voted(votes, v) && Voted(votes, u)
    ensures v != u ==> FirstVote(votes, v) != FirstVote(votes, u)
  {
    hide FirstVote;
  }

  // The maximum over the tally's entries, met in an arbitrary order.
  method Maximum<T(==, !new)>(ghost votes: seq<Vote<T>>, tallies: map<T, Tally>) returns (best: T)
    requires TallyOf(votes, |votes|, tallies) && |tallies| > 0
    ensures Wins(votes, best) && best in tallies
  {
    hide FirstVote, Count;
    assert votes[..|votes|] == votes;
    best :| best in tallies.Keys;
    var remaining := tallies.Keys - {best};
    while remaining != {}
      invariant remaining <= tallies.Keys && best in tallies.Keys
      invariant forall u :: u in tallies.Keys - remaining && u != best ==> Beats(votes, best, u)
      decreases remaining
    {
      var v :| v in remaining;
      ghost var before := best;
      if tallies[best].AtMost(tallies[v]) {
        best := v;
      }
      remaining := remaining - {v};
      forall u | u in tallies.Keys - remaining && u != best
        ensures Beats(votes, best, u)
      {
        DistinctFirstVotes(votes, v, before);
        assert u == before || u == v || Beats(votes, before, u);
      }
    }
  }

  method MergeOpt<T(==, !new)>(field: string, entity: Entity, votes: seq<Vote<T>>, toValue: T -> Value,
                               sink: seq<RawDisagreement>)
    returns (winner: Option<T>, out: seq<RawDisagreement>)
    ensures winner == Plurality(votes)
    ensures out == sink + Disagreements(field, entity, votes, toValue)
  {
    hide FirstVote, Count, Wins, Plurality;
    var tallies := TallyVotes(votes);
    assert votes[..|votes|] == votes;
    if |tallies| == 0 {
      NothingTallied(votes, tallies);
      return None, sink + [];
    }
    var best := Maximum(votes, tallies);
    PluralityWins(votes, best);
    var source := tallies[best].provider;
    out := sink;
    for i := 0 to |votes|
      invariant out == sink + Losing(field, entity, votes[..i], toValue, best, source)
    {
      hide TallyOf;
      assert votes[..i + 1][..i] == votes[..i];
      if votes[i].value.Some? && votes[i].value.value != best {
        out := out + [RawDisagreement(entity, field, source, toValue(best),
                                      votes[i].provider, toValue(votes[i].value.value))];
      }
    }
    return Some(best), out;
  }

  lemma NothingTallied<T(!new)>(votes: seq<Vote<T>>, tallies: map<T, Tally>)
    requires TallyOf(votes, |votes|, tallies) && |tallies| == 0
    ensures Plurality(votes) == None
  {
    hide FirstVote, Count;
    assert votes[..|votes|] == votes;
    forall v
      ensures !Voted(votes, v)
    {
      assert v !in tallies;
    }
    LeaderIsVoted(votes, |votes|);
  }

  lemma VotedStep<T>(votes: seq<Vote<T>>, i: nat, v: T)
    requires i < |votes|
    ensures Voted(votes[..i + 1], v) <==> Voted(votes[..i], v) || votes[i].value == Some(v)
    ensures Count(votes[..i + 1], v) == Count(votes[..i], v) + if votes[i].value == Some(v) then 1 else 0
  {
    assert votes[..i + 1][..i] == votes[..i];
    if Voted(votes[..i], v) {
      var k :| 0 <= k < i && votes[..i][k].value == Some(v);
      assert votes[..i + 1][k].value == Some(v);
    }
    if votes[i].value == Some(v) {
      assert votes[..i + 1][i].value == Some(v);
    }
  }

  lemma FirstTimeVoted<T>(votes: seq<Vote<T>>, i: nat, v: T)
    requires i < |votes| && votes[i].value == Some(v) && !Voted(votes[..i], v)
    ensures Voted(votes, v) && FirstVote(votes, v) == i && Count(votes[..i], v) == 0
  {
    hide FirstVote, Count;
    CountNone(votes[..i], v);
    assert forall k :: 0 <= k < i ==> votes[..i][k] == votes[k];
  }

  ghost function Tallied<T>(tallies: map<T, Tally>, vote: Vote<T>, i: nat): map<T, Tally> {
    match vote.value
    case None => tallies
    case Some(v) =>
      if v in tallies then tallies[v := tallies[v].(count := tallies[v].count + 1)]
      else tallies[v := Tally(1, vote.provider, i)]
  }

  lemma TallyStep<T(!new)>(votes: seq<Vote<T>>, i: nat, tallies: map<T, Tally>)
    requires i < |votes| && TallyOf(votes, i, tallies)
    ensures TallyOf(votes, i + 1, Tallied(tallies, votes[i], i))
  {
    hide FirstVote, Count, Voted;
    var next := Tallied(tallies, votes[i], i);
    forall v
      ensures v in next <==> Voted(votes[..i + 1], v)
      ensures v in next ==>
                && next[v].count == Count(votes[..i + 1], v)
                && Voted(votes, v)
                && next[v].first == FirstVote(votes, v) < i + 1
                && next[v].provider == votes[FirstVote(votes, v)].provider
    {
      VotedStep(votes, i, v);
      if votes[i].value == Some(v) && v !in tallies {
        FirstTimeVoted(votes, i, v);
      }
    }
  }

  lemma {:induction false} CountNone<T>(votes: seq<Vote<T>>, v: T)
    requires !Voted(votes, v)
    ensures Count(votes, v) == 0
  {
    if votes != [] {
      var front := votes[..|votes| - 1];
      assert forall i :: 0 <= i < |front| ==> front[i] == votes[i];
      CountNone(front, v);
    }
  }
}
