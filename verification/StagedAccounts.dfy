/**
  Everything a staged run knows is accounted for by its log: the pool, the identifiers and
  the errors are each a function of the observations, in order.
 */
module StagedAccounts {
  import opened Results
  import opened Tocs
  import opened Scoring
  import opened ScoringTheorems
  import opened StagedRun
  import opened StagedTheorems

  // ---------------------------------------------------------------- reading the log

  ghost function Found(observations: seq<Observation>): seq<ReleaseCandidate> {
    if observations == [] then []
    else
      var last := observations[|observations| - 1];
      Found(observations[..|observations| - 1]) + if last.lookup.Some? then last.lookup.value.candidates else []
  }

  ghost function AllLearned(observations: seq<Observation>): seq<LearnedId> {
    if observations == [] then []
    else
      var last := observations[|observations| - 1];
      AllLearned(observations[..|observations| - 1]) + if last.lookup.Some? then last.lookup.value.learnedIds else []
  }

  ghost function Failures(observations: seq<Observation>): seq<Failed> {
    if observations == [] then []
    else
      var last := observations[|observations| - 1];
      Failures(observations[..|observations| - 1])
      + if last.error.Some? then [Failed(last.provider, last.error.value)] else []
  }

  ghost predicate Accounted(initial: DiscIds, s: State) {
    && s.candidates == Pooled([], Found(s.observations))
    && s.ids == WithLearned(initial, AllLearned(s.observations))
    && s.errors == Failures(s.observations)
  }

  // ---------------------------------------------------------------- every step keeps the account

  lemma {:induction false} PooledInSteps(pool: seq<ReleaseCandidate>, a: seq<ReleaseCandidate>, b: seq<ReleaseCandidate>)
    ensures Pooled(pool, a + b) == Pooled(Pooled(pool, a), b)
  {
    hide InPool;
    if b == [] {
      assert a + b == a;
    } else {
      PooledInSteps(pool, a, b[..|b| - 1]);
      assert (a + b)[..|a + b| - 1] == a + b[..|b| - 1];
    }
  }

  lemma {:induction false} FirstLearnedOfSum(a: seq<LearnedId>, b: seq<LearnedId>, kind: DiscIdKind)
    ensures FirstLearned(a + b, kind) == Or(FirstLearned(a, kind), FirstLearned(b, kind))
  {
    if a == [] {
      assert a + b == b;
    } else {
      FirstLearnedOfSum(a[1..], b, kind);
      assert (a + b)[1..] == a[1..] + b;
    }
  }

  lemma AccountedStep(initial: DiscIds, s: State, task: Task, stage: nat, result: Result<ProviderLookup, string>)
    requires Accounted(initial, s)
    ensures Accounted(initial, Absorb(s, task, stage, result))
  {
    hide Pooled, FirstLearned, LearnedFrom;
    var r := Absorb(s, task, stage, result);
    assert r.observations[..|r.observations| - 1] == s.observations;
    if result.Success? {
      var lookup := Learned(result.value);
      PooledInSteps([], Found(s.observations), lookup.candidates);
      FirstLearnedOfSum(AllLearned(s.observations), lookup.learnedIds, BarcodeId);
      FirstLearnedOfSum(AllLearned(s.observations), lookup.learnedIds, CatalogNumberId);
    } else {
      assert Found(s.observations) + [] == Found(s.observations);
      assert AllLearned(s.observations) + [] == AllLearned(s.observations);
    }
  }

  lemma {:induction false} AccountedStage(initial: DiscIds, s: State, tasks: seq<Task>, stage: nat, answer: Answer)
    requires Accounted(initial, s)
    ensures Accounted(initial, AbsorbAll(s, tasks, stage, answer))
  {
    hide Accounted, Absorb;
    if tasks != [] {
      var front, last := tasks[..|tasks| - 1], tasks[|tasks| - 1];
      AccountedStage(initial, s, front, stage, answer);
      var before := AbsorbAll(s, front, stage, answer);
      AccountedStep(initial, before, last, stage, answer(last.provider, last.ids, |before.observations|));
    }
  }

  // After every stage: the pool is the first representative of each candidate found, in order;
  // the identifiers are the initial ones, completed by the first barcode and catalog number
  // learned; the errors are exactly the failed observations.
  lemma {:induction false} LogAccountsForEverything(providers: seq<Provider>, toc: Toc, ids: DiscIds, answer: Answer, n: nat)
    requires n <= 4
    ensures Accounted(ids, After(providers, toc, ids, answer, n))
  {
    hide Absorb, ResolutionOf, EnqueueAll;
    if n > 0 {
      LogAccountsForEverything(providers, toc, ids, answer, n - 1);
      var s := After(providers, toc, ids, answer, n - 1);
      if !Skipped(toc, TIERS[n - 1], s) {
        var q := QueueOf(providers, TIERS[n - 1], s);
        AccountedStage(ids, s.(queried := q.queried), q.tasks, n, answer);
      }
    }
  }

  // ---------------------------------------------------------------- the pool

  ghost predicate UniqueByProviderAndKey(pool: seq<ReleaseCandidate>) {
    forall i, j :: 0 <= i < j < |pool| ==>
      pool[i].provider != pool[j].provider || pool[i].candidateKey != pool[j].candidateKey
  }

  lemma {:induction false} PooledIsUnique(pool: seq<ReleaseCandidate>, found: seq<ReleaseCandidate>)
    requires UniqueByProviderAndKey(pool)
    ensures var r := Pooled(pool, found);
            && UniqueByProviderAndKey(r)
            && pool <= r
            && (forall c <- found :: InPool(r, c))
            && (forall c <- r :: c in pool || c in found)
  {
    if found != [] {
      var front, last := found[..|found| - 1], found[|found| - 1];
      PooledIsUnique(pool, front);
      assert found == front + [last];
      var before, r := Pooled(pool, front), Pooled(pool, found);
      forall c | c in found
        ensures InPool(r, c)
      {
        if InPool(before, c) {
          var e :| e in before && e.provider == c.provider && e.candidateKey == c.candidateKey;
          assert e in r;
        } else {
          assert c == last && last in r;
        }
      }
      forall i | 0 <= i < |before|
        ensures !InPool(before, last) ==>
                  before[i].provider != last.provider || before[i].candidateKey != last.candidateKey
      {
        assert before[i] in before;
      }
    }
  }

  lemma {:induction false} FoundIsObserved(observations: seq<Observation>, c: ReleaseCandidate)
    ensures c in Found(observations)
       <==> exists o <- observations :: o.lookup.Some? && c in o.lookup.value.candidates
  {
    if observations != [] {
      var front, last := observations[..|observations| - 1], observations[|observations| - 1];
      FoundIsObserved(front, c);
      assert observations == front + [last];
    }
  }

  // Pool candidates are unique by provider and key; every candidate any lookup returned is
  // represented; and every one of them was returned by some lookup.
  lemma PoolRepresentsEveryLookup(providers: seq<Provider>, toc: Toc, ids: DiscIds, answer: Answer, n: nat)
    requires n <= 4
    ensures var s := After(providers, toc, ids, answer, n);
            && UniqueByProviderAndKey(s.candidates)
            && (forall o, c :: o in s.observations && o.lookup.Some? && c in o.lookup.value.candidates ==>
                  InPool(s.candidates, c))
            && (forall c <- s.candidates :: exists o <- s.observations ::
                  o.lookup.Some? && c in o.lookup.value.candidates)
  {
    hide InPool, StageOf;
    LogAccountsForEverything(providers, toc, ids, answer, n);
    var s := After(providers, toc, ids, answer, n);
    PooledIsUnique([], Found(s.observations));
    forall o, c | o in s.observations && o.lookup.Some? && c in o.lookup.value.candidates
      ensures InPool(s.candidates, c)
    {
      FoundIsObserved(s.observations, c);
    }
    forall c | c in s.candidates
      ensures exists o <- s.observations :: o.lookup.Some? && c in o.lookup.value.candidates
    {
      FoundIsObserved(s.observations, c);
    }
  }

  // ---------------------------------------------------------------- keys of a run

  // Candidates with one key come from one provider.
  ghost predicate KeysNameProviders(found: seq<ReleaseCandidate>) {
    forall c, d :: c in found && d in found && c.candidateKey == d.candidateKey ==> c.provider == d.provider
  }

  // Two providers reporting the same key both stay in the pool, which the schema's unique
  // index on a run's candidate keys does not allow for.
  lemma SharedKeyStaysTwice(x: ReleaseCandidate, y: ReleaseCandidate)
    requires x.candidateKey == y.candidateKey && x.provider != y.provider
    ensures Pooled([], [x, y]) == [x, y] && !DistinctKeys(Pooled([], [x, y]))
  {
    assert [x, y][..1] == [x] && [x][..0] == [];
    assert Pooled([], [x]) == [x];
    assert [x, y][0].candidateKey == [x, y][1].candidateKey;
  }

  // The pool of what was found satisfies the index exactly when no key comes from two providers.
  lemma PoolFitsIndexExactly(found: seq<ReleaseCandidate>)
    ensures DistinctKeys(Pooled([], found)) <==> KeysNameProviders(found)
  {
    hide Pooled;
    PooledIsUnique([], found);
    var pool := Pooled([], found);
    if DistinctKeys(pool) {
      forall c, d | c in found && d in found && c.candidateKey == d.candidateKey
        ensures c.provider == d.provider
      {
        assert InPool(pool, c) && InPool(pool, d);
        var i :| 0 <= i < |pool| && pool[i].provider == c.provider && pool[i].candidateKey == c.candidateKey;
        var j :| 0 <= j < |pool| && pool[j].provider == d.provider && pool[j].candidateKey == d.candidateKey;
        assert i == j;
      }
    }
    if KeysNameProviders(found) {
      forall i, j | 0 <= i < j < |pool|
        ensures pool[i].candidateKey != pool[j].candidateKey
      {
        assert pool[i] in pool && pool[j] in pool;
      }
    }
  }

  // A lookup of the log returned the candidate.
  ghost predicate Returned(observations: seq<Observation>, c: ReleaseCandidate) {
    exists o <- observations :: o.lookup.Some? && c in o.lookup.value.candidates
  }

  // After every stage the pool satisfies the index exactly when no two providers returned
  // candidates with one key.
  lemma RunFitsIndexExactly(providers: seq<Provider>, toc: Toc, ids: DiscIds, answer: Answer, n: nat)
    requires n <= 4
    ensures var s := After(providers, toc, ids, answer, n);
            DistinctKeys(s.candidates)
            <==> forall c, d | Returned(s.observations, c) && Returned(s.observations, d) && c.candidateKey == d.candidateKey ::
                   c.provider == d.provider
  {
    var s := After(providers, toc, ids, answer, n);
    LogAccountsForEverything(providers, toc, ids, answer, n);
    hide After, Found;
    PoolFitsIndexExactly(Found(s.observations));
    forall c
      ensures c in Found(s.observations) <==> Returned(s.observations, c)
    {
      FoundIsObserved(s.observations, c);
    }
  }

  // ---------------------------------------------------------------- identifiers

  // An identifier once set keeps its value for the rest of the run, and the identifiers
  // derived from the table of contents never change at all.
  lemma SetIdentifiersNeverChange(providers: seq<Provider>, toc: Toc, ids: DiscIds, answer: Answer,
                                  k: nat, n: nat, kind: DiscIdKind)
    requires k <= n <= 4
    requires InputValue(kind, After(providers, toc, ids, answer, k).ids).Some?
    ensures InputValue(kind, After(providers, toc, ids, answer, n).ids)
         == InputValue(kind, After(providers, toc, ids, answer, k).ids)
    ensures kind != BarcodeId && kind != CatalogNumberId ==>
              InputValue(kind, After(providers, toc, ids, answer, n).ids) == InputValue(kind, ids)
    decreases n
  {
    hide StageOf;
    LogAccountsForEverything(providers, toc, ids, answer, k);
    LogAccountsForEverything(providers, toc, ids, answer, n);
    LogGrows(providers, toc, ids, answer, k, n);
    var early := After(providers, toc, ids, answer, k).observations;
    var late := After(providers, toc, ids, answer, n).observations;
    LearnedPrefix(early, late);
    var rest := AllLearned(late)[|AllLearned(early)|..];
    assert AllLearned(late) == AllLearned(early) + rest;
    FirstLearnedOfSum(AllLearned(early), rest, BarcodeId);
    FirstLearnedOfSum(AllLearned(early), rest, CatalogNumberId);
  }

  lemma {:induction false} LearnedPrefix(early: seq<Observation>, late: seq<Observation>)
    requires early <= late
    ensures AllLearned(early) <= AllLearned(late)
    decreases |late|
  {
    if |early| < |late| {
      LearnedPrefix(early, late[..|late| - 1]);
    } else {
      assert early == late;
    }
  }

  lemma {:induction false} AbsorbKeepsLog(s: State, tasks: seq<Task>, stage: nat, answer: Answer)
    ensures s.observations <= AbsorbAll(s, tasks, stage, answer).observations
  {
    hide WithLearned, Learned, Pooled;
    if tasks != [] {
      AbsorbKeepsLog(s, tasks[..|tasks| - 1], stage, answer);
    }
  }

  lemma {:induction false} LogGrows(providers: seq<Provider>, toc: Toc, ids: DiscIds, answer: Answer, k: nat, n: nat)
    requires k <= n <= 4
    ensures After(providers, toc, ids, answer, k).observations <= After(providers, toc, ids, answer, n).observations
    decreases n
  {
    hide ResolutionOf, EnqueueAll;
    if k < n {
      LogGrows(providers, toc, ids, answer, k, n - 1);
      var s := After(providers, toc, ids, answer, n - 1);
      if !Skipped(toc, TIERS[n - 1], s) {
        var q := QueueOf(providers, TIERS[n - 1], s);
        AbsorbKeepsLog(s.(queried := q.queried), q.tasks, n, answer);
      }
    }
  }

  // The value is the first of its kind in the list.
  ghost predicate FirstOfKind(learned: seq<LearnedId>, kind: DiscIdKind, value: string) {
    exists i :: 0 <= i < |learned| && learned[i] == LearnedId(kind, value)
                && forall j :: 0 <= j < i ==> learned[j].kind != kind
  }

  lemma {:induction false} FirstLearnedExactly(learned: seq<LearnedId>, kind: DiscIdKind, value: string)
    ensures FirstLearned(learned, kind) == Some(value) <==> FirstOfKind(learned, kind, value)
  {
    if learned != [] {
      FirstLearnedExactly(learned[1..], kind, value);
      forall i | 0 < i < |learned|
        ensures learned[i] == learned[1..][i - 1]
      {
      }
      if learned[0].kind != kind {
        if i :| 0 <= i < |learned| && learned[i] == LearnedId(kind, value) && forall j :: 0 <= j < i ==> learned[j].kind != kind {
          assert learned[1..][i - 1] == LearnedId(kind, value);
        }
        if i :| 0 <= i < |learned[1..]| && learned[1..][i] == LearnedId(kind, value)
                && forall j :: 0 <= j < i ==> learned[1..][j].kind != kind {
          assert learned[i + 1] == LearnedId(kind, value);
        }
      } else {
        assert FirstOfKind(learned, kind, learned[0].value);
      }
    }
  }

  // A run that starts without a barcode ends with the first one learned, if any, and the same of
  // the catalog number; an identifier it starts with stays, and so do all others.
  lemma IdentifiersFilledExactly(providers: seq<Provider>, toc: Toc, ids: DiscIds, answer: Answer, n: nat, value: string)
    requires n <= 4
    ensures var s := After(providers, toc, ids, answer, n);
            var learned := AllLearned(s.observations);
            && s.ids == ids.(barcode := s.ids.barcode, catalogNumber := s.ids.catalogNumber)
            && (ids.barcode.Some? ==> s.ids.barcode == ids.barcode)
            && (ids.catalogNumber.Some? ==> s.ids.catalogNumber == ids.catalogNumber)
            && (ids.barcode.None? ==> (s.ids.barcode == Some(value) <==> FirstOfKind(learned, BarcodeId, value)))
            && (ids.catalogNumber.None? ==>
                  (s.ids.catalogNumber == Some(value) <==> FirstOfKind(learned, CatalogNumberId, value)))
  {
    LogAccountsForEverything(providers, toc, ids, answer, n);
    hide After, FirstLearned, AllLearned, FirstOfKind;
    var learned := AllLearned(After(providers, toc, ids, answer, n).observations);
    FirstLearnedExactly(learned, BarcodeId, value);
    FirstLearnedExactly(learned, CatalogNumberId, value);
  }

  // The errors of a run are those of its failed observations, in order.
  lemma {:induction false} FailuresAt(observations: seq<Observation>, i: nat)
    requires i < |observations| && observations[i].error.Some?
    ensures var n := |Failures(observations[..i])|;
            n < |Failures(observations)| && Failures(observations)[n] == Failed(observations[i].provider, observations[i].error.value)
  {
    var front := observations[..|observations| - 1];
    if i < |front| {
      FailuresAt(front, i);
      assert front[..i] == observations[..i];
    } else {
      assert front == observations[..i];
    }
  }

  lemma {:induction false} FailuresCount(observations: seq<Observation>)
    ensures |Failures(observations)| == |set i | 0 <= i < |observations| && observations[i].error.Some?|
  {
    var failed := set i | 0 <= i < |observations| && observations[i].error.Some?;
    if observations == [] {
      assert failed == {};
    } else {
      var front, n := observations[..|observations| - 1], |observations| - 1;
      FailuresCount(front);
      assert failed == (set i | 0 <= i < |front| && front[i].error.Some?) + if observations[n].error.Some? then {n} else {};
    }
  }

  // What a lookup counts as learned: what it said itself, then exactly the barcodes and catalog
  // numbers of its candidates, none of them twice.
  lemma CandidatesTeachIdentifiers(candidates: seq<ReleaseCandidate>, learned: seq<LearnedId>, x: LearnedId)
    ensures learned <= LearnedFrom(candidates, learned)
    ensures x in LearnedFrom(candidates, learned)
       <==> x in learned || exists c <- candidates ::
              (x.kind == BarcodeId && c.release.barcode == Some(x.value))
              || (x.kind == CatalogNumberId && c.release.catalogNumber == Some(x.value))
    ensures multiset(LearnedFrom(candidates, learned))[x] <= if x in learned then multiset(learned)[x] else 1
  {
    hide Teaches, LearnedFrom;
    LearnedKept(candidates, learned);
    LearnedExactly(candidates, learned, x);
    LearnedOnce(candidates, learned, x);
    TaughtMeans(candidates, x);
  }

  ghost predicate Teaches(c: ReleaseCandidate, x: LearnedId) {
    (x.kind == BarcodeId && c.release.barcode == Some(x.value))
    || (x.kind == CatalogNumberId && c.release.catalogNumber == Some(x.value))
  }

  ghost predicate Taught(candidates: seq<ReleaseCandidate>, x: LearnedId) {
    exists c <- candidates :: Teaches(c, x)
  }

  lemma TaughtMeans(candidates: seq<ReleaseCandidate>, x: LearnedId)
    ensures Taught(candidates, x)
       <==> exists c <- candidates ::
              (x.kind == BarcodeId && c.release.barcode == Some(x.value))
              || (x.kind == CatalogNumberId && c.release.catalogNumber == Some(x.value))
  {
    if c :| c in candidates && ((x.kind == BarcodeId && c.release.barcode == Some(x.value))
                                || (x.kind == CatalogNumberId && c.release.catalogNumber == Some(x.value)))
    {
      assert Teaches(c, x);
    }
  }

  lemma LearnedStep(candidates: seq<ReleaseCandidate>, learned: seq<LearnedId>, x: LearnedId)
    requires candidates != []
    ensures var front, last := candidates[..|candidates| - 1], candidates[|candidates| - 1];
            var before, r := LearnedFrom(front, learned), LearnedFrom(candidates, learned);
            && before <= r
            && (x in r <==> x in before || Teaches(last, x))
            && multiset(r)[x] == multiset(before)[x] + if x !in before && Teaches(last, x) then 1 else 0
  {
    hide LearnOne;
    var last := candidates[|candidates| - 1];
    var before := LearnedFrom(candidates[..|candidates| - 1], learned);
    LearnOneAdds(before, BarcodeId, last.release.barcode, x);
    LearnOneAdds(LearnOne(before, BarcodeId, last.release.barcode), CatalogNumberId, last.release.catalogNumber, x);
  }

  lemma {:induction false} LearnedKept(candidates: seq<ReleaseCandidate>, learned: seq<LearnedId>)
    ensures learned <= LearnedFrom(candidates, learned)
  {
    if candidates != [] {
      hide LearnOne;
      LearnedKept(candidates[..|candidates| - 1], learned);
      LearnedStep(candidates, learned, LearnedId(BarcodeId, ""));
    }
  }

  lemma {:induction false} LearnedExactly(candidates: seq<ReleaseCandidate>, learned: seq<LearnedId>, x: LearnedId)
    ensures x in LearnedFrom(candidates, learned) <==> x in learned || Taught(candidates, x)
  {
    if candidates == [] {
      assert LearnedFrom(candidates, learned) == learned && !Taught(candidates, x);
    } else {
      hide *;
      LearnedExactly(candidates[..|candidates| - 1], learned, x);
      LearnedStep(candidates, learned, x);
      TaughtStep(candidates, x);
    }
  }

  lemma TaughtStep(candidates: seq<ReleaseCandidate>, x: LearnedId)
    requires candidates != []
    ensures var n := |candidates| - 1;
            Taught(candidates, x) <==> Taught(candidates[..n], x) || Teaches(candidates[n], x)
  {
    hide Teaches;
    var front, last := candidates[..|candidates| - 1], candidates[|candidates| - 1];
    assert candidates == front + [last];
  }

  lemma {:induction false} LearnedOnce(candidates: seq<ReleaseCandidate>, learned: seq<LearnedId>, x: LearnedId)
    ensures multiset(LearnedFrom(candidates, learned))[x] <= if x in learned then multiset(learned)[x] else 1
  {
    hide Teaches;
    if candidates != [] {
      hide LearnedFrom;
      var front := candidates[..|candidates| - 1];
      LearnedOnce(front, learned, x);
      LearnedStep(candidates, learned, x);
      LearnedExactly(front, learned, x);
    }
  }

  lemma LearnOneAdds(learned: seq<LearnedId>, kind: DiscIdKind, value: Option<string>, x: LearnedId)
    ensures var r := LearnOne(learned, kind, value);
            && learned <= r
            && (x in r <==> x in learned || (x.kind == kind && value == Some(x.value)))
            && multiset(r)[x] == multiset(learned)[x]
                 + if x !in learned && x.kind == kind && value == Some(x.value) then 1 else 0
  {
  }

  // ---------------------------------------------------------------- a run that breaks the index

  // Every answer is the candidate, under the name of the provider asked.
  ghost predicate EchoesCandidate(answer: Answer, c: ReleaseCandidate) {
    forall p, ids, n :: answer(p, ids, n) == Success(ProviderLookup([c.(provider := p.name)], []))
  }

  ghost predicate LogEchoes(observations: seq<Observation>, c: ReleaseCandidate) {
    forall o <- observations :: o.lookup.Some? && o.lookup.value.candidates == [c.(provider := o.provider)]
  }

  lemma {:induction false} AbsorbedEchoes(s: State, tasks: seq<Task>, stage: nat, answer: Answer, c: ReleaseCandidate)
    requires EchoesCandidate(answer, c) && LogEchoes(s.observations, c)
    ensures LogEchoes(AbsorbAll(s, tasks, stage, answer).observations, c)
  {
    hide LearnedFrom, WithLearned, Pooled;
    if tasks != [] {
      AbsorbedEchoes(s, tasks[..|tasks| - 1], stage, answer, c);
    }
  }

  lemma {:induction false} RunEchoes(providers: seq<Provider>, toc: Toc, ids: DiscIds, answer: Answer, c: ReleaseCandidate, n: nat)
    requires n <= 4 && EchoesCandidate(answer, c)
    ensures LogEchoes(After(providers, toc, ids, answer, n).observations, c)
  {
    hide EchoesCandidate, AbsorbAll, EnqueueAll, ResolutionOf;
    if n > 0 {
      RunEchoes(providers, toc, ids, answer, c, n - 1);
      var s := After(providers, toc, ids, answer, n - 1);
      if !Skipped(toc, TIERS[n - 1], s) {
        var q := QueueOf(providers, TIERS[n - 1], s);
        AbsorbedEchoes(s.(queried := q.queried), q.tasks, n, answer, c);
      }
    }
  }

  // A run that breaks the index: two providers of the second tier, asked by the MusicBrainz id,
  // answer with one key.
  lemma TwoProvidersBreakTheIndex(p: Provider, q: Provider, toc: Toc, ids: DiscIds, answer: Answer, c: ReleaseCandidate)
    requires p.name != q.name && p.tier == q.tier == MusicApi
    requires p.requiredIds == q.requiredIds == [MbDiscId] && ids.mbDiscid.Some?
    requires EchoesCandidate(answer, c)
    ensures !DistinctKeys(After([p, q], toc, ids, answer, 4).candidates)
  {
    hide EchoesCandidate, After;
    CandidateIsReturned([p, q], toc, ids, answer, c, p);
    CandidateIsReturned([p, q], toc, ids, answer, c, q);
    RunFitsIndexExactly([p, q], toc, ids, answer, 4);
  }

  lemma CandidateIsReturned(providers: seq<Provider>, toc: Toc, ids: DiscIds, answer: Answer, c: ReleaseCandidate, p: Provider)
    requires p in providers && p.tier == MusicApi && MbDiscId in p.requiredIds && ids.mbDiscid.Some?
    requires EchoesCandidate(answer, c)
    ensures Returned(After(providers, toc, ids, answer, 4).observations, c.(provider := p.name))
  {
    assert After(providers, toc, ids, answer, 0).ids == ids;
    hide EchoesCandidate, StageOf, After, ResolutionOf, Accounted, LogExact;
    SetIdentifiersNeverChange(providers, toc, ids, answer, 0, 1, MbDiscId);
    EveryKnownQueryIsAsked(providers, toc, ids, answer, 2, p, MbDiscId);
    LogGrows(providers, toc, ids, answer, 2, 4);
    RunEchoes(providers, toc, ids, answer, c, 4);
    KeptInLog(After(providers, toc, ids, answer, 2).observations, After(providers, toc, ids, answer, 4).observations, c, p.name);
  }

  lemma KeptInLog(early: seq<Observation>, late: seq<Observation>, c: ReleaseCandidate, name: string)
    requires early <= late && LogEchoes(late, c) && exists o <- early :: o.provider == name
    ensures Returned(late, c.(provider := name))
  {
    var o :| o in early && o.provider == name;
    var i :| 0 <= i < |early| && early[i] == o;
    assert late[i] == o;
    assert o in late;
  }
}
