/**
  What every staged run keeps, for every set of providers, every initial identifiers and
  every pattern of answers.
 */
module StagedTheorems {
  import opened Results
  import opened Tocs
  import opened Scoring
  import opened StagedRun

  // ---------------------------------------------------------------- one stage

  function TaskKey(t: Task): QueryKey { QueryKey(t.provider.name, t.kind, t.value) }

  ghost predicate FreshTasks(q: Queue, queried: set<QueryKey>, wishes: seq<Wish>, ids: DiscIds) {
    && (forall i, j :: 0 <= i < j < |q.tasks| ==> TaskKey(q.tasks[i]) != TaskKey(q.tasks[j]))
    && (forall t <- q.tasks :: TaskKey(t) !in queried)
    && (forall k :: k in q.queried <==> k in queried || exists t <- q.tasks :: TaskKey(t) == k)
    && (forall t <- q.tasks ::
          && InputValue(t.kind, ids) == Some(t.value)
          && t.ids == IdsForInput(ids, t.kind)
          && Wish(t.provider, t.kind) in wishes)
    && (forall w <- wishes :: InputValue(w.kind, ids).Some? ==>
          QueryKey(w.provider.name, w.kind, InputValue(w.kind, ids).value) in q.queried)
  }

  lemma {:induction false} EnqueuedAreFresh(queried: set<QueryKey>, wishes: seq<Wish>, ids: DiscIds)
    ensures FreshTasks(EnqueueAll(Queue([], queried), wishes, ids), queried, wishes, ids)
  {
    if wishes != [] {
      var front, last := wishes[..|wishes| - 1], wishes[|wishes| - 1];
      EnqueuedAreFresh(queried, front, ids);
      assert wishes == front + [last];
      EnqueueStep(EnqueueAll(Queue([], queried), front, ids), queried, front, last, ids);
    }
  }

  lemma EnqueueStep(q: Queue, queried: set<QueryKey>, wishes: seq<Wish>, wish: Wish, ids: DiscIds)
    requires FreshTasks(q, queried, wishes, ids)
    ensures FreshTasks(Enqueue(q, wish, ids), queried, wishes + [wish], ids)
  {
    hide InputValue, IdsForInput;
    var r := Enqueue(q, wish, ids);
    if r != q {
      var task := r.tasks[|q.tasks|];
      assert r.tasks == q.tasks + [task];
      assert task in r.tasks && TaskKey(task) !in q.queried;
      forall i | 0 <= i < |q.tasks|
        ensures TaskKey(q.tasks[i]) != TaskKey(task)
      {
        assert q.tasks[i] in q.tasks;
      }
      forall k
        ensures k in r.queried <==> k in queried || exists t <- r.tasks :: TaskKey(t) == k
      {
        if t :| t in q.tasks && TaskKey(t) == k {
          assert t in r.tasks;
        }
      }
    }
  }

  lemma {:induction false} WishesAreOfTheTier(providers: seq<Provider>, tier: Tier, w: Wish)
    ensures w in Wishes(providers, tier)
       <==> w.provider in providers && w.provider.tier == tier && w.kind in w.provider.requiredIds
  {
    if providers != [] {
      var front, last := providers[..|providers| - 1], providers[|providers| - 1];
      WishesAreOfTheTier(front, tier, w);
      assert providers == front + [last];
      assert w in WishesOf(last) <==> w.provider == last && w.kind in last.requiredIds by {
        if w.provider == last && w.kind in last.requiredIds {
          var i :| 0 <= i < |last.requiredIds| && last.requiredIds[i] == w.kind;
          assert WishesOf(last)[i] == w;
        }
      }
    }
  }

  // The observation a task leaves behind.
  ghost predicate ObservedAs(o: Observation, t: Task, stage: nat) {
    && o.provider == t.provider.name && o.kind == t.kind && o.value == t.value && o.stage == stage
    && (o.lookup.Some? <==> o.error.None?)
  }

  lemma {:induction false} AbsorbedInTaskOrder(s: State, tasks: seq<Task>, stage: nat, answer: Answer)
    ensures var r := AbsorbAll(s, tasks, stage, answer);
            && r.queried == s.queried
            && r.observations[..|s.observations|] == s.observations
            && forall i :: 0 <= i < |tasks| ==> ObservedAs(r.observations[|s.observations| + i], tasks[i], stage)
  {
    hide WithLearned, Learned, Pooled;
    if tasks != [] {
      AbsorbedInTaskOrder(s, tasks[..|tasks| - 1], stage, answer);
    }
  }

  ghost predicate FromTier(providers: seq<Provider>, tier: Tier, o: Observation) {
    exists p <- providers :: p.tier == tier && p.name == o.provider && o.kind in p.requiredIds
  }

  // What a stage adds: observations of this stage only, each a new query with an identifier
  // known when the stage began, of a provider of its tier.
  ghost predicate Extends(providers: seq<Provider>, tier: Tier, stage: nat, s: State, r: State) {
    && |s.observations| <= |r.observations| && r.observations[..|s.observations|] == s.observations
    && (forall i :: |s.observations| <= i < |r.observations| ==>
          var o := r.observations[i];
          && o.stage == stage && o.Key() !in s.queried
          && InputValue(o.kind, s.ids) == Some(o.value)
          && FromTier(providers, tier, o)
          && (o.lookup.Some? <==> o.error.None?))
    && (forall i, j :: |s.observations| <= i < j < |r.observations| ==>
          r.observations[i].Key() != r.observations[j].Key())
    && (forall k :: k in r.queried <==>
          k in s.queried || exists i :: |s.observations| <= i < |r.observations| && r.observations[i].Key() == k)
  }

  lemma StageExtends(providers: seq<Provider>, toc: Toc, answer: Answer, tier: Tier, stage: nat, s: State)
    ensures Extends(providers, tier, stage, s, StageOf(providers, toc, answer, tier, stage, s))
  {
    hide ResolutionOf, EnqueueAll, AbsorbAll, InputValue, Wishes;
    if !Skipped(toc, tier, s) {
      var wishes := Wishes(providers, tier);
      var q := QueueOf(providers, tier, s);
      EnqueuedAreFresh(s.queried, wishes, s.ids);
      AbsorbedInTaskOrder(s.(queried := q.queried), q.tasks, stage, answer);
      ExtendsByTasks(providers, tier, stage, s, q, StageOf(providers, toc, answer, tier, stage, s));
    }
  }

  lemma ExtendsByTasks(providers: seq<Provider>, tier: Tier, stage: nat, s: State, q: Queue, r: State)
    requires FreshTasks(q, s.queried, Wishes(providers, tier), s.ids)
    requires r.queried == q.queried && |r.observations| == |s.observations| + |q.tasks|
    requires r.observations[..|s.observations|] == s.observations
    requires forall i :: 0 <= i < |q.tasks| ==> ObservedAs(r.observations[|s.observations| + i], q.tasks[i], stage)
    ensures Extends(providers, tier, stage, s, r)
  {
    hide InputValue, Wishes;
    var n := |s.observations|;
    forall i | n <= i < |r.observations|
      ensures r.observations[i].Key() == TaskKey(q.tasks[i - n])
      ensures ObservedAs(r.observations[i], q.tasks[i - n], stage) && FromTier(providers, tier, r.observations[i])
      ensures q.tasks[i - n] in q.tasks
    {
      assert ObservedAs(r.observations[n + (i - n)], q.tasks[i - n], stage);
      assert q.tasks[i - n] in q.tasks;
      WishesAreOfTheTier(providers, tier, Wish(q.tasks[i - n].provider, q.tasks[i - n].kind));
    }
    forall k
      ensures k in r.queried <==>
                k in s.queried || exists i :: n <= i < |r.observations| && r.observations[i].Key() == k
    {
      if t :| t in q.tasks && TaskKey(t) == k {
        var j :| 0 <= j < |q.tasks| && q.tasks[j] == t;
        assert r.observations[n + j].Key() == k;
      }
    }
  }

  // ---------------------------------------------------------------- the query log

  ghost predicate Asked(s: State, k: QueryKey) {
    exists o <- s.observations :: o.Key() == k
  }

  // No query is in the log twice, and the queries remembered are exactly those in the log.
  ghost predicate LogExact(s: State) {
    && (forall i, j :: 0 <= i < j < |s.observations| ==> s.observations[i].Key() != s.observations[j].Key())
    && (forall k :: k in s.queried <==> Asked(s, k))
  }

  lemma LogStaysExact(providers: seq<Provider>, tier: Tier, stage: nat, s: State, r: State)
    requires Extends(providers, tier, stage, s, r) && LogExact(s)
    ensures LogExact(r)
  {
    hide InputValue, FromTier, Asked;
    var n := |s.observations|;
    forall i | 0 <= i < n
      ensures r.observations[i].Key() == s.observations[i].Key() && r.observations[i].Key() in s.queried
    {
      assert r.observations[..n][i] == s.observations[i];
      AskedAt(s, i);
    }
    forall k
      ensures k in r.queried <==> Asked(r, k)
    {
      AskedAfter(s, r, k);
    }
  }

  lemma AskedAt(s: State, i: nat)
    requires i < |s.observations|
    ensures Asked(s, s.observations[i].Key())
  {
    assert s.observations[i] in s.observations;
  }

  lemma AskedAfter(s: State, r: State, k: QueryKey)
    requires |s.observations| <= |r.observations| && r.observations[..|s.observations|] == s.observations
    ensures Asked(r, k) <==>
              Asked(s, k) || exists i :: |s.observations| <= i < |r.observations| && r.observations[i].Key() == k
  {
    var n := |s.observations|;
    if Asked(s, k) {
      var o :| o in s.observations && o.Key() == k;
      var i :| 0 <= i < n && s.observations[i] == o;
      assert r.observations[..n][i] == o;
      AskedAt(r, i);
    }
    if i :| n <= i < |r.observations| && r.observations[i].Key() == k {
      AskedAt(r, i);
    }
    if Asked(r, k) {
      var o :| o in r.observations && o.Key() == k;
      var i :| 0 <= i < |r.observations| && r.observations[i] == o;
      if i < n {
        assert s.observations[i] == r.observations[..n][i];
        AskedAt(s, i);
      }
    }
  }

  lemma {:induction false} QueriedAtMostOnce(providers: seq<Provider>, toc: Toc, ids: DiscIds, answer: Answer, n: nat)
    requires n <= 4
    ensures LogExact(After(providers, toc, ids, answer, n))
  {
    hide StageOf, InputValue, FromTier;
    if n > 0 {
      QueriedAtMostOnce(providers, toc, ids, answer, n - 1);
      var s, r := After(providers, toc, ids, answer, n - 1), After(providers, toc, ids, answer, n);
      StageExtends(providers, toc, answer, TIERS[n - 1], n, s);
      LogStaysExact(providers, TIERS[n - 1], n, s, r);
    }
  }

  // Observations come in stage order; each is of a provider of its stage's tier, used an
  // identifier already known when that stage began, and holds either a lookup or an error.
  lemma {:induction false} StagesUseEarlierIdentifiers(providers: seq<Provider>, toc: Toc, ids: DiscIds, answer: Answer, n: nat)
    requires n <= 4
    ensures var observations := After(providers, toc, ids, answer, n).observations;
            && (forall i, j :: 0 <= i < j < |observations| ==> observations[i].stage <= observations[j].stage)
            && (forall o <- observations ::
                  && 1 <= o.stage <= n
                  && InputValue(o.kind, After(providers, toc, ids, answer, o.stage - 1).ids) == Some(o.value)
                  && FromTier(providers, TIERS[o.stage - 1], o)
                  && (o.lookup.Some? <==> o.error.None?))
  {
    hide StageOf, InputValue, FromTier;
    if n > 0 {
      StagesUseEarlierIdentifiers(providers, toc, ids, answer, n - 1);
      var s, r := After(providers, toc, ids, answer, n - 1), After(providers, toc, ids, answer, n);
      StageExtends(providers, toc, answer, TIERS[n - 1], n, s);
      forall i | 0 <= i < |r.observations|
        ensures i < |s.observations| ==> r.observations[i] == s.observations[i] && s.observations[i] in s.observations
        ensures i >= |s.observations| ==> r.observations[i].stage == n
      {
      }
    }
  }

  // ---------------------------------------------------------------- gating

  // A query of the fallback tier means that the first two tiers left the disc unresolved or
  // ambiguous; a query of the generic tier, that the first three found no candidate.
  lemma LaterTiersAreGated(providers: seq<Provider>, toc: Toc, ids: DiscIds, answer: Answer, o: Observation)
    requires o in After(providers, toc, ids, answer, 4).observations
    ensures o.stage == 3 ==>
              var r := ResolutionOf(toc, After(providers, toc, ids, answer, 2).candidates);
              r.None? || r.value.ambiguous
    ensures o.stage == 4 ==> After(providers, toc, ids, answer, 3).candidates == []
  {
    hide StageOf, InputValue, FromTier, ResolutionOf;
    StagesUseEarlierIdentifiers(providers, toc, ids, answer, 4);
    if o.stage == 4 {
      StagesUseEarlierIdentifiers(providers, toc, ids, answer, 3);
      GateOf(providers, toc, answer, GenericBarcode, 4, After(providers, toc, ids, answer, 3), o);
    }
    if o.stage == 3 {
      StagesUseEarlierIdentifiers(providers, toc, ids, answer, 2);
      StageExtends(providers, toc, answer, GenericBarcode, 4, After(providers, toc, ids, answer, 3));
      NotOfStage(After(providers, toc, ids, answer, 3), After(providers, toc, ids, answer, 4), o);
      GateOf(providers, toc, answer, MusicFallback, 3, After(providers, toc, ids, answer, 2), o);
    }
  }

  lemma NotOfStage(s: State, r: State, o: Observation)
    requires |s.observations| <= |r.observations| && r.observations[..|s.observations|] == s.observations
    requires forall i :: |s.observations| <= i < |r.observations| ==> r.observations[i].stage == 4
    requires o in r.observations && o.stage == 3
    ensures o in s.observations
  {
    var i :| 0 <= i < |r.observations| && r.observations[i] == o;
    assert s.observations[i] == o;
  }

  lemma GateOf(providers: seq<Provider>, toc: Toc, answer: Answer, tier: Tier, stage: nat, s: State, o: Observation)
    requires o in StageOf(providers, toc, answer, tier, stage, s).observations && o !in s.observations
    ensures !Skipped(toc, tier, s)
  {
    hide ResolutionOf, AbsorbAll, QueueOf;
  }

  // A stage that is not skipped leaves no query of its tier unasked: for every provider and
  // required identifier known when it begins, the query is in the log afterwards.
  lemma EveryKnownQueryIsAsked(providers: seq<Provider>, toc: Toc, ids: DiscIds, answer: Answer, n: nat,
                               p: Provider, kind: DiscIdKind)
    requires 1 <= n <= 4 && p in providers && p.tier == TIERS[n - 1] && kind in p.requiredIds
    requires var s := After(providers, toc, ids, answer, n - 1);
             !Skipped(toc, TIERS[n - 1], s) && InputValue(kind, s.ids).Some?
    ensures var s := After(providers, toc, ids, answer, n - 1);
            exists o <- After(providers, toc, ids, answer, n).observations ::
              o.Key() == QueryKey(p.name, kind, InputValue(kind, s.ids).value)
  {
    hide ResolutionOf, EnqueueAll, AbsorbAll, InputValue, Skipped, Wishes;
    var s, r := After(providers, toc, ids, answer, n - 1), After(providers, toc, ids, answer, n);
    var tier := TIERS[n - 1];
    var key := QueryKey(p.name, kind, InputValue(kind, s.ids).value);
    var q := QueueOf(providers, tier, s);
    EnqueuedAreFresh(s.queried, Wishes(providers, tier), s.ids);
    WishesAreOfTheTier(providers, tier, Wish(p, kind));
    assert key in q.queried;
    AbsorbedInTaskOrder(s.(queried := q.queried), q.tasks, n, answer);
    assert key in r.queried;
    QueriedAtMostOnce(providers, toc, ids, answer, n);
    assert Asked(r, key);
  }

  // The identifier each kind of query carries.
  lemma IdentifierOfKind(ids: DiscIds)
    ensures InputValue(MbDiscId, ids) == ids.mbDiscid
    ensures InputValue(CddbId, ids) == ids.cddbId
    ensures InputValue(AccurateRipId, ids) == ids.arDiscid1
    ensures InputValue(BarcodeId, ids) == ids.barcode
    ensures InputValue(CatalogNumberId, ids) == ids.catalogNumber
  {
  }

  // The log of the state holds the provider's query for its identifier of the kind.
  ghost predicate AskedFor(s: State, p: Provider, kind: DiscIdKind, ids: DiscIds) {
    InputValue(kind, ids).Some? ==> Asked(s, QueryKey(p.name, kind, InputValue(kind, ids).value))
  }

  // Every provider is asked for every identifier known when its stage begins: exact-disc
  // providers first and music providers second, always; fallback providers third, when the first
  // two stages leave no resolution or an ambiguous one; barcode providers last, when there is no
  // candidate by then.
  lemma ProvidersAreAsked(providers: seq<Provider>, toc: Toc, ids: DiscIds, answer: Answer, p: Provider, kind: DiscIdKind)
    requires p in providers && kind in p.requiredIds
    ensures p.tier == ExactDisc ==> AskedFor(After(providers, toc, ids, answer, 1), p, kind, ids)
    ensures p.tier == MusicApi ==>
              AskedFor(After(providers, toc, ids, answer, 2), p, kind, After(providers, toc, ids, answer, 1).ids)
    ensures p.tier == MusicFallback
            && (ResolutionOf(toc, After(providers, toc, ids, answer, 2).candidates).None?
                || ResolutionOf(toc, After(providers, toc, ids, answer, 2).candidates).value.ambiguous) ==>
              AskedFor(After(providers, toc, ids, answer, 3), p, kind, After(providers, toc, ids, answer, 2).ids)
    ensures p.tier == GenericBarcode && After(providers, toc, ids, answer, 3).candidates == [] ==>
              AskedFor(After(providers, toc, ids, answer, 4), p, kind, After(providers, toc, ids, answer, 3).ids)
  {
    hide ResolutionOf, InputValue, Asked, StageOf;
    assert After(providers, toc, ids, answer, 0).ids == ids;
    assert forall s: State :: !Skipped(toc, ExactDisc, s) && !Skipped(toc, MusicApi, s);
    if p.tier == ExactDisc {
      RunStageAsks(providers, toc, ids, answer, 1, p, kind);
    }
    hide After;
    if p.tier == MusicApi {
      RunStageAsks(providers, toc, ids, answer, 2, p, kind);
    }
    if p.tier == MusicFallback && !Skipped(toc, MusicFallback, After(providers, toc, ids, answer, 2)) {
      RunStageAsks(providers, toc, ids, answer, 3, p, kind);
    }
    if p.tier == GenericBarcode && After(providers, toc, ids, answer, 3).candidates == [] {
      RunStageAsks(providers, toc, ids, answer, 4, p, kind);
    }
  }

  lemma RunStageAsks(providers: seq<Provider>, toc: Toc, ids: DiscIds, answer: Answer, n: nat, p: Provider, kind: DiscIdKind)
    requires 1 <= n <= 4 && p in providers && p.tier == TIERS[n - 1] && kind in p.requiredIds
    requires !Skipped(toc, TIERS[n - 1], After(providers, toc, ids, answer, n - 1))
    ensures AskedFor(After(providers, toc, ids, answer, n), p, kind, After(providers, toc, ids, answer, n - 1).ids)
  {
    hide After, Skipped, InputValue;
    if InputValue(kind, After(providers, toc, ids, answer, n - 1).ids).Some? {
      EveryKnownQueryIsAsked(providers, toc, ids, answer, n, p, kind);
    }
  }

  // What is asked in a stage stays in the log.
  lemma {:induction false} AskedStays(providers: seq<Provider>, toc: Toc, ids: DiscIds, answer: Answer, n: nat, m: nat, k: QueryKey)
    requires n <= m <= 4 && Asked(After(providers, toc, ids, answer, n), k)
    ensures Asked(After(providers, toc, ids, answer, m), k)
    decreases m
  {
    hide StageOf, InputValue, FromTier;
    if n < m {
      AskedStays(providers, toc, ids, answer, n, m - 1, k);
      var s, r := After(providers, toc, ids, answer, m - 1), After(providers, toc, ids, answer, m);
      StageExtends(providers, toc, answer, TIERS[m - 1], m, s);
      AskedAfter(s, r, k);
    }
  }

  // ---------------------------------------------------------------- answers in the log

  // The identifiers as a query of the kind shows them: without the catalog number for a barcode,
  // without the barcode for a catalog number.
  ghost predicate Shown(kind: DiscIdKind, ids: DiscIds, shown: DiscIds) {
    shown == match kind
             case BarcodeId => ids.(catalogNumber := None)
             case CatalogNumberId => ids.(barcode := None)
             case _ => ids
  }

  // The observation records what the provider answered: its error, or its candidates and, before
  // what they teach, its identifiers.
  ghost predicate Records(o: Observation, result: Result<ProviderLookup, string>) {
    match result
    case Failure(e) => o.lookup == None && o.error == Some(e)
    case Success(found) =>
      o.lookup.Some? && o.error == None
      && o.lookup.value.candidates == found.candidates && found.learnedIds <= o.lookup.value.learnedIds
  }

  // The n-th observation records the answer of a provider of that name and tier, shown the
  // identifiers of the state its stage began with, to the n-th call.
  ghost predicate AnsweredBy(providers: seq<Provider>, tier: Tier, begin: DiscIds, answer: Answer, o: Observation, n: nat) {
    exists p, shown ::
      p in providers && p.name == o.provider && p.tier == tier && o.kind in p.requiredIds
      && Shown(o.kind, begin, shown) && Records(o, answer(p, shown, n))
  }

  lemma {:induction false} LearnedKeepsLookup(candidates: seq<ReleaseCandidate>, learned: seq<LearnedId>)
    ensures learned <= LearnedFrom(candidates, learned)
  {
    if candidates != [] {
      LearnedKeepsLookup(candidates[..|candidates| - 1], learned);
    }
  }

  lemma AbsorbRecords(s: State, task: Task, stage: nat, result: Result<ProviderLookup, string>)
    ensures var r := Absorb(s, task, stage, result);
            |r.observations| == |s.observations| + 1 && r.observations[..|s.observations|] == s.observations
            && var o := r.observations[|s.observations|];
               o.provider == task.provider.name && o.kind == task.kind && Records(o, result)
  {
    hide LearnedFrom, WithLearned, Pooled;
    if result.Success? {
      LearnedKeepsLookup(result.value.candidates, result.value.learnedIds);
    }
  }

  lemma {:induction false} AbsorbedRecords(s: State, tasks: seq<Task>, stage: nat, answer: Answer, i: nat)
    requires i < |tasks|
    ensures var r, n := AbsorbAll(s, tasks, stage, answer), |s.observations| + i;
            n < |r.observations|
            && var o := r.observations[n];
               o.provider == tasks[i].provider.name && o.kind == tasks[i].kind
               && Records(o, answer(tasks[i].provider, tasks[i].ids, n))
  {
    hide Absorb, Records;
    var front, last := tasks[..|tasks| - 1], tasks[|tasks| - 1];
    var before := AbsorbAll(s, front, stage, answer);
    AbsorbRecords(before, last, stage, answer(last.provider, last.ids, |before.observations|));
    var r := AbsorbAll(s, tasks, stage, answer);
    if i < |front| {
      AbsorbedRecords(s, front, stage, answer, i);
      assert r.observations[..|before.observations|][|s.observations| + i] == before.observations[|s.observations| + i];
    }
  }

  lemma StageRecords(providers: seq<Provider>, toc: Toc, answer: Answer, tier: Tier, stage: nat, s: State, n: nat)
    requires |s.observations| <= n < |StageOf(providers, toc, answer, tier, stage, s).observations|
    ensures AnsweredBy(providers, tier, s.ids, answer, StageOf(providers, toc, answer, tier, stage, s).observations[n], n)
  {
    hide ResolutionOf, EnqueueAll, AbsorbAll, InputValue, Wishes, Records;
    var q := QueueOf(providers, tier, s);
    EnqueuedAreFresh(s.queried, Wishes(providers, tier), s.ids);
    var i := n - |s.observations|;
    AbsorbedRecords(s.(queried := q.queried), q.tasks, stage, answer, i);
    var task := q.tasks[i];
    assert task in q.tasks;
    WishesAreOfTheTier(providers, tier, Wish(task.provider, task.kind));
    assert Shown(task.kind, s.ids, task.ids);
  }

  // Every observation of a run records such an answer, in its stage.
  lemma {:induction false} LogHoldsAnswers(providers: seq<Provider>, toc: Toc, ids: DiscIds, answer: Answer, n: nat, i: nat)
    requires n <= 4 && i < |After(providers, toc, ids, answer, n).observations|
    ensures var o := After(providers, toc, ids, answer, n).observations[i];
            && 1 <= o.stage <= n
            && AnsweredBy(providers,
                          if o.stage == 1 then ExactDisc else if o.stage == 2 then MusicApi
                          else if o.stage == 3 then MusicFallback else GenericBarcode,
                          After(providers, toc, ids, answer, o.stage - 1).ids, answer, o, i)
  {
    hide StageOf, AnsweredBy, Extends;
    var s, r := After(providers, toc, ids, answer, n - 1), After(providers, toc, ids, answer, n);
    StageExtends(providers, toc, answer, TIERS[n - 1], n, s);
    ExtendsAt(providers, TIERS[n - 1], n, s, r, i);
    if i < |s.observations| {
      LogHoldsAnswers(providers, toc, ids, answer, n - 1, i);
    } else {
      StageRecords(providers, toc, answer, TIERS[n - 1], n, s, i);
    }
  }

  lemma ExtendsAt(providers: seq<Provider>, tier: Tier, stage: nat, s: State, r: State, i: nat)
    requires Extends(providers, tier, stage, s, r) && i < |r.observations|
    ensures if i < |s.observations| then r.observations[i] == s.observations[i] else r.observations[i].stage == stage
  {
    hide InputValue, FromTier;
    if i < |s.observations| {
      assert r.observations[..|s.observations|][i] == s.observations[i];
    }
  }

  // A barcode query never carries a catalog number, nor the reverse; all other identifiers pass.
  lemma CompetingKeyIsHidden(ids: DiscIds, kind: DiscIdKind)
    requires InputValue(kind, ids).Some?
    ensures var scoped := IdsForInput(ids, kind);
            && InputValue(kind, scoped) == InputValue(kind, ids)
            && (kind == BarcodeId ==> scoped.catalogNumber == None)
            && (kind == CatalogNumberId ==> scoped.barcode == None)
            && forall other :: other != kind && other != BarcodeId && other != CatalogNumberId ==>
                 InputValue(other, scoped) == InputValue(other, ids)
  {
  }
}
