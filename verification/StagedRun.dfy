/**
  The four-stage identification run: which queries a stage issues, how its answers extend
  the identifiers and the candidate pool, and the run as a fold of stages. A provider's
  answer is an arbitrary function of the provider, the identifiers it is given and the
  ordinal of the call, so every pattern of answers and failures is covered.
 */
module StagedRun {
  import opened Results
  import opened Tocs
  import opened Scoring

  datatype DiscIdKind = MbDiscId | CddbId | AccurateRipId | BarcodeId | CatalogNumberId

  datatype Tier = ExactDisc | MusicApi | MusicFallback | GenericBarcode

  datatype Provider = Provider(name: string, tier: Tier, requiredIds: seq<DiscIdKind>)

  datatype LearnedId = LearnedId(kind: DiscIdKind, value: string)

  datatype ProviderLookup = ProviderLookup(candidates: seq<ReleaseCandidate>, learnedIds: seq<LearnedId>)

  type Answer = (Provider, DiscIds, nat) -> Result<ProviderLookup, string>

  datatype Task = Task(provider: Provider, kind: DiscIdKind, value: string, ids: DiscIds)

  datatype QueryKey = QueryKey(provider: string, kind: DiscIdKind, value: string)

  datatype Observation = Observation(
    provider: string, kind: DiscIdKind, value: string, stage: nat,
    lookup: Option<ProviderLookup>, error: Option<string>)
  {
    function Key(): QueryKey { QueryKey(provider, kind, value) }
  }

  datatype Failed = Failed(provider: string, error: string)

  datatype State = State(
    ids: DiscIds, queried: set<QueryKey>, candidates: seq<ReleaseCandidate>,
    observations: seq<Observation>, errors: seq<Failed>)

  datatype Outcome = Outcome(resolution: Option<Resolution>, observations: seq<Observation>, errors: seq<Failed>)

  // ---------------------------------------------------------------- identifiers

  function InputValue(kind: DiscIdKind, ids: DiscIds): Option<string> {
    match kind
    case MbDiscId => ids.mbDiscid
    case CddbId => ids.cddbId
    case AccurateRipId => ids.arDiscid1
    case BarcodeId => ids.barcode
    case CatalogNumberId => ids.catalogNumber
  }

  // The competing metadata key is hidden from a barcode or catalog-number query.
  function IdsForInput(ids: DiscIds, kind: DiscIdKind): DiscIds {
    match kind
    case BarcodeId => ids.(catalogNumber := None)
    case CatalogNumberId => ids.(barcode := None)
    case _ => ids
  }

  function LearnOne(learned: seq<LearnedId>, kind: DiscIdKind, value: Option<string>): seq<LearnedId> {
    if value.Some? && LearnedId(kind, value.value) !in learned then learned + [LearnedId(kind, value.value)] else learned
  }

  // Candidates' barcodes and catalog numbers, appended to what the lookup already learned.
  ghost function LearnedFrom(candidates: seq<ReleaseCandidate>, learned: seq<LearnedId>): seq<LearnedId> {
    if candidates == [] then learned
    else
      var last := candidates[|candidates| - 1];
      LearnOne(LearnOne(LearnedFrom(candidates[..|candidates| - 1], learned), BarcodeId, last.release.barcode),
               CatalogNumberId, last.release.catalogNumber)
  }

  method LearnFromCandidates(lookup: ProviderLookup) returns (r: ProviderLookup)
    ensures r == lookup.(learnedIds := LearnedFrom(lookup.candidates, lookup.learnedIds))
  {
    r := lookup;
    for i := 0 to |lookup.candidates|
      invariant r == lookup.(learnedIds := LearnedFrom(lookup.candidates[..i], lookup.learnedIds))
    {
      assert lookup.candidates[..i + 1][..i] == lookup.candidates[..i];
      var release := lookup.candidates[i].release;
      if release.barcode.Some? && LearnedId(BarcodeId, release.barcode.value) !in r.learnedIds {
        r := r.(learnedIds := r.learnedIds + [LearnedId(BarcodeId, release.barcode.value)]);
      }
      if release.catalogNumber.Some? && LearnedId(CatalogNumberId, release.catalogNumber.value) !in r.learnedIds {
        r := r.(learnedIds := r.learnedIds + [LearnedId(CatalogNumberId, release.catalogNumber.value)]);
      }
    }
    assert lookup.candidates[..|lookup.candidates|] == lookup.candidates;
  }

  // The first learned value of a kind.
  function FirstLearned(learned: seq<LearnedId>, kind: DiscIdKind): Option<string> {
    if learned == [] then None
    else if learned[0].kind == kind then Some(learned[0].value)
    else FirstLearned(learned[1..], kind)
  }

  // Only a missing barcode or catalog number is ever filled in, by the first value learned.
  ghost function WithLearned(ids: DiscIds, learned: seq<LearnedId>): DiscIds {
    ids.(barcode := Or(ids.barcode, FirstLearned(learned, BarcodeId)),
         catalogNumber := Or(ids.catalogNumber, FirstLearned(learned, CatalogNumberId)))
  }

  method ApplyLearnedIds(ids: DiscIds, lookup: ProviderLookup) returns (r: DiscIds)
    ensures r == WithLearned(ids, lookup.learnedIds)
  {
    r := ids;
    for i := 0 to |lookup.learnedIds|
      invariant WithLearned(r, lookup.learnedIds[i..]) == WithLearned(ids, lookup.learnedIds)
    {
      var learned := lookup.learnedIds[i];
      assert lookup.learnedIds[i..][1..] == lookup.learnedIds[i + 1..];
      if learned.kind == BarcodeId && r.barcode.None? {
        r := r.(barcode := Some(learned.value));
      } else if learned.kind == CatalogNumberId && r.catalogNumber.None? {
        r := r.(catalogNumber := Some(learned.value));
      }
    }
  }

  // ---------------------------------------------------------------- the queries of a stage

  datatype Queue = Queue(tasks: seq<Task>, queried: set<QueryKey>)

  datatype Wish = Wish(provider: Provider, kind: DiscIdKind)

  function WishesOf(provider: Provider): (wishes: seq<Wish>)
    ensures |wishes| == |provider.requiredIds|
  {
    seq(|provider.requiredIds|, i requires 0 <= i < |provider.requiredIds| => Wish(provider, provider.requiredIds[i]))
  }

  // Provider and identifier kind pairs of a tier, in registration order.
  ghost function Wishes(providers: seq<Provider>, tier: Tier): seq<Wish> {
    if providers == [] then []
    else
      var last := providers[|providers| - 1];
      Wishes(providers[..|providers| - 1], tier) + if last.tier == tier then WishesOf(last) else []
  }

  // One wish becomes a task if its identifier is known and the same query was not issued before.
  function Enqueue(q: Queue, wish: Wish, ids: DiscIds): Queue {
    match InputValue(wish.kind, ids)
    case None => q
    case Some(value) =>
      var key := QueryKey(wish.provider.name, wish.kind, value);
      if key in q.queried then q
      else Queue(q.tasks + [Task(wish.provider, wish.kind, value, IdsForInput(ids, wish.kind))], q.queried + {key})
  }

  ghost function EnqueueAll(q: Queue, wishes: seq<Wish>, ids: DiscIds): Queue {
    if wishes == [] then q
    else Enqueue(EnqueueAll(q, wishes[..|wishes| - 1], ids), wishes[|wishes| - 1], ids)
  }

  method CollectTasks(providers: seq<Provider>, tier: Tier, ids: DiscIds, queried: set<QueryKey>) returns (q: Queue)
    ensures q == EnqueueAll(Queue([], queried), Wishes(providers, tier), ids)
  {
    hide Enqueue, EnqueueAll, Wishes;
    q := Queue([], queried);
    ghost var start := q;
    NothingEnqueued(q, providers, tier, ids);
    for i := 0 to |providers|
      invariant q == EnqueueAll(start, Wishes(providers[..i], tier), ids)
    {
      var provider := providers[i];
      ghost var before, own := Wishes(providers[..i], tier), WishesOf(provider);
      WishesStep(providers, i, tier);
      if provider.tier == tier {
        assert before + own[..0] == before;
        for j := 0 to |provider.requiredIds|
          invariant q == EnqueueAll(start, before + own[..j], ids)
        {
          EnqueuedNext(start, before, own, j, ids);
          q := Enqueue(q, Wish(provider, provider.requiredIds[j]), ids);
        }
        assert own[..|own|] == own;
      }
    }
    assert providers[..|providers|] == providers;
  }

  lemma NothingEnqueued(q: Queue, providers: seq<Provider>, tier: Tier, ids: DiscIds)
    ensures EnqueueAll(q, Wishes(providers[..0], tier), ids) == q
  {
  }

  lemma WishesStep(providers: seq<Provider>, i: nat, tier: Tier)
    requires i < |providers|
    ensures Wishes(providers[..i + 1], tier)
         == if providers[i].tier == tier then Wishes(providers[..i], tier) + WishesOf(providers[i])
            else Wishes(providers[..i], tier)
  {
    assert providers[..i + 1][..i] == providers[..i];
  }

  lemma EnqueuedNext(q: Queue, before: seq<Wish>, own: seq<Wish>, j: nat, ids: DiscIds)
    requires j < |own|
    ensures EnqueueAll(q, before + own[..j + 1], ids) == Enqueue(EnqueueAll(q, before + own[..j], ids), own[j], ids)
  {
    hide Enqueue;
    var longer := before + own[..j + 1];
    assert longer[..|longer| - 1] == before + own[..j];
    assert longer[|longer| - 1] == own[j];
  }

  // ---------------------------------------------------------------- the answers of a stage

  predicate InPool(pool: seq<ReleaseCandidate>, c: ReleaseCandidate) {
    exists e <- pool :: e.provider == c.provider && e.candidateKey == c.candidateKey
  }

  // Candidates not yet represented by provider and key, appended in order.
  ghost function Pooled(pool: seq<ReleaseCandidate>, found: seq<ReleaseCandidate>): seq<ReleaseCandidate> {
    if found == [] then pool
    else
      var before, last := Pooled(pool, found[..|found| - 1]), found[|found| - 1];
      if InPool(before, last) then before else before + [last]
  }

  ghost function Learned(lookup: ProviderLookup): ProviderLookup {
    lookup.(learnedIds := LearnedFrom(lookup.candidates, lookup.learnedIds))
  }

  ghost function Absorb(s: State, task: Task, stage: nat, result: Result<ProviderLookup, string>): State {
    match result
    case Success(found) =>
      var lookup := Learned(found);
      s.(ids := WithLearned(s.ids, lookup.learnedIds),
         candidates := Pooled(s.candidates, lookup.candidates),
         observations := s.observations
           + [Observation(task.provider.name, task.kind, task.value, stage, Some(lookup), None)])
    case Failure(error) =>
      s.(observations := s.observations
           + [Observation(task.provider.name, task.kind, task.value, stage, None, Some(error))],
         errors := s.errors + [Failed(task.provider.name, error)])
  }

  // Absorbing the answers of tasks in task order; the n-th call of the run is the n-th observation.
  ghost function AbsorbAll(s: State, tasks: seq<Task>, stage: nat, answer: Answer): (r: State)
    ensures |r.observations| == |s.observations| + |tasks|
  {
    if tasks == [] then s
    else
      var before, last := AbsorbAll(s, tasks[..|tasks| - 1], stage, answer), tasks[|tasks| - 1];
      Absorb(before, last, stage, answer(last.provider, last.ids, |before.observations|))
  }

  // ---------------------------------------------------------------- stages

  const TIERS: seq<Tier> := [ExactDisc, MusicApi, MusicFallback, GenericBarcode]

  // The fallback tier is skipped once resolution is unambiguous, the generic tier once there
  // is any candidate.
  ghost predicate Skipped(toc: Toc, tier: Tier, s: State) {
    var current := ResolutionOf(toc, s.candidates);
    || (tier == MusicFallback && current.Some? && !current.value.ambiguous)
    || (tier == GenericBarcode && s.candidates != [])
  }

  ghost function QueueOf(providers: seq<Provider>, tier: Tier, s: State): Queue {
    EnqueueAll(Queue([], s.queried), Wishes(providers, tier), s.ids)
  }

  ghost function StageOf(providers: seq<Provider>, toc: Toc, answer: Answer, tier: Tier, stage: nat, s: State): State {
    if Skipped(toc, tier, s) then s
    else
      var q := QueueOf(providers, tier, s);
      AbsorbAll(s.(queried := q.queried), q.tasks, stage, answer)
  }

  ghost function Initial(ids: DiscIds): State { State(ids, {}, [], [], []) }

  // The state after the first n stages.
  ghost function After(providers: seq<Provider>, toc: Toc, ids: DiscIds, answer: Answer, n: nat): State
    requires n <= 4
  {
    if n == 0 then Initial(ids)
    else StageOf(providers, toc, answer, TIERS[n - 1], n, After(providers, toc, ids, answer, n - 1))
  }

  method PoolCandidates(pool: seq<ReleaseCandidate>, found: seq<ReleaseCandidate>) returns (r: seq<ReleaseCandidate>)
    ensures r == Pooled(pool, found)
  {
    r := pool;
    for i := 0 to |found|
      invariant r == Pooled(pool, found[..i])
    {
      assert found[..i + 1][..i] == found[..i];
      if !InPool(r, found[i]) {
        r := r + [found[i]];
      }
    }
    assert found[..|found|] == found;
  }

  // Every answer of the stage is in before the first one is used.
  method RunStage(tasks: seq<Task>, stage: nat, answer: Answer, s: State) returns (r: State)
    ensures r == AbsorbAll(s, tasks, stage, answer)
  {
    hide LearnedFrom, WithLearned, Pooled;
    var first := |s.observations|;
    var results := seq(|tasks|, k requires 0 <= k < |tasks| => answer(tasks[k].provider, tasks[k].ids, first + k));
    var ids, candidates, observations, errors := s.ids, s.candidates, s.observations, s.errors;
    for k := 0 to |tasks|
      invariant State(ids, s.queried, candidates, observations, errors) == AbsorbAll(s, tasks[..k], stage, answer)
    {
      assert tasks[..k + 1][..k] == tasks[..k];
      var task := tasks[k];
      var name := task.provider.name;
      match results[k] {
        case Success(found) =>
          var lookup := LearnFromCandidates(found);
          ids := ApplyLearnedIds(ids, lookup);
          candidates := PoolCandidates(candidates, lookup.candidates);
          observations := observations + [Observation(name, task.kind, task.value, stage, Some(lookup), None)];
        case Failure(error) =>
          observations := observations + [Observation(name, task.kind, task.value, stage, None, Some(error))];
          errors := errors + [Failed(name, error)];
      }
    }
    assert tasks[..|tasks|] == tasks;
    return State(ids, s.queried, candidates, observations, errors);
  }

  method IdentifyStaged(providers: seq<Provider>, toc: Toc, initialIds: DiscIds, answer: Answer)
    returns (outcome: Outcome)
    ensures var s := After(providers, toc, initialIds, answer, 4);
            outcome == Outcome(ResolutionOf(toc, s.candidates), s.observations, s.errors)
  {
    hide ResolutionOf, EnqueueAll, AbsorbAll, Wishes;
    var s := State(initialIds, {}, [], [], []);
    for stage := 0 to 4
      invariant s == After(providers, toc, initialIds, answer, stage)
    {
      var tier := TIERS[stage];
      var current := ScoreAndResolve(toc, s.candidates);
      if tier == MusicFallback && current.Some? && !current.value.ambiguous {
        continue;
      }
      if tier == GenericBarcode && |s.candidates| != 0 {
        continue;
      }
      var q := CollectTasks(providers, tier, s.ids, s.queried);
      s := RunStage(q.tasks, stage + 1, answer, s.(queried := q.queried));
    }
    var resolution := ScoreAndResolve(toc, s.candidates);
    return Outcome(resolution, s.observations, s.errors);
  }
}
