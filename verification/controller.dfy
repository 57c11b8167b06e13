/** The genetic-algorithm loop: every iteration refills the pool, scores the
    designs not seen before, records them, ranks the whole pool by total
    score and keeps the better half (rounded half to even) as the next pool.
    The refill operators, the structure predictor, the scoring function and
    the structure-deviation function are parameters. */
module Controller {
  import opened Results
  import opened PyMath
  import opened PyList
  import opened PyDict
  import opened Population
  import opened Scoring
  import opened StableSort
  import opened Schedule

  /** How an iteration refills the pool. */
  datatype RefillKind =
    | Fresh               // the first iteration: new sequences, no crossover
    | Mpnn(iter: nat)     // an iteration listed for the sequence-design network
    | Mutate(rate: real)  // mutation and crossover at the iteration's rate

  /** The per-run settings the loop reads: the stabilised chains, the
      design-network iterations and the per-iteration mutation rates. */
  datatype Config = Config(stabilize: seq<string>, mpnnIters: seq<int>, mutRates: seq<real>)

  /** Everything the loop calls but does not define. The refill operators
      see the current pool and everything scored so far. */
  datatype Oracles = Oracles(
    refill: (RefillKind, seq<Individual>, Cache) -> seq<Individual>,
    predict: WorkUnit -> Prediction,
    score: (Prediction, Individual) -> ScoreOut,
    rmsd: Option<(string, string, Individual) -> real>)

  /** One line of an iteration's ranking: a design's identity and score. */
  datatype Ranked = Ranked(key: string, score: Score)

  /** The loop's state between iterations: the pool to refill, the cache,
      the ranking of every finished iteration, the number of predictions
      made, and the identities kept by the last iteration. */
  datatype State = State(pool: seq<Individual>, cache: Cache, history: seq<seq<Ranked>>,
                         predictions: nat, survivors: seq<string>)

  /** An iteration number; the loop counts from 1. */
  type Iter = i: nat | i >= 1 witness 1

  // ---------------------------------------------------------------------
  // Refill dispatch

  /** Iteration 1 creates fresh sequences, a listed iteration uses the
      design network, and every other iteration mutates at its own rate,
      which fails when the rate list is too short. */
  function ChooseRefill(iter: Iter, cfg: Config): (r: Result<RefillKind, StepError>)
  {
    if iter == 1 then Ok(Fresh)
    else if (iter as int) in cfg.mpnnIters then Ok(Mpnn(iter))
    else if iter - 1 < |cfg.mutRates| then Ok(Mutate(cfg.mutRates[iter - 1]))
    else Err(NoRate(iter))
  }

  /** The dispatch in full: which operator each iteration gets, with the
      first iteration taking precedence over the design-network list, and
      the rate read at position iter - 1. */
  lemma ChooseRefillSpec(iter: Iter, cfg: Config)
    ensures ChooseRefill(iter, cfg) == Ok(Fresh) <==> iter == 1
    ensures ChooseRefill(iter, cfg).Ok? && ChooseRefill(iter, cfg).value.Mpnn? <==>
      iter != 1 && (iter as int) in cfg.mpnnIters
    ensures ChooseRefill(iter, cfg).Ok? && ChooseRefill(iter, cfg).value.Mutate? <==>
      iter != 1 && (iter as int) !in cfg.mpnnIters && iter <= |cfg.mutRates|
    ensures ChooseRefill(iter, cfg).Ok? && ChooseRefill(iter, cfg).value.Mutate? ==>
      ChooseRefill(iter, cfg).value.rate == cfg.mutRates[iter - 1]
    ensures ChooseRefill(iter, cfg).Err? <==>
      iter != 1 && (iter as int) !in cfg.mpnnIters && iter > |cfg.mutRates|
  {
  }

  /** With rates from the schedule builder, no iteration of the run lacks
      a rate. */
  lemma ScheduleCoversDispatch(numIter: nat, given: Option<seq<real>>, cfg: Config, iter: Iter)
    requires given.None? || |given.value| > 0
    requires cfg.mutRates == MutationSchedule(numIter, given)
    requires iter <= numIter
    ensures ChooseRefill(iter, cfg).Ok?
  {
    MutationScheduleSpec(numIter, given);
  }

  // ---------------------------------------------------------------------
  // Scoring pool and cache

  /** The designs of the pool whose identity is not cached yet, in pool
      order. */
  function ScoringPool(pool: seq<Individual>, cache: Cache): seq<Individual>
    decreases |pool|
  {
    if |pool| == 0 then []
    else (if Identity(pool[0]) in cache then [] else [pool[0]]) + ScoringPool(pool[1..], cache)
  }

  /** A design is sent for scoring exactly when it is in the pool and its
      identity is not cached: nothing already scored is submitted again. */
  lemma {:induction false} ScoringPoolSpec(pool: seq<Individual>, cache: Cache)
    ensures forall x :: x in ScoringPool(pool, cache) <==> x in pool && Identity(x) !in cache
    ensures |ScoringPool(pool, cache)| <= |pool|
    decreases |pool|
  {
    if |pool| > 0 {
      ScoringPoolSpec(pool[1..], cache);
      assert pool == [pool[0]] + pool[1..];
    }
  }

  /** Filtering keeps order: the scoring pool of a concatenation is the
      concatenation of the scoring pools. */
  lemma {:induction false} ScoringPoolAppend(a: seq<Individual>, b: seq<Individual>, cache: Cache)
    ensures ScoringPool(a + b, cache) == ScoringPool(a, cache) + ScoringPool(b, cache)
    decreases |a|
  {
    if |a| > 0 {
      var head := if Identity(a[0]) in cache then [] else [a[0]];
      assert (a + b)[0] == a[0] && (a + b)[1..] == a[1..] + b;
      assert ScoringPool(a + b, cache) == head + ScoringPool(a[1..] + b, cache);
      ScoringPoolAppend(a[1..], b, cache);
      assert ScoringPool(a, cache) == head + ScoringPool(a[1..], cache);
      SeqRegroup(head, ScoringPool(a[1..], cache), ScoringPool(b, cache));
    } else {
      assert a + b == b;
    }
  }

  /** The writes `scored_seqs[key_seq] = record` of one round, in order. */
  function EntryWrites(es: seq<Entry>): (ws: seq<(string, Entry)>)
    ensures |ws| == |es| && forall i :: 0 <= i < |es| ==> ws[i] == (Identity(es[i].ind), es[i])
  {
    seq(|es|, i requires 0 <= i < |es| => (Identity(es[i].ind), es[i]))
  }

  /** The cache after a round's writes: the round's keys, last write
      winning, over the old cache. */
  function Record(cache: Cache, es: seq<Entry>): Cache {
    cache + Store(EntryWrites(es))
  }

  /** Every record is filed under its design's identity. */
  ghost predicate WellKeyed(cache: Cache) {
    forall k :: k in cache ==> Identity(cache[k].ind) == k
  }

  /** Recording keeps every old key and adds exactly the round's keys; a key
      the round does not write keeps its record, and a written key holds its
      last record. Recording keeps the cache well keyed. */
  lemma RecordSpec(cache: Cache, es: seq<Entry>)
    ensures forall k :: k in Record(cache, es) <==> k in cache || exists i :: 0 <= i < |es| && Identity(es[i].ind) == k
    ensures forall k :: k in cache && (forall i :: 0 <= i < |es| ==> Identity(es[i].ind) != k) ==>
      Record(cache, es)[k] == cache[k]
    ensures forall i :: 0 <= i < |es| && (forall j :: i < j < |es| ==> Identity(es[j].ind) != Identity(es[i].ind)) ==>
      Identity(es[i].ind) in Record(cache, es) && Record(cache, es)[Identity(es[i].ind)] == es[i]
    ensures WellKeyed(cache) ==> WellKeyed(Record(cache, es))
  {
    RecordKeys(cache, es);
    forall i | 0 <= i < |es| && (forall j :: i < j < |es| ==> Identity(es[j].ind) != Identity(es[i].ind))
      ensures Identity(es[i].ind) in Record(cache, es) && Record(cache, es)[Identity(es[i].ind)] == es[i]
    {
      RecordLast(cache, es, i);
    }
    if WellKeyed(cache) {
      RecordWellKeyed(cache, es);
    }
  }

  lemma RecordKeys(cache: Cache, es: seq<Entry>)
    ensures forall k :: k in Record(cache, es) <==> k in cache || exists i :: 0 <= i < |es| && Identity(es[i].ind) == k
    ensures forall k :: k in cache && (forall i :: 0 <= i < |es| ==> Identity(es[i].ind) != k) ==>
      Record(cache, es)[k] == cache[k]
  {
    var ws := EntryWrites(es);
    StoreKeys(ws);
    forall k ensures k in Store(ws) <==> exists i :: 0 <= i < |es| && Identity(es[i].ind) == k {
      if k in Store(ws) {
        var i :| 0 <= i < |ws| && ws[i].0 == k;
        assert Identity(es[i].ind) == k;
      }
      if exists i :: 0 <= i < |es| && Identity(es[i].ind) == k {
        var i :| 0 <= i < |es| && Identity(es[i].ind) == k;
        assert ws[i].0 == k;
      }
    }
  }

  lemma RecordLast(cache: Cache, es: seq<Entry>, i: nat)
    requires i < |es| && forall j :: i < j < |es| ==> Identity(es[j].ind) != Identity(es[i].ind)
    ensures Identity(es[i].ind) in Record(cache, es) && Record(cache, es)[Identity(es[i].ind)] == es[i]
  {
    var ws := EntryWrites(es);
    assert forall j :: i < j < |ws| ==> ws[j].0 != ws[i].0;
    StoreLast(ws, i);
  }

  lemma RecordWellKeyed(cache: Cache, es: seq<Entry>)
    requires WellKeyed(cache)
    ensures WellKeyed(Record(cache, es))
  {
    var ws := EntryWrites(es);
    forall k | k in Record(cache, es) ensures Identity(Record(cache, es)[k].ind) == k {
      if k in Store(ws) {
        StoreValueWritten(ws, k);
      }
    }
  }

  // ---------------------------------------------------------------------
  // Ranking and truncation

  /** `(key_seq, scored_seqs[key_seq]["score"])` for every design of the
      pool, in pool order; a design never recorded raises. */
  function Rank(pool: seq<Individual>, cache: Cache): Result<seq<Ranked>, StepError>
    decreases |pool|
  {
    if |pool| == 0 then Ok([])
    else
      var key := Identity(pool[0]);
      if key !in cache then Err(MissingKey(key))
      else
        var rest :- Rank(pool[1..], cache);
        Ok([Ranked(key, cache[key].score)] + rest)
  }

  /** The sort key `x[1][0]`: the total score. */
  function Total(r: Ranked): real {
    r.score.total
  }

  function Keys(rs: seq<Ranked>): (ks: seq<string>)
    ensures |ks| == |rs| && forall i :: 0 <= i < |rs| ==> ks[i] == rs[i].key
  {
    seq(|rs|, i requires 0 <= i < |rs| => rs[i].key)
  }

  /** `scored_seqs[key_seq]["dsobj"]` for every kept identity. */
  function Revive(keys: seq<string>, cache: Cache): Result<seq<Individual>, StepError>
    decreases |keys|
  {
    if |keys| == 0 then Ok([])
    else if keys[0] !in cache then Err(MissingKey(keys[0]))
    else
      var rest :- Revive(keys[1..], cache);
      Ok([cache[keys[0]].ind] + rest)
  }

  /** The ranking succeeds exactly when every design is recorded; it then
      has one line per design, in pool order, holding the recorded score. */
  lemma {:induction false} RankSpec(pool: seq<Individual>, cache: Cache)
    ensures Rank(pool, cache).Ok? <==> forall j :: 0 <= j < |pool| ==> Identity(pool[j]) in cache
    ensures Rank(pool, cache).Ok? ==> (|Rank(pool, cache).value| == |pool| &&
      forall j :: 0 <= j < |pool| ==>
        Rank(pool, cache).value[j] == Ranked(Identity(pool[j]), cache[Identity(pool[j])].score))
    decreases |pool|
  {
    if |pool| > 0 {
      RankSpec(pool[1..], cache);
      assert forall j :: 1 <= j < |pool| ==> pool[1..][j - 1] == pool[j];
    }
  }

  /** Reviving succeeds exactly when every key is recorded, and gives the
      recorded designs in key order. */
  lemma {:induction false} ReviveSpec(keys: seq<string>, cache: Cache)
    ensures Revive(keys, cache).Ok? <==> forall i :: 0 <= i < |keys| ==> keys[i] in cache
    ensures Revive(keys, cache).Ok? ==> (|Revive(keys, cache).value| == |keys| &&
      forall i :: 0 <= i < |keys| ==> Revive(keys, cache).value[i] == cache[keys[i]].ind)
    decreases |keys|
  {
    if |keys| > 0 {
      ReviveSpec(keys[1..], cache);
      assert forall i :: 1 <= i < |keys| ==> keys[1..][i - 1] == keys[i];
    }
  }

  /** `sorted_scored_pool[:round(len(sorted_scored_pool) / 2)]`. */
  function Survivors(sorted: seq<Ranked>): seq<Ranked> {
    sorted[..RoundHalf(|sorted|)]
  }

  /** The kept half is the better half: no kept design scores above a
      dropped one. */
  lemma SurvivorsBest(sorted: seq<Ranked>)
    requires Sorted(sorted, Total)
    ensures |Survivors(sorted)| == RoundHalf(|sorted|)
    ensures forall i, j :: 0 <= i < |Survivors(sorted)| <= j < |sorted| ==> Total(sorted[i]) <= Total(sorted[j])
    ensures forall i :: 0 <= i < |Survivors(sorted)| ==> Survivors(sorted)[i] == sorted[i]
  {
  }

  // ---------------------------------------------------------------------
  // One iteration and the run

  /** The second half of an iteration: write the round's records, rank the
      whole pool by total score (stably) and keep the better half. */
  function Conclude(st: State, pool: seq<Individual>, es: seq<Entry>, n: nat): Result<State, StepError> {
    var cache := Record(st.cache, es);
    var ranked :- Rank(pool, cache);
    var sorted := Sort(ranked, Total);
    var keys := Keys(Survivors(sorted));
    var next :- Revive(keys, cache);
    Ok(State(next, cache, st.history + [sorted], st.predictions + n, keys))
  }

  /** One iteration: refill, score the designs not cached yet, and
      conclude. */
  function Step(iter: Iter, st: State, cfg: Config, o: Oracles): Result<State, StepError>
  {
    var kind :- ChooseRefill(iter, cfg);
    var pool := o.refill(kind, st.pool, st.cache);
    var round :- ScoreRound(ScoringPool(pool, st.cache), cfg.stabilize, o.predict, o.score, o.rmsd);
    Conclude(st, pool, round.0, round.1)
  }

  /** The round's records are one per design of the scoring pool, in order. */
  predicate Covers(pool: seq<Individual>, cache: Cache, es: seq<Entry>) {
    var sp := ScoringPool(pool, cache);
    |es| == |sp| && forall j :: 0 <= j < |es| ==> es[j].ind == sp[j]
  }

  /** After the round's records are written, every design of the refilled
      pool is recorded: either it was cached before or it was just scored.
      No record from before the round is overwritten. */
  lemma RoundRecordsPool(pool: seq<Individual>, cache: Cache, es: seq<Entry>)
    requires Covers(pool, cache, es)
    ensures forall j :: 0 <= j < |pool| ==> Identity(pool[j]) in Record(cache, es)
    ensures forall k :: k in cache ==> k in Record(cache, es) && Record(cache, es)[k] == cache[k]
  {
    var sp := ScoringPool(pool, cache);
    ScoringPoolSpec(pool, cache);
    RecordKeys(cache, es);
    forall j | 0 <= j < |pool| ensures Identity(pool[j]) in Record(cache, es) {
      if Identity(pool[j]) !in cache {
        assert pool[j] in sp;
        var i :| 0 <= i < |sp| && sp[i] == pool[j];
        assert Identity(es[i].ind) == Identity(pool[j]);
      }
    }
    forall k | k in cache ensures Record(cache, es)[k] == cache[k] {
      forall i | 0 <= i < |es| ensures Identity(es[i].ind) != k {
        assert es[i].ind in sp;
      }
    }
  }

  /** Given records for exactly the designs not cached, concluding never
      looks up a design that was not recorded. */
  lemma ConcludeOk(st: State, pool: seq<Individual>, es: seq<Entry>, n: nat)
    requires Covers(pool, st.cache, es)
    ensures Conclude(st, pool, es, n).Ok?
  {
    var cache := Record(st.cache, es);
    RoundRecordsPool(pool, st.cache, es);
    RankSpec(pool, cache);
    var ranked := Rank(pool, cache).value;
    assert forall j :: 0 <= j < |ranked| ==> ranked[j].key in cache;
    var keys := Keys(Survivors(Sort(ranked, Total)));
    KeptRecorded(ranked, cache);
    ReviveSpec(keys, cache);
  }

  /** Every kept identity comes from the ranking, so it is recorded when
      every ranked identity is. */
  lemma KeptRecorded(ranked: seq<Ranked>, cache: Cache)
    requires forall j :: 0 <= j < |ranked| ==> ranked[j].key in cache
    ensures forall i :: 0 <= i < |Keys(Survivors(Sort(ranked, Total)))| ==>
      Keys(Survivors(Sort(ranked, Total)))[i] in cache
  {
    var sorted := Sort(ranked, Total);
    SortFacts(ranked, Total);
    var keys := Keys(Survivors(sorted));
    forall i | 0 <= i < |keys| ensures keys[i] in cache {
      assert sorted[i] in multiset(ranked);
      var j :| 0 <= j < |ranked| && ranked[j] == sorted[i];
    }
  }

  /** Concluding keeps every cached record as it was (nothing is scored
      twice), records every design of the pool, keeps the cache well keyed,
      and adds the round's predictions. */
  lemma ConcludeCache(st: State, pool: seq<Individual>, es: seq<Entry>, n: nat)
    requires Covers(pool, st.cache, es) && Conclude(st, pool, es, n).Ok?
    ensures var st' := Conclude(st, pool, es, n).value;
      (forall k :: k in st.cache ==> k in st'.cache && st'.cache[k] == st.cache[k]) &&
      (forall j :: 0 <= j < |pool| ==> Identity(pool[j]) in st'.cache) &&
      (WellKeyed(st.cache) ==> WellKeyed(st'.cache)) &&
      st'.predictions == st.predictions + n
  {
    var st' := Conclude(st, pool, es, n).value;
    assert st'.cache == Record(st.cache, es);
    RoundRecordsPool(pool, st.cache, es);
    if WellKeyed(st.cache) {
      RecordWellKeyed(st.cache, es);
    }
  }

  /** Concluding ranks every design of the pool: the ranking is the pool's
      scores sorted by total, a permutation of them, with designs of equal
      total in pool order, and it is appended to the history. The kept
      identities are the first round(n / 2) of the ranking, none scoring
      above a dropped design. */
  lemma ConcludeRanking(st: State, pool: seq<Individual>, es: seq<Entry>, n: nat)
    requires Conclude(st, pool, es, n).Ok?
    ensures var st' := Conclude(st, pool, es, n).value;
      var sorted := st'.history[|st.history|];
      Rank(pool, st'.cache).Ok? &&
      |st'.history| == |st.history| + 1 && st'.history[..|st.history|] == st.history &&
      sorted == Sort(Rank(pool, st'.cache).value, Total) &&
      |sorted| == |pool| &&
      Sorted(sorted, Total) &&
      multiset(sorted) == multiset(Rank(pool, st'.cache).value) &&
      (forall t :: WithKey(sorted, Total, t) == WithKey(Rank(pool, st'.cache).value, Total, t)) &&
      |st'.survivors| == RoundHalf(|pool|) &&
      (forall i :: 0 <= i < |st'.survivors| ==> st'.survivors[i] == sorted[i].key) &&
      (forall i, j :: 0 <= i < |st'.survivors| <= j < |sorted| ==> Total(sorted[i]) <= Total(sorted[j]))
  {
    var cache := Record(st.cache, es);
    RankSpec(pool, cache);
    var ranked := Rank(pool, cache).value;
    SortFacts(ranked, Total);
    SurvivorsBest(Sort(ranked, Total));
  }

  /** In a well-keyed cache, the next pool consists of the recorded
      designs whose identities were kept, in ranking order. */
  lemma ConcludeNextPool(st: State, pool: seq<Individual>, es: seq<Entry>, n: nat)
    requires Conclude(st, pool, es, n).Ok? && WellKeyed(Record(st.cache, es))
    ensures var st' := Conclude(st, pool, es, n).value;
      |st'.pool| == |st'.survivors| &&
      forall i :: 0 <= i < |st'.pool| ==> Identity(st'.pool[i]) == st'.survivors[i]
  {
    var st' := Conclude(st, pool, es, n).value;
    ReviveSpec(st'.survivors, st'.cache);
  }

  /** The refilled pool of an iteration. */
  function Refilled(iter: Iter, st: State, cfg: Config, o: Oracles): seq<Individual>
    requires ChooseRefill(iter, cfg).Ok?
  {
    o.refill(ChooseRefill(iter, cfg).value, st.pool, st.cache)
  }

  /** The round of an iteration over the designs not cached yet. */
  function RoundOf(iter: Iter, st: State, cfg: Config, o: Oracles): Result<(seq<Entry>, nat), StepError>
    requires ChooseRefill(iter, cfg).Ok?
  {
    ScoreRound(ScoringPool(Refilled(iter, st, cfg, o), st.cache), cfg.stabilize, o.predict, o.score, o.rmsd)
  }

  /** A successful iteration is a successful round over the designs not
      cached yet, one record per such design, m * (1 + k) predictions for m
      of them, then a successful conclusion. */
  lemma StepParts(iter: Iter, st: State, cfg: Config, o: Oracles)
    requires Step(iter, st, cfg, o).Ok?
    ensures ChooseRefill(iter, cfg).Ok? && RoundOf(iter, st, cfg, o).Ok?
    ensures var pool := Refilled(iter, st, cfg, o);
      var round := RoundOf(iter, st, cfg, o).value;
      Covers(pool, st.cache, round.0) &&
      round.1 == |ScoringPool(pool, st.cache)| * (1 + |cfg.stabilize|) &&
      Step(iter, st, cfg, o) == Conclude(st, pool, round.0, round.1)
  {
    var pool := Refilled(iter, st, cfg, o);
    ScoreRoundCovers(ScoringPool(pool, st.cache), cfg.stabilize, o.predict, o.score, o.rmsd);
  }

  /** An iteration never looks up a design that was not recorded and never
      trips the sequence integrity check: it fails only for a missing rate,
      a missing stabilised chain, an empty set of designs to split, or a
      score of the wrong shape. */
  lemma StepErrors(iter: Iter, st: State, cfg: Config, o: Oracles)
    requires Step(iter, st, cfg, o).Err?
    ensures var e := Step(iter, st, cfg, o).error;
      e.NoRate? || e.MissingChain? || e == ZeroStep || e == ShapeMismatch
    ensures Step(iter, st, cfg, o).error.NoRate? ==> ChooseRefill(iter, cfg).Err?
  {
    if ChooseRefill(iter, cfg).Ok? {
      var pool := Refilled(iter, st, cfg, o);
      var sp := ScoringPool(pool, st.cache);
      var round := RoundOf(iter, st, cfg, o);
      if round.Err? {
        ScoreRoundErrors(sp, cfg.stabilize, o.predict, o.score, o.rmsd);
      } else {
        ScoreRoundCovers(sp, cfg.stabilize, o.predict, o.score, o.rmsd);
        ConcludeOk(st, pool, round.value.0, round.value.1);
      }
    }
  }

  /** What a run needs of one iteration: one more ranking, sorted, after
      the old ones, every cached record kept, and the cache kept well
      keyed. */
  lemma StepHistory(iter: Iter, st: State, cfg: Config, o: Oracles)
    requires Step(iter, st, cfg, o).Ok?
    ensures var st' := Step(iter, st, cfg, o).value;
      |st'.history| == |st.history| + 1 && st'.history[..|st.history|] == st.history &&
      Sorted(st'.history[|st.history|], Total) &&
      (forall k :: k in st.cache ==> k in st'.cache && st'.cache[k] == st.cache[k]) &&
      (WellKeyed(st.cache) ==> WellKeyed(st'.cache))
  {
    StepParts(iter, st, cfg, o);
    var pool := Refilled(iter, st, cfg, o);
    var round := RoundOf(iter, st, cfg, o).value;
    ConcludeCache(st, pool, round.0, round.1);
    ConcludeRanking(st, pool, round.0, round.1);
  }

  /** The facts about one iteration a run builds on: a successful step
      appends one sorted ranking, keeps every cached record and keeps the
      cache well keyed; a failing step fails for a missing rate (only past
      iteration `rates`), a missing stabilised chain, an empty set of
      designs to split, or a score of the wrong shape. */
  ghost predicate GoodStep(step: (Iter, State) -> Result<State, StepError>, rates: nat) {
    forall i, s :: GoodOutcome(i, s, step(i, s), rates)
  }

  ghost predicate GoodOutcome(i: Iter, s: State, r: Result<State, StepError>, rates: nat) {
    if r.Ok? then
      |r.value.history| == |s.history| + 1 && r.value.history[..|s.history|] == s.history &&
      Sorted(r.value.history[|s.history|], Total) &&
      (forall k :: k in s.cache ==> k in r.value.cache && r.value.cache[k] == s.cache[k]) &&
      (WellKeyed(s.cache) ==> WellKeyed(r.value.cache))
    else
      (r.error.NoRate? || r.error.MissingChain? || r.error == ZeroStep || r.error == ShapeMismatch) &&
      (r.error.NoRate? ==> i > rates)
  }

  /** The iteration of the model is a good step. */
  lemma StepIsGood(cfg: Config, o: Oracles)
    ensures GoodStep((i: Iter, s: State) => Step(i, s, cfg, o), |cfg.mutRates|)
  {
    var step := (i: Iter, s: State) => Step(i, s, cfg, o);
    forall i, s ensures GoodOutcome(i, s, step(i, s), |cfg.mutRates|) {
      if Step(i, s, cfg, o).Ok? {
        StepHistory(i, s, cfg, o);
      } else {
        StepErrors(i, s, cfg, o);
      }
    }
  }

  /** `while curr_iter <= num_iter`: iterations iter to numIter of a step. */
  function Iterate(iter: Iter, numIter: nat, st: State, step: (Iter, State) -> Result<State, StepError>)
    : Result<State, StepError>
    decreases numIter + 1 - iter
  {
    if iter > numIter then Ok(st)
    else
      var next :- step(iter, st);
      Iterate(iter + 1, numIter, next, step)
  }

  /** The whole run from the starting designs and an empty cache. A run of
      zero iterations fails when the final survivors are read. */
  function Run(numIter: nat, start: seq<Individual>, cfg: Config, o: Oracles): Result<State, StepError> {
    if numIter == 0 then Err(NoIterations)
    else Iterate(1, numIter, State(start, map[], [], 0, []), (i: Iter, s: State) => Step(i, s, cfg, o))
  }

  /** Iterations iter..numIter of a good step each add one sorted ranking
      after the old ones, keep every cached record and keep the cache well
      keyed; a failure is one a single step can have, and a missing rate
      means fewer rates than iterations. */
  lemma {:induction false} IterateSpec(iter: Iter, numIter: nat, st: State,
                                       step: (Iter, State) -> Result<State, StepError>, rates: nat)
    requires GoodStep(step, rates)
    ensures Iterate(iter, numIter, st, step).Ok? ==>
      var fin := Iterate(iter, numIter, st, step).value;
      |fin.history| == |st.history| + (if iter <= numIter then numIter + 1 - iter else 0) &&
      fin.history[..|st.history|] == st.history &&
      (forall h :: |st.history| <= h < |fin.history| ==> Sorted(fin.history[h], Total)) &&
      (WellKeyed(st.cache) ==> WellKeyed(fin.cache)) &&
      forall k :: k in st.cache ==> k in fin.cache && fin.cache[k] == st.cache[k]
    ensures Iterate(iter, numIter, st, step).Err? ==>
      var e := Iterate(iter, numIter, st, step).error;
      (e.NoRate? || e.MissingChain? || e == ZeroStep || e == ShapeMismatch) &&
      (e.NoRate? ==> rates < numIter)
    decreases numIter + 1 - iter
  {
    if iter <= numIter {
      assert GoodOutcome(iter, st, step(iter, st), rates);
      if step(iter, st).Ok? {
        var next := step(iter, st).value;
        IterateSpec(iter + 1, numIter, next, step, rates);
        var fin := Iterate(iter + 1, numIter, next, step);
        if fin.Ok? {
          var h := fin.value.history;
          assert h[..|st.history|] == h[..|next.history|][..|st.history|];
          assert h[|st.history|] == next.history[|st.history|];
        }
      }
    }
  }

  /** A successful run of numIter iterations ranks numIter pools, each one
      sorted by total score, and leaves a well-keyed cache. A run fails only
      for zero iterations, a missing rate (never with rates from the
      schedule builder), a missing stabilised chain, an empty set of designs
      to split, or a score of the wrong shape: never on a lookup of a design
      that was not recorded and never on the sequence integrity check. */
  lemma RunSpec(numIter: nat, start: seq<Individual>, cfg: Config, o: Oracles)
    ensures Run(numIter, start, cfg, o).Ok? ==>
      var fin := Run(numIter, start, cfg, o).value;
      |fin.history| == numIter && WellKeyed(fin.cache) &&
      forall h :: 0 <= h < numIter ==> Sorted(fin.history[h], Total)
    ensures Run(numIter, start, cfg, o).Err? ==>
      var e := Run(numIter, start, cfg, o).error;
      (e == NoIterations <==> numIter == 0) &&
      (e == NoIterations || e.NoRate? || e.MissingChain? || e == ZeroStep || e == ShapeMismatch) &&
      (e.NoRate? ==> |cfg.mutRates| < numIter)
  {
    if numIter > 0 {
      StepIsGood(cfg, o);
      IterateSpec(1, numIter, State(start, map[], [], 0, []), (i: Iter, s: State) => Step(i, s, cfg, o), |cfg.mutRates|);
    }
  }

  /** With rates from the schedule builder a run never fails for want of a
      rate. */
  lemma RunScheduleCovers(numIter: nat, given: Option<seq<real>>, start: seq<Individual>, cfg: Config, o: Oracles)
    requires given.None? || |given.value| > 0
    requires cfg.mutRates == MutationSchedule(numIter, given)
    ensures Run(numIter, start, cfg, o).Err? ==> !Run(numIter, start, cfg, o).error.NoRate?
  {
    MutationScheduleSpec(numIter, given);
    RunSpec(numIter, start, cfg, o);
  }
}
