/** One iteration's scoring round trip: the work list sent to the structure
    predictor (fan-out), the split of the ordered results back to the designs
    (fan-in), and the combination of a design's scores into the recorded
    score. */
module Scoring {
  import opened Results
  import opened PyList
  import opened PyText
  import opened Population

  // ---------------------------------------------------------------------
  // Fan-out

  /** The unit that folds all chains of a design together. */
  function ComplexUnit(ind: Individual): WorkUnit {
    WorkUnit(Sequences(ind))
  }

  /** The unit that folds one named chain of a design alone. */
  function MonomerUnit(ind: Individual, chain: string): Result<WorkUnit, StepError> {
    var r := ChainResidues(ind, chain);
    if r.None? then Err(MissingChain(chain)) else Ok(WorkUnit([r.value]))
  }

  /** The single-chain units of one chain, one per design in pool order. */
  function MonomerUnits(pool: seq<Individual>, chain: string): (r: Result<seq<WorkUnit>, StepError>)
    ensures r.Ok? ==> |r.value| == |pool|
    decreases |pool|
  {
    if |pool| == 0 then Ok([])
    else
      var u :- MonomerUnit(pool[0], chain);
      var rest :- MonomerUnits(pool[1..], chain);
      Ok([u] + rest)
  }

  /** The single-chain blocks, one per stabilised chain in order. */
  function MonomerBlocks(pool: seq<Individual>, chains: seq<string>): (r: Result<seq<seq<WorkUnit>>, StepError>)
    ensures r.Ok? ==> |r.value| == |chains| && forall c :: 0 <= c < |chains| ==> |r.value[c]| == |pool|
    decreases |chains|
  {
    if |chains| == 0 then Ok([])
    else
      var b :- MonomerUnits(pool, chains[0]);
      var rest :- MonomerBlocks(pool, chains[1..]);
      Ok([b] + rest)
  }

  /** The complex units of a pool, in pool order. */
  function ComplexUnits(pool: seq<Individual>): (r: seq<WorkUnit>)
    ensures |r| == |pool| && forall j :: 0 <= j < |pool| ==> r[j] == ComplexUnit(pool[j])
  {
    seq(|pool|, j requires 0 <= j < |pool| => ComplexUnit(pool[j]))
  }

  /** `work_list_all`: one complex unit per design, then, when stabilising,
      the single-chain units grouped by chain. */
  function FanOut(pool: seq<Individual>, stabilize: seq<string>): Result<seq<WorkUnit>, StepError> {
    var complex := ComplexUnits(pool);
    if |stabilize| == 0 then Ok(complex)
    else
      var blocks :- MonomerBlocks(pool, stabilize);
      Ok(complex + Flatten(blocks))
  }

  /** `scoring_dsobjs`: the design each unit belongs to, the pool once per
      list of units. */
  function Owners(pool: seq<Individual>, stabilize: seq<string>): seq<Individual> {
    Flatten(Repeat(pool, 1 + |stabilize|))
  }

  /** Design j and chain c of a pool for which every stabilised chain exists. */
  predicate HasChains(pool: seq<Individual>, stabilize: seq<string>) {
    forall j, c :: 0 <= j < |pool| && 0 <= c < |stabilize| ==> ChainResidues(pool[j], stabilize[c]).Some?
  }

  lemma {:induction false} MonomerUnitsSpec(pool: seq<Individual>, chain: string)
    ensures MonomerUnits(pool, chain).Ok? <==> forall j :: 0 <= j < |pool| ==> ChainResidues(pool[j], chain).Some?
    ensures MonomerUnits(pool, chain).Ok? ==> forall j :: 0 <= j < |pool| ==>
      MonomerUnits(pool, chain).value[j] == WorkUnit([ChainResidues(pool[j], chain).value])
    ensures MonomerUnits(pool, chain).Err? ==> MonomerUnits(pool, chain).error == MissingChain(chain)
    decreases |pool|
  {
    if |pool| > 0 {
      MonomerUnitsSpec(pool[1..], chain);
      assert forall j :: 1 <= j < |pool| ==> pool[1..][j - 1] == pool[j];
    }
  }

  lemma {:induction false} MonomerBlocksSpec(pool: seq<Individual>, chains: seq<string>)
    ensures MonomerBlocks(pool, chains).Ok? <==> HasChains(pool, chains)
    ensures MonomerBlocks(pool, chains).Ok? ==> forall c, j :: 0 <= c < |chains| && 0 <= j < |pool| ==>
      MonomerBlocks(pool, chains).value[c][j] == WorkUnit([ChainResidues(pool[j], chains[c]).value])
    ensures MonomerBlocks(pool, chains).Err? ==> MonomerBlocks(pool, chains).error.MissingChain?
    decreases |chains|
  {
    if |chains| > 0 {
      MonomerUnitsSpec(pool, chains[0]);
      MonomerBlocksSpec(pool, chains[1..]);
      assert forall c :: 1 <= c < |chains| ==> chains[1..][c - 1] == chains[c];
    }
  }

  /** The work list succeeds exactly when every design has every stabilised
      chain. */
  lemma FanOutOk(pool: seq<Individual>, stabilize: seq<string>)
    ensures FanOut(pool, stabilize).Ok? <==> HasChains(pool, stabilize)
  {
    if |stabilize| > 0 {
      MonomerBlocksSpec(pool, stabilize);
    }
  }

  /** A work list holds m * (1 + k) units for m designs and k stabilised
      chains: the complex units first, then one block of m per chain. */
  lemma FanOutShape(pool: seq<Individual>, stabilize: seq<string>)
    requires FanOut(pool, stabilize).Ok?
    ensures |FanOut(pool, stabilize).value| == |pool| * (1 + |stabilize|)
    ensures forall j :: 0 <= j < |pool| ==> FanOut(pool, stabilize).value[j] == ComplexUnit(pool[j])
  {
    var m := |pool|;
    var k := |stabilize|;
    if k > 0 {
      var blocks := MonomerBlocks(pool, stabilize).value;
      FlattenLength(blocks, m);
      assert |Flatten(blocks)| == k * m;
      assert m + k * m == m * (1 + k);
    }
  }

  /** Unit (1 + c) * m + j is design j's single-chain unit for stabilised
      chain c. */
  lemma FanOutMonomer(pool: seq<Individual>, stabilize: seq<string>, c: nat, j: nat)
    requires FanOut(pool, stabilize).Ok?
    requires c < |stabilize| && j < |pool|
    ensures (1 + c) * |pool| + j < |FanOut(pool, stabilize).value|
    ensures ChainResidues(pool[j], stabilize[c]).Some?
    ensures FanOut(pool, stabilize).value[(1 + c) * |pool| + j] == WorkUnit([ChainResidues(pool[j], stabilize[c]).value])
  {
    var m := |pool|;
    var k := |stabilize|;
    MonomerBlocksSpec(pool, stabilize);
    var blocks := MonomerBlocks(pool, stabilize).value;
    FlattenAt(blocks, m, c, j);
    var units := ComplexUnits(pool) + Flatten(blocks);
    assert FanOut(pool, stabilize).value == units;
    var i := c * m + j;
    assert units[m + i] == Flatten(blocks)[i];
    assert (1 + c) * m + j == m + i;
  }

  /** There is one owner per unit of the work list. */
  lemma OwnersLength(pool: seq<Individual>, stabilize: seq<string>)
    ensures |Owners(pool, stabilize)| == (1 + |stabilize|) * |pool|
  {
    FlattenLength(Repeat(pool, 1 + |stabilize|), |pool|);
  }

  /** Unit (1 + c) * m + j, like unit j, belongs to design j. */
  lemma OwnersAt(pool: seq<Individual>, stabilize: seq<string>, c: nat, j: nat)
    requires c <= |stabilize| && j < |pool|
    ensures |Owners(pool, stabilize)| == (1 + |stabilize|) * |pool|
    ensures c * |pool| + j < |Owners(pool, stabilize)| && Owners(pool, stabilize)[c * |pool| + j] == pool[j]
  {
    var m := |pool|;
    FlattenLength(Repeat(pool, 1 + |stabilize|), m);
    FlattenAt(Repeat(pool, 1 + |stabilize|), m, c, j);
  }

  // ---------------------------------------------------------------------
  // Prediction and scoring of the work list

  /** `dist.churn(work_list)`: the predictor's results, one per unit, in
      unit order. */
  function Churn(units: seq<WorkUnit>, predict: WorkUnit -> Prediction): (r: seq<Prediction>)
    ensures |r| == |units| && forall i :: 0 <= i < |units| ==> r[i] == predict(units[i])
  {
    seq(|units|, i requires 0 <= i < |units| => predict(units[i]))
  }

  /** `[score_func(result[0], dsobj) for ... in zip(...)]`, as long as the
      shorter list. */
  function ScoreAll(results: seq<Prediction>, owners: seq<Individual>, score: (Prediction, Individual) -> ScoreOut)
    : (r: seq<ScoreOut>)
    ensures |r| == if |results| <= |owners| then |results| else |owners|
    ensures forall i :: 0 <= i < |r| ==> r[i] == score(results[i], owners[i])
  {
    var n := if |results| <= |owners| then |results| else |owners|;
    seq(n, i requires 0 <= i < n => score(results[i], owners[i]))
  }

  // ---------------------------------------------------------------------
  // Fan-in

  /** The split of an ordered result list of m designs: the first m results
      are the complex results; when stabilising the remaining ones are cut
      into blocks of m with `range(0, len, m)` and transposed with `zip`, so
      that each design gets a list of its single-chain results. A zero step
      raises. */
  function FanIn<T>(all: seq<T>, m: nat, stabilized: bool): Result<(seq<T>, seq<seq<T>>), StepError> {
    if !stabilized then Ok((all, []))
    else if m == 0 then Err(ZeroStep)
    else
      var cut := if m <= |all| then m else |all|;
      Ok((all[..cut], Zip(Chunks(all[cut..], m))))
  }

  /** On a list of m * (1 + k) results, m and k positive, the split
      succeeds and gives each of the m designs one complex result and k
      single-chain results. */
  lemma FanInShape<T>(all: seq<T>, m: nat, k: nat)
    requires m > 0 && k > 0 && |all| == m * (1 + k)
    ensures FanIn(all, m, true).Ok?
    ensures |FanIn(all, m, true).value.0| == m && |FanIn(all, m, true).value.1| == m
    ensures forall j :: 0 <= j < m ==> FanIn(all, m, true).value.0[j] == all[j]
    ensures forall j :: 0 <= j < m ==> |FanIn(all, m, true).value.1[j]| == k
  {
    assert m * (1 + k) == m + k * m;
    var rest := all[m..];
    ChunksLength(rest, m, k);
    ZipRectangular(Chunks(rest, m), m);
  }

  /** Design j's single-chain result for stabilised chain c is result
      (1 + c) * m + j. */
  lemma FanInAt<T>(all: seq<T>, m: nat, k: nat, j: nat, c: nat)
    requires m > 0 && k > 0 && |all| == m * (1 + k)
    requires j < m && c < k
    ensures FanIn(all, m, true).Ok?
    ensures var singles := FanIn(all, m, true).value.1;
      (1 + c) * m + j < |all| && j < |singles| && c < |singles[j]| && singles[j][c] == all[(1 + c) * m + j]
  {
    LayoutArith(m, k, c, j);
    var rest := all[m..];
    FanInSplit(all, m);
    ZipChunksAt(rest, m, k, c, j);
    assert rest[c * m + j] == all[m + (c * m + j)];
  }

  /** With m <= |all|, the split is the first m results and the transposed
      blocks of the rest. */
  lemma FanInSplit<T>(all: seq<T>, m: nat)
    requires 0 < m <= |all|
    ensures FanIn(all, m, true) == Ok((all[..m], Zip(Chunks(all[m..], m))))
  {
  }

  /** The arithmetic of the m * (1 + k) layout. */
  lemma LayoutArith(m: nat, k: nat, c: nat, j: nat)
    requires c < k && j < m
    ensures m * (1 + k) == m + k * m
    ensures (1 + c) * m + j == m + (c * m + j)
  {
  }

  // ---------------------------------------------------------------------
  // Score combination

  /** `sum([b[0] for b in bscores])`. */
  function Primaries(bs: seq<ScoreOut>): (r: seq<real>)
    ensures |r| == |bs| && forall i :: 0 <= i < |bs| ==> r[i] == bs[i].t.primary
  {
    seq(|bs|, i requires 0 <= i < |bs| => bs[i].t.primary)
  }

  function Details(bs: seq<ScoreOut>): (r: seq<seq<real>>)
    ensures |r| == |bs| && forall i :: 0 <= i < |bs| ==> r[i] == bs[i].t.detail
  {
    seq(|bs|, i requires 0 <= i < |bs| => bs[i].t.detail)
  }

  function StructuresOf(bs: seq<ScoreOut>): (r: seq<string>)
    ensures |r| == |bs| && forall i :: 0 <= i < |bs| ==> r[i] == bs[i].t.structure
  {
    seq(|bs|, i requires 0 <= i < |bs| => bs[i].t.structure)
  }

  /** The structure-deviation terms, one per single-chain result, when a
      deviation function is configured; none otherwise. */
  function RmsdTerms(c: ScoreTuple, bs: seq<ScoreOut>, ind: Individual, rmsd: Option<(string, string, Individual) -> real>)
    : (r: seq<real>)
    ensures rmsd.None? ==> r == []
    ensures rmsd.Some? ==> |r| == |bs| && forall i :: 0 <= i < |bs| ==> r[i] == rmsd.value(c.structure, bs[i].t.structure, ind)
  {
    if rmsd.None? then []
    else seq(|bs|, i requires 0 <= i < |bs| => rmsd.value(c.structure, bs[i].t.structure, ind))
  }

  predicate AllFlat(bs: seq<ScoreOut>) {
    forall i :: 0 <= i < |bs| ==> bs[i].Flat?
  }

  /** The record of a design when stabilising: the complex unit must spell
      the design's identity, every score must be a flat tuple, and the total
      is the complex score plus the single-chain scores plus the deviation
      terms. */
  function CombineStabilized(ind: Individual, unit: WorkUnit, c: ScoreOut, bs: seq<ScoreOut>,
                             rmsd: Option<(string, string, Individual) -> real>): Result<Entry, StepError>
  {
    var key := Identity(ind);
    if key != Join(unit.seqs, ',') then Err(SequenceMismatch(key))
    else if !c.Flat? || !AllFlat(bs) then Err(ShapeMismatch)
    else
      var terms := RmsdTerms(c.t, bs, ind, rmsd);
      var rmsdTotal := Sum(terms);
      var mono := Sum(Primaries(bs));
      Ok(Entry(ind,
               Stabilized(c.t.primary + mono + rmsdTotal, c.t.detail, mono, Details(bs), rmsdTotal, terms),
               Structures(c.t.structure, Some(StructuresOf(bs)))))
  }

  /** The record of a design without stabilisation: the score is read from
      the nested tuple. */
  function CombinePlain(ind: Individual, c: ScoreOut): Result<Entry, StepError> {
    if !c.Nested? then Err(ShapeMismatch)
    else Ok(Entry(ind, Plain(c.t.primary, c.t.detail), Structures(c.t.structure, None)))
  }

  /** The integrity check cannot fail on a design's own complex unit; this
      holds by unfolding the two definitions. That the split hands each
      design its own complex unit is StabilizedSplit. */
  lemma ComplexUnitIdentity(ind: Individual)
    ensures Join(ComplexUnit(ind).seqs, ',') == Identity(ind)
  {
  }

  /** A stabilised record exists exactly when the unit matches and all
      scores are flat; its total is the complex score plus the sum of the
      single-chain primary scores plus the sum of the deviation terms (zero
      without a deviation function), and it keeps one breakdown and one
      structure per single-chain score. */
  lemma CombineStabilizedSpec(ind: Individual, unit: WorkUnit, c: ScoreOut, bs: seq<ScoreOut>,
                              rmsd: Option<(string, string, Individual) -> real>)
    ensures CombineStabilized(ind, unit, c, bs, rmsd).Ok? <==>
      Join(unit.seqs, ',') == Identity(ind) && c.Flat? && AllFlat(bs)
    ensures CombineStabilized(ind, unit, c, bs, rmsd).Ok? ==>
      var e := CombineStabilized(ind, unit, c, bs, rmsd).value;
      e.ind == ind && e.score.Stabilized? &&
      e.score.total == c.t.primary + e.score.monomerTotal + e.score.rmsdTotal &&
      e.score.monomerTotal == Sum(Primaries(bs)) &&
      (rmsd.None? ==> e.score.rmsdTotal == 0.0 && e.score.rmsdTerms == []) &&
      (rmsd.Some? ==> |e.score.rmsdTerms| == |bs| && e.score.rmsdTotal == Sum(e.score.rmsdTerms)) &&
      |e.score.monomerDetails| == |bs| && e.pdb.monomers.Some? && |e.pdb.monomers.value| == |bs|
  {
  }

  /** The worked case: a complex score of 10, single-chain scores 2 and 3,
      and deviations 1 and 1 give a total of 17. */
  lemma CombineExample(ind: Individual, rmsd: (string, string, Individual) -> real)
    requires forall a, b :: rmsd(a, b, ind) == 1.0
    ensures var c := Flat(ScoreTuple(10.0, [], "complex"));
      var bs := [Flat(ScoreTuple(2.0, [], "b1")), Flat(ScoreTuple(3.0, [], "b2"))];
      CombineStabilized(ind, ComplexUnit(ind), c, bs, Some(rmsd)).Ok? &&
      CombineStabilized(ind, ComplexUnit(ind), c, bs, Some(rmsd)).value.score.total == 17.0
  {
    var c := Flat(ScoreTuple(10.0, [], "complex"));
    var bs := [Flat(ScoreTuple(2.0, [], "b1")), Flat(ScoreTuple(3.0, [], "b2"))];
    var p := Primaries(bs);
    assert p[..1][..0] == [];
    assert Sum(p[..1]) == 2.0;
    assert Sum(p) == 5.0;
    var t := RmsdTerms(c.t, bs, ind, Some(rmsd));
    assert t[..1][..0] == [];
    assert Sum(t[..1]) == 1.0;
    assert Sum(t) == 2.0;
  }

  // ---------------------------------------------------------------------
  // The whole round

  /** The records of the designs when stabilising, walking the designs,
      their complex units, complex scores and single-chain score lists
      together as `zip` does (up to the shortest). The first bad design
      raises. */
  function CombineAllStabilized(sp: seq<Individual>, cu: seq<WorkUnit>, cs: seq<ScoreOut>, bs: seq<seq<ScoreOut>>,
                                rmsd: Option<(string, string, Individual) -> real>): Result<seq<Entry>, StepError>
    decreases |sp|
  {
    if |sp| == 0 || |cu| == 0 || |cs| == 0 || |bs| == 0 then Ok([])
    else
      var e :- CombineStabilized(sp[0], cu[0], cs[0], bs[0], rmsd);
      var rest :- CombineAllStabilized(sp[1..], cu[1..], cs[1..], bs[1..], rmsd);
      Ok([e] + rest)
  }

  /** The records of the designs without stabilisation. */
  function CombineAllPlain(sp: seq<Individual>, cs: seq<ScoreOut>): Result<seq<Entry>, StepError>
    decreases |sp|
  {
    if |sp| == 0 || |cs| == 0 then Ok([])
    else
      var e :- CombinePlain(sp[0], cs[0]);
      var rest :- CombineAllPlain(sp[1..], cs[1..]);
      Ok([e] + rest)
  }

  /** One scoring round over the designs not yet scored: build the work
      list, run the predictor, score every result against its design, split
      the results back and combine them. Yields the new records and the
      number of predictions made. */
  function ScoreRound(sp: seq<Individual>, stabilize: seq<string>, predict: WorkUnit -> Prediction,
                      score: (Prediction, Individual) -> ScoreOut, rmsd: Option<(string, string, Individual) -> real>)
    : Result<(seq<Entry>, nat), StepError>
  {
    var units :- FanOut(sp, stabilize);
    var scores := ScoreAll(Churn(units, predict), Owners(sp, stabilize), score);
    var stab := |stabilize| > 0;
    var splitUnits :- FanIn(units, |sp|, stab);
    var splitScores :- FanIn(scores, |sp|, stab);
    var entries :- if stab then CombineAllStabilized(sp, splitUnits.0, splitScores.0, splitScores.1, rmsd)
                   else CombineAllPlain(sp, splitScores.0);
    Ok((entries, |units|))
  }

  /** With lists of one length, the records are one per design, in order;
      when every unit matches its design, the only failure is a score of the
      wrong shape. */
  lemma CombineAllStabilizedSpec(sp: seq<Individual>, cu: seq<WorkUnit>, cs: seq<ScoreOut>,
                                 bs: seq<seq<ScoreOut>>, rmsd: Option<(string, string, Individual) -> real>)
    requires |cu| == |sp| && |cs| == |sp| && |bs| == |sp|
    ensures CombineAllStabilized(sp, cu, cs, bs, rmsd).Ok? <==>
      forall j :: 0 <= j < |sp| ==> CombineStabilized(sp[j], cu[j], cs[j], bs[j], rmsd).Ok?
    ensures CombineAllStabilized(sp, cu, cs, bs, rmsd).Ok? ==>
      |CombineAllStabilized(sp, cu, cs, bs, rmsd).value| == |sp| &&
      forall j :: 0 <= j < |sp| ==>
        CombineAllStabilized(sp, cu, cs, bs, rmsd).value[j] == CombineStabilized(sp[j], cu[j], cs[j], bs[j], rmsd).value
  {
    CombineAllStabilizedOk(sp, cu, cs, bs, rmsd);
    if CombineAllStabilized(sp, cu, cs, bs, rmsd).Ok? {
      CombineAllStabilizedValue(sp, cu, cs, bs, rmsd);
    }
  }

  lemma {:induction false} CombineAllStabilizedOk(sp: seq<Individual>, cu: seq<WorkUnit>, cs: seq<ScoreOut>,
                                                  bs: seq<seq<ScoreOut>>, rmsd: Option<(string, string, Individual) -> real>)
    requires |cu| == |sp| && |cs| == |sp| && |bs| == |sp|
    ensures CombineAllStabilized(sp, cu, cs, bs, rmsd).Ok? <==>
      forall j :: 0 <= j < |sp| ==> CombineStabilized(sp[j], cu[j], cs[j], bs[j], rmsd).Ok?
    decreases |sp|
  {
    if |sp| > 0 {
      var tail := CombineAllStabilized(sp[1..], cu[1..], cs[1..], bs[1..], rmsd);
      var head := CombineStabilized(sp[0], cu[0], cs[0], bs[0], rmsd);
      CombineAllStabilizedOk(sp[1..], cu[1..], cs[1..], bs[1..], rmsd);
      CombineAllStabilizedCons(sp, cu, cs, bs, rmsd);
      forall j | 1 <= j < |sp|
        ensures CombineStabilized(sp[j], cu[j], cs[j], bs[j], rmsd) ==
          CombineStabilized(sp[1..][j - 1], cu[1..][j - 1], cs[1..][j - 1], bs[1..][j - 1], rmsd)
      {
      }
    }
  }

  /** The records of a non-empty list: the first design's record, then the
      records of the rest; the first failure is the result. */
  lemma CombineAllStabilizedCons(sp: seq<Individual>, cu: seq<WorkUnit>, cs: seq<ScoreOut>,
                                 bs: seq<seq<ScoreOut>>, rmsd: Option<(string, string, Individual) -> real>)
    requires |sp| > 0 && |cu| == |sp| && |cs| == |sp| && |bs| == |sp|
    ensures var r := CombineAllStabilized(sp, cu, cs, bs, rmsd);
      var head := CombineStabilized(sp[0], cu[0], cs[0], bs[0], rmsd);
      var tail := CombineAllStabilized(sp[1..], cu[1..], cs[1..], bs[1..], rmsd);
      (r.Ok? <==> head.Ok? && tail.Ok?) && (r.Ok? ==> r.value == [head.value] + tail.value)
  {
  }

  lemma {:induction false} CombineAllStabilizedValue(sp: seq<Individual>, cu: seq<WorkUnit>, cs: seq<ScoreOut>,
                                                     bs: seq<seq<ScoreOut>>, rmsd: Option<(string, string, Individual) -> real>)
    requires |cu| == |sp| && |cs| == |sp| && |bs| == |sp|
    requires CombineAllStabilized(sp, cu, cs, bs, rmsd).Ok?
    ensures |CombineAllStabilized(sp, cu, cs, bs, rmsd).value| == |sp|
    ensures forall j :: 0 <= j < |sp| ==>
      CombineStabilized(sp[j], cu[j], cs[j], bs[j], rmsd).Ok? &&
      CombineAllStabilized(sp, cu, cs, bs, rmsd).value[j] == CombineStabilized(sp[j], cu[j], cs[j], bs[j], rmsd).value
    decreases |sp|
  {
    if |sp| > 0 {
      var r := CombineAllStabilized(sp, cu, cs, bs, rmsd).value;
      var tail := CombineAllStabilized(sp[1..], cu[1..], cs[1..], bs[1..], rmsd);
      var head := CombineStabilized(sp[0], cu[0], cs[0], bs[0], rmsd);
      CombineAllStabilizedCons(sp, cu, cs, bs, rmsd);
      CombineAllStabilizedValue(sp[1..], cu[1..], cs[1..], bs[1..], rmsd);
      forall j | 1 <= j < |sp|
        ensures CombineStabilized(sp[j], cu[j], cs[j], bs[j], rmsd).Ok? &&
          r[j] == CombineStabilized(sp[j], cu[j], cs[j], bs[j], rmsd).value
      {
        assert sp[1..][j - 1] == sp[j] && cu[1..][j - 1] == cu[j] && cs[1..][j - 1] == cs[j] && bs[1..][j - 1] == bs[j];
        assert r[j] == tail.value[j - 1];
      }
    }
  }

  /** When every unit spells its design, the only failure is a score of the
      wrong shape: the integrity check never fires. */
  lemma {:induction false} CombineAllStabilizedShape(sp: seq<Individual>, cu: seq<WorkUnit>, cs: seq<ScoreOut>,
                                                     bs: seq<seq<ScoreOut>>, rmsd: Option<(string, string, Individual) -> real>)
    requires |cu| == |sp|
    requires forall j :: 0 <= j < |sp| ==> Join(cu[j].seqs, ',') == Identity(sp[j])
    ensures CombineAllStabilized(sp, cu, cs, bs, rmsd).Err? ==> CombineAllStabilized(sp, cu, cs, bs, rmsd).error == ShapeMismatch
    decreases |sp|
  {
    if |sp| > 0 && |cs| > 0 && |bs| > 0 {
      CombineAllStabilizedShape(sp[1..], cu[1..], cs[1..], bs[1..], rmsd);
      assert forall j :: 1 <= j < |sp| ==> sp[1..][j - 1] == sp[j] && cu[1..][j - 1] == cu[j];
    }
  }

  /** The same for the records without stabilisation. */
  lemma {:induction false} CombineAllPlainSpec(sp: seq<Individual>, cs: seq<ScoreOut>)
    requires |cs| == |sp|
    ensures CombineAllPlain(sp, cs).Ok? <==> forall j :: 0 <= j < |sp| ==> cs[j].Nested?
    ensures CombineAllPlain(sp, cs).Ok? ==>
      |CombineAllPlain(sp, cs).value| == |sp| &&
      forall j :: 0 <= j < |sp| ==> CombineAllPlain(sp, cs).value[j] == CombinePlain(sp[j], cs[j]).value
    ensures CombineAllPlain(sp, cs).Err? ==> CombineAllPlain(sp, cs).error == ShapeMismatch
    decreases |sp|
  {
    if |sp| > 0 {
      CombineAllPlainSpec(sp[1..], cs[1..]);
      assert forall j :: 1 <= j < |sp| ==> sp[1..][j - 1] == sp[j] && cs[1..][j - 1] == cs[j];
    }
  }

  /** The scoring function returns the shape the round expects: a flat
      tuple when stabilising, a nested one otherwise. */
  ghost predicate ShapesRight(score: (Prediction, Individual) -> ScoreOut, stab: bool) {
    forall p, ind :: if stab then score(p, ind).Flat? else score(p, ind).Nested?
  }

  /** The split of a stabilised round: the complex units are the designs'
      own, and there are as many complex scores and single-chain score
      lists as designs. */
  lemma StabilizedSplit(sp: seq<Individual>, stabilize: seq<string>, predict: WorkUnit -> Prediction,
                        score: (Prediction, Individual) -> ScoreOut)
    requires FanOut(sp, stabilize).Ok? && |sp| > 0 && |stabilize| > 0
    ensures var units := FanOut(sp, stabilize).value;
      var scores := ScoreAll(Churn(units, predict), Owners(sp, stabilize), score);
      |units| == |sp| * (1 + |stabilize|) && |scores| == |units| &&
      FanIn(units, |sp|, true).Ok? && FanIn(scores, |sp|, true).Ok? &&
      |FanIn(units, |sp|, true).value.0| == |sp| &&
      |FanIn(scores, |sp|, true).value.0| == |sp| && |FanIn(scores, |sp|, true).value.1| == |sp| &&
      (forall j :: 0 <= j < |sp| ==> FanIn(units, |sp|, true).value.0[j] == ComplexUnit(sp[j])) &&
      (forall j :: 0 <= j < |sp| ==> FanIn(scores, |sp|, true).value.0[j] == scores[j])
  {
    var m := |sp|;
    var k := |stabilize|;
    var units := FanOut(sp, stabilize).value;
    FanOutShape(sp, stabilize);
    OwnersLength(sp, stabilize);
    assert (1 + k) * m == m * (1 + k);
    var scores := ScoreAll(Churn(units, predict), Owners(sp, stabilize), score);
    FanInShape(units, m, k);
    FanInShape(scores, m, k);
  }

  /** Design j's single-chain scores in stabilised-chain order: the score,
      against design j, of the prediction for each of its stabilised chains
      folded alone. */
  function MonoScores(ind: Individual, stabilize: seq<string>, predict: WorkUnit -> Prediction,
                      score: (Prediction, Individual) -> ScoreOut): (bs: seq<ScoreOut>)
    requires forall c :: 0 <= c < |stabilize| ==> ChainResidues(ind, stabilize[c]).Some?
    ensures |bs| == |stabilize|
  {
    seq(|stabilize|, c requires 0 <= c < |stabilize| => score(predict(MonomerUnit(ind, stabilize[c]).value), ind))
  }

  /** Score j of the scored work list is design j's complex unit's
      prediction scored against design j. */
  lemma ComplexScoreAt(sp: seq<Individual>, stabilize: seq<string>, predict: WorkUnit -> Prediction,
                       score: (Prediction, Individual) -> ScoreOut, j: nat)
    requires FanOut(sp, stabilize).Ok? && j < |sp|
    ensures var scores := ScoreAll(Churn(FanOut(sp, stabilize).value, predict), Owners(sp, stabilize), score);
      j < |scores| && scores[j] == score(predict(ComplexUnit(sp[j])), sp[j])
  {
    FanOutShape(sp, stabilize);
    OwnersAt(sp, stabilize, 0, j);
    assert (1 + |stabilize|) * |sp| == |sp| * (1 + |stabilize|);
  }

  /** Score (1 + c) * m + j of the scored work list is the prediction for
      design j's stabilised chain c folded alone, scored against design j. */
  lemma MonomerScoreAt(sp: seq<Individual>, stabilize: seq<string>, predict: WorkUnit -> Prediction,
                       score: (Prediction, Individual) -> ScoreOut, c: nat, j: nat)
    requires FanOut(sp, stabilize).Ok? && c < |stabilize| && j < |sp|
    ensures var scores := ScoreAll(Churn(FanOut(sp, stabilize).value, predict), Owners(sp, stabilize), score);
      ChainResidues(sp[j], stabilize[c]).Some? &&
      (1 + c) * |sp| + j < |scores| &&
      scores[(1 + c) * |sp| + j] == score(predict(MonomerUnit(sp[j], stabilize[c]).value), sp[j])
  {
    FanOutShape(sp, stabilize);
    FanOutMonomer(sp, stabilize, c, j);
    OwnersAt(sp, stabilize, 1 + c, j);
    assert (1 + |stabilize|) * |sp| == |sp| * (1 + |stabilize|);
  }

  /** After the split of a stabilised round, design j's complex score is
      its complex unit's score and its single-chain scores are those of its
      stabilised chains, in chain order. */
  lemma SplitScoresAt(sp: seq<Individual>, stabilize: seq<string>, predict: WorkUnit -> Prediction,
                      score: (Prediction, Individual) -> ScoreOut, j: nat)
    requires FanOut(sp, stabilize).Ok? && |stabilize| > 0 && j < |sp|
    ensures HasChains(sp, stabilize)
    ensures var ss := FanIn(ScoreAll(Churn(FanOut(sp, stabilize).value, predict), Owners(sp, stabilize), score), |sp|, true);
      ss.Ok? && j < |ss.value.0| && j < |ss.value.1| &&
      ss.value.0[j] == score(predict(ComplexUnit(sp[j])), sp[j]) &&
      ss.value.1[j] == MonoScores(sp[j], stabilize, predict, score)
  {
    FanOutOk(sp, stabilize);
    var m := |sp|;
    var k := |stabilize|;
    var scores := ScoreAll(Churn(FanOut(sp, stabilize).value, predict), Owners(sp, stabilize), score);
    StabilizedSplit(sp, stabilize, predict, score);
    ComplexScoreAt(sp, stabilize, predict, score, j);
    FanInShape(scores, m, k);
    var bs := FanIn(scores, m, true).value.1[j];
    forall c | 0 <= c < k ensures bs[c] == MonoScores(sp[j], stabilize, predict, score)[c] {
      FanInAt(scores, m, k, j, c);
      MonomerScoreAt(sp, stabilize, predict, score, c, j);
    }
  }

  /** Record j of a successful stabilised round combines design j's complex
      unit, the score of its complex prediction and the scores of its
      single-chain predictions, in chain order. */
  lemma ScoreRoundStabilized(sp: seq<Individual>, stabilize: seq<string>, predict: WorkUnit -> Prediction,
                             score: (Prediction, Individual) -> ScoreOut, rmsd: Option<(string, string, Individual) -> real>)
    requires ScoreRound(sp, stabilize, predict, score, rmsd).Ok? && |stabilize| > 0
    ensures HasChains(sp, stabilize)
    ensures |ScoreRound(sp, stabilize, predict, score, rmsd).value.0| == |sp|
    ensures forall j :: 0 <= j < |sp| ==>
      CombineStabilized(sp[j], ComplexUnit(sp[j]), score(predict(ComplexUnit(sp[j])), sp[j]),
                        MonoScores(sp[j], stabilize, predict, score), rmsd) ==
        Ok(ScoreRound(sp, stabilize, predict, score, rmsd).value.0[j])
  {
    var m := |sp|;
    FanOutOk(sp, stabilize);
    var units := FanOut(sp, stabilize).value;
    var scores := ScoreAll(Churn(units, predict), Owners(sp, stabilize), score);
    StabilizedSplit(sp, stabilize, predict, score);
    var su := FanIn(units, m, true).value;
    var ss := FanIn(scores, m, true).value;
    CombineAllStabilizedSpec(sp, su.0, ss.0, ss.1, rmsd);
    forall j | 0 <= j < m
      ensures ss.0[j] == score(predict(ComplexUnit(sp[j])), sp[j]) && ss.1[j] == MonoScores(sp[j], stabilize, predict, score)
    {
      SplitScoresAt(sp, stabilize, predict, score, j);
    }
  }

  /** Record j of a successful round without stabilisation is the score of
      design j's complex prediction, checked for the nested shape. */
  lemma ScoreRoundPlain(sp: seq<Individual>, predict: WorkUnit -> Prediction,
                        score: (Prediction, Individual) -> ScoreOut, rmsd: Option<(string, string, Individual) -> real>)
    requires ScoreRound(sp, [], predict, score, rmsd).Ok?
    ensures ScoreRound(sp, [], predict, score, rmsd).value.1 == |sp|
    ensures |ScoreRound(sp, [], predict, score, rmsd).value.0| == |sp|
    ensures forall j :: 0 <= j < |sp| ==>
      CombinePlain(sp[j], score(predict(ComplexUnit(sp[j])), sp[j])) == Ok(ScoreRound(sp, [], predict, score, rmsd).value.0[j])
  {
    var units := FanOut(sp, []).value;
    var scores := ScoreAll(Churn(units, predict), Owners(sp, []), score);
    FanOutShape(sp, []);
    OwnersLength(sp, []);
    CombineAllPlainSpec(sp, scores);
    forall j | 0 <= j < |sp| ensures scores[j] == score(predict(ComplexUnit(sp[j])), sp[j]) {
      ComplexScoreAt(sp, [], predict, score, j);
    }
  }

  /** A successful round makes one record per design, in order, and
      m * (1 + k) predictions. */
  lemma ScoreRoundCovers(sp: seq<Individual>, stabilize: seq<string>, predict: WorkUnit -> Prediction,
                         score: (Prediction, Individual) -> ScoreOut, rmsd: Option<(string, string, Individual) -> real>)
    requires ScoreRound(sp, stabilize, predict, score, rmsd).Ok?
    ensures var (entries, n) := ScoreRound(sp, stabilize, predict, score, rmsd).value;
      n == |sp| * (1 + |stabilize|) && |entries| == |sp| &&
      forall j :: 0 <= j < |sp| ==> entries[j].ind == sp[j]
  {
    var m := |sp|;
    var units := FanOut(sp, stabilize).value;
    FanOutShape(sp, stabilize);
    var scores := ScoreAll(Churn(units, predict), Owners(sp, stabilize), score);
    if |stabilize| > 0 {
      StabilizedSplit(sp, stabilize, predict, score);
      var su := FanIn(units, m, true).value;
      var ss := FanIn(scores, m, true).value;
      CombineAllStabilizedSpec(sp, su.0, ss.0, ss.1, rmsd);
    } else {
      OwnersLength(sp, stabilize);
      CombineAllPlainSpec(sp, scores);
    }
  }

  /** A round fails only for a missing stabilised chain, an empty set of
      designs to split, or a score of the wrong shape; the sequence
      integrity check never fires. */
  lemma ScoreRoundErrors(sp: seq<Individual>, stabilize: seq<string>, predict: WorkUnit -> Prediction,
                         score: (Prediction, Individual) -> ScoreOut, rmsd: Option<(string, string, Individual) -> real>)
    requires ScoreRound(sp, stabilize, predict, score, rmsd).Err?
    ensures var e := ScoreRound(sp, stabilize, predict, score, rmsd).error;
      e.MissingChain? || e == ZeroStep || e == ShapeMismatch
    ensures ScoreRound(sp, stabilize, predict, score, rmsd).error == ZeroStep <==> FanOut(sp, stabilize).Ok? && |stabilize| > 0 && |sp| == 0
  {
    var m := |sp|;
    if FanOut(sp, stabilize).Ok? {
      var units := FanOut(sp, stabilize).value;
      FanOutShape(sp, stabilize);
      var scores := ScoreAll(Churn(units, predict), Owners(sp, stabilize), score);
      if |stabilize| > 0 && m > 0 {
        StabilizedSplit(sp, stabilize, predict, score);
        var su := FanIn(units, m, true).value;
        CombineAllStabilizedShape(sp, su.0, FanIn(scores, m, true).value.0, FanIn(scores, m, true).value.1, rmsd);
      } else if |stabilize| == 0 {
        OwnersLength(sp, stabilize);
        CombineAllPlainSpec(sp, scores);
      }
    } else {
      MonomerBlocksSpec(sp, stabilize);
    }
  }

  /** Design j's single-chain scores are all flat when every score is. */
  lemma SplitScoresFlat(sp: seq<Individual>, stabilize: seq<string>, predict: WorkUnit -> Prediction,
                        score: (Prediction, Individual) -> ScoreOut, j: nat)
    requires ShapesRight(score, true)
    requires FanOut(sp, stabilize).Ok? && |sp| > 0 && |stabilize| > 0 && j < |sp|
    ensures var scores := ScoreAll(Churn(FanOut(sp, stabilize).value, predict), Owners(sp, stabilize), score);
      FanIn(scores, |sp|, true).Ok? && j < |FanIn(scores, |sp|, true).value.1| &&
      AllFlat(FanIn(scores, |sp|, true).value.1[j])
  {
    var scores := ScoreAll(Churn(FanOut(sp, stabilize).value, predict), Owners(sp, stabilize), score);
    StabilizedSplit(sp, stabilize, predict, score);
    assert |scores| == |sp| * (1 + |stabilize|);
    FanInFlat(scores, |sp|, |stabilize|, j);
  }

  /** Splitting flat scores gives every design flat single-chain scores. */
  lemma FanInFlat(scores: seq<ScoreOut>, m: nat, k: nat, j: nat)
    requires m > 0 && k > 0 && |scores| == m * (1 + k) && j < m
    requires forall i :: 0 <= i < |scores| ==> scores[i].Flat?
    ensures FanIn(scores, m, true).Ok? && j < |FanIn(scores, m, true).value.1|
    ensures AllFlat(FanIn(scores, m, true).value.1[j])
  {
    FanInShape(scores, m, k);
    var bs := FanIn(scores, m, true).value.1[j];
    forall c | 0 <= c < |bs| ensures bs[c].Flat? {
      FanInAt(scores, m, k, j, c);
    }
  }

  lemma ScoreRoundSucceedsStabilized(sp: seq<Individual>, stabilize: seq<string>, predict: WorkUnit -> Prediction,
                                     score: (Prediction, Individual) -> ScoreOut, rmsd: Option<(string, string, Individual) -> real>)
    requires ShapesRight(score, true)
    requires HasChains(sp, stabilize) && |stabilize| > 0 && |sp| > 0
    ensures ScoreRound(sp, stabilize, predict, score, rmsd).Ok?
  {
    var m := |sp|;
    FanOutOk(sp, stabilize);
    var units := FanOut(sp, stabilize).value;
    var scores := ScoreAll(Churn(units, predict), Owners(sp, stabilize), score);
    StabilizedSplit(sp, stabilize, predict, score);
    var su := FanIn(units, m, true).value;
    var ss := FanIn(scores, m, true).value;
    forall j | 0 <= j < m ensures CombineStabilized(sp[j], su.0[j], ss.0[j], ss.1[j], rmsd).Ok? {
      SplitScoresFlat(sp, stabilize, predict, score, j);
    }
    CombineAllStabilizedSpec(sp, su.0, ss.0, ss.1, rmsd);
  }

  lemma ScoreRoundSucceedsPlain(sp: seq<Individual>, predict: WorkUnit -> Prediction,
                                score: (Prediction, Individual) -> ScoreOut, rmsd: Option<(string, string, Individual) -> real>)
    requires ShapesRight(score, false)
    ensures ScoreRound(sp, [], predict, score, rmsd).Ok?
  {
    var units := FanOut(sp, []).value;
    OwnersLength(sp, []);
    var scores := ScoreAll(Churn(units, predict), Owners(sp, []), score);
    CombineAllPlainSpec(sp, scores);
  }

  /** A round succeeds exactly when every design has every stabilised
      chain and, when stabilising, there is a design to score, provided the
      scoring function returns the expected shape. */
  lemma ScoreRoundSucceeds(sp: seq<Individual>, stabilize: seq<string>, predict: WorkUnit -> Prediction,
                           score: (Prediction, Individual) -> ScoreOut, rmsd: Option<(string, string, Individual) -> real>)
    requires ShapesRight(score, |stabilize| > 0)
    ensures ScoreRound(sp, stabilize, predict, score, rmsd).Ok? <==>
      HasChains(sp, stabilize) && (|stabilize| > 0 ==> |sp| > 0)
  {
    FanOutOk(sp, stabilize);
    if HasChains(sp, stabilize) && (|stabilize| > 0 ==> |sp| > 0) {
      if |stabilize| > 0 {
        ScoreRoundSucceedsStabilized(sp, stabilize, predict, score, rmsd);
      } else {
        ScoreRoundSucceedsPlain(sp, predict, score, rmsd);
      }
    }
  }
}
