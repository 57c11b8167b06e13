/** The records the genetic-algorithm controller keeps: candidate designs,
    the work units sent to the structure predictor, the score tuples the
    scoring function returns, and the cache of everything scored so far. */
module Population {
  import opened Results
  import opened PyText

  /** One chain of a design: its name and its residue sequence. */
  datatype Chain = Chain(id: string, residues: string)

  /** A candidate design: its chains in the order of its sequence dict. */
  datatype Individual = Individual(chains: seq<Chain>)

  /** The residue sequences of a design, in chain order. */
  function Sequences(ind: Individual): (s: seq<string>)
    ensures |s| == |ind.chains| && forall c :: 0 <= c < |s| ==> s[c] == ind.chains[c].residues
  {
    seq(|ind.chains|, c requires 0 <= c < |ind.chains| => ind.chains[c].residues)
  }

  /** The cache key of a design, `get_sequence_string()`: taken to be its
      chain sequences joined by commas, in chain order. */
  function Identity(ind: Individual): string {
    Join(Sequences(ind), ',')
  }

  /** `jsondata["sequence"][chain]`: the sequence of a named chain. */
  function ChainResidues(ind: Individual, id: string): Option<string>
    decreases |ind.chains|
  {
    if |ind.chains| == 0 then None
    else if ind.chains[0].id == id then Some(ind.chains[0].residues)
    else ChainResidues(Individual(ind.chains[1..]), id)
  }

  /** One job for the structure predictor: the chain sequences to fold
      together (the unit `[[s1, s2, ...]]`). */
  datatype WorkUnit = WorkUnit(seqs: seq<string>)

  /** What the predictor returns for one unit and the scoring function
      receives; its content is the predictor's business. */
  type Prediction = string

  /** A score tuple: the primary score `t[0]`, the breakdown `t[1]` and the
      predicted structure `t[-2]`. */
  datatype ScoreTuple = ScoreTuple(primary: real, detail: seq<real>, structure: string)

  /** The two shapes a scoring function returns: the tuple itself (read as
      `cscore[0]`), or a tuple whose first element is the score tuple (read
      as `cscore[0][0]`). */
  datatype ScoreOut = Flat(t: ScoreTuple) | Nested(t: ScoreTuple)

  /** The score recorded for a design. Without stabilisation it is
      `(primary, detail)`; with it, the total also adds the single-chain
      scores and the structure-deviation terms, which are kept alongside. */
  datatype Score =
    | Plain(total: real, detail: seq<real>)
    | Stabilized(total: real, detail: seq<real>, monomerTotal: real, monomerDetails: seq<seq<real>>,
                 rmsdTotal: real, rmsdTerms: seq<real>)

  /** The predicted structures kept for a design: the complex, and the
      single-chain ones when stabilising. */
  datatype Structures = Structures(complex: string, monomers: Option<seq<string>>)

  /** `scored_seqs[key] = {"dsobj": ..., "score": ..., "pdb": ...}`. */
  datatype Entry = Entry(ind: Individual, score: Score, pdb: Structures)

  /** Everything scored so far, by identity. */
  type Cache = map<string, Entry>

  /** Why an iteration stops with an exception. */
  datatype StepError =
    | NoRate(iter: nat)               // `mut_percents[curr_iter - 1]` is out of range
    | MissingChain(chain: string)     // a stabilised chain the design does not have
    | ZeroStep                        // `range(0, n, 0)` for an empty scoring pool
    | ShapeMismatch                   // the score tuple has the other shape
    | SequenceMismatch(key: string)   // "Sequence does not match DSobj sequence"
    | MissingKey(key: string)         // `scored_seqs[key_seq]` for a design never recorded
    | NoIterations                    // `newpool_seqs` is read before it is set

  /** The name of a chain's sequence is found exactly when a chain has that
      name, and it is the first such chain's sequence. */
  lemma {:induction false} ChainResiduesSpec(ind: Individual, id: string)
    ensures ChainResidues(ind, id).Some? <==> exists c :: 0 <= c < |ind.chains| && ind.chains[c].id == id
    ensures ChainResidues(ind, id).Some? ==>
      exists c :: 0 <= c < |ind.chains| && ind.chains[c].id == id &&
        ChainResidues(ind, id).value == ind.chains[c].residues &&
        forall d :: 0 <= d < c ==> ind.chains[d].id != id
    decreases |ind.chains|
  {
    if |ind.chains| > 0 && ind.chains[0].id != id {
      var rest := Individual(ind.chains[1..]);
      ChainResiduesSpec(rest, id);
      assert forall c :: 1 <= c < |ind.chains| ==> ind.chains[c] == rest.chains[c - 1];
      if ChainResidues(rest, id).Some? {
        var c :| 0 <= c < |rest.chains| && rest.chains[c].id == id &&
          ChainResidues(rest, id).value == rest.chains[c].residues &&
          forall d :: 0 <= d < c ==> rest.chains[d].id != id;
        assert ind.chains[c + 1] == rest.chains[c];
      }
    }
  }
}
