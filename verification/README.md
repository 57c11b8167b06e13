# EvoPro genetic-algorithm core in Dafny

EvoPro designs protein sequences with a genetic algorithm. Every iteration
does the following:

- It refills the pool of candidate designs, using one of three operators:
  fresh random sequences, the ProteinMPNN sequence-design network, or
  mutation and crossover.
- It sends the designs it has never scored to a structure predictor
  (AlphaFold2 or OmegaFold). With `stabilize_monomer` set, it also sends
  each design's stabilised chains alone.
- It scores the predictions and splits the ordered results back to their
  designs.
- It combines each design's scores into one recorded score and caches it.
- It ranks the whole pool by total score and keeps the better half.

Separately, a JSON generator turns the residues of a PDB structure and two
command-line residue lists into the residue-specification file that the run
reads.

This project models these parts as pure Dafny functions over immutable
datatypes and proves what they promise:

- the refill dispatch;
- the cache filter;
- the work-list fan-out and the fan-in (`range(0, n, m)` chunking and the
  `zip(*...)` transpose);
- the sequence integrity check;
- the score combination;
- the stable sort and the round-half-even truncation;
- the mutation-rate schedule and the ProteinMPNN iteration list;
- the residue parsers;
- the JSON generator's body.

Modules follow the program:

| module | file | models |
|---|---|---|
| `Results` | results.dfy | `Option`, `Result` |
| `PyMath` | pymath.dfy | `round` (half to even), `math.ceil` of a quotient, Python `%` |
| `PyText` | pytext.dfy | `str`/`int` on decimal digits, `split`, `join`, `strip`, `re.split('(\d+)', s)` |
| `PyList` | pylist.dfy | list concatenation, chunking, `zip(*...)`, `sum`, first-occurrence order |
| `PyDict` | pydict.dfy | a run of dict assignments, last write winning |
| `StableSort` | stable_sort.dfy | `list.sort(key=...)` |
| `Population` | population.dfy | designs, work units, score tuples, records, the cache, the iteration's exceptions |
| `Scoring` | scoring.dfy | fan-out, prediction, scoring, fan-in, score combination |
| `Controller` | controller.dfy | refill dispatch, cache filter, ranking, truncation, one iteration, the run |
| `Schedule` | schedule.dfy | the mutation-rate list and the ProteinMPNN iteration list |
| `ResidueSpec` | residue_spec.dfy | `parse_mutres_input`, `parse_symmetric_res` and the three validity checks |
| `JsonRecord` | json_record.dfy | the body of `generate_json` |

Most operations that call out to code the model does not have are given
that code as a parameter:

- the refill operators, which also receive the pool and the cache, whose
  key list they use;
- the structure predictor;
- the scoring function;
- the structure-deviation (RMSD) function, which is optional;
- the three-letter to one-letter residue code table;
- the structure parser's output, which is given as the chain list and the
  residue list.

The design object is the exception. It is not a parameter but a fixed
datatype: a design is its list of named chains, and its sequence string is
the comma-join of the chain sequences (see "## Left out").

Every Python exception the modelled code can raise on the inputs the model
admits becomes an `Err` value that names its cause. Three inputs the model
does not admit are listed under "## Left out": a missing `mut_percents`, an
empty list of starting designs and a negative `num_iter`. The `Err` values
include:

- a missing mutation rate;
- a stabilised chain missing from a design;
- `range` with step 0;
- a score of the wrong shape;
- a failed integrity check;
- a record lookup for a design never recorded;
- reading `newpool_seqs` after zero iterations;
- each parser's `ValueError`, `IndexError` and unpacking failure;
- the generator's `KeyError`s.

The proofs show that some of these never happen. The record lookups cannot
fail. The integrity check cannot fail either, but only because a design's
sequence string is defined as the comma-join of its chain sequences. With a schedule from the entry point, no
iteration lacks a rate.

## Model

| member | source | states |
|---|---|---|
| Controller.ChooseRefillSpec | evopro/run/run_geneticalg_gpus.py:61-74 | Iteration 1 always creates fresh sequences, even when it is listed for ProteinMPNN. A listed later iteration refills with ProteinMPNN. Any other iteration mutates at rate `mut_percents[iter - 1]`, and it fails exactly when that index is past the end of the list. |
| Controller.ScheduleCoversDispatch | evopro/run/run_geneticalg_gpus.py:334-346 | With the rate list the entry point builds (one or more rates, or none given), every iteration 1..num_iter finds its rate. |
| Controller.ScoringPoolSpec | evopro/run/run_geneticalg_gpus.py:78 | A design is sent for scoring exactly when it is in the pool and its identity is not yet a key of the cache. Nothing scored before is scored again. |
| Controller.ScoringPoolAppend | evopro/run/run_geneticalg_gpus.py:78 | The filter keeps pool order: filtering two pools in a row gives the two filtered pools in a row. |
| Controller.RecordSpec | evopro/run/run_geneticalg_gpus.py:155-180 | After the round's writes the cache holds the old keys and the round's identities. A key the round does not write keeps its old record, and a written key holds its last record. A cache that files every record under its design's identity stays that way. |
| Controller.RoundRecordsPool | evopro/run/run_geneticalg_gpus.py:78-188 | Given one record per filtered design, every design of the refilled pool is recorded afterwards, and no record made before the round is overwritten. |
| Controller.RankSpec | evopro/run/run_geneticalg_gpus.py:185-188 | Building the (identity, score) list succeeds exactly when every design of the pool is recorded. It then has one line per design, in pool order, with the recorded score. |
| Controller.ReviveSpec | evopro/run/run_geneticalg_gpus.py:220-223 | Looking up the kept identities succeeds exactly when all of them are recorded, and returns the recorded designs in order. |
| Controller.SurvivorsBest | evopro/run/run_geneticalg_gpus.py:214-217 | On a list sorted by total score, the kept part is the first round(n/2) lines (half to even), and no kept line scores above a dropped one. |
| Controller.KeptRecorded | evopro/run/run_geneticalg_gpus.py:203-223 | Every kept identity comes from the ranked lines, so it is recorded whenever every ranked identity is. |
| Controller.ConcludeOk | evopro/run/run_geneticalg_gpus.py:173-223 | With one record per filtered design, the ranking and the lookup of the next pool never hit a missing key. |
| Controller.ConcludeCache | evopro/run/run_geneticalg_gpus.py:155-180 | Ending an iteration keeps every cached record unchanged, records every design of the pool, keeps the cache well keyed and adds the round's predictions to the count. |
| Controller.ConcludeRanking | evopro/run/run_geneticalg_gpus.py:185-217 | The iteration's ranking is the pool's scores sorted by total score. It is a permutation of them, designs with equal totals stay in pool order, and it is appended after the earlier rankings. The kept identities are its first round(n/2) lines, and none of them scores above a dropped line. |
| Controller.ConcludeNextPool | evopro/run/run_geneticalg_gpus.py:220-223 | In a well-keyed cache, the next pool is the kept designs in ranking order, one per kept identity. |
| Controller.StepParts | evopro/run/run_geneticalg_gpus.py:56-226 | A successful iteration makes one record per filtered design, in order, and m * (1 + k) predictions for m designs and k stabilised chains. It then concludes with those records. |
| Controller.StepErrors | evopro/run/run_geneticalg_gpus.py:56-226 | An iteration fails only for one of four reasons: a missing rate (only when the dispatch finds none), a missing stabilised chain, an empty set of designs to split, or a score of the wrong shape. It never fails on a missing record or on the integrity check. |
| Controller.StepHistory | evopro/run/run_geneticalg_gpus.py:203-205 | A successful iteration appends exactly one ranking, sorted by total score, after the old ones. It keeps every cached record and keeps the cache well keyed. |
| Controller.StepIsGood | evopro/run/run_geneticalg_gpus.py:56-226 | Every iteration of the model, on every state, meets both the success facts and the failure facts above. |
| Controller.IterateSpec | evopro/run/run_geneticalg_gpus.py:56-226 | Running iterations iter..num_iter of a good iteration adds one sorted ranking per iteration after the old rankings, keeps every cached record and keeps the cache well keyed. A failure is one a single iteration can have, and a missing rate means fewer rates than iterations. |
| Controller.RunSpec | evopro/run/run_geneticalg_gpus.py:41-242 | A successful run of num_iter iterations leaves num_iter rankings, each sorted by total score, and a well-keyed cache. A run with zero iterations fails when the final kept list is read. Otherwise a run fails only for a missing rate, a missing chain, an empty split or a wrongly shaped score. |
| Controller.RunScheduleCovers | evopro/run/run_geneticalg_gpus.py:334-346 | A run whose rates come from the entry point's schedule never fails for want of a rate. |
| Population.ChainResiduesSpec | evopro/run/run_geneticalg_gpus.py:86 | Looking up a chain by name succeeds exactly when the design has a chain of that name, and gives the first such chain's sequence. |
| Scoring.FanOutOk | evopro/run/run_geneticalg_gpus.py:79-90 | The work list can be built exactly when every design has every stabilised chain. |
| Scoring.FanOutShape | evopro/run/run_geneticalg_gpus.py:79-90 | The work list holds m * (1 + k) units, and its first m units are the designs' complex units, in pool order. |
| Scoring.FanOutMonomer | evopro/run/run_geneticalg_gpus.py:84-88 | Unit (1 + c) * m + j is design j folded alone on stabilised chain c. |
| Scoring.OwnersLength | evopro/run/run_geneticalg_gpus.py:98-105 | The list of owning designs has one entry per unit of the work list. |
| Scoring.OwnersAt | evopro/run/run_geneticalg_gpus.py:98-105 | Unit c * m + j, for every list c, is scored against design j. |
| Scoring.FanInShape | evopro/run/run_geneticalg_gpus.py:112-153 | Splitting m * (1 + k) ordered results, with m and k positive, succeeds. Each of the m designs gets its own complex result and exactly k single-chain results. |
| Scoring.FanInAt | evopro/run/run_geneticalg_gpus.py:127-131 | After chunking and transposing, design j's single-chain result number c is result (1 + c) * m + j. This places it where the fan-out put that design's unit for chain c. |
| Scoring.FanInFlat | evopro/run/run_geneticalg_gpus.py:145-153 | When every result is a flat score tuple, so is every single-chain result a design receives. |
| Scoring.ComplexUnitIdentity | evopro/run/run_geneticalg_gpus.py:159-162 | A design's own complex unit, joined with commas, spells the design's identity, so the integrity check passes on it. |
| Scoring.CombineStabilizedSpec | evopro/run/run_geneticalg_gpus.py:158-171 | A stabilised record is made exactly when the unit matches the design's identity and all scores are flat tuples; otherwise the result is a mismatch or shape error. The total is the complex score plus the sum of the single-chain primary scores plus the sum of the deviation terms (0 and no terms without a deviation function). The record keeps one breakdown and one structure per single-chain score. |
| Scoring.CombineExample | evopro/run/run_geneticalg_gpus.py:163-170 | A complex score of 10, single-chain scores 2 and 3, and deviations 1 and 1 give a total of 17. |
| Scoring.CombineAllStabilizedSpec | evopro/run/run_geneticalg_gpus.py:158-173 | Over lists of one length, combining succeeds exactly when every design's combination does. The records are then one per design, in order, each that design's combination. |
| Scoring.CombineAllStabilizedShape | evopro/run/run_geneticalg_gpus.py:158-162 | When every complex unit spells its design's identity, the integrity check never raises; the only possible failure is a wrongly shaped score. |
| Scoring.CombineAllPlainSpec | evopro/run/run_geneticalg_gpus.py:176-180 | Without stabilisation, recording succeeds exactly when every score is the nested tuple. It then makes one record per design, in order, holding `cscore[0][0]`, `cscore[0][1]` and `cscore[0][-2]`. |
| Scoring.StabilizedSplit | evopro/run/run_geneticalg_gpus.py:79-153 | In a stabilised round, the split gives every design its own complex unit and its own complex score, and there are as many single-chain score lists as designs. |
| Scoring.ScoreRoundCovers | evopro/run/run_geneticalg_gpus.py:79-180 | A successful round makes one record per design, in pool order, and m * (1 + k) predictions. |
| Scoring.SplitScoresAt | evopro/run/run_geneticalg_gpus.py:103-153 | After the split of a stabilised round, design j's complex score is the score of its complex unit's prediction, against design j. Its single-chain scores are, in stabilised-chain order, the scores of the predictions for each of its chains folded alone, also against design j. |
| Scoring.ScoreRoundStabilized | evopro/run/run_geneticalg_gpus.py:98-173 | In a successful stabilised round every design has every stabilised chain. Record j combines design j's own complex unit, the score of its complex prediction and the scores of its single-chain predictions, in chain order. |
| Scoring.ScoreRoundPlain | evopro/run/run_geneticalg_gpus.py:98-180 | A successful round without stabilisation makes one prediction per design. Record j is the score of design j's complex prediction against design j, read from the nested tuple. |
| Scoring.ScoreRoundErrors | evopro/run/run_geneticalg_gpus.py:79-180 | A round fails only for a missing stabilised chain, a zero chunk step or a wrongly shaped score. The zero step happens exactly when stabilising an empty set of designs. |
| Scoring.SplitScoresFlat | evopro/run/run_geneticalg_gpus.py:145-169 | In a stabilised round whose scoring function returns flat tuples, every design's single-chain scores are flat tuples. |
| Scoring.ScoreRoundSucceeds | evopro/run/run_geneticalg_gpus.py:79-180 | When the scoring function returns the shape the round reads, a round succeeds exactly when every design has every stabilised chain and, when stabilising, there is at least one design. |
| StableSort.SortFacts | evopro/run/run_geneticalg_gpus.py:203 | The sort returns the same lines in non-decreasing key order, and lines with equal keys keep their relative order. |
| PyMath.RoundHalfUnique | evopro/run/run_geneticalg_gpus.py:216 | `round(n / 2)` is the only integer within 1/2 of n/2 that is even whenever the distance is exactly 1/2. |
| PyMath.RoundHalfExamples | evopro/run/run_geneticalg_gpus.py:216 | A pool of 1 keeps 0 designs, of 3 keeps 2, of 4 keeps 2, of 5 keeps 2. |
| PyDict.StoreLastWrite | evopro/run/run_geneticalg_gpus.py:173 | After a run of dict assignments, the keys are exactly the written keys, and each holds the value of its last write. |
| Schedule.MultCovers | evopro/run/run_geneticalg_gpus.py:334-339 | Each rate covers ceil(num_iter / k) iterations, and the k blocks together cover the run. |
| Schedule.MutationScheduleSpec | evopro/run/run_geneticalg_gpus.py:334-346 | With at least one rate (or the default 0.125), there is one rate per iteration. Iteration i uses rate number i / mult, so the rates are used in order, one block of iterations each. |
| Schedule.MutationScheduleSingle | evopro/run/run_geneticalg_gpus.py:336-346 | One given rate is used for every iteration; with no rates given, the default 0.125 is used for every iteration. |
| Schedule.MultiplesFails | evopro/run/run_geneticalg_gpus.py:357-360 | The loop raises exactly when the frequency is zero and the range is not empty. |
| Schedule.MultiplesSpec | evopro/run/run_geneticalg_gpus.py:357-360 | With a non-zero frequency, the list holds exactly the multiples of the frequency in the range, in ascending order. |
| Schedule.MpnnItersRange | evopro/run/run_geneticalg_gpus.py:353-360 | A list derived from a frequency never names iteration 0 or an iteration at or after num_iter. |
| ResidueSpec.CheckResShape | evopro/user_inputs/generate_json.py:111-116 | A residue is accepted exactly when it is a non-empty digit-free chain name followed by a digit run that ends the text. It then reads as that chain and that number. |
| ResidueSpec.CheckResLabel | evopro/user_inputs/generate_json.py:111-116 | Checking `chain + str(num)` for a digit-free chain name gives the residue back. |
| ResidueSpec.CheckResPieces | evopro/user_inputs/generate_json.py:111-116 | An accepted residue splits into its chain name and a single digit run whose value is its number. |
| ResidueSpec.ResRangeContents | evopro/user_inputs/generate_json.py:133-135 | A range holds each residue of its chain between its two ends, each once, in ascending order. |
| ResidueSpec.CheckRangeResult | evopro/user_inputs/generate_json.py:118-137 | An accepted range has at least two residues, all on one chain, numbered consecutively. |
| ResidueSpec.CheckRangeText | evopro/user_inputs/generate_json.py:118-137 | A written range `A3-A7` is refused for spanning chains when the chains differ, and for not ascending when the start is not below the end. Otherwise it is accepted with every residue from the start to the end. |
| ResidueSpec.CheckRangeDashes | evopro/user_inputs/generate_json.py:119-121 | A range without exactly one '-' is refused as unparsable. |
| ResidueSpec.BuildTiesOk | evopro/user_inputs/generate_json.py:143-149 | The loop over the sub-items succeeds exactly when every sub-item names residues, whatever the dict held before. |
| ResidueSpec.BuildTiesKeys | evopro/user_inputs/generate_json.py:142-149 | The dict's keys are the distinct sub-item texts in first-occurrence order: a repeated sub-item keeps the place of its first occurrence. |
| ResidueSpec.BuildTiesMatch | evopro/user_inputs/generate_json.py:143-149 | Every key holds exactly the residues its own text names, also after a repeated sub-item overwrites its entry. |
| ResidueSpec.BuildTiesSpec | evopro/user_inputs/generate_json.py:140-149 | From an empty dict: success exactly when every sub-item parses. The keys are then the distinct sub-items in first-occurrence order, each holding the residues it names. |
| ResidueSpec.CheckSymmetrySizes | evopro/user_inputs/generate_json.py:139-156 | A symmetry item is accepted exactly when every sub-item names residues and all sub-items name equally many. The result's keys are then the distinct sub-item texts in first-occurrence order, each holding the residues it names. When every sub-item parses, the only refusal is the unequal-size error. |
| ResidueSpec.SameSizes | evopro/user_inputs/generate_json.py:151-152 | The floor test on the share of sizes equal to the first passes exactly when all sizes are equal. |
| ResidueSpec.EachAll | evopro/user_inputs/generate_json.py:163-168 | An item loop succeeds exactly when every item does, and result i is item i's result. |
| ResidueSpec.EachFirstError | evopro/user_inputs/generate_json.py:163-168 | The error an item loop reports is that of the first failing item. |
| ResidueSpec.ParseSymmetricResAll | evopro/user_inputs/generate_json.py:158-170 | The symmetry list is accepted exactly when every non-empty comma item has a colon and passes the symmetry check. Group i is then item i's symmetry dict. |
| ResidueSpec.ParseMutResItems | evopro/user_inputs/generate_json.py:95-109 | The residue list is accepted exactly when every non-empty comma item expands. It is the items' expansions, one after another. |
| ResidueSpec.ExpandPlain | evopro/user_inputs/generate_json.py:99-101 | Items without '-' are returned unchanged and in order. |
| ResidueSpec.ExpandAgreesWithCheck | evopro/user_inputs/generate_json.py:103-108 | On any range the strict range check accepts, the lenient expansion gives the labels of exactly the residues the check returns. |
| ResidueSpec.ExpandRangeText | evopro/user_inputs/generate_json.py:103-108 | A written range expands to the labels of every residue from its start to its end, and to nothing when the end is below the start. |
| JsonRecord.RenumberRuns | evopro/user_inputs/generate_json.py:20-32 | The per-chain counter gives each residue the length of the run of same-chain residues that ends with it, whatever chain the loop starts from. |
| JsonRecord.PdbIdsStart | evopro/user_inputs/generate_json.py:20-27 | The recorded names and indices do not depend on the chain the counter starts from. |
| JsonRecord.PdbIdsEntries | evopro/user_inputs/generate_json.py:22-29 | `pdbids` holds exactly the names `chain + str(num)` of the residues. The last residue with a name is stored as that residue, its chain and its per-chain index. |
| JsonRecord.AppendCodesSpec | evopro/user_inputs/generate_json.py:30-31 | The append loop succeeds exactly when every residue's chain is a key. Each key then holds its old list followed by the codes of its chain's residues, in order, and no key is added. |
| JsonRecord.UnknownChainReported | evopro/user_inputs/generate_json.py:31 | A residue on a chain that is not a key makes the loop raise a KeyError for an unknown chain. |
| JsonRecord.SequencesSpec | evopro/user_inputs/generate_json.py:14-35 | The sequences succeed exactly when every residue lies on a listed chain. There is then one sequence per distinct chain, in first-listed order, made of the chain's known one-letter codes in structure order. |
| JsonRecord.DesignablesAppend | evopro/user_inputs/generate_json.py:37-40 | Requests are handled one by one: two request lists in a row give their designable lists in a row. |
| JsonRecord.DesignablesFound | evopro/user_inputs/generate_json.py:37-40 | The designable list holds the requests found in `pdbids`, in request order. Each entry is the residue's chain, its per-chain index, its wild-type code and the default setting. |
| JsonRecord.ResidueTextNotX | evopro/user_inputs/generate_json.py:51 | A residue's text always holds two underscores, so it is never "X" and no tie is skipped. |
| JsonRecord.TieLabelsPresent | evopro/user_inputs/generate_json.py:46-58 | When every residue of a tied position is in the structure, the tie is those residues renamed as chain plus per-chain index, in order. |
| JsonRecord.TieLabelsMissing | evopro/user_inputs/generate_json.py:49-51 | Otherwise the lookup of the first missing residue raises. |
| JsonRecord.PositionTiesPresent | evopro/user_inputs/generate_json.py:46-58 | With every residue present, no position is dropped: tie i is position i renamed. |
| JsonRecord.SymmetryTies | evopro/user_inputs/generate_json.py:42-58 | For a symmetry dict whose groups all hold n residues, all present: there are n ties, and tie i holds the i-th residue of every group, in key order, renamed. |
| JsonRecord.TieLabelsAbsent | evopro/user_inputs/generate_json.py:49-51 | A tied position with any residue missing from `pdbids` raises a missing-residue error. |
| JsonRecord.PositionTiesOk | evopro/user_inputs/generate_json.py:46-58 | The positions of one dict are looked up without error exactly when every residue in them is in `pdbids`. The only error is a missing residue. |
| JsonRecord.SymmetricTiesSpec | evopro/user_inputs/generate_json.py:42-58 | The "symmetric" member is built exactly when every zipped residue of every dict is in `pdbids`. It is then the ties of the dicts one after another, tie i of a dict being position i of its zipped groups, renamed. The only error is a missing residue. |
| JsonRecord.GroupsPresent | evopro/user_inputs/generate_json.py:44-46 | Every residue of every group of a dict in `pdbids` leaves nothing for the zipped lookup to miss. |
| JsonRecord.SymmetricTiesPresent | evopro/user_inputs/generate_json.py:42-58 | With every residue of every group present, the "symmetric" member is built. |
| JsonRecord.GenerateJsonSpec | evopro/user_inputs/generate_json.py:7-60 | The document fails for an empty chain list, and for a residue on an unlisted chain before any tie is looked at. A successful document has the chains' sequences and one designable entry per found request. |
| JsonRecord.GenerateJsonOk | evopro/user_inputs/generate_json.py:7-60 | The document is written exactly when there is a chain, every residue lies on a listed chain and every zipped tied residue is in `pdbids`. When there are chains and they are all listed, the only remaining error is a missing tied residue. |
| JsonRecord.GenerateJsonDoc | evopro/user_inputs/generate_json.py:37-60 | A written document's designable list is the requests looked up in the `pdbids` numbered from the first chain. Its "symmetric" member is the ties of every symmetry dict, one dict after another. |

## Left out

- The `Distributor`, its worker processes and the GPUs are left out. The predictor is a pure function applied to each unit in order, which is what `churn` returns.
- `create_new_seqs`, `create_new_seqs_mpnn`, the scoring function and the RMSD function are parameters. The refill operators receive the pool and the cache instead of `list(scored_seqs.keys())`, so the order of that key list is not modelled.
- `score_func(result[0], ...)` receives the predictor's whole result for a unit. Which part of it the scoring function reads is the scoring function's business.
- File and log writes (the PDB files per iteration and at the end, `runtime_seqs_and_scores.log`, `seqs_and_scores.log`), printing, plotting, `num_af2` printing, directory creation and `lengths` (used only to start the workers) are not modelled. The final per-design PDB writes after the loop are not modelled, except that an empty run fails when they read `newpool_seqs`.
- The command-line parsers (`getEvoProParser`, `getPDBParser`), reading the input directory and the starting sequences, importing the score module and the JSON text written by `json.dumps` are not modelled. `generate_json` returns the document it would write.
- `DesignSeq` is not part of this model. A design is `Population.Individual`, its named chains in the order of its sequence dict, which stands for `jsondata["sequence"]`. `get_sequence_string()` is taken to be `Population.Identity`, the comma-join of the chain sequences in that order. This assumption alone makes the integrity check at lines 159-162 of run_geneticalg_gpus.py unfailable: `Scoring.ComplexUnitIdentity` holds by unfolding the two definitions. A `DesignSeq` whose sequence string differed from that join would make the check raise, and the model does not cover that.
- `get_coordinates_pdb` and `three_to_one` are not part of this model. The chain list and the residues arrive as inputs, and the code table is a parameter.
- Scores are `real`. Float rounding in sums and in `float(mut_percent)` is not modelled; the mutation rates arrive as numbers. The schedule's `math.ceil(num_iter / k)` is exact integer ceiling division, which is what the float division gives for the sizes a run uses.
- Schedule.MutationScheduleSpec: requires at least one rate, because `"".split(",")` never yields an empty list in the source, so the entry point cannot produce zero rates.
- `\d` and `int()` accept ASCII digits only. Python also accepts other Unicode decimal digits. `strip()` removes exactly the characters for which Python's `str.isspace()` holds.
- `int()` on a text with surrounding white space or a sign is not modelled. The texts that reach it are a digit run or a text without any digit.
- `stabilize_monomer` and `mpnn_iters` are lists. A `None` stabilisation list is the empty list, which the source treats the same way. `mpnn_iters` is always a list, as the entry point passes one; the `None` default, which would raise on `curr_iter in mpnn_iters`, is not modelled.
- The `x.strip()` of the stabilised-chain names and `int(x.strip())` of a given ProteinMPNN list (lines 349 and 354) are not modelled. The given list arrives parsed.
- `mut_percents=None`, the default of `run_genetic_alg_gpus` (line 23 of run_geneticalg_gpus.py), is not modelled: `Config.mutRates` is always a list. In the source, `None` raises a `TypeError` at line 74 at the first iteration that reads a rate. The entry point always passes a list built by its schedule.
- An empty `startingseqs` is not modelled as an error. The source raises an `IndexError` at line 26, on `startingseqs[0]`, before the loop starts. `Controller.Run` starts the loop from an empty pool instead, because the lengths computed there only start the workers.
- A negative `num_iter` is not modelled: `numIter` is a `nat`. In the source it runs no iteration and, like zero, ends with the `NameError` at line 242, which the model gives as `NoIterations` for zero.
- The ranking is keyed on the score's total. In the stabilised branch the stored score also holds the monomer and deviation parts, which the model keeps as named fields instead of nested tuples.
