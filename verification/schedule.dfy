/** The two per-run lists the command-line entry point builds before the
    run starts: the mutation rate of every iteration, and the iterations
    that refill the pool with the sequence-design network. */
module Schedule {
  import opened Results
  import opened PyMath
  import opened PyList

  /** The rates used when none are given. */
  const DefaultRates: seq<real> := [0.125]

  /** How many consecutive iterations each rate covers. */
  function Mult(numIter: nat, k: nat): nat {
    if k > 1 then CeilDiv(numIter, k) else numIter
  }

  /** Every rate repeated `mult` times, in order. */
  function Blocks(rates: seq<real>, mult: nat): (bs: seq<seq<real>>)
    ensures |bs| == |rates|
    ensures forall p :: 0 <= p < |rates| ==> bs[p] == Repeat(rates[p], mult)
  {
    seq(|rates|, p requires 0 <= p < |rates| => Repeat(rates[p], mult))
  }

  /** The mutation rates for `numIter` iterations. With no rates given the
      default 0.125 is used throughout; with one rate it is used throughout;
      with k > 1 rates, each is used for `ceil(numIter / k)` consecutive
      iterations and the list is cut to `numIter` entries. */
  function MutationSchedule(numIter: nat, given: Option<seq<real>>): seq<real> {
    var rates := if given.Some? then given.value else DefaultRates;
    var full := Flatten(Blocks(rates, Mult(numIter, |rates|)));
    full[..if numIter <= |full| then numIter else |full|]
  }

  /** The repeated blocks are long enough for the run. */
  lemma MultCovers(numIter: nat, k: nat)
    requires k > 0
    ensures numIter <= k * Mult(numIter, k)
    ensures numIter > 0 ==> Mult(numIter, k) > 0
  {
    var m := Mult(numIter, k);
    if k > 1 {
      assert m * k >= numIter;
      assert k * m == m * k;
    } else {
      assert k * m == m;
    }
  }

  /** With at least one rate there is one rate per iteration, and iteration
      i (counted from 0) uses rate number `i / mult`: the rates are spread
      over the run in order, each for one block of iterations. */
  lemma MutationScheduleSpec(numIter: nat, given: Option<seq<real>>)
    requires given.None? || |given.value| > 0
    ensures var s := MutationSchedule(numIter, given);
      var rates := if given.Some? then given.value else DefaultRates;
      |s| == numIter &&
      forall i :: 0 <= i < numIter ==>
        Mult(numIter, |rates|) > 0 && i / Mult(numIter, |rates|) < |rates| &&
        s[i] == rates[i / Mult(numIter, |rates|)]
  {
    var rates := if given.Some? then given.value else DefaultRates;
    var mult := Mult(numIter, |rates|);
    var blocks := Blocks(rates, mult);
    FlattenLength(blocks, mult);
    MultCovers(numIter, |rates|);
    var s := MutationSchedule(numIter, given);
    assert |s| == numIter;
    forall i | 0 <= i < numIter ensures mult > 0 && i / mult < |rates| && s[i] == rates[i / mult] {
      FlattenUniformIndex(blocks, mult, i);
    }
  }

  /** A schedule from a single rate uses it for every iteration, and so
      does one built without rates, with the default 0.125. */
  lemma MutationScheduleSingle(numIter: nat, rate: real)
    ensures MutationSchedule(numIter, Some([rate])) == Repeat(rate, numIter)
    ensures MutationSchedule(numIter, None) == Repeat(0.125, numIter)
  {
    MutationScheduleSpec(numIter, Some([rate]));
    MutationScheduleSpec(numIter, None);
  }

  datatype MpnnError = ZeroFrequency  // `i % freq` with freq == 0

  /** The design-network iterations: the given list when there is one,
      otherwise `[i for i in range(1, numIter) if i % freq == 0]`. */
  function MpnnIters(numIter: nat, given: Option<seq<int>>, freq: int): Result<seq<int>, MpnnError> {
    if given.Some? then Ok(given.value)
    else Multiples(1, numIter, freq)
  }

  /** `[i for i in range(lo, hi) if i % freq == 0]`; a zero frequency fails
      at the first iteration of the loop. */
  function Multiples(lo: nat, hi: nat, freq: int): (r: Result<seq<int>, MpnnError>)
    decreases hi - lo
  {
    if hi <= lo then Ok([])
    else if freq == 0 then Err(ZeroFrequency)
    else
      var rest :- Multiples(lo + 1, hi, freq);
      Ok((if PyMod(lo, freq) == 0 then [lo] else []) + rest)
  }

  /** The loop fails exactly when the frequency is zero and the range is
      not empty. */
  lemma {:induction false} MultiplesFails(lo: nat, hi: nat, freq: int)
    ensures Multiples(lo, hi, freq).Err? <==> freq == 0 && lo < hi
    decreases hi - lo
  {
    if lo < hi && freq != 0 {
      MultiplesFails(lo + 1, hi, freq);
    }
  }

  /** With a non-zero frequency the list holds exactly the multiples of freq
      from lo up to, but not including, hi, in ascending order. */
  lemma {:induction false} MultiplesSpec(lo: nat, hi: nat, freq: int)
    requires freq != 0
    ensures Multiples(lo, hi, freq).Ok?
    ensures forall i :: i in Multiples(lo, hi, freq).value <==> lo <= i < hi && i % freq == 0
    ensures forall a, b :: 0 <= a < b < |Multiples(lo, hi, freq).value| ==>
      Multiples(lo, hi, freq).value[a] < Multiples(lo, hi, freq).value[b]
    decreases hi - lo
  {
    if lo < hi {
      MultiplesSpec(lo + 1, hi, freq);
      var rest := Multiples(lo + 1, hi, freq).value;
      var head: seq<int> := if PyMod(lo, freq) == 0 then [lo] else [];
      var r := head + rest;
      assert Multiples(lo, hi, freq).value == r;
      assert forall i :: i in r <==> i in head || i in rest;
      forall a, b | 0 <= a < b < |r| ensures r[a] < r[b] {
        if a < |head| {
          assert r[b] == rest[b - |head|];
          assert r[b] in rest;
        } else {
          assert r[a] == rest[a - |head|] && r[b] == rest[b - |head|];
        }
      }
    }
  }

  /** Derived from a frequency, the list never names the last iteration or
      one outside the run. */
  lemma MpnnItersRange(numIter: nat, freq: int)
    requires freq != 0 || numIter <= 1
    ensures MpnnIters(numIter, None, freq).Ok?
    ensures forall i :: i in MpnnIters(numIter, None, freq).value ==> 1 <= i < numIter
  {
    MultiplesFails(1, numIter, freq);
    if freq != 0 {
      MultiplesSpec(1, numIter, freq);
    }
  }
}
