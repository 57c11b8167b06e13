/** The command-line residue specifications of the JSON generator: a list of
    residues to mutate (`parse_mutres_input`) and groups of residues tied by
    symmetry (`parse_symmetric_res` with its three validity checks).

    A residue is written as a chain name followed by a residue number, as in
    "A12"; a range is two residues joined by '-', as in "A1-A5". Every
    exception the Python code raises becomes an `Err` naming its cause. */
module ResidueSpec {
  import opened Results
  import opened PyList
  import opened PyText

  /** A residue: a chain name and a residue number. */
  datatype ResId = ResId(chain: string, num: nat)

  datatype SpecError =
    | ResidueUnparsable(item: string)  // "Unable to parse residue"
    | NotAnInteger(text: string)       // `int()` rejects the text
    | RangeUnparsable(item: string)    // "Unable to parse residue range"
    | RangeCrossesChains(item: string) // "cannot span multiple chains"
    | RangeNotAscending(item: string)  // "starting index must be smaller"
    | UnequalSizes(item: string)       // "must be of the same size"
    | NoColon(item: string)            // "No colon detected"
    | UnpackMismatch(item: string)     // `start, finish = elem.split("-")` fails
    | NoResidueNumber(item: string)    // `re.split(...)[1]` is out of range

  /** The label `chain + str(num)` a residue is looked up under. */
  function Label(r: ResId): string {
    r.chain + NatToString(r.num)
  }

  /** `int(x)` for the texts that reach it: a non-empty run of ASCII digits
      is read as a number, a text without any digit is refused. */
  function ParseInt(x: string): (r: Result<nat, SpecError>)
    ensures r.Ok? <==> x != "" && AllDigits(x)
    ensures r.Ok? ==> r.value == ParseNat(x)
  {
    if x != "" && AllDigits(x) then Ok(ParseNat(x)) else Err(NotAnInteger(x))
  }

  // ---------------------------------------------------------------------
  // _check_res_validity

  /** `_check_res_validity`: the non-empty pieces of `re.split('(\d+)', item)`
      must be exactly two, a chain name and a number. */
  function CheckRes(item: string): Result<ResId, SpecError> {
    var items := NonEmpty(Pieces(DigitSplit(item)));
    if |items| != 2 then Err(ResidueUnparsable(item))
    else
      var n :- ParseInt(items[1]);
      Ok(ResId(items[0], n))
  }

  /** Accepted residues are exactly a non-empty digit-free chain name followed
      by digits and nothing else; the number is those digits read in base 10. */
  lemma CheckResShape(item: string)
    ensures var k := NonDigitPrefix(item);
      CheckRes(item).Ok? <==> 0 < k < |item| && AllDigits(item[k..])
    ensures var k := NonDigitPrefix(item);
      CheckRes(item).Ok? ==> CheckRes(item).value == ResId(item[..k], ParseNat(item[k..]))
  {
    var k := NonDigitPrefix(item);
    var p := DigitSplit(item);
    DigitSplitSound(item);
    assert p.text == item[..k];
    if p.Last? {
      assert k == |item|;
      CheckResRejects(item, p);
    } else {
      ShapeAfterChain(item, k, p);
      if p.rest.Last? {
        CheckResOneRun(item, k, p);
      } else {
        CheckResRejects(item, p);
      }
    }
  }

  /** Without a digit, or with two digit runs, a residue is refused. */
  lemma CheckResRejects(item: string, p: DigitPieces)
    requires p == DigitSplit(item) && WellSplit(p)
    requires p.Last? || p.rest.Cut?
    ensures CheckRes(item).Err?
  {
    KeptPieces(p);
  }

  /** A text with a single digit run passes exactly when the run ends it and
      a chain name precedes it. */
  lemma CheckResOneRun(item: string, k: nat, p: DigitPieces)
    requires p == DigitSplit(item) && WellSplit(p) && p.Cut? && p.rest.Last?
    requires k <= |item| && p.text == item[..k]
    requires AllDigits(item[k..]) <==> p.rest == Last("")
    requires p.rest == Last("") ==> item[k..] == p.run
    ensures CheckRes(item).Ok? <==> 0 < k && AllDigits(item[k..])
    ensures CheckRes(item).Ok? ==> CheckRes(item).value == ResId(item[..k], ParseNat(item[k..]))
  {
    var t, r, u := p.text, p.run, p.rest.text;
    KeptPieces(p);
    var items := NonEmpty(Pieces(p));
    if t == "" {
      if u != "" {
        assert items == [r, u];
        assert !AllDigits(u) by { assert !IsDigit(u[0]); }
      }
    } else if u == "" {
      assert items == [t] + [r] + [];
    } else {
      assert |items| == 3;
    }
  }

  /** What follows the chain name is the first digit run and the rest of the
      text; it is all digits exactly when the split ends right after the run. */
  lemma ShapeAfterChain(item: string, k: nat, p: DigitPieces)
    requires WellSplit(p) && Concat(p) == item && p.Cut? && k <= |item| && p.text == item[..k]
    ensures k < |item|
    ensures AllDigits(item[k..]) <==> p.rest == Last("")
    ensures p.rest == Last("") ==> item[k..] == p.run
  {
    var tail := Concat(p.rest);
    assert item == p.text + (p.run + tail);
    assert item[k..] == p.run + tail;
    if p.rest != Last("") {
      assert tail != "" && !IsDigit(tail[0]) by {
        if p.rest.Cut? {
          assert tail == p.rest.text + (p.rest.run + Concat(p.rest.rest));
        }
      }
      assert (p.run + tail)[|p.run|] == tail[0];
    }
  }

  /** The non-empty pieces of a split, shape by shape. */
  lemma KeptPieces(p: DigitPieces)
    requires WellSplit(p)
    ensures p.Last? ==> |NonEmpty(Pieces(p))| <= 1
    ensures p.Cut? && p.rest.Last? ==>
      NonEmpty(Pieces(p)) == (if p.text == "" then [] else [p.text]) + [p.run] + (if p.rest.text == "" then [] else [p.rest.text])
    ensures p.Cut? && p.rest.Cut? ==> |NonEmpty(Pieces(p))| >= 3
  {
    match p
    case Last(_) =>
    case Cut(t, r, Last(u)) =>
      assert Pieces(p) == [t, r, u];
      NonEmpty3(t, r, u);
    case Cut(t, r, Cut(t2, r2, rest)) =>
      assert Pieces(p) == [t, r] + ([t2, r2] + Pieces(rest));
      NonEmptyAtLeast3(t, r, t2, r2, Pieces(rest));
  }

  lemma NonEmptyCons(x: string, xs: seq<string>)
    ensures NonEmpty([x] + xs) == (if x == "" then [] else [x]) + NonEmpty(xs)
  {
    assert ([x] + xs)[1..] == xs;
  }

  lemma NonEmpty3(t: string, r: string, u: string)
    requires r != ""
    ensures NonEmpty([t, r, u]) == (if t == "" then [] else [t]) + [r] + (if u == "" then [] else [u])
  {
    NonEmptyCons(u, []);
    assert [r, u] == [r] + [u];
    NonEmptyCons(r, [u]);
    assert [t, r, u] == [t] + [r, u];
    NonEmptyCons(t, [r, u]);
  }

  lemma NonEmptyAtLeast3(t: string, r: string, t2: string, r2: string, more: seq<string>)
    requires r != "" && t2 != "" && r2 != ""
    ensures |NonEmpty([t, r] + ([t2, r2] + more))| >= 3
  {
    assert [t2, r2] + more == [t2] + ([r2] + more);
    NonEmptyCons(r2, more);
    NonEmptyCons(t2, [r2] + more);
    assert [t, r] + ([t2, r2] + more) == [t] + ([r] + ([t2, r2] + more));
    NonEmptyCons(r, [t2, r2] + more);
    NonEmptyCons(t, [r] + ([t2, r2] + more));
  }

  /** Writing a residue and checking it gives the residue back. */
  lemma CheckResLabel(r: ResId)
    requires r.chain != "" && NoDigits(r.chain)
    ensures CheckRes(Label(r)) == Ok(r)
  {
    var digits := NatToString(r.num);
    var p := Cut(r.chain, digits, Last(""));
    assert Concat(p) == Label(r);
    DigitSplitUnique(p, Label(r));
    KeptPieces(p);
    assert NonEmpty(Pieces(p)) == [r.chain, digits];
    ParseNatToString(r.num);
  }

  /** An accepted residue's split is a chain name and one digit run that
      ends the text; the run is the residue number. */
  lemma CheckResPieces(item: string)
    requires CheckRes(item).Ok?
    ensures DigitSplit(item).Cut? && DigitSplit(item).rest == Last("")
    ensures DigitSplit(item).text == CheckRes(item).value.chain
    ensures AllDigits(DigitSplit(item).run)
    ensures ParseNat(DigitSplit(item).run) == CheckRes(item).value.num
  {
    var k := NonDigitPrefix(item);
    var p := DigitSplit(item);
    CheckResShape(item);
    DigitSplitSound(item);
    assert p.text == item[..k];
    ShapeAfterChain(item, k, p);
  }

  // ---------------------------------------------------------------------
  // _check_range_validity

  /** The residues `(chain, i) for i in range(s, f + 1)`, in order; empty
      when f < s. */
  function ResRange(chain: string, s: nat, f: nat): (r: seq<ResId>)
    ensures |r| == if f < s then 0 else f - s + 1
  {
    seq(if f < s then 0 else f - s + 1, i requires 0 <= i => ResId(chain, s + i))
  }

  /** A range holds each residue of its chain between its ends, each once,
      in ascending order. */
  lemma ResRangeContents(chain: string, s: nat, f: nat)
    ensures forall r: ResId :: r in ResRange(chain, s, f) <==> r.chain == chain && s <= r.num <= f
    ensures forall i, j :: 0 <= i < j < |ResRange(chain, s, f)| ==>
      ResRange(chain, s, f)[i].num < ResRange(chain, s, f)[j].num
  {
    var rs := ResRange(chain, s, f);
    forall r: ResId | r.chain == chain && s <= r.num <= f ensures r in rs {
      assert rs[r.num - s] == r;
    }
  }

  /** `_check_range_validity`: exactly one '-', a valid residue on each side,
      one chain, and a start strictly below the end. */
  function CheckRange(item: string): Result<seq<ResId>, SpecError> {
    var parts := Split(item, '-');
    if |parts| != 2 then Err(RangeUnparsable(item))
    else
      var a :- CheckRes(parts[0]);
      var b :- CheckRes(parts[1]);
      if a.chain != b.chain then Err(RangeCrossesChains(item))
      else if a.num >= b.num then Err(RangeNotAscending(item))
      else Ok(ResRange(a.chain, a.num, b.num))
  }

  /** An accepted range covers at least two residues of one chain. */
  lemma CheckRangeResult(item: string)
    requires CheckRange(item).Ok?
    ensures var rs := CheckRange(item).value;
      |rs| >= 2 && forall i :: 0 <= i < |rs| ==> rs[i].chain == rs[0].chain && rs[i].num == rs[0].num + i
  {
    var parts := Split(item, '-');
    var a := CheckRes(parts[0]).value;
    var b := CheckRes(parts[1]).value;
    assert a.num < b.num && CheckRange(item).value == ResRange(a.chain, a.num, b.num);
    ResRangeSteps(a.chain, a.num, b.num);
  }

  lemma ResRangeSteps(chain: string, s: nat, f: nat)
    requires s < f
    ensures var rs := ResRange(chain, s, f);
      |rs| >= 2 && forall i :: 0 <= i < |rs| ==> rs[i].chain == rs[0].chain && rs[i].num == rs[0].num + i
  {
  }

  /** The text `"A3-A7"` of a range, from its two ends. */
  function RangeText(a: ResId, b: ResId): string {
    Label(a) + "-" + Label(b)
  }

  predicate ChainName(c: string) {
    c != "" && NoDigits(c) && '-' !in c && ':' !in c && ',' !in c
  }

  lemma LabelNoSep(r: ResId, sep: char)
    requires sep !in r.chain && !IsDigit(sep)
    ensures sep !in Label(r)
  {
    var d := NatToString(r.num);
    assert forall i :: 0 <= i < |d| ==> d[i] != sep;
  }

  lemma SplitRangeText(a: ResId, b: ResId)
    requires ChainName(a.chain) && ChainName(b.chain)
    ensures Split(RangeText(a, b), '-') == [Label(a), Label(b)]
  {
    LabelNoSep(a, '-');
    LabelNoSep(b, '-');
    assert Join([Label(a), Label(b)], '-') == RangeText(a, b) by {
      assert [Label(a), Label(b)][1..] == [Label(b)];
    }
    SplitJoin([Label(a), Label(b)], '-');
  }

  /** Writing a range and checking it: accepted with all residues from the
      first end to the second when the ends share a chain and ascend, refused
      for the matching reason otherwise. */
  lemma CheckRangeText(a: ResId, b: ResId)
    requires ChainName(a.chain) && ChainName(b.chain)
    ensures a.chain != b.chain ==> CheckRange(RangeText(a, b)) == Err(RangeCrossesChains(RangeText(a, b)))
    ensures a.chain == b.chain && a.num >= b.num ==> CheckRange(RangeText(a, b)) == Err(RangeNotAscending(RangeText(a, b)))
    ensures a.chain == b.chain && a.num < b.num ==> CheckRange(RangeText(a, b)) == Ok(ResRange(a.chain, a.num, b.num))
  {
    SplitRangeText(a, b);
    CheckResLabel(a);
    CheckResLabel(b);
  }

  /** Not exactly one '-' is refused before either end is looked at. */
  lemma CheckRangeDashes(item: string)
    requires multiset(item)['-'] != 1
    ensures CheckRange(item) == Err(RangeUnparsable(item))
  {
  }

  // ---------------------------------------------------------------------
  // _check_symmetry_validity: an insertion-ordered dict from sub-item text
  // to the residues it names

  /** One entry `symmetry_dict[key] = residues`. */
  datatype Tie = Tie(key: string, residues: seq<ResId>)

  predicate UniqueKeys(d: seq<Tie>) {
    forall i, j :: 0 <= i < j < |d| ==> d[i].key != d[j].key
  }

  predicate HasKey(d: seq<Tie>, key: string) {
    exists i :: 0 <= i < |d| && d[i].key == key
  }

  /** `d[key] = v` on an insertion-ordered dict: an existing key keeps its
      place and takes the new value; a new key goes at the end. */
  function Assign(d: seq<Tie>, key: string, v: seq<ResId>): (r: seq<Tie>)
    requires UniqueKeys(d)
    ensures HasKey(d, key) ==> |r| == |d|
    ensures HasKey(d, key) ==> forall i :: 0 <= i < |d| ==>
      r[i] == if d[i].key == key then Tie(key, v) else d[i]
    ensures !HasKey(d, key) ==> r == d + [Tie(key, v)]
    ensures UniqueKeys(r)
    decreases |d|
  {
    if |d| == 0 then [Tie(key, v)]
    else if d[0].key == key then
      [Tie(key, v)] + d[1..]
    else
      [d[0]] + Assign(d[1..], key, v)
  }

  /** The residues one sub-item names: a range, or a single residue. */
  function TieGroup(sub: string): Result<seq<ResId>, SpecError> {
    if '-' in sub then CheckRange(sub)
    else
      var r :- CheckRes(sub);
      Ok([r])
  }

  /** The loop over the sub-items, from left to right, stopping at the first
      that fails. */
  function BuildTies(subs: seq<string>, d: seq<Tie>): (r: Result<seq<Tie>, SpecError>)
    requires UniqueKeys(d)
    ensures r.Ok? ==> |r.value| >= |d|
    ensures r.Ok? && |subs| > 0 ==> |r.value| > 0
    ensures r.Ok? ==> UniqueKeys(r.value)
    decreases |subs|
  {
    if |subs| == 0 then Ok(d)
    else
      var v :- TieGroup(subs[0]);
      BuildTies(subs[1..], Assign(d, subs[0], v))
  }

  /** The keys of the dict, in insertion order. */
  function KeysOf(d: seq<Tie>): (ks: seq<string>)
    ensures |ks| == |d| && forall t :: 0 <= t < |d| ==> ks[t] == d[t].key
  {
    seq(|d|, t requires 0 <= t < |d| => d[t].key)
  }

  /** Every entry holds exactly the residues its key text names. */
  predicate GroupsMatch(d: seq<Tie>) {
    forall t :: 0 <= t < |d| ==> TieGroup(d[t].key) == Ok(d[t].residues)
  }

  /** Assigning a key leaves the key order alone when the key is there and
      appends it otherwise. */
  lemma AssignKeys(d: seq<Tie>, key: string, v: seq<ResId>)
    requires UniqueKeys(d)
    ensures KeysOf(Assign(d, key, v)) == if key in KeysOf(d) then KeysOf(d) else KeysOf(d) + [key]
  {
    var ks := KeysOf(d);
    var r := Assign(d, key, v);
    if key in ks {
      var t :| 0 <= t < |ks| && ks[t] == key;
      assert HasKey(d, key);
      assert forall i :: 0 <= i < |d| ==> KeysOf(r)[i] == ks[i];
    } else {
      assert !HasKey(d, key);
      assert KeysOf(r) == ks + [key];
    }
  }

  /** A dict whose keys are the distinct texts seen so far still is one
      after the next text is assigned. */
  lemma AssignDistinct(d: seq<Tie>, pre: seq<string>, key: string, v: seq<ResId>)
    requires UniqueKeys(d) && KeysOf(d) == Distinct(pre)
    ensures KeysOf(Assign(d, key, v)) == Distinct(pre + [key])
  {
    AssignKeys(d, key, v);
    DistinctSnoc(pre, key);
  }

  /** Assigning a key the residues its text names keeps every entry
      matching its key. */
  lemma AssignMatch(d: seq<Tie>, key: string, v: seq<ResId>)
    requires UniqueKeys(d) && GroupsMatch(d) && TieGroup(key) == Ok(v)
    ensures GroupsMatch(Assign(d, key, v))
  {
    var r := Assign(d, key, v);
    if HasKey(d, key) {
      forall t | 0 <= t < |r| ensures TieGroup(r[t].key) == Ok(r[t].residues) {
        assert r[t] == if d[t].key == key then Tie(key, v) else d[t];
      }
    } else {
      assert r == d + [Tie(key, v)];
      forall t | 0 <= t < |r| ensures TieGroup(r[t].key) == Ok(r[t].residues) {
        if t < |d| {
          assert r[t] == d[t];
        }
      }
    }
  }

  /** The loop succeeds exactly when every sub-item names residues. */
  lemma {:induction false} BuildTiesOk(subs: seq<string>, d: seq<Tie>)
    requires UniqueKeys(d)
    ensures BuildTies(subs, d).Ok? <==> AllParse(subs)
    decreases |subs|
  {
    if |subs| > 0 {
      var g := TieGroup(subs[0]);
      AllParseCons(subs);
      if g.Ok? {
        var d' := Assign(d, subs[0], g.value);
        assert BuildTies(subs, d) == BuildTies(subs[1..], d');
        BuildTiesOk(subs[1..], d');
      }
    }
  }

  /** The keys come out as the distinct sub-item texts in first-occurrence
      order, continuing the order the dict already had. */
  lemma {:induction false} BuildTiesKeys(subs: seq<string>, d: seq<Tie>, pre: seq<string>)
    requires UniqueKeys(d) && KeysOf(d) == Distinct(pre)
    requires BuildTies(subs, d).Ok?
    ensures KeysOf(BuildTies(subs, d).value) == Distinct(pre + subs)
    decreases |subs|
  {
    if |subs| == 0 {
      assert pre + subs == pre;
    } else {
      var v := TieGroup(subs[0]).value;
      var d' := Assign(d, subs[0], v);
      assert BuildTies(subs, d) == BuildTies(subs[1..], d');
      AssignDistinct(d, pre, subs[0], v);
      BuildTiesKeys(subs[1..], d', pre + [subs[0]]);
      SeqRegroup(pre, [subs[0]], subs[1..]);
      assert [subs[0]] + subs[1..] == subs;
    }
  }

  /** Each key keeps the residues its own text names: a repeated sub-item
      overwrites its entry with the same residues. */
  lemma {:induction false} BuildTiesMatch(subs: seq<string>, d: seq<Tie>)
    requires UniqueKeys(d) && GroupsMatch(d)
    requires BuildTies(subs, d).Ok?
    ensures GroupsMatch(BuildTies(subs, d).value)
    decreases |subs|
  {
    if |subs| > 0 {
      var v := TieGroup(subs[0]).value;
      var d' := Assign(d, subs[0], v);
      assert BuildTies(subs, d) == BuildTies(subs[1..], d');
      AssignMatch(d, subs[0], v);
      BuildTiesMatch(subs[1..], d');
    }
  }

  /** `sum([l == lens[0] for l in lens])`. */
  function CountEq(lens: seq<nat>, x: nat): (n: nat)
    ensures n <= |lens|
    decreases |lens|
  {
    if |lens| == 0 then 0
    else (if lens[0] == x then 1 else 0) + CountEq(lens[1..], x)
  }

  /** `[len(symmetry_dict[key]) for key in symmetry_dict]`. */
  function Sizes(d: seq<Tie>): (lens: seq<nat>)
    ensures |lens| == |d| && forall i :: 0 <= i < |d| ==> lens[i] == |d[i].residues|
  {
    seq(|d|, i requires 0 <= i < |d| => |d[i].residues|)
  }

  /** `_check_symmetry_validity`: split on ':', record each sub-item's
      residues, and demand that all groups have the size of the first. */
  function CheckSymmetry(item: string): Result<seq<Tie>, SpecError> {
    var d :- BuildTies(Split(item, ':'), []);
    var lens := Sizes(d);
    if CountEq(lens, lens[0]) / |lens| != 1 then Err(UnequalSizes(item)) else Ok(d)
  }

  /** The floor test on the share of sizes equal to the first one holds
      exactly when every size equals the first. */
  lemma {:induction false} CountEqAll(lens: seq<nat>, x: nat)
    ensures CountEq(lens, x) == |lens| <==> forall i :: 0 <= i < |lens| ==> lens[i] == x
    decreases |lens|
  {
    if |lens| > 0 {
      CountEqAll(lens[1..], x);
      if lens[0] == x {
        assert forall i :: 1 <= i < |lens| ==> lens[i] == lens[1..][i - 1];
      }
    }
  }

  lemma FloorShare(count: nat, n: nat)
    requires 0 < n && count <= n
    ensures count / n == 1 <==> count == n
  {
    if count < n {
      assert count / n == 0;
    }
  }

  /** Every sub-item names residues. */
  predicate AllParse(subs: seq<string>) {
    forall i :: 0 <= i < |subs| ==> TieGroup(subs[i]).Ok?
  }

  /** All sub-items name equally many residues. */
  predicate EqualSizes(subs: seq<string>)
    requires AllParse(subs)
  {
    forall i, j :: 0 <= i < |subs| && 0 <= j < |subs| ==> |TieGroup(subs[i]).value| == |TieGroup(subs[j]).value|
  }

  lemma AllParseCons(subs: seq<string>)
    requires |subs| > 0
    ensures AllParse(subs) <==> TieGroup(subs[0]).Ok? && AllParse(subs[1..])
  {
    assert forall i :: 1 <= i < |subs| ==> subs[i] == subs[1..][i - 1];
  }

  /** The loop from an empty dict: it succeeds exactly when every sub-item
      names residues; the keys are then the distinct sub-item texts in
      first-occurrence order, each holding the residues its text names. */
  lemma BuildTiesSpec(subs: seq<string>)
    ensures BuildTies(subs, []).Ok? <==> AllParse(subs)
    ensures BuildTies(subs, []).Ok? ==>
      KeysOf(BuildTies(subs, []).value) == Distinct(subs) && GroupsMatch(BuildTies(subs, []).value)
  {
    BuildTiesOk(subs, []);
    if BuildTies(subs, []).Ok? {
      var none: seq<string> := [];
      assert KeysOf([]) == Distinct(none);
      BuildTiesKeys(subs, [], none);
      assert none + subs == subs;
      BuildTiesMatch(subs, []);
    }
  }

  /** A symmetry item is accepted exactly when every sub-item names residues
      and all sub-items name equally many; the result then has one entry per
      distinct sub-item text, in first-occurrence order, holding the
      residues that text names. When every sub-item parses, the only
      refusal is the size check. */
  lemma CheckSymmetrySizes(item: string)
    ensures CheckSymmetry(item).Ok? <==> AllParse(Split(item, ':')) && EqualSizes(Split(item, ':'))
    ensures CheckSymmetry(item).Ok? ==>
      KeysOf(CheckSymmetry(item).value) == Distinct(Split(item, ':')) && GroupsMatch(CheckSymmetry(item).value)
    ensures CheckSymmetry(item).Ok? ==> UniqueKeys(CheckSymmetry(item).value)
    ensures CheckSymmetry(item).Err? && AllParse(Split(item, ':')) ==> CheckSymmetry(item).error == UnequalSizes(item)
  {
    var subs := Split(item, ':');
    BuildTiesSpec(subs);
    var b := BuildTies(subs, []);
    if b.Ok? {
      var d := b.value;
      var lens := Sizes(d);
      assert CheckSymmetry(item) == if CountEq(lens, lens[0]) / |lens| != 1 then Err(UnequalSizes(item)) else Ok(d);
      SameSizes(d);
      assert CheckSymmetry(item).Ok? <==> forall t :: 0 <= t < |d| ==> |d[t].residues| == |d[0].residues|;
      SizesAgree(subs, d);
    } else {
      assert CheckSymmetry(item).Err?;
    }
  }

  /** For a dict of the distinct sub-items, each holding its own residues,
      all groups have the size of the first exactly when all sub-items name
      equally many residues. */
  lemma SizesAgree(subs: seq<string>, d: seq<Tie>)
    requires |d| > 0 && KeysOf(d) == Distinct(subs) && GroupsMatch(d)
    requires AllParse(subs)
    ensures (forall t :: 0 <= t < |d| ==> |d[t].residues| == |d[0].residues|) <==> EqualSizes(subs)
  {
    var ks := KeysOf(d);
    if forall t :: 0 <= t < |d| ==> |d[t].residues| == |d[0].residues| {
      forall i, j | 0 <= i < |subs| && 0 <= j < |subs|
        ensures |TieGroup(subs[i]).value| == |TieGroup(subs[j]).value|
      {
        assert subs[i] in ks && subs[j] in ks;
        var ti :| 0 <= ti < |ks| && ks[ti] == subs[i];
        var tj :| 0 <= tj < |ks| && ks[tj] == subs[j];
        assert TieGroup(d[ti].key) == Ok(d[ti].residues);
        assert TieGroup(d[tj].key) == Ok(d[tj].residues);
      }
    }
    if EqualSizes(subs) {
      forall t | 0 <= t < |d| ensures |d[t].residues| == |d[0].residues| {
        assert ks[t] in subs && ks[0] in subs;
        var i :| 0 <= i < |subs| && subs[i] == ks[t];
        var j :| 0 <= j < |subs| && subs[j] == ks[0];
        assert TieGroup(d[t].key) == Ok(d[t].residues);
        assert TieGroup(d[0].key) == Ok(d[0].residues);
      }
    }
  }

  /** The floor test on the sizes of a non-empty list of groups passes
      exactly when all groups have the size of the first. */
  lemma SameSizes(d: seq<Tie>)
    requires |d| > 0
    ensures var lens := Sizes(d);
      CountEq(lens, lens[0]) / |lens| == 1 <==> forall i :: 0 <= i < |d| ==> |d[i].residues| == |d[0].residues|
  {
    var lens := Sizes(d);
    CountEqAll(lens, lens[0]);
    FloorShare(CountEq(lens, lens[0]), |lens|);
  }

  // ---------------------------------------------------------------------
  // parse_symmetric_res

  /** The comma-separated items of a command-line list: `s.strip().split(",")`
      with the empty items dropped. */
  function Items(s: string): (items: seq<string>)
    ensures forall i :: 0 <= i < |items| ==> items[i] != "" && ',' !in items[i]
  {
    var parts := Split(Strip(s), ',');
    var items := NonEmpty(parts);
    assert forall i :: 0 <= i < |items| ==> ',' !in items[i] by {
      forall i | 0 <= i < |items| ensures ',' !in items[i] {
        var j :| 0 <= j < |parts| && parts[j] == items[i];
      }
    }
    items
  }

  /** A loop over the items that applies f to each in order and stops at
      the first item f refuses, as the loops of both list parsers do. */
  function Each<T>(items: seq<string>, f: string -> Result<T, SpecError>): (r: Result<seq<T>, SpecError>)
    ensures r.Ok? ==> |r.value| == |items|
    decreases |items|
  {
    if |items| == 0 then Ok([])
    else
      var first :- f(items[0]);
      var rest :- Each(items[1..], f);
      Ok([first] + rest)
  }

  /** The loop succeeds exactly when every item does, and then result i is
      what f gives for item i. */
  lemma {:induction false} EachAll<T>(items: seq<string>, f: string -> Result<T, SpecError>)
    ensures Each(items, f).Ok? <==> forall i :: 0 <= i < |items| ==> f(items[i]).Ok?
    ensures Each(items, f).Ok? ==> forall i :: 0 <= i < |items| ==> Each(items, f).value[i] == f(items[i]).value
    decreases |items|
  {
    if |items| > 0 {
      EachAll(items[1..], f);
      assert forall i :: 1 <= i < |items| ==> items[i] == items[1..][i - 1];
    }
  }

  /** When items fail, the error reported is that of the first failing one. */
  lemma {:induction false} EachFirstError<T>(items: seq<string>, f: string -> Result<T, SpecError>, n: nat)
    requires n < |items| && f(items[n]).Err?
    requires forall i :: 0 <= i < n ==> f(items[i]).Ok?
    ensures Each(items, f) == Err(f(items[n]).error)
    decreases n
  {
    if n > 0 {
      assert forall i :: 0 <= i < n - 1 ==> items[1..][i] == items[i + 1];
      EachFirstError(items[1..], f, n - 1);
    }
  }

  lemma {:induction false} EachAppend<T>(a: seq<string>, b: seq<string>, f: string -> Result<T, SpecError>)
    ensures Each(a + b, f).Ok? <==> Each(a, f).Ok? && Each(b, f).Ok?
    ensures Each(a + b, f).Ok? ==> Each(a + b, f).value == Each(a, f).value + Each(b, f).value
    decreases |a|
  {
    if |a| == 0 {
      assert a + b == b;
    } else {
      assert (a + b)[0] == a[0] && (a + b)[1..] == a[1..] + b;
      EachAppend(a[1..], b, f);
    }
  }

  /** One item of `parse_symmetric_res`: it needs a colon, then must pass
      the symmetry check. */
  function SymmetryItem(item: string): Result<seq<Tie>, SpecError> {
    if ':' !in item then Err(NoColon(item)) else CheckSymmetry(item)
  }

  /** `parse_symmetric_res`. */
  function ParseSymmetricRes(s: string): Result<seq<seq<Tie>>, SpecError> {
    Each(Items(s), SymmetryItem)
  }

  /** The symmetry groups are accepted exactly when every item has a colon
      and passes the check; group i is then the check's result for item i. */
  lemma ParseSymmetricResAll(s: string)
    ensures var items := Items(s);
      ParseSymmetricRes(s).Ok? <==> forall i :: 0 <= i < |items| ==> ':' in items[i] && CheckSymmetry(items[i]).Ok?
    ensures var items := Items(s);
      ParseSymmetricRes(s).Ok? ==> (|ParseSymmetricRes(s).value| == |items| &&
        forall i :: 0 <= i < |items| ==> ParseSymmetricRes(s).value[i] == CheckSymmetry(items[i]).value)
  {
    EachAll(Items(s), SymmetryItem);
  }

  // ---------------------------------------------------------------------
  // parse_mutres_input

  /** The labels `chain + str(i) for i in range(s, f + 1)`. */
  function Labels(rs: seq<ResId>): (ls: seq<string>)
    ensures |ls| == |rs| && forall i :: 0 <= i < |rs| ==> ls[i] == Label(rs[i])
  {
    seq(|rs|, i requires 0 <= i < |rs| => Label(rs[i]))
  }

  /** One item of `parse_mutres_input`: an item without '-' is kept as it
      is; a range must have exactly two ends, each with a digit run, and
      expands to the residues of the first end's chain from the first run's
      number up to the second's (none when the second is smaller). */
  function ExpandItem(elem: string): Result<seq<string>, SpecError> {
    if '-' !in elem then Ok([elem])
    else
      var parts := Split(elem, '-');
      if |parts| != 2 then Err(UnpackMismatch(elem))
      else
        var start := DigitSplit(parts[0]);
        if start.Last? then Err(NoResidueNumber(parts[0]))
        else
          var finish := DigitSplit(parts[1]);
          if finish.Last? then Err(NoResidueNumber(parts[1]))
          else
            DigitSplitSound(parts[0]);
            DigitSplitSound(parts[1]);
            Ok(Labels(ResRange(start.text, ParseNat(start.run), ParseNat(finish.run))))
  }

  /** `parse_mutres_input`: the items' expansions, concatenated in order. */
  function ParseMutRes(s: string): Result<seq<string>, SpecError> {
    var expanded :- Each(Items(s), ExpandItem);
    Ok(Flatten(expanded))
  }

  /** A list without any range is returned unchanged. */
  lemma {:induction false} ExpandPlain(items: seq<string>)
    requires forall i :: 0 <= i < |items| ==> '-' !in items[i]
    ensures Each(items, ExpandItem).Ok?
    ensures Flatten(Each(items, ExpandItem).value) == items
    decreases |items|
  {
    if |items| > 0 {
      var init := items[..|items| - 1];
      ExpandPlain(init);
      EachAppend(init, [items[|items| - 1]], ExpandItem);
      assert init + [items[|items| - 1]] == items;
      var e := Each(items, ExpandItem).value;
      assert e == Each(init, ExpandItem).value + [[items[|items| - 1]]];
      assert e[..|e| - 1] == Each(init, ExpandItem).value;
    }
  }

  /** The residues to mutate are accepted exactly when every item is, and
      they are the items' expansions one after another. */
  lemma ParseMutResItems(s: string)
    ensures var items := Items(s);
      ParseMutRes(s).Ok? <==> forall i :: 0 <= i < |items| ==> ExpandItem(items[i]).Ok?
    ensures var items := Items(s);
      ParseMutRes(s).Ok? ==> ParseMutRes(s).value == Flatten(seq(|items|, i requires 0 <= i < |items| => ExpandItem(items[i]).value))
  {
    var items := Items(s);
    EachAll(items, ExpandItem);
    var e := Each(items, ExpandItem);
    if e.Ok? {
      assert e.value == seq(|items|, i requires 0 <= i < |items| => ExpandItem(items[i]).value);
    }
  }

  /** On a range the strict check accepts, the lenient expansion gives the
      labels of exactly the residues the check returns. */
  lemma ExpandAgreesWithCheck(elem: string)
    requires '-' in elem && CheckRange(elem).Ok?
    ensures ExpandItem(elem) == Ok(Labels(CheckRange(elem).value))
  {
    var parts := Split(elem, '-');
    CheckResPieces(parts[0]);
    CheckResPieces(parts[1]);
  }

  /** A written range expands to the labels of every residue from its first
      end to its second. */
  lemma ExpandRangeText(a: ResId, b: ResId)
    requires ChainName(a.chain) && ChainName(b.chain)
    ensures ExpandItem(RangeText(a, b)) == Ok(Labels(ResRange(a.chain, a.num, b.num)))
  {
    var elem := RangeText(a, b);
    SplitRangeText(a, b);
    assert elem[|Label(a)|] == '-';
    CheckResLabel(a);
    CheckResLabel(b);
    CheckResPieces(Label(a));
    CheckResPieces(Label(b));
  }
}
