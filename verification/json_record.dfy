/** The body of the JSON generator: from the residues of a structure it
    renumbers every residue within its chain, records each residue under its
    "chain + structure number" name, assembles one sequence per chain, lists
    the designable residues and rewrites the symmetry ties in per-chain
    numbering. The structure parser and the three-letter to one-letter
    residue code table are outside the model: the residues arrive as
    (chain, residue name, structure number) triples and the code table is a
    parameter. */
module JsonRecord {
  import opened Results
  import opened PyList
  import opened PyText
  import opened ResidueSpec
  import opened PyDict

  /** One residue of the structure, in file order. Its text form, the name
      the structure parser gives it, is `chain_resname_num`. */
  datatype Residue = Residue(chain: string, resname: string, num: int)

  function ResidueText(r: Residue): string {
    r.chain + "_" + r.resname + "_" + IntToString(r.num)
  }

  /** `chain + str(num_id)`: the name a residue is looked up under. */
  function PdbId(r: Residue): string {
    r.chain + IntToString(r.num)
  }

  /** `pdbids[pdbid] = (residue, chain, res_index_chain)`. */
  datatype PdbEntry = PdbEntry(residue: Residue, chain: string, index: nat)

  /** One element of the "designable" list. */
  datatype Designable = Designable(chain: string, resid: nat, wtaa: Option<string>, mutTo: string)

  /** The written document: one sequence per chain (in chain order), the
      designable residues and the symmetry ties. */
  datatype JsonDoc = JsonDoc(sequence: seq<(string, string)>, designable: seq<Designable>, symmetric: seq<seq<string>>)

  datatype JsonError =
    | NoChains                     // `chains[0]` on an empty chain list
    | UnknownChain(chain: string)  // `chain_seqs[chain]` for a chain not listed
    | MissingResidue(id: string)   // `pdbids[res_id]` for a residue not in the structure

  // ---------------------------------------------------------------------
  // Per-chain renumbering

  /** The loop's counter: `res_index_chain` restarts at 1 when the chain
      differs from the one being counted, and goes up by one per residue. */
  function Renumber(rs: seq<Residue>, chainTest: string, next: nat): (idx: seq<nat>)
    ensures |idx| == |rs|
    decreases |rs|
  {
    if |rs| == 0 then []
    else
      var restart := rs[0].chain != chainTest;
      var i := if restart then 1 else next;
      [i] + Renumber(rs[1..], rs[0].chain, i + 1)
  }

  /** The independent description: a residue's index is the length of the
      run of same-chain residues that ends with it. */
  function RunLength(rs: seq<Residue>, i: nat): (n: nat)
    requires i < |rs|
    ensures 1 <= n <= i + 1
    decreases i
  {
    if i > 0 && rs[i - 1].chain == rs[i].chain then RunLength(rs, i - 1) + 1 else 1
  }

  /** The counter after some residues have been numbered. */
  function CounterAfter(pre: seq<Residue>, first: string): (string, nat) {
    if |pre| == 0 then (first, 1) else (pre[|pre| - 1].chain, RunLength(pre, |pre| - 1) + 1)
  }

  /** The counter loop numbers each residue by its run length, whatever
      chain the loop starts from. */
  lemma RenumberRuns(rs: seq<Residue>, first: string)
    ensures forall i :: 0 <= i < |rs| ==> Renumber(rs, first, 1)[i] == RunLength(rs, i)
  {
    forall i | 0 <= i < |rs| ensures Renumber(rs, first, 1)[i] == RunLength(rs, i) {
      assert [] + rs == rs;
      RenumberSuffix([], rs, first, i);
    }
  }

  lemma {:induction false} RenumberSuffix(pre: seq<Residue>, rs: seq<Residue>, first: string, i: nat)
    requires i < |rs|
    ensures var (t, n) := CounterAfter(pre, first);
      Renumber(rs, t, n)[i] == RunLength(pre + rs, |pre| + i)
    decreases i
  {
    var (t, n) := CounterAfter(pre, first);
    var all := pre + rs;
    assert all[|pre|] == rs[0];
    if |pre| > 0 {
      assert all[|pre| - 1] == pre[|pre| - 1];
      RunLengthPrefix(pre, rs, |pre| - 1);
    }
    assert Renumber(rs, t, n)[0] == RunLength(all, |pre|);
    if i > 0 {
      var pre' := pre + [rs[0]];
      assert pre' + rs[1..] == all;
      assert pre'[..|pre'| - 1] == pre;
      RunLengthPrefix(pre', rs[1..], |pre|);
      RenumberSuffix(pre', rs[1..], first, i - 1);
    }
  }

  /** Run lengths look only backwards, so extending the list keeps them. */
  lemma {:induction false} RunLengthPrefix(a: seq<Residue>, b: seq<Residue>, i: nat)
    requires i < |a|
    ensures RunLength(a + b, i) == RunLength(a, i)
    decreases i
  {
    if i > 0 {
      RunLengthPrefix(a, b, i - 1);
    }
  }

  // ---------------------------------------------------------------------
  // pdbids: a dict written residue by residue, the last write winning

  /** The writes `pdbids[pdbid] = (residue, chain, index)` in loop order. */
  function Writes(rs: seq<Residue>, idx: seq<nat>): (ws: seq<(string, PdbEntry)>)
    requires |idx| == |rs|
    ensures |ws| == |rs|
    ensures forall i :: 0 <= i < |rs| ==> ws[i] == (PdbId(rs[i]), PdbEntry(rs[i], rs[i].chain, idx[i]))
  {
    seq(|rs|, i requires 0 <= i < |rs| => (PdbId(rs[i]), PdbEntry(rs[i], rs[i].chain, idx[i])))
  }

  /** `pdbids` after the first loop. */
  function PdbIds(rs: seq<Residue>, first: string): map<string, PdbEntry> {
    Store(Writes(rs, Renumber(rs, first, 1)))
  }

  /** Every residue is recorded under its name; the entry of the last
      residue with a given name holds that residue, its chain and its run
      length within the chain. */
  lemma PdbIdsEntries(rs: seq<Residue>, first: string)
    ensures forall k :: k in PdbIds(rs, first) <==> exists i :: 0 <= i < |rs| && PdbId(rs[i]) == k
    ensures forall i :: 0 <= i < |rs| && (forall j :: i < j < |rs| ==> PdbId(rs[j]) != PdbId(rs[i])) ==>
      PdbId(rs[i]) in PdbIds(rs, first) &&
      PdbIds(rs, first)[PdbId(rs[i])] == PdbEntry(rs[i], rs[i].chain, RunLength(rs, i))
  {
    PdbIdsKeys(rs, first);
    forall i | 0 <= i < |rs| && (forall j :: i < j < |rs| ==> PdbId(rs[j]) != PdbId(rs[i]))
      ensures PdbId(rs[i]) in PdbIds(rs, first)
      ensures PdbIds(rs, first)[PdbId(rs[i])] == PdbEntry(rs[i], rs[i].chain, RunLength(rs, i))
    {
      PdbIdsLast(rs, first, i);
    }
  }

  lemma PdbIdsKeys(rs: seq<Residue>, first: string)
    ensures forall k :: k in PdbIds(rs, first) <==> exists i :: 0 <= i < |rs| && PdbId(rs[i]) == k
  {
    var ws := Writes(rs, Renumber(rs, first, 1));
    StoreKeys(ws);
    forall k ensures k in Store(ws) <==> exists i :: 0 <= i < |rs| && PdbId(rs[i]) == k {
      if k in Store(ws) {
        var i :| 0 <= i < |ws| && ws[i].0 == k;
        assert PdbId(rs[i]) == k;
      }
      if exists i :: 0 <= i < |rs| && PdbId(rs[i]) == k {
        var i :| 0 <= i < |rs| && PdbId(rs[i]) == k;
        assert ws[i].0 == k;
      }
    }
  }

  lemma PdbIdsLast(rs: seq<Residue>, first: string, i: nat)
    requires i < |rs| && forall j :: i < j < |rs| ==> PdbId(rs[j]) != PdbId(rs[i])
    ensures PdbId(rs[i]) in PdbIds(rs, first)
    ensures PdbIds(rs, first)[PdbId(rs[i])] == PdbEntry(rs[i], rs[i].chain, RunLength(rs, i))
  {
    var idx := Renumber(rs, first, 1);
    var ws := Writes(rs, idx);
    assert forall j :: i < j < |ws| ==> ws[j].0 != ws[i].0;
    StoreLast(ws, i);
    RenumberRuns(rs, first);
    assert ws[i].1 == PdbEntry(rs[i], rs[i].chain, idx[i]);
  }

  // ---------------------------------------------------------------------
  // chain_seqs

  /** The loop's appends `chain_seqs[chain].append(three_to_one(resname))`:
      a residue of a chain that is not a key raises. */
  function AppendCodes(rs: seq<Residue>, d: map<string, seq<Option<string>>>, toOne: string -> Option<string>)
    : (r: Result<map<string, seq<Option<string>>>, JsonError>)
    decreases |rs|
  {
    if |rs| == 0 then Ok(d)
    else if rs[0].chain !in d then Err(UnknownChain(rs[0].chain))
    else
      var c := rs[0].chain;
      AppendCodes(rs[1..], d[c := d[c] + [toOne(rs[0].resname)]], toOne)
  }

  /** The independent description: the codes of a chain's residues, in
      structure order. */
  function CodesOf(rs: seq<Residue>, c: string, toOne: string -> Option<string>): (r: seq<Option<string>>)
    ensures |r| <= |rs|
    decreases |rs|
  {
    if |rs| == 0 then []
    else (if rs[0].chain == c then [toOne(rs[0].resname)] else []) + CodesOf(rs[1..], c, toOne)
  }

  /** The append loop succeeds exactly when every residue's chain is a key;
      each key then holds its old list followed by the codes of its chain's
      residues, in order, and no key is added. */
  lemma AppendCodesSpec(rs: seq<Residue>, d: map<string, seq<Option<string>>>, toOne: string -> Option<string>)
    ensures AppendCodes(rs, d, toOne).Ok? <==> forall i :: 0 <= i < |rs| ==> rs[i].chain in d
    ensures AppendCodes(rs, d, toOne).Ok? ==>
      AppendCodes(rs, d, toOne).value.Keys == d.Keys &&
      forall c :: c in d ==> AppendCodes(rs, d, toOne).value[c] == d[c] + CodesOf(rs, c, toOne)
  {
    AppendCodesOk(rs, d, toOne);
    if AppendCodes(rs, d, toOne).Ok? {
      AppendCodesValue(rs, d, toOne);
    }
  }

  lemma {:induction false} AppendCodesOk(rs: seq<Residue>, d: map<string, seq<Option<string>>>, toOne: string -> Option<string>)
    ensures AppendCodes(rs, d, toOne).Ok? <==> forall i :: 0 <= i < |rs| ==> rs[i].chain in d
    decreases |rs|
  {
    if |rs| > 0 && rs[0].chain in d {
      var c0 := rs[0].chain;
      assert forall i :: 1 <= i < |rs| ==> rs[1..][i - 1] == rs[i];
      AppendCodesOk(rs[1..], d[c0 := d[c0] + [toOne(rs[0].resname)]], toOne);
    }
  }

  lemma {:induction false} AppendCodesValue(rs: seq<Residue>, d: map<string, seq<Option<string>>>, toOne: string -> Option<string>)
    requires AppendCodes(rs, d, toOne).Ok?
    ensures AppendCodes(rs, d, toOne).value.Keys == d.Keys
    ensures forall c :: c in d ==> AppendCodes(rs, d, toOne).value[c] == d[c] + CodesOf(rs, c, toOne)
    decreases |rs|
  {
    if |rs| > 0 {
      var c0 := rs[0].chain;
      var d' := d[c0 := d[c0] + [toOne(rs[0].resname)]];
      AppendCodesValue(rs[1..], d', toOne);
      forall c | c in d ensures AppendCodes(rs, d, toOne).value[c] == d[c] + CodesOf(rs, c, toOne) {
        if c == c0 {
          assert d'[c] + CodesOf(rs[1..], c, toOne) == d[c] + ([toOne(rs[0].resname)] + CodesOf(rs[1..], c, toOne));
        } else {
          assert CodesOf(rs, c, toOne) == [] + CodesOf(rs[1..], c, toOne);
        }
      }
    }
  }

  /** `"".join([x for x in codes if x is not None])`. */
  function JoinKnown(codes: seq<Option<string>>): string
    decreases |codes|
  {
    if |codes| == 0 then ""
    else (if codes[0].Some? then codes[0].value else "") + JoinKnown(codes[1..])
  }

  lemma {:induction false} JoinKnownAppend(a: seq<Option<string>>, b: seq<Option<string>>)
    ensures JoinKnown(a + b) == JoinKnown(a) + JoinKnown(b)
    decreases |a|
  {
    if |a| == 0 {
      assert a + b == b;
    } else {
      assert (a + b)[1..] == a[1..] + b;
      JoinKnownAppend(a[1..], b);
    }
  }

  /** The sequence of one chain: the known one-letter codes of its residues
      in structure order. */
  function ChainSeq(rs: seq<Residue>, c: string, toOne: string -> Option<string>): string {
    JoinKnown(CodesOf(rs, c, toOne))
  }

  /** The dict each chain starts from: `chain_seqs[chain] = []`. */
  function EmptyLists(chains: seq<string>): (d: map<string, seq<Option<string>>>)
    ensures d.Keys == set c | c in chains
    ensures forall c :: c in d ==> d[c] == []
  {
    map c | c in chains :: []
  }

  /** The "sequence" member: per distinct chain, in chain order, the chain's
      sequence; refused when a residue lies on a chain that is not listed. */
  function Sequences(chains: seq<string>, rs: seq<Residue>, toOne: string -> Option<string>)
    : Result<seq<(string, string)>, JsonError>
  {
    var lists :- AppendCodes(rs, EmptyLists(chains), toOne);
    var keys := Distinct(chains);
    AppendCodesSpec(rs, EmptyLists(chains), toOne);
    Ok(Table(keys, lists))
  }

  function Table(keys: seq<string>, lists: map<string, seq<Option<string>>>): (r: seq<(string, string)>)
    requires forall i :: 0 <= i < |keys| ==> keys[i] in lists
    ensures |r| == |keys| && forall i :: 0 <= i < |keys| ==> r[i] == (keys[i], JoinKnown(lists[keys[i]]))
  {
    seq(|keys|, i requires 0 <= i < |keys| => (keys[i], JoinKnown(lists[keys[i]])))
  }

  /** Each listed chain appears once, in first-listed order, with the known
      codes of its residues; unlisted chains are an error. */
  lemma SequencesSpec(chains: seq<string>, rs: seq<Residue>, toOne: string -> Option<string>)
    ensures Sequences(chains, rs, toOne).Ok? <==> forall i :: 0 <= i < |rs| ==> rs[i].chain in chains
    ensures Sequences(chains, rs, toOne).Ok? ==>
      var out := Sequences(chains, rs, toOne).value;
      |out| == |Distinct(chains)| &&
      forall i :: 0 <= i < |out| ==> out[i] == (Distinct(chains)[i], ChainSeq(rs, Distinct(chains)[i], toOne))
  {
    var d := EmptyLists(chains);
    AppendCodesSpec(rs, d, toOne);
    var a := AppendCodes(rs, d, toOne);
    assert a.Ok? <==> forall i :: 0 <= i < |rs| ==> rs[i].chain in chains;
    if a.Ok? {
      var keys := Distinct(chains);
      var out := Sequences(chains, rs, toOne).value;
      assert out == Table(keys, a.value);
      forall i | 0 <= i < |keys| ensures out[i] == (keys[i], ChainSeq(rs, keys[i], toOne)) {
        var c := keys[i];
        assert c in d;
        var codes := CodesOf(rs, c, toOne);
        assert a.value[c] == d[c] + codes;
        assert d[c] + codes == codes by { assert d[c] == []; }
      }
    }
  }

  // ---------------------------------------------------------------------
  // The designable list

  /** The requested residues found in `pdbids`, in request order, each with
      its chain, per-chain index, wild-type code and the default setting. */
  function Designables(mutRes: seq<string>, ids: map<string, PdbEntry>, toOne: string -> Option<string>, default: string)
    : (ds: seq<Designable>)
    ensures |ds| <= |mutRes|
    decreases |mutRes|
  {
    if |mutRes| == 0 then []
    else
      var first := if mutRes[0] in ids then
        var e := ids[mutRes[0]];
        [Designable(e.chain, e.index, toOne(e.residue.resname), default)]
      else [];
      first + Designables(mutRes[1..], ids, toOne, default)
  }

  /** Requests are handled one by one: the list for two request lists in a
      row is the two lists in a row. */
  lemma {:induction false} DesignablesAppend(a: seq<string>, b: seq<string>, ids: map<string, PdbEntry>, toOne: string -> Option<string>, default: string)
    ensures Designables(a + b, ids, toOne, default) == Designables(a, ids, toOne, default) + Designables(b, ids, toOne, default)
    decreases |a|
  {
    if |a| == 0 {
      assert a + b == b;
    } else {
      assert (a + b)[0] == a[0] && (a + b)[1..] == a[1..] + b;
      DesignablesAppend(a[1..], b, ids, toOne, default);
    }
  }

  /** `[x for x in mut_res if x in pdbids]`. */
  function Found(mutRes: seq<string>, ids: map<string, PdbEntry>): (r: seq<string>)
    ensures forall x :: x in r <==> x in mutRes && x in ids
    decreases |mutRes|
  {
    if |mutRes| == 0 then []
    else
      var rest := Found(mutRes[1..], ids);
      assert forall x :: x in mutRes <==> x == mutRes[0] || x in mutRes[1..] by {
        assert mutRes == [mutRes[0]] + mutRes[1..];
      }
      (if mutRes[0] in ids then [mutRes[0]] else []) + rest
  }

  /** The designable list is the found requests, in request order, each
      turned into its chain, per-chain index, wild-type code and the default
      setting. */
  lemma {:induction false} DesignablesFound(mutRes: seq<string>, ids: map<string, PdbEntry>, toOne: string -> Option<string>, default: string)
    ensures var ds := Designables(mutRes, ids, toOne, default);
      var f := Found(mutRes, ids);
      |ds| == |f| &&
      forall i :: 0 <= i < |f| ==> (f[i] in ids &&
        ds[i] == Designable(ids[f[i]].chain, ids[f[i]].index, toOne(ids[f[i]].residue.resname), default))
    decreases |mutRes|
  {
    if |mutRes| > 0 {
      DesignablesFound(mutRes[1..], ids, toOne, default);
    }
  }

  // ---------------------------------------------------------------------
  // Symmetric ties

  /** A residue's name in per-chain numbering: `chain + str(index)`. */
  function Renamed(e: PdbEntry): string {
    e.chain + NatToString(e.index)
  }

  /** One tied position: every residue is looked up in order (a missing one
      raises); a residue whose text is "X" drops the whole tie; otherwise the
      tie lists the residues renamed in per-chain numbering. */
  function TieLabels(tied: seq<ResId>, ids: map<string, PdbEntry>): Result<Option<seq<string>>, JsonError>
    decreases |tied|
  {
    if |tied| == 0 then Ok(Some([]))
    else
      var id := Label(tied[0]);
      if id !in ids then Err(MissingResidue(id))
      else if ResidueText(ids[id].residue) == "X" then Ok(None)
      else
        var rest :- TieLabels(tied[1..], ids);
        if rest.None? then Ok(None) else Ok(Some([Renamed(ids[id])] + rest.value))
  }

  /** The ties of every position, in order, dropping skipped ones. */
  function PositionTies(positions: seq<seq<ResId>>, ids: map<string, PdbEntry>): Result<seq<seq<string>>, JsonError>
    decreases |positions|
  {
    if |positions| == 0 then Ok([])
    else
      var t :- TieLabels(positions[0], ids);
      var rest :- PositionTies(positions[1..], ids);
      Ok((if t.Some? then [t.value] else []) + rest)
  }

  /** The residue lists of a symmetry dict, in key order:
      `list(symmetry.values())`. */
  function Groups(symmetry: seq<Tie>): (gs: seq<seq<ResId>>)
    ensures |gs| == |symmetry| && forall c :: 0 <= c < |gs| ==> gs[c] == symmetry[c].residues
  {
    seq(|symmetry|, c requires 0 <= c < |symmetry| => symmetry[c].residues)
  }

  /** The "symmetric" member: for each symmetry dict, one tie per position
      of `zip(*values)`. */
  function SymmetricTies(symRes: seq<seq<Tie>>, ids: map<string, PdbEntry>): Result<seq<seq<string>>, JsonError>
    decreases |symRes|
  {
    if |symRes| == 0 then Ok([])
    else
      var first :- PositionTies(Zip(Groups(symRes[0])), ids);
      var rest :- SymmetricTies(symRes[1..], ids);
      Ok(first + rest)
  }

  /** A residue's text contains two underscores, so it is never "X" and no
      tie is ever skipped. */
  lemma ResidueTextNotX(r: Residue)
    ensures ResidueText(r) != "X"
  {
    assert |ResidueText(r)| >= 2;
  }

  /** The residues renamed in per-chain numbering, in order. */
  function RenamedAll(tied: seq<ResId>, ids: map<string, PdbEntry>): (r: seq<string>)
    requires forall k :: 0 <= k < |tied| ==> Label(tied[k]) in ids
    ensures |r| == |tied| && forall k :: 0 <= k < |tied| ==> r[k] == Renamed(ids[Label(tied[k])])
  {
    seq(|tied|, k requires 0 <= k < |tied| => Renamed(ids[Label(tied[k])]))
  }

  /** With every residue of the tie present, the tie is the residues
      renamed in per-chain numbering, in order. */
  lemma {:induction false} TieLabelsPresent(tied: seq<ResId>, ids: map<string, PdbEntry>)
    requires forall k :: 0 <= k < |tied| ==> Label(tied[k]) in ids
    ensures TieLabels(tied, ids) == Ok(Some(RenamedAll(tied, ids)))
    decreases |tied|
  {
    if |tied| > 0 {
      var id := Label(tied[0]);
      ResidueTextNotX(ids[id].residue);
      assert forall k :: 1 <= k < |tied| ==> tied[1..][k - 1] == tied[k];
      TieLabelsPresent(tied[1..], ids);
      assert RenamedAll(tied, ids) == [Renamed(ids[id])] + RenamedAll(tied[1..], ids);
    }
  }

  /** Otherwise the first missing residue is reported. */
  lemma {:induction false} TieLabelsMissing(tied: seq<ResId>, ids: map<string, PdbEntry>, n: nat)
    requires n < |tied| && Label(tied[n]) !in ids
    requires forall k :: 0 <= k < n ==> Label(tied[k]) in ids
    ensures TieLabels(tied, ids) == Err(MissingResidue(Label(tied[n])))
    decreases n
  {
    if n > 0 {
      ResidueTextNotX(ids[Label(tied[0])].residue);
      assert forall k :: 0 <= k < n - 1 ==> tied[1..][k] == tied[k + 1];
      TieLabelsMissing(tied[1..], ids, n - 1);
    }
  }

  /** With every residue present, no position is dropped: tie i is position
      i renamed. */
  lemma {:induction false} PositionTiesPresent(positions: seq<seq<ResId>>, ids: map<string, PdbEntry>)
    requires forall i, k :: 0 <= i < |positions| && 0 <= k < |positions[i]| ==> Label(positions[i][k]) in ids
    ensures PositionTies(positions, ids).Ok?
    ensures |PositionTies(positions, ids).value| == |positions|
    ensures forall i :: 0 <= i < |positions| ==> PositionTies(positions, ids).value[i] == RenamedAll(positions[i], ids)
    decreases |positions|
  {
    if |positions| > 0 {
      TieLabelsPresent(positions[0], ids);
      assert forall i :: 1 <= i < |positions| ==> positions[1..][i - 1] == positions[i];
      PositionTiesPresent(positions[1..], ids);
    }
  }

  /** For a symmetry dict whose groups all have n residues, all present in
      the structure: there are n ties, and tie i holds the i-th residue of
      every group, in key order, renamed in per-chain numbering. */
  lemma SymmetryTies(symmetry: seq<Tie>, n: nat, ids: map<string, PdbEntry>)
    requires |symmetry| > 0
    requires forall c :: 0 <= c < |symmetry| ==> |symmetry[c].residues| == n
    requires forall c, i :: 0 <= c < |symmetry| && 0 <= i < n ==> Label(symmetry[c].residues[i]) in ids
    ensures PositionTies(Zip(Groups(symmetry)), ids).Ok?
    ensures var ties := PositionTies(Zip(Groups(symmetry)), ids).value;
      |ties| == n &&
      forall i, c :: 0 <= i < n && 0 <= c < |symmetry| ==>
        |ties[i]| == |symmetry| && ties[i][c] == Renamed(ids[Label(symmetry[c].residues[i])])
  {
    var gs := Groups(symmetry);
    ZipRectangular(gs, n);
    var z := Zip(gs);
    assert forall i, c :: 0 <= i < n && 0 <= c < |gs| ==> z[i][c] == symmetry[c].residues[i];
    PositionTiesPresent(z, ids);
  }

  /** Every residue of every tied position is in `pdbids`. */
  predicate TiedPresent(positions: seq<seq<ResId>>, ids: map<string, PdbEntry>) {
    forall i, k :: 0 <= i < |positions| && 0 <= k < |positions[i]| ==> Label(positions[i][k]) in ids
  }

  /** The ties of one symmetry dict when all its zipped residues are
      present: position i of `zip(*values)` renamed in per-chain numbering. */
  function DictTies(symmetry: seq<Tie>, ids: map<string, PdbEntry>): (ts: seq<seq<string>>)
    requires TiedPresent(Zip(Groups(symmetry)), ids)
    ensures |ts| == |Zip(Groups(symmetry))|
  {
    var z := Zip(Groups(symmetry));
    seq(|z|, i requires 0 <= i < |z| => RenamedAll(z[i], ids))
  }

  /** The ties of every symmetry dict, one list per dict. */
  function AllTies(symRes: seq<seq<Tie>>, ids: map<string, PdbEntry>): (tss: seq<seq<seq<string>>>)
    requires forall s :: 0 <= s < |symRes| ==> TiedPresent(Zip(Groups(symRes[s])), ids)
    ensures |tss| == |symRes|
  {
    seq(|symRes|, s requires 0 <= s < |symRes| => DictTies(symRes[s], ids))
  }

  /** Some residue of the tie is missing: the lookup raises a missing
      residue error. */
  lemma {:induction false} TieLabelsAbsent(tied: seq<ResId>, ids: map<string, PdbEntry>)
    requires exists k :: 0 <= k < |tied| && Label(tied[k]) !in ids
    ensures TieLabels(tied, ids).Err? && TieLabels(tied, ids).error.MissingResidue?
    decreases |tied|
  {
    var id := Label(tied[0]);
    if id in ids {
      ResidueTextNotX(ids[id].residue);
      var k :| 0 <= k < |tied| && Label(tied[k]) !in ids;
      assert tied[1..][k - 1] == tied[k];
      TieLabelsAbsent(tied[1..], ids);
    }
  }

  /** The positions of one dict are looked up without error exactly when
      every residue in them is present; the only error is a missing
      residue. */
  lemma {:induction false} PositionTiesOk(positions: seq<seq<ResId>>, ids: map<string, PdbEntry>)
    ensures PositionTies(positions, ids).Ok? <==> TiedPresent(positions, ids)
    ensures PositionTies(positions, ids).Err? ==> PositionTies(positions, ids).error.MissingResidue?
    decreases |positions|
  {
    if |positions| > 0 {
      var p := positions[0];
      assert forall i :: 1 <= i < |positions| ==> positions[1..][i - 1] == positions[i];
      PositionTiesOk(positions[1..], ids);
      if forall k :: 0 <= k < |p| ==> Label(p[k]) in ids {
        TieLabelsPresent(p, ids);
        assert TiedPresent(positions, ids) <==> TiedPresent(positions[1..], ids);
      } else {
        TieLabelsAbsent(p, ids);
      }
    }
  }

  /** With every zipped residue present, a dict's ties are its positions
      renamed. */
  lemma DictTiesValue(symmetry: seq<Tie>, ids: map<string, PdbEntry>)
    requires TiedPresent(Zip(Groups(symmetry)), ids)
    ensures PositionTies(Zip(Groups(symmetry)), ids) == Ok(DictTies(symmetry, ids))
  {
    var z := Zip(Groups(symmetry));
    PositionTiesPresent(z, ids);
    var ts := DictTies(symmetry, ids);
    assert forall i :: 0 <= i < |z| ==> ts[i] == RenamedAll(z[i], ids);
    assert PositionTies(z, ids).value == ts;
  }

  /** The "symmetric" member is built exactly when every zipped residue of
      every dict is present, and is then the ties of the dicts one after
      another; the only error is a missing residue. */
  lemma SymmetricTiesSpec(symRes: seq<seq<Tie>>, ids: map<string, PdbEntry>)
    ensures SymmetricTies(symRes, ids).Ok? <==> forall s :: 0 <= s < |symRes| ==> TiedPresent(Zip(Groups(symRes[s])), ids)
    ensures SymmetricTies(symRes, ids).Ok? ==> SymmetricTies(symRes, ids).value == Flatten(AllTies(symRes, ids))
    ensures SymmetricTies(symRes, ids).Err? ==> SymmetricTies(symRes, ids).error.MissingResidue?
  {
    SymmetricTiesOk(symRes, ids);
    if SymmetricTies(symRes, ids).Ok? {
      SymmetricTiesValue(symRes, ids);
    }
  }

  lemma {:induction false} SymmetricTiesOk(symRes: seq<seq<Tie>>, ids: map<string, PdbEntry>)
    ensures SymmetricTies(symRes, ids).Ok? <==> forall s :: 0 <= s < |symRes| ==> TiedPresent(Zip(Groups(symRes[s])), ids)
    ensures SymmetricTies(symRes, ids).Err? ==> SymmetricTies(symRes, ids).error.MissingResidue?
    decreases |symRes|
  {
    if |symRes| > 0 {
      assert forall s :: 1 <= s < |symRes| ==> symRes[1..][s - 1] == symRes[s];
      PositionTiesOk(Zip(Groups(symRes[0])), ids);
      SymmetricTiesOk(symRes[1..], ids);
    }
  }

  lemma AllTiesCons(symRes: seq<seq<Tie>>, ids: map<string, PdbEntry>)
    requires |symRes| > 0
    requires forall s :: 0 <= s < |symRes| ==> TiedPresent(Zip(Groups(symRes[s])), ids)
    ensures forall s :: 0 <= s < |symRes[1..]| ==> TiedPresent(Zip(Groups(symRes[1..][s])), ids)
    ensures AllTies(symRes, ids) == [DictTies(symRes[0], ids)] + AllTies(symRes[1..], ids)
  {
    var rest := symRes[1..];
    assert forall s :: 0 <= s < |rest| ==> rest[s] == symRes[s + 1];
  }

  lemma {:induction false} SymmetricTiesValue(symRes: seq<seq<Tie>>, ids: map<string, PdbEntry>)
    requires forall s :: 0 <= s < |symRes| ==> TiedPresent(Zip(Groups(symRes[s])), ids)
    ensures SymmetricTies(symRes, ids) == Ok(Flatten(AllTies(symRes, ids)))
    decreases |symRes|
  {
    if |symRes| > 0 {
      var rest := symRes[1..];
      assert forall s :: 0 <= s < |rest| ==> rest[s] == symRes[s + 1];
      DictTiesValue(symRes[0], ids);
      SymmetricTiesValue(rest, ids);
      var first := DictTies(symRes[0], ids);
      AllTiesCons(symRes, ids);
      FlattenCons(first, AllTies(rest, ids));
    }
  }

  /** Every residue of every group present in `pdbids` leaves nothing for
      the zipped lookup to miss. */
  lemma GroupsPresent(symmetry: seq<Tie>, ids: map<string, PdbEntry>)
    requires forall c, i :: 0 <= c < |symmetry| && 0 <= i < |symmetry[c].residues| ==> Label(symmetry[c].residues[i]) in ids
    ensures TiedPresent(Zip(Groups(symmetry)), ids)
  {
    ZipAt(Groups(symmetry));
  }

  /** With every residue of every group present in `pdbids`, the
      "symmetric" member is built. */
  lemma SymmetricTiesPresent(symRes: seq<seq<Tie>>, ids: map<string, PdbEntry>)
    requires forall s, c, i :: 0 <= s < |symRes| && 0 <= c < |symRes[s]| && 0 <= i < |symRes[s][c].residues| ==>
      Label(symRes[s][c].residues[i]) in ids
    ensures SymmetricTies(symRes, ids).Ok?
  {
    forall s | 0 <= s < |symRes| ensures TiedPresent(Zip(Groups(symRes[s])), ids) {
      GroupsPresent(symRes[s], ids);
    }
    SymmetricTiesOk(symRes, ids);
  }

  // ---------------------------------------------------------------------
  // generate_json

  /** The document `generate_json` writes. */
  function GenerateJson(chains: seq<string>, rs: seq<Residue>, mutRes: seq<string>, default: string,
                        symRes: seq<seq<Tie>>, toOne: string -> Option<string>): Result<JsonDoc, JsonError>
  {
    if |chains| == 0 then Err(NoChains)
    else
      var ids := PdbIds(rs, chains[0]);
      var sequence :- Sequences(chains, rs, toOne);
      var symmetric :- SymmetricTies(symRes, ids);
      Ok(JsonDoc(sequence, Designables(mutRes, ids, toOne, default), symmetric))
  }

  /** The names and indices recorded do not depend on which chain the
      counter starts from. */
  lemma PdbIdsStart(rs: seq<Residue>, a: string, b: string)
    ensures PdbIds(rs, a) == PdbIds(rs, b)
  {
    RenumberRuns(rs, a);
    RenumberRuns(rs, b);
    assert Renumber(rs, a, 1) == Renumber(rs, b, 1);
  }

  /** The document fails for an empty chain list and for a residue on an
      unlisted chain, before any tie is looked at; otherwise its sequences
      are the chains' known codes and its designable list holds the found
      requests. */
  lemma GenerateJsonSpec(chains: seq<string>, rs: seq<Residue>, mutRes: seq<string>, default: string,
                         symRes: seq<seq<Tie>>, toOne: string -> Option<string>)
    ensures |chains| == 0 ==> GenerateJson(chains, rs, mutRes, default, symRes, toOne) == Err(NoChains)
    ensures |chains| > 0 && (exists i :: 0 <= i < |rs| && rs[i].chain !in chains) ==>
      GenerateJson(chains, rs, mutRes, default, symRes, toOne).Err? &&
      GenerateJson(chains, rs, mutRes, default, symRes, toOne).error.UnknownChain?
    ensures GenerateJson(chains, rs, mutRes, default, symRes, toOne).Ok? ==>
      var doc := GenerateJson(chains, rs, mutRes, default, symRes, toOne).value;
      (forall i :: 0 <= i < |rs| ==> rs[i].chain in chains) &&
      |doc.sequence| == |Distinct(chains)| &&
      (forall i :: 0 <= i < |doc.sequence| ==> doc.sequence[i] == (Distinct(chains)[i], ChainSeq(rs, Distinct(chains)[i], toOne))) &&
      |doc.designable| == |Found(mutRes, PdbIds(rs, chains[0]))|
  {
    if |chains| > 0 {
      if exists i :: 0 <= i < |rs| && rs[i].chain !in chains {
        GenerateJsonUnknownChain(chains, rs, mutRes, default, symRes, toOne);
      }
      if GenerateJson(chains, rs, mutRes, default, symRes, toOne).Ok? {
        GenerateJsonContents(chains, rs, mutRes, default, symRes, toOne);
      }
    }
  }

  lemma GenerateJsonUnknownChain(chains: seq<string>, rs: seq<Residue>, mutRes: seq<string>, default: string,
                                 symRes: seq<seq<Tie>>, toOne: string -> Option<string>)
    requires |chains| > 0 && exists i :: 0 <= i < |rs| && rs[i].chain !in chains
    ensures GenerateJson(chains, rs, mutRes, default, symRes, toOne).Err?
    ensures GenerateJson(chains, rs, mutRes, default, symRes, toOne).error.UnknownChain?
  {
    var d := EmptyLists(chains);
    UnknownChainReported(rs, d, toOne);
  }

  lemma GenerateJsonContents(chains: seq<string>, rs: seq<Residue>, mutRes: seq<string>, default: string,
                             symRes: seq<seq<Tie>>, toOne: string -> Option<string>)
    requires GenerateJson(chains, rs, mutRes, default, symRes, toOne).Ok?
    ensures |chains| > 0
    ensures var doc := GenerateJson(chains, rs, mutRes, default, symRes, toOne).value;
      (forall i :: 0 <= i < |rs| ==> rs[i].chain in chains) &&
      |doc.sequence| == |Distinct(chains)| &&
      (forall i :: 0 <= i < |doc.sequence| ==> doc.sequence[i] == (Distinct(chains)[i], ChainSeq(rs, Distinct(chains)[i], toOne))) &&
      |doc.designable| == |Found(mutRes, PdbIds(rs, chains[0]))|
  {
    SequencesSpec(chains, rs, toOne);
    DesignablesFound(mutRes, PdbIds(rs, chains[0]), toOne, default);
  }


  /** The document is written exactly when there is a chain, every residue
      lies on a listed chain and every zipped tied residue is in `pdbids`;
      with the chains in order, the only error left is a missing tied
      residue. */
  lemma GenerateJsonOk(chains: seq<string>, rs: seq<Residue>, mutRes: seq<string>, default: string,
                       symRes: seq<seq<Tie>>, toOne: string -> Option<string>)
    ensures GenerateJson(chains, rs, mutRes, default, symRes, toOne).Ok? <==>
      |chains| > 0 && (forall i :: 0 <= i < |rs| ==> rs[i].chain in chains) &&
      forall s :: 0 <= s < |symRes| ==> TiedPresent(Zip(Groups(symRes[s])), PdbIds(rs, chains[0]))
    ensures (|chains| > 0 && (forall i :: 0 <= i < |rs| ==> rs[i].chain in chains) &&
             GenerateJson(chains, rs, mutRes, default, symRes, toOne).Err?) ==>
      GenerateJson(chains, rs, mutRes, default, symRes, toOne).error.MissingResidue?
  {
    SequencesSpec(chains, rs, toOne);
    if |chains| > 0 {
      SymmetricTiesOk(symRes, PdbIds(rs, chains[0]));
    }
  }

  /** A written document's designable list is the requests looked up in
      the `pdbids` numbered from the first chain, and its "symmetric"
      member is the ties of every symmetry dict one after another. */
  lemma GenerateJsonDoc(chains: seq<string>, rs: seq<Residue>, mutRes: seq<string>, default: string,
                        symRes: seq<seq<Tie>>, toOne: string -> Option<string>)
    requires GenerateJson(chains, rs, mutRes, default, symRes, toOne).Ok?
    ensures |chains| > 0
    ensures GenerateJson(chains, rs, mutRes, default, symRes, toOne).value.designable ==
      Designables(mutRes, PdbIds(rs, chains[0]), toOne, default)
    ensures forall s :: 0 <= s < |symRes| ==> TiedPresent(Zip(Groups(symRes[s])), PdbIds(rs, chains[0]))
    ensures GenerateJson(chains, rs, mutRes, default, symRes, toOne).value.symmetric ==
      Flatten(AllTies(symRes, PdbIds(rs, chains[0])))
  {
    SymmetricTiesSpec(symRes, PdbIds(rs, chains[0]));
  }

  lemma {:induction false} UnknownChainReported(rs: seq<Residue>, d: map<string, seq<Option<string>>>, toOne: string -> Option<string>)
    requires exists i :: 0 <= i < |rs| && rs[i].chain !in d
    ensures AppendCodes(rs, d, toOne).Err? && AppendCodes(rs, d, toOne).error.UnknownChain?
    decreases |rs|
  {
    if rs[0].chain in d {
      var i :| 0 <= i < |rs| && rs[i].chain !in d;
      assert rs[1..][i - 1] == rs[i];
      UnknownChainReported(rs[1..], d[rs[0].chain := d[rs[0].chain] + [toOne(rs[0].resname)]], toOne);
    }
  }
}
