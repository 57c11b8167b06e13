/** The Python list idioms the modelled code is built from: repeated `+`
    concatenation, slicing a list into fixed-size chunks with
    `range(0, len(xs), m)`, the transposition `zip(*lists)`, and `sum`. */
module PyList {

  /** `xss[0] + xss[1] + ...`, concatenated left to right. */
  function Flatten<T>(xss: seq<seq<T>>): (r: seq<T>)
    decreases |xss|
  {
    if |xss| == 0 then [] else Flatten(xss[..|xss| - 1]) + xss[|xss| - 1]
  }

  lemma {:induction false} FlattenAppend<T>(a: seq<seq<T>>, b: seq<seq<T>>)
    ensures Flatten(a + b) == Flatten(a) + Flatten(b)
    decreases |b|
  {
    if |b| == 0 {
      assert a + b == a;
    } else {
      assert (a + b)[..|a + b| - 1] == a + b[..|b| - 1];
      FlattenAppend(a, b[..|b| - 1]);
    }
  }

  lemma FlattenCons<T>(x: seq<T>, rest: seq<seq<T>>)
    ensures Flatten([x] + rest) == x + Flatten(rest)
  {
    FlattenAppend([x], rest);
    assert Flatten([x]) == Flatten([]) + x;
  }

  lemma SeqRegroup<T>(a: seq<T>, b: seq<T>, c: seq<T>)
    ensures a + (b + c) == a + b + c
  {
  }

  /** Blocks of one common length m make a list of that many times m. */
  lemma {:induction false} FlattenLength<T>(xss: seq<seq<T>>, m: nat)
    requires forall c :: 0 <= c < |xss| ==> |xss[c]| == m
    ensures |Flatten(xss)| == |xss| * m
    decreases |xss|
  {
    if |xss| > 0 {
      var k := |xss| - 1;
      FlattenLength(xss[..k], m);
      MulStep(|xss|, m);
    }
  }

  /** Blocks of one common length m lay out their elements row-major: element
      j of block c is element c * m + j of the concatenation. */
  lemma {:induction false} FlattenAt<T>(xss: seq<seq<T>>, m: nat, c: nat, j: nat)
    requires forall r :: 0 <= r < |xss| ==> |xss[r]| == m
    requires c < |xss| && j < m
    ensures c * m + j < |Flatten(xss)| && Flatten(xss)[c * m + j] == xss[c][j]
    decreases |xss|
  {
    var k := |xss| - 1;
    var init := xss[..k];
    FlattenLength(init, m);
    assert Flatten(xss) == Flatten(init) + xss[k];
    if c < k {
      RowBound(c, j, k, m);
      FlattenAt(init, m, c, j);
    } else {
      assert c * m == k * m;
    }
  }

  /** Row c, column j of a k-row, m-column layout lies before row k. */
  lemma RowBound(c: nat, j: nat, k: nat, m: nat)
    requires c < k && j < m
    ensures c * m + j < k * m
  {
    MulMono(c + 1, k, m);
    assert (c + 1) * m == c * m + m;
  }

  lemma MulStep(c: nat, m: nat)
    requires c > 0
    ensures (c - 1) * m >= 0 && c * m == (c - 1) * m + m
  {
  }

  lemma {:induction false} MulMono(a: nat, b: nat, m: nat)
    requires a <= b
    ensures a * m <= b * m
    decreases b - a
  {
    if a < b {
      MulMono(a, b - 1, m);
      assert b * m == (b - 1) * m + m;
    }
  }

  /** Every element of a flattened uniform layout comes from the block given
      by integer division. */
  lemma FlattenUniformIndex<T>(xss: seq<seq<T>>, m: nat, i: nat)
    requires m > 0
    requires forall c :: 0 <= c < |xss| ==> |xss[c]| == m
    requires i < |xss| * m
    ensures i < |Flatten(xss)| && i / m < |xss|
    ensures Flatten(xss)[i] == xss[i / m][i % m]
  {
    DivBound(i, m, |xss|);
    FlattenAt(xss, m, i / m, i % m);
  }

  lemma DivBound(i: nat, m: nat, n: nat)
    requires m > 0 && i < n * m
    ensures i / m < n && i % m < m && (i / m) * m + i % m == i
  {
    var c := i / m;
    assert c * m <= i;
    if n <= c {
      MulMono(n, c, m);
    }
  }

  /** `[x for _ in range(n)]`. */
  function Repeat<T>(x: T, n: nat): (r: seq<T>)
    ensures |r| == n
  {
    seq(n, _ => x)
  }

  /** `[xs[i:i + m] for i in range(0, len(xs), m)]` with a positive step;
      the last chunk is short when m does not divide the length. */
  function Chunks<T>(xs: seq<T>, m: nat): (r: seq<seq<T>>)
    requires m > 0
    ensures forall c :: 0 <= c < |r| ==> 0 < |r[c]| <= m
    ensures forall c :: 0 <= c < |r| - 1 ==> |r[c]| == m
    decreases |xs|
  {
    if |xs| == 0 then []
    else if |xs| <= m then [xs]
    else [xs[..m]] + Chunks(xs[m..], m)
  }

  /** Chunking loses and reorders nothing: concatenating the chunks gives
      back the list. */
  lemma {:induction false} ChunksFlatten<T>(xs: seq<T>, m: nat)
    requires m > 0
    ensures Flatten(Chunks(xs, m)) == xs
    decreases |xs|
  {
    if |xs| == 0 {
    } else if |xs| <= m {
      assert Flatten([xs]) == Flatten([]) + xs;
    } else {
      ChunksFlatten(xs[m..], m);
      FlattenCons(xs[..m], Chunks(xs[m..], m));
      assert xs[..m] + xs[m..] == xs;
    }
  }

  /** A list of k * m elements splits into exactly k chunks of length m. */
  lemma {:induction false} ChunksLength<T>(xs: seq<T>, m: nat, k: nat)
    requires m > 0 && |xs| == k * m
    ensures |Chunks(xs, m)| == k
    ensures forall c :: 0 <= c < k ==> |Chunks(xs, m)[c]| == m
    decreases k
  {
    if k > 1 {
      MulMono(2, k, m);
      assert |xs[m..]| == (k - 1) * m;
      ChunksLength(xs[m..], m, k - 1);
      assert Chunks(xs, m) == [xs[..m]] + Chunks(xs[m..], m);
    }
  }

  /** Chunk c of a list long enough to fill it is the slice starting at
      offset c * m. */
  lemma {:induction false} ChunkSlice<T>(xs: seq<T>, m: nat, c: nat)
    requires m > 0 && c * m + m <= |xs|
    ensures c < |Chunks(xs, m)|
    ensures Chunks(xs, m)[c] == xs[c * m..c * m + m]
    decreases c
  {
    if c > 0 {
      var o := (c - 1) * m;
      MulStep(c, m);
      var rest := xs[m..];
      ChunkSlice(rest, m, c - 1);
      assert Chunks(xs, m) == [xs[..m]] + Chunks(rest, m);
      assert rest[o..o + m] == xs[o + m..o + m + m];
    }
  }

  /** Element j of chunk c is element c * m + j of the list. */
  lemma ChunksAt<T>(xs: seq<T>, m: nat, k: nat, c: nat, j: nat)
    requires m > 0 && |xs| == k * m && c < k && j < m
    ensures c * m + j < |xs| && |Chunks(xs, m)| == k && |Chunks(xs, m)[c]| == m
    ensures Chunks(xs, m)[c][j] == xs[c * m + j]
  {
    RowBound(c, j, k, m);
    MulMono(c + 1, k, m);
    assert (c + 1) * m == c * m + m;
    ChunksLength(xs, m, k);
    ChunkSlice(xs, m, c);
  }

  /** The length of the shortest list, the number of tuples `zip` yields. */
  function MinLen<T>(xss: seq<seq<T>>): (n: nat)
    requires |xss| > 0
    ensures forall c :: 0 <= c < |xss| ==> n <= |xss[c]|
    ensures exists c :: 0 <= c < |xss| && n == |xss[c]|
    decreases |xss|
  {
    if |xss| == 1 then |xss[0]|
    else
      var rest := MinLen(xss[1..]);
      if |xss[0]| <= rest then |xss[0]| else rest
  }

  /** `[list(t) for t in zip(*xss)]`: tuple j collects element j of every
      list, stopping at the shortest; no lists give no tuples. */
  function Zip<T>(xss: seq<seq<T>>): (r: seq<seq<T>>)
  {
    if |xss| == 0 then []
    else
      var n := MinLen(xss);
      seq(n, j requires 0 <= j < n => seq(|xss|, c requires 0 <= c < |xss| => xss[c][j]))
  }

  /** Entry c of tuple j is element j of list c, and every list is long
      enough to have one. */
  lemma ZipAt<T>(xss: seq<seq<T>>)
    ensures forall j, c :: 0 <= j < |Zip(xss)| && 0 <= c < |xss| ==>
      |Zip(xss)[j]| == |xss| && j < |xss[c]| && Zip(xss)[j][c] == xss[c][j]
    ensures forall j :: 0 <= j < |Zip(xss)| ==> |Zip(xss)[j]| == |xss|
  {
    if |xss| > 0 {
      var n := MinLen(xss);
      assert |Zip(xss)| == n;
    }
  }

  /** Transposing a rectangular, non-empty table: tuple j has one entry per
      list and entry c of it is element j of list c. */
  lemma ZipRectangular<T>(xss: seq<seq<T>>, m: nat)
    requires |xss| > 0
    requires forall c :: 0 <= c < |xss| ==> |xss[c]| == m
    ensures |Zip(xss)| == m
    ensures forall j, c :: 0 <= j < m && 0 <= c < |xss| ==> |Zip(xss)[j]| == |xss| && Zip(xss)[j][c] == xss[c][j]
  {
  }

  /** Cutting k * m elements into rows of m and transposing: entry c of
      tuple j is element c * m + j. */
  lemma ZipChunksAt<T>(xs: seq<T>, m: nat, k: nat, c: nat, j: nat)
    requires m > 0 && |xs| == k * m && c < k && j < m
    ensures var z := Zip(Chunks(xs, m));
      |z| == m && |z[j]| == k && c * m + j < |xs| && z[j][c] == xs[c * m + j]
  {
    ChunksAt(xs, m, k, c, j);
    ChunksLength(xs, m, k);
    ZipRectangular(Chunks(xs, m), m);
  }

  /** Transposition undoes itself on a rectangular table with at least one
      row and one column. */
  lemma ZipZip<T>(xss: seq<seq<T>>, m: nat)
    requires |xss| > 0 && m > 0
    requires forall c :: 0 <= c < |xss| ==> |xss[c]| == m
    ensures Zip(Zip(xss)) == xss
  {
    var t := Zip(xss);
    ZipRectangular(xss, m);
    ZipRectangular(t, |xss|);
    var tt := Zip(t);
    assert |tt| == |xss|;
    forall c | 0 <= c < |xss| ensures tt[c] == xss[c] {
      assert |tt[c]| == m;
    }
  }

  /** The elements in first-occurrence order: the key order of a dict
      filled from the list. */
  function Distinct<T(==,!new)>(xs: seq<T>): (r: seq<T>)
    ensures forall x :: x in r <==> x in xs
    ensures forall i, j :: 0 <= i < j < |r| ==> r[i] != r[j]
    decreases |xs|
  {
    if |xs| == 0 then []
    else
      var init := Distinct(xs[..|xs| - 1]);
      var x := xs[|xs| - 1];
      assert forall y :: y in xs <==> y in xs[..|xs| - 1] || y == x by {
        assert xs == xs[..|xs| - 1] + [x];
      }
      if x in init then init else init + [x]
  }

  /** One more element joins the end of the order only when it is new. */
  lemma DistinctSnoc<T(!new)>(xs: seq<T>, x: T)
    ensures Distinct(xs + [x]) == if x in Distinct(xs) then Distinct(xs) else Distinct(xs) + [x]
  {
    assert (xs + [x])[..|xs|] == xs;
  }

  /** Python's `sum` over floats, folded from the left starting at zero. */
  function Sum(xs: seq<real>): real
    decreases |xs|
  {
    if |xs| == 0 then 0.0 else Sum(xs[..|xs| - 1]) + xs[|xs| - 1]
  }

  lemma {:induction false} SumAppend(a: seq<real>, b: seq<real>)
    ensures Sum(a + b) == Sum(a) + Sum(b)
    decreases |b|
  {
    if |b| == 0 {
      assert a + b == a;
    } else {
      assert (a + b)[..|a + b| - 1] == a + b[..|b| - 1];
      SumAppend(a, b[..|b| - 1]);
    }
  }
}
