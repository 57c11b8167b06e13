/** The Python `str` operations the residue parsers rely on: `strip()`,
    `split(sep)`, `sep.join(...)`, `str(int)`, `int(digits)` and
    `re.split('(\d+)', s)`. Digits are the ASCII digits '0'..'9'. */
module PyText {
  import opened PyList

  predicate IsDigit(c: char) {
    '0' <= c <= '9'
  }

  predicate AllDigits(s: string) {
    forall i :: 0 <= i < |s| ==> IsDigit(s[i])
  }

  predicate NoDigits(s: string) {
    forall i :: 0 <= i < |s| ==> !IsDigit(s[i])
  }

  /** Python's `str.isspace()` for one character (the Unicode white space
      set that `strip()` with no argument removes). */
  predicate IsSpace(c: char) {
    var n := c as int;
    || 9 <= n <= 13
    || 28 <= n <= 32
    || n == 0x85 || n == 0xA0 || n == 0x1680
    || 0x2000 <= n <= 0x200A
    || n == 0x2028 || n == 0x2029 || n == 0x202F || n == 0x205F || n == 0x3000
  }

  predicate AllSpace(s: string) {
    forall i :: 0 <= i < |s| ==> IsSpace(s[i])
  }

  // ---------------------------------------------------------------------
  // str(n) and int(digits)

  function DigitChar(d: nat): (c: char)
    requires d < 10
    ensures IsDigit(c)
  {
    ('0' as int + d) as char
  }

  function DigitValue(c: char): (d: nat)
    requires IsDigit(c)
    ensures d < 10
  {
    c as int - '0' as int
  }

  /** `str(n)` for a non-negative integer: decimal digits, no leading zero. */
  function NatToString(n: nat): (s: string)
    ensures |s| > 0 && AllDigits(s)
    ensures |s| > 1 ==> s[0] != '0'
    decreases n
  {
    if n < 10 then [DigitChar(n)] else NatToString(n / 10) + [DigitChar(n % 10)]
  }

  /** `str(i)` for any integer. */
  function IntToString(i: int): (s: string)
    ensures |s| > 0
  {
    if i < 0 then "-" + NatToString(-i) else NatToString(i)
  }

  /** `int(s)` for a string of decimal digits (leading zeros allowed). */
  function ParseNat(s: string): nat
    requires AllDigits(s)
    decreases |s|
  {
    if |s| == 0 then 0 else ParseNat(s[..|s| - 1]) * 10 + DigitValue(s[|s| - 1])
  }

  /** Reading back what `str` wrote gives the number again. */
  lemma {:induction false} ParseNatToString(n: nat)
    ensures ParseNat(NatToString(n)) == n
    decreases n
  {
    var s := NatToString(n);
    if n < 10 {
      assert s[..|s| - 1] == [];
    } else {
      assert s[..|s| - 1] == NatToString(n / 10);
      ParseNatToString(n / 10);
    }
  }

  lemma {:induction false} ParseNatPositive(s: string)
    requires |s| > 0 && AllDigits(s) && s[0] != '0'
    ensures ParseNat(s) >= 1
    decreases |s|
  {
    if |s| > 1 {
      ParseNatPositive(s[..|s| - 1]);
    } else {
      assert s[..|s| - 1] == [];
    }
  }

  /** Writing back what `int` read gives the text again, provided the text
      is in canonical form (no leading zero). */
  lemma {:induction false} NatToStringParse(s: string)
    requires |s| > 0 && AllDigits(s)
    requires |s| > 1 ==> s[0] != '0'
    ensures NatToString(ParseNat(s)) == s
    decreases |s|
  {
    var init := s[..|s| - 1];
    var d := DigitValue(s[|s| - 1]);
    if |s| == 1 {
      assert init == [];
      assert NatToString(ParseNat(s)) == [DigitChar(d)];
    } else {
      ParseNatPositive(init);
      NatToStringParse(init);
      var n := ParseNat(s);
      assert n == ParseNat(init) * 10 + d;
      assert n / 10 == ParseNat(init) && n % 10 == d;
      assert s == init + [s[|s| - 1]];
    }
  }

  // ---------------------------------------------------------------------
  // sep.join(parts) and s.split(sep) for a one-character separator

  /** `sep.join(parts)`. */
  function Join(parts: seq<string>, sep: char): string
    decreases |parts|
  {
    if |parts| == 0 then ""
    else if |parts| == 1 then parts[0]
    else parts[0] + [sep] + Join(parts[1..], sep)
  }

  /** Position of the first occurrence of c. */
  function IndexOf(s: string, c: char): (k: nat)
    requires c in s
    ensures k < |s| && s[k] == c && c !in s[..k]
    decreases |s|
  {
    if s[0] == c then 0
    else
      var k := 1 + IndexOf(s[1..], c);
      assert s[..k] == [s[0]] + s[1..][..k - 1];
      k
  }

  /** `s.split(sep)`: the pieces between separators, at least one piece,
      one more piece than there are separators; joining them back with the
      separator gives s. */
  function Split(s: string, sep: char): (parts: seq<string>)
    ensures |parts| >= 1
    ensures |parts| == multiset(s)[sep] + 1
    ensures forall i :: 0 <= i < |parts| ==> sep !in parts[i]
    ensures Join(parts, sep) == s
    decreases |s|
  {
    if sep !in s then
      assert multiset(s)[sep] == 0;
      [s]
    else
      var k := IndexOf(s, sep);
      var rest := Split(s[k + 1..], sep);
      assert s == s[..k] + [sep] + s[k + 1..];
      assert multiset(s) == multiset(s[..k]) + multiset([sep]) + multiset(s[k + 1..]);
      assert multiset(s[..k])[sep] == 0;
      [s[..k]] + rest
  }

  /** Splitting a join recovers the pieces when none contains the separator. */
  lemma {:induction false} SplitJoin(parts: seq<string>, sep: char)
    requires |parts| >= 1
    requires forall i :: 0 <= i < |parts| ==> sep !in parts[i]
    ensures Split(Join(parts, sep), sep) == parts
    decreases |parts|
  {
    if |parts| > 1 {
      var s := Join(parts, sep);
      var tail := Join(parts[1..], sep);
      assert s == parts[0] + [sep] + tail;
      assert sep in s by { assert s[|parts[0]|] == sep; }
      var k := IndexOf(s, sep);
      assert k == |parts[0]| by {
        assert sep !in parts[0];
        assert s[..|parts[0]|] == parts[0];
      }
      assert s[..k] == parts[0];
      assert s[k + 1..] == tail;
      assert Split(s, sep) == [s[..k]] + Split(s[k + 1..], sep);
      SplitJoin(parts[1..], sep);
      assert parts == [parts[0]] + parts[1..];
    }
  }

  /** `[x for x in xs if x]`: the non-empty strings, in order. */
  function NonEmpty(xs: seq<string>): (r: seq<string>)
    ensures |r| <= |xs|
    ensures forall i :: 0 <= i < |r| ==> r[i] != ""
    ensures forall i :: 0 <= i < |r| ==> r[i] in xs
    decreases |xs|
  {
    if |xs| == 0 then []
    else if xs[0] == "" then NonEmpty(xs[1..])
    else [xs[0]] + NonEmpty(xs[1..])
  }

  lemma {:induction false} NonEmptyAppend(a: seq<string>, b: seq<string>)
    ensures NonEmpty(a + b) == NonEmpty(a) + NonEmpty(b)
    decreases |a|
  {
    if |a| > 0 {
      assert (a + b)[1..] == a[1..] + b;
      NonEmptyAppend(a[1..], b);
    } else {
      assert a + b == b;
    }
  }

  // ---------------------------------------------------------------------
  // s.strip()

  function StripLeft(s: string): (r: string)
    ensures |r| <= |s| && r == s[|s| - |r|..]
    ensures AllSpace(s[..|s| - |r|])
    ensures |r| > 0 ==> !IsSpace(r[0])
    decreases |s|
  {
    if |s| > 0 && IsSpace(s[0]) then StripLeft(s[1..]) else s
  }

  function StripRight(s: string): (r: string)
    ensures |r| <= |s| && r == s[..|r|]
    ensures AllSpace(s[|r|..])
    ensures |r| > 0 ==> !IsSpace(r[|r| - 1])
    decreases |s|
  {
    if |s| > 0 && IsSpace(s[|s| - 1]) then StripRight(s[..|s| - 1]) else s
  }

  /** `s.strip()`: drop leading and trailing white space; what remains
      starts and ends with a non-space character, or is empty. */
  function Strip(s: string): (r: string)
    ensures |r| > 0 ==> !IsSpace(r[0]) && !IsSpace(r[|r| - 1])
    ensures AllSpace(s) <==> r == ""
  {
    var l := StripLeft(s);
    var r := StripRight(l);
    assert |r| > 0 ==> r[0] == l[0];
    assert s == s[..|s| - |l|] + l;
    StripEmpty(s, s[..|s| - |l|], l, r);
    r
  }

  /** s is blank exactly when nothing is left after dropping the leading
      blanks p and then the trailing blanks. */
  lemma StripEmpty(s: string, p: string, l: string, r: string)
    requires s == p + l && AllSpace(p) && (|l| > 0 ==> !IsSpace(l[0]))
    requires |r| <= |l| && AllSpace(l[|r|..])
    ensures AllSpace(s) <==> r == ""
  {
    if r == "" {
      StripAllSpace(s, p, l);
    } else {
      StripKeeps(s, p, l);
    }
  }

  /** Blanks followed by blanks are blanks. */
  lemma StripAllSpace(s: string, p: string, l: string)
    requires s == p + l && AllSpace(p) && AllSpace(l[0..])
    ensures AllSpace(s)
  {
    assert l[0..] == l;
    AllSpaceAppend(p, l);
  }

  /** A non-blank character left after the leading blanks is in s. */
  lemma StripKeeps(s: string, p: string, l: string)
    requires s == p + l && |l| > 0 && !IsSpace(l[0])
    ensures !AllSpace(s)
  {
    assert s[|p|] == l[0];
  }

  lemma AllSpaceAppend(a: string, b: string)
    requires AllSpace(a) && AllSpace(b)
    ensures AllSpace(a + b)
  {
    forall i | 0 <= i < |a + b| ensures IsSpace((a + b)[i]) {
      if i < |a| { assert (a + b)[i] == a[i]; } else { assert (a + b)[i] == b[i - |a|]; }
    }
  }

  // ---------------------------------------------------------------------
  // re.split('(\d+)', s)

  /** Length of the longest digit-free prefix. */
  function NonDigitPrefix(s: string): (k: nat)
    ensures k <= |s| && NoDigits(s[..k])
    ensures k < |s| ==> IsDigit(s[k])
    decreases |s|
  {
    if |s| == 0 || IsDigit(s[0]) then 0
    else
      var k := 1 + NonDigitPrefix(s[1..]);
      assert s[..k] == [s[0]] + s[1..][..k - 1];
      k
  }

  /** Length of the longest all-digit prefix. */
  function DigitRun(s: string): (k: nat)
    ensures k <= |s| && AllDigits(s[..k])
    ensures k < |s| ==> !IsDigit(s[k])
    decreases |s|
  {
    if |s| == 0 || !IsDigit(s[0]) then 0
    else
      var k := 1 + DigitRun(s[1..]);
      assert s[..k] == [s[0]] + s[1..][..k - 1];
      k
  }

  /** The result of `re.split('(\d+)', s)`, one node per captured digit run:
      `Last(t)` is the list `[t]` and `Cut(t, r, rest)` is `[t, r]` followed
      by the list of `rest`. */
  datatype DigitPieces = Last(text: string) | Cut(text: string, run: string, rest: DigitPieces)

  /** The Python list the pieces stand for. */
  function Pieces(p: DigitPieces): (r: seq<string>)
    ensures |r| >= 1 && r[0] == p.text
    ensures p.Cut? ==> |r| >= 2 && r[1] == p.run && r[2..] == Pieces(p.rest)
  {
    match p
    case Last(t) => [t]
    case Cut(t, r, rest) => [t, r] + Pieces(rest)
  }

  /** The text the pieces were cut from. */
  function Concat(p: DigitPieces): string {
    match p
    case Last(t) => t
    case Cut(t, r, rest) => t + r + Concat(rest)
  }

  /** What a split by a capturing digit pattern looks like: digit-free texts
      between maximal, non-empty digit runs, so that after a run either the
      text goes on with a non-digit or the split ends with an empty text. */
  predicate WellSplit(p: DigitPieces) {
    match p
    case Last(t) => NoDigits(t)
    case Cut(t, r, rest) =>
      NoDigits(t) && r != "" && AllDigits(r) && WellSplit(rest)
      && (rest.Cut? ==> rest.text != "")
  }

  /** `re.split('(\d+)', s)`: the digit-free text before the first digit,
      then (if there is a digit) that maximal digit run, then the split of
      whatever follows the run. */
  function DigitSplit(s: string): DigitPieces
    decreases |s|
  {
    var k := NonDigitPrefix(s);
    if k == |s| then Last(s)
    else
      var u := s[k..];
      var d := DigitRun(u);
      Cut(s[..k], u[..d], DigitSplit(u[d..]))
  }

  /** What DigitSplit returns is a well-formed split of its argument. */
  lemma DigitSplitSound(s: string)
    ensures WellSplit(DigitSplit(s)) && Concat(DigitSplit(s)) == s
  {
    DigitSplitConcat(s);
    DigitSplitWell(s);
  }

  /** One step of the split: the text before the first digit, the maximal
      non-empty digit run there, and the split of the rest, which does not
      start with a digit. */
  lemma DigitSplitStep(s: string)
    requires NonDigitPrefix(s) < |s|
    ensures var u := s[NonDigitPrefix(s)..];
      var d := DigitRun(u);
      DigitSplit(s) == Cut(s[..NonDigitPrefix(s)], u[..d], DigitSplit(u[d..])) &&
      0 < d && (d < |u| ==> !IsDigit(u[d]))
  {
  }

  /** Without a digit the split is the text alone. */
  lemma DigitSplitLast(s: string)
    requires NonDigitPrefix(s) == |s|
    ensures DigitSplit(s) == Last(s)
  {
  }

  lemma {:induction false} DigitSplitConcat(s: string)
    ensures Concat(DigitSplit(s)) == s
    decreases |s|
  {
    var k := NonDigitPrefix(s);
    if k < |s| {
      DigitSplitStep(s);
      var d := DigitRun(s[k..]);
      DigitSplitConcat(s[k..][d..]);
      CutConcat(s, k, d, DigitSplit(s[k..][d..]));
    } else {
      DigitSplitLast(s);
    }
  }

  /** Gluing the text before position k and the run of length d after it
      in front of pieces that concatenate to the rest gives the whole text. */
  lemma CutConcat(s: string, k: nat, d: nat, q: DigitPieces)
    requires k <= |s| && d <= |s| - k && Concat(q) == s[k..][d..]
    ensures Concat(Cut(s[..k], s[k..][..d], q)) == s
  {
    var u := s[k..];
    assert u[..d] + u[d..] == u;
    assert s[..k] + u == s;
    Regroup(s[..k], u[..d], u[d..]);
  }

  lemma {:induction false} DigitSplitWell(s: string)
    ensures WellSplit(DigitSplit(s))
    decreases |s|
  {
    var k := NonDigitPrefix(s);
    if k < |s| {
      DigitSplitStep(s);
      var u := s[k..];
      var d := DigitRun(u);
      var c := u[d..];
      DigitSplitWell(c);
      DigitSplitConcat(c);
      assert |c| > 0 ==> c[0] == u[d];
      CutWellSplit(s[..k], u[..d], DigitSplit(c));
    }
  }

  /** A digit-free text and a non-empty digit run glued in front of a
      well-formed split of text that does not start with a digit form a
      well-formed split. */
  lemma CutWellSplit(t: string, r: string, rest: DigitPieces)
    requires NoDigits(t) && r != "" && AllDigits(r) && WellSplit(rest)
    requires |Concat(rest)| > 0 ==> !IsDigit(Concat(rest)[0])
    ensures WellSplit(Cut(t, r, rest))
  {
    if rest.Cut? {
      TextBeforeRun(rest);
    }
  }

  /** A split that opens with an empty text starts with a digit. */
  lemma TextBeforeRun(p: DigitPieces)
    requires WellSplit(p) && p.Cut?
    ensures p.text == "" ==> |Concat(p)| > 0 && IsDigit(Concat(p)[0])
  {
    assert Concat(p) == p.text + (p.run + Concat(p.rest));
  }

  /** The well-formed split of a text is unique: any digit-free/digit-run
      decomposition meeting WellSplit is the one DigitSplit computes. */
  lemma {:induction false} DigitSplitUnique(p: DigitPieces, s: string)
    requires WellSplit(p) && Concat(p) == s
    ensures DigitSplit(s) == p
    decreases p
  {
    match p
    case Last(t) =>
      NonDigitPrefixAt(s, |s|);
    case Cut(t, r, rest) =>
      var tail := Concat(rest);
      assert s == t + (r + tail);
      assert s[..|t|] == t && s[|t|] == r[0];
      NonDigitPrefixAt(s, |t|);
      var u := s[|t|..];
      assert u == r + tail;
      assert u[..|r|] == r;
      if rest.Cut? {
        assert u[|r|] == rest.text[0];
      }
      DigitRunAt(u, |r|);
      assert s[|t| + |r|..] == tail;
      DigitSplitUnique(rest, tail);
  }

  lemma NonDigitPrefixAt(s: string, i: nat)
    requires i <= |s| && NoDigits(s[..i]) && (i < |s| ==> IsDigit(s[i]))
    ensures NonDigitPrefix(s) == i
  {
    var k := NonDigitPrefix(s);
    assert forall j :: 0 <= j < i ==> !IsDigit(s[j]) by {
      forall j | 0 <= j < i ensures !IsDigit(s[j]) { assert s[..i][j] == s[j]; }
    }
    assert forall j :: 0 <= j < k ==> !IsDigit(s[j]) by {
      forall j | 0 <= j < k ensures !IsDigit(s[j]) { assert s[..k][j] == s[j]; }
    }
  }


  lemma DigitRunAt(s: string, i: nat)
    requires i <= |s| && AllDigits(s[..i]) && (i < |s| ==> !IsDigit(s[i]))
    ensures DigitRun(s) == i
  {
    var k := DigitRun(s);
    assert forall j :: 0 <= j < i ==> IsDigit(s[j]) by {
      forall j | 0 <= j < i ensures IsDigit(s[j]) { assert s[..i][j] == s[j]; }
    }
    assert forall j :: 0 <= j < k ==> IsDigit(s[j]) by {
      forall j | 0 <= j < k ensures IsDigit(s[j]) { assert s[..k][j] == s[j]; }
    }
  }


  /** The list `re.split` returns concatenates back to the text. */
  lemma {:induction false} PiecesConcat(p: DigitPieces)
    ensures Flatten(Pieces(p)) == Concat(p)
    decreases p
  {
    match p
    case Last(t) =>
      assert Flatten([t]) == Flatten([]) + t;
    case Cut(t, r, rest) =>
      PiecesConcat(rest);
      FlattenAppend([t, r], Pieces(rest));
      assert Flatten([t, r]) == t + r by {
        assert [t, r][..1] == [t];
        assert Flatten([t]) == Flatten([]) + t;
      }
  }

  lemma Regroup(a: string, b: string, c: string)
    ensures a + b + c == a + (b + c)
  {
  }

  lemma SliceJoin3(s: string, i: nat, j: nat)
    requires i <= j <= |s|
    ensures s == s[..i] + s[i..j] + s[j..]
  {
    assert s[i..] == s[i..j] + s[j..];
    assert s == s[..i] + s[i..];
  }

}
