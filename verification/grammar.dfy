/**
  The regular expressions of the reply filter are built from four kinds of
  pieces: literal text, the scheme `https?://`, a one-or-more run of a
  character class `[...]+`, and such a run that must end in a fixed suffix
  (`[...]+-image`, `[^\s]+\.png`). This module gives each pattern two
  readings:

  - `Gen`, the declarative one: which strings the pattern describes;
  - `Exec`, a deterministic matcher anchored at a position, which takes
    every run as far as it can go and a suffixed run up to the LAST place
    its suffix fits.

  For patterns in which every run is followed by literal text that starts
  outside the run's class (`WellFormed`), `Exec` is exactly the leftmost,
  greedy, backtracking match: it succeeds iff some prefix is described by
  the pattern, and then returns the longest such prefix (`ExecSound`,
  `ExecComplete`).
 */
module Grammar {
  import opened Text

  datatype Option<T> = None | Some(value: T)

  datatype Class = Alnum | AlnumDash | Digit | AlnumPercent | NonSpace

  predicate IsAlnum(ch: char) {
    ('a' <= ch <= 'z') || ('A' <= ch <= 'Z') || ('0' <= ch <= '9')
  }

  /** `[a-zA-Z0-9]`, `[a-zA-Z0-9-]`, `[0-9]`, `[a-zA-Z0-9%]` and `[^\s]`. */
  predicate InClass(c: Class, ch: char) {
    match c
    case Alnum => IsAlnum(ch)
    case AlnumDash => IsAlnum(ch) || ch == '-'
    case Digit => '0' <= ch <= '9'
    case AlnumPercent => IsAlnum(ch) || ch == '%'
    case NonSpace => !IsSpace(ch)
  }

  predicate AllIn(c: Class, u: string) {
    forall k :: 0 <= k < |u| ==> InClass(c, u[k])
  }

  /** Every character of `u` is in class `c` (stated by membership, which
      the verifier checks directly on a literal). */
  predicate Within(c: Class, u: string) {
    forall ch :: ch in u ==> InClass(c, ch)
  }

  /** `Within` and `AllIn` say the same thing, and a string all in the
      non-space class is one with no whitespace. */
  lemma InClassForms(c: Class, u: string)
    ensures Within(c, u) <==> AllIn(c, u)
    ensures AllIn(NonSpace, u) <==> NoSpace(u)
  {
    if AllIn(c, u) {
      forall ch | ch in u
        ensures InClass(c, ch)
      {
        var q :| 0 <= q < |u| && u[q] == ch;
      }
    }
    if Within(c, u) {
      forall q | 0 <= q < |u|
        ensures InClass(c, u[q])
      {
        assert u[q] in u;
      }
    }
  }

  datatype Token =
    | Lit(text: string)                      // literal text
    | Scheme                                 // https?://
    | Plus(cls: Class)                       // [cls]+
    | PlusThen(cls: Class, suffix: string)   // [cls]+ followed by a literal suffix

  /** The strings the token sequence describes, as a whole. */
  ghost predicate Gen(ts: seq<Token>, u: string)
    decreases |ts|, 1
  {
    if |ts| == 0 then |u| == 0
    else match ts[0]
      case Lit(l) => l <= u && Gen(ts[1..], u[|l|..])
      case Scheme =>
        || ("https://" <= u && Gen(ts[1..], u[8..]))
        || ("http://" <= u && Gen(ts[1..], u[7..]))
      case Plus(c) => exists k :: GenSplit(ts, c, "", u, k)
      case PlusThen(c, suf) => exists k :: GenSplit(ts, c, suf, u, k)
  }

  /** `u` is a run of `k` class-`c` characters, then `suf`, then a string
      the rest of the tokens describe. */
  ghost predicate GenSplit(ts: seq<Token>, c: Class, suf: string, u: string, k: int)
    requires |ts| > 0
    decreases |ts|, 0
  {
    && 1 <= k <= |u| - |suf|
    && AllIn(c, u[..k])
    && At(suf, u, k)
    && Gen(ts[1..], u[k + |suf|..])
  }

  /** A run of class `c` cannot run into the token that follows it. */
  predicate Stops(c: Class, next: Token) {
    next.Lit? && |next.text| > 0 && !InClass(c, next.text[0])
  }

  /** The first token, if a run, stops before the token after it. */
  predicate HeadFits(ts: seq<Token>)
    requires |ts| > 0
  {
    && (ts[0].Plus? || ts[0].PlusThen? ==> |ts| == 1 || Stops(ts[0].cls, ts[1]))
    && (ts[0].PlusThen? ==> Within(ts[0].cls, ts[0].suffix))
  }

  predicate WellFormed(ts: seq<Token>)
    decreases |ts|
  {
    |ts| == 0 || (HeadFits(ts) && WellFormed(ts[1..]))
  }

  /** Two well-formed patterns, the first ending in literal text, make a
      well-formed pattern. */
  lemma {:induction false} WellFormedAppend(a: seq<Token>, b: seq<Token>)
    requires WellFormed(a) && WellFormed(b)
    requires |a| > 0 ==> a[|a| - 1].Lit?
    ensures WellFormed(a + b)
  {
    if |a| > 0 {
      WellFormedAppend(a[1..], b);
      assert (a + b)[1..] == a[1..] + b;
      assert (a + b)[0] == a[0];
      assert HeadFits(a);
      if |a| > 1 {
        assert (a + b)[1] == a[1];
      }
      assert HeadFits(a + b);
    } else {
      assert a + b == b;
    }
  }

  /** End of the longest run of class `c` starting at `i`. */
  function RunEnd(c: Class, s: string, i: nat): (e: nat)
    requires i <= |s|
    ensures i <= e <= |s|
    ensures AllIn(c, s[i..e])
    ensures e == |s| || !InClass(c, s[e])
    decreases |s| - i
  {
    if i < |s| && InClass(c, s[i]) then
      var e := RunEnd(c, s, i + 1);
      assert s[i..e] == [s[i]] + s[i + 1..e];
      e
    else
      i
  }

  /** A run reaches at least as far as any all-`c` stretch from `i`. */
  lemma {:induction false} RunEndCovers(c: Class, s: string, i: nat, m: nat)
    requires i <= m <= |s|
    requires AllIn(c, s[i..m])
    ensures m <= RunEnd(c, s, i)
    decreases m - i
  {
    if i < m {
      assert s[i..m][0] == s[i];
      assert s[i + 1..m] == s[i..m][1..];
      RunEndCovers(c, s, i + 1, m);
    }
  }

  /** A run stops exactly where a non-`c` character follows an all-`c` stretch. */
  lemma {:induction false} RunEndExact(c: Class, s: string, i: nat, m: nat)
    requires i <= m < |s|
    requires AllIn(c, s[i..m]) && !InClass(c, s[m])
    ensures RunEnd(c, s, i) == m
    decreases m - i
  {
    if i < m {
      assert s[i..m][0] == s[i];
      assert s[i + 1..m] == s[i..m][1..];
      RunEndExact(c, s, i + 1, m);
    }
  }

  /** The largest `k` in `lo..top` at which `suf` occurs. */
  function LastAt(s: string, suf: string, lo: nat, top: int): (r: Option<nat>)
    requires top + |suf| <= |s|
    ensures r.Some? ==> lo <= r.value <= top && At(suf, s, r.value)
    ensures r.Some? ==> forall k :: r.value < k <= top ==> !At(suf, s, k)
    ensures r.None? ==> forall k :: lo <= k <= top ==> !At(suf, s, k)
    decreases top + 1 - lo
  {
    if top < lo then None
    else if At(suf, s, top) then Some(top)
    else LastAt(s, suf, lo, top - 1)
  }

  /** How far one token reaches from `i`, if it matches there. */
  function Step(t: Token, s: string, i: nat): (r: Option<nat>)
    requires i <= |s|
    ensures r.Some? ==> i <= r.value <= |s|
  {
    match t
    case Lit(l) =>
      if l <= s[i..] then Some(i + |l|) else None
    case Scheme =>
      if "https://" <= s[i..] then Some(i + 8)
      else if "http://" <= s[i..] then Some(i + 7)
      else None
    case Plus(c) =>
      var e := RunEnd(c, s, i);
      if e == i then None else Some(e)
    case PlusThen(c, suf) => SuffixedRun(c, suf, s, i)
  }

  /** `[c]+suf` backtracks to the last `suf` inside the run from `i` that
      leaves at least one run character before it. */
  function SuffixedRun(c: Class, suf: string, s: string, i: nat): (r: Option<nat>)
    requires i <= |s|
    ensures r.Some? ==> i < r.value <= |s|
  {
    var found := LastAt(s, suf, i + 1, RunEnd(c, s, i) - |suf|);
    if found.Some? then Some(found.value + |suf|) else None
  }

  /** A suffixed run reaches at least as far as any occurrence of the
      suffix inside the run, and exactly to the run's end when the suffix
      ends the run. */
  lemma SuffixedRunReaches(c: Class, suf: string, s: string, i: nat, p: nat) returns (m: nat)
    requires i <= |s|
    requires i < p && p + |suf| <= RunEnd(c, s, i) && At(suf, s, p)
    ensures SuffixedRun(c, suf, s, i) == Some(m)
    ensures p + |suf| <= m <= RunEnd(c, s, i)
    ensures p + |suf| == RunEnd(c, s, i) ==> m == p + |suf|
  {
    var found := LastAt(s, suf, i + 1, RunEnd(c, s, i) - |suf|);
    m := found.value + |suf|;
  }

  /** Where the suffix a suffixed run ends in starts. */
  lemma SuffixedRunFound(c: Class, suf: string, s: string, i: nat) returns (p: nat)
    requires i <= |s| && SuffixedRun(c, suf, s, i).Some?
    ensures i < p && p + |suf| == SuffixedRun(c, suf, s, i).value
    ensures p + |suf| <= RunEnd(c, s, i) && At(suf, s, p)
  {
    p := LastAt(s, suf, i + 1, RunEnd(c, s, i) - |suf|).value;
  }

  /** The deterministic matcher anchored at `i`: the end of the match. */
  function Exec(ts: seq<Token>, s: string, i: nat): (r: Option<nat>)
    requires i <= |s|
    ensures r.Some? ==> i <= r.value <= |s|
    decreases |ts|
  {
    if |ts| == 0 then Some(i)
    else match Step(ts[0], s, i)
      case None => None
      case Some(m) => Exec(ts[1..], s, m)
  }

  /** Whatever `Exec` matches is described by the pattern. */
  lemma {:induction false} ExecSound(ts: seq<Token>, s: string, i: nat)
    requires i <= |s|
    requires Exec(ts, s, i).Some?
    ensures Gen(ts, s[i..Exec(ts, s, i).value])
    decreases |ts|
  {
    if |ts| > 0 {
      var m := Step(ts[0], s, i).value;
      ExecUnfold(ts, s, i, m);
      ExecSound(ts[1..], s, m);
      StepSound(ts, s, i, m, Exec(ts, s, i).value);
    }
  }

  /** One token matched from `i` to `m`, and the rest from `m` to `j`. */
  lemma StepSound(ts: seq<Token>, s: string, i: nat, m: nat, j: nat)
    requires |ts| > 0 && i <= |s|
    requires Step(ts[0], s, i) == Some(m)
    requires m <= j <= |s| && Gen(ts[1..], s[m..j])
    ensures Gen(ts, s[i..j])
  {
    var t := ts[0];
    if t.Lit? {
      LitStepSound(ts, s, i, m, j);
    } else if t.Scheme? {
      SchemeStep(s, i, m);
      SchemeSound(ts, s, i, m - i, j);
    } else if t.Plus? {
      PlusSound(ts, s, i, m, j);
    } else {
      PlusThenSound(ts, s, i, m, j);
    }
  }

  lemma LitStepSound(ts: seq<Token>, s: string, i: nat, m: nat, j: nat)
    requires |ts| > 0 && ts[0].Lit? && i <= |s|
    requires Step(ts[0], s, i) == Some(m)
    requires m <= j <= |s| && Gen(ts[1..], s[m..j])
    ensures Gen(ts, s[i..j])
  {
    LitSound(ts, ts[0].text, s, i, j);
  }

  /** Where the scheme token reaches. */
  lemma SchemeStep(s: string, i: nat, m: nat)
    requires i <= |s| && Step(Scheme, s, i) == Some(m)
    ensures (m == i + 8 && "https://" <= s[i..]) || (m == i + 7 && "http://" <= s[i..])
  {
  }

  lemma PlusSound(ts: seq<Token>, s: string, i: nat, m: nat, j: nat)
    requires |ts| > 0 && ts[0].Plus? && i <= |s|
    requires Step(ts[0], s, i) == Some(m)
    requires m <= j <= |s| && Gen(ts[1..], s[m..j])
    ensures Gen(ts, s[i..j])
  {
    RunSound(ts, ts[0].cls, "", s, i, m, m, j);
  }

  lemma PlusThenSound(ts: seq<Token>, s: string, i: nat, m: nat, j: nat)
    requires |ts| > 0 && ts[0].PlusThen? && i <= |s|
    requires Step(ts[0], s, i) == Some(m)
    requires m <= j <= |s| && Gen(ts[1..], s[m..j])
    ensures Gen(ts, s[i..j])
  {
    SuffixedRunSound(ts, ts[0].cls, ts[0].suffix, s, i, m, j);
  }

  /** A suffixed run from `i` to `m`, then a match of the remaining tokens
      ending at `j`, splits `s[i..j]` as `Gen` asks. */
  lemma SuffixedRunSound(ts: seq<Token>, c: Class, suf: string, s: string, i: nat, m: nat, j: nat)
    requires |ts| > 0 && i <= |s|
    requires SuffixedRun(c, suf, s, i) == Some(m)
    requires m <= j <= |s| && Gen(ts[1..], s[m..j])
    ensures exists k :: GenSplit(ts, c, suf, s[i..j], k)
  {
    var p := SuffixedRunFound(c, suf, s, i);
    RunSound(ts, c, suf, s, i, p, RunEnd(c, s, i), j);
    assert GenSplit(ts, c, suf, s[i..j], p - i);
  }

  lemma LitSound(ts: seq<Token>, l: string, s: string, i: nat, j: nat)
    requires |ts| > 0 && ts[0] == Lit(l)
    requires i + |l| <= j <= |s| && l <= s[i..]
    requires Gen(ts[1..], s[i + |l|..j])
    ensures Gen(ts, s[i..j])
  {
    var u := s[i..j];
    assert u[|l|..] == s[i + |l|..j];
    assert l == s[i..][..|l|] == u[..|l|];
  }

  lemma SchemeSound(ts: seq<Token>, s: string, i: nat, n: nat, j: nat)
    requires |ts| > 0 && ts[0] == Scheme
    requires i + n <= j <= |s|
    requires (n == 8 && "https://" <= s[i..]) || (n == 7 && "http://" <= s[i..])
    requires Gen(ts[1..], s[i + n..j])
    ensures Gen(ts, s[i..j])
  {
    var u := s[i..j];
    assert u[n..] == s[i + n..j];
    assert u[..n] == s[i..][..n];
    if n == 8 {
      assert "https://" <= u;
    } else {
      assert "http://" <= u;
    }
  }

  /** A run of class `c` from `i` to `m`, then `suf`, then a match of the
      remaining tokens ending at `j`, splits `s[i..j]` as `Gen` asks. */
  lemma RunSound(ts: seq<Token>, c: Class, suf: string, s: string, i: nat, m: nat, e: nat, j: nat)
    requires |ts| > 0
    requires i < m && m + |suf| <= j <= |s| && m <= e <= |s| && AllIn(c, s[i..e]) && At(suf, s, m)
    requires Gen(ts[1..], s[m + |suf|..j])
    ensures GenSplit(ts, c, suf, s[i..j], m - i)
  {
    RunPieces(c, suf, s, i, m, e, j);
  }

  /** How a run from `i` to `m`, then `suf`, sit in `s[i..j]`. */
  lemma RunPieces(c: Class, suf: string, s: string, i: nat, m: nat, e: nat, j: nat)
    requires i < m && m + |suf| <= j <= |s| && m <= e <= |s| && AllIn(c, s[i..e]) && At(suf, s, m)
    ensures AllIn(c, s[i..j][..m - i])
    ensures At(suf, s[i..j], m - i)
    ensures s[i..j][m - i + |suf|..] == s[m + |suf|..j]
  {
    var k := m - i;
    SliceOfSlice(s, i, j, 0, k);
    AllInSlice(c, s, i, e, i, m);
    SliceOfSlice(s, i, j, k, k + |suf|);
    SliceOfSlice(s, i, j, k + |suf|, j - i);
  }

  /** A stretch inside an all-`c` stretch is all `c`. */
  lemma AllInSlice(c: Class, s: string, a: nat, b: nat, a': nat, b': nat)
    requires a <= a' <= b' <= b <= |s| && AllIn(c, s[a..b])
    ensures AllIn(c, s[a'..b'])
  {
    forall q | 0 <= q < b' - a' ensures InClass(c, s[a'..b'][q]) {
      assert s[a'..b'][q] == s[a..b][q + a' - a];
    }
  }

  /** The facts about `s` that a split of `s[i..j]` gives. */
  lemma RunComplete(ts: seq<Token>, c: Class, suf: string, s: string, i: nat, j: nat, k: int)
    requires |ts| > 0 && i <= j <= |s|
    requires GenSplit(ts, c, suf, s[i..j], k) && Within(c, suf)
    ensures 1 <= k && i + k + |suf| <= j
    ensures AllIn(c, s[i..i + k + |suf|]) && At(suf, s, i + k)
    ensures Gen(ts[1..], s[i + k + |suf|..j])
  {
    var u := s[i..j];
    var m := i + k + |suf|;
    assert AllIn(c, suf) by {
      InClassForms(c, suf);
    }
    assert 1 <= k <= |u| - |suf|;
    assert u[..k] == s[i..i + k];
    assert u[k..k + |suf|] == suf;
    assert s[i + k..m] == suf by {
      SliceOfSlice(s, i, j, k, k + |suf|);
    }
    assert s[i..m] == u[..k] + suf;
    assert u[k + |suf|..] == s[m..j];
  }

  /** Whenever the pattern describes `s[i..j]`, `Exec` succeeds at `i` and
      reaches at least `j`: it finds the longest match. */
  lemma {:induction false} ExecComplete(ts: seq<Token>, s: string, i: nat, j: nat)
    requires WellFormed(ts)
    requires i <= j <= |s|
    requires Gen(ts, s[i..j])
    ensures Exec(ts, s, i).Some? && j <= Exec(ts, s, i).value
    decreases |ts|
  {
    if |ts| > 0 {
      var m, m' := StepComplete(ts, s, i, j);
      ExecUnfold(ts, s, i, m');
      if |ts| > 1 {
        ExecComplete(ts[1..], s, m, j);
      }
    }
  }

  /** The first token of a pattern describing `s[i..j]` matches at `i`;
      unless it is the last token, it stops exactly where the rest of the
      description starts. */
  lemma StepComplete(ts: seq<Token>, s: string, i: nat, j: nat) returns (m: nat, m': nat)
    requires |ts| > 0 && WellFormed(ts)
    requires i <= j <= |s|
    requires Gen(ts, s[i..j])
    ensures Step(ts[0], s, i) == Some(m')
    ensures i <= m <= j && Gen(ts[1..], s[m..j])
    ensures |ts| > 1 ==> m' == m
    ensures |ts| == 1 ==> m == j <= m'
  {
    var t := ts[0];
    if t.Lit? {
      m := LitComplete(ts, s, i, j);
      m' := m;
    } else if t.Scheme? {
      m := SchemeComplete(ts, s, i, j);
      m' := m;
    } else if t.Plus? {
      m, m' := PlusComplete(ts, s, i, j);
    } else {
      m, m' := PlusThenComplete(ts, s, i, j);
    }
  }

  lemma LitComplete(ts: seq<Token>, s: string, i: nat, j: nat) returns (m: nat)
    requires |ts| > 0 && ts[0].Lit?
    requires i <= j <= |s|
    requires Gen(ts, s[i..j])
    ensures Step(ts[0], s, i) == Some(m)
    ensures i <= m <= j && Gen(ts[1..], s[m..j])
  {
    var u := s[i..j];
    var l := ts[0].text;
    assert s[i..][..|l|] == u[..|l|];
    assert u[|l|..] == s[i + |l|..j];
    m := i + |l|;
  }

  lemma SchemeComplete(ts: seq<Token>, s: string, i: nat, j: nat) returns (m: nat)
    requires |ts| > 0 && ts[0].Scheme?
    requires i <= j <= |s|
    requires Gen(ts, s[i..j])
    ensures Step(ts[0], s, i) == Some(m)
    ensures i <= m <= j && Gen(ts[1..], s[m..j])
  {
    var u := s[i..j];
    if "https://" <= u {
      assert u[4] == 's';
      assert !("http://" <= u);
      assert s[i..][..8] == u[..8];
      assert u[8..] == s[i + 8..j];
      m := i + 8;
    } else {
      assert s[i..][..7] == u[..7];
      assert s[i..][4] == ':';
      assert u[7..] == s[i + 7..j];
      m := i + 7;
    }
  }

  lemma PlusComplete(ts: seq<Token>, s: string, i: nat, j: nat) returns (m: nat, m': nat)
    requires |ts| > 0 && WellFormed(ts) && ts[0].Plus?
    requires i <= j <= |s|
    requires Gen(ts, s[i..j])
    ensures Step(ts[0], s, i) == Some(m')
    ensures i <= m <= j && Gen(ts[1..], s[m..j])
    ensures |ts| > 1 ==> m' == m
    ensures |ts| == 1 ==> m == j <= m'
  {
    var c := ts[0].cls;
    var k :| GenSplit(ts, c, "", s[i..j], k);
    RunComplete(ts, c, "", s, i, j, k);
    m := i + k;
    assert s[i..m] == s[i..i + k + |""|];
    RunEndCovers(c, s, i, m);
    if |ts| > 1 {
      assert HeadFits(ts);
      StopsAt(ts[1..], c, s, m, j);
      RunEndExact(c, s, i, m);
    }
    m' := RunEnd(c, s, i);
  }

  lemma PlusThenComplete(ts: seq<Token>, s: string, i: nat, j: nat) returns (m: nat, m': nat)
    requires |ts| > 0 && WellFormed(ts) && ts[0].PlusThen?
    requires i <= j <= |s|
    requires Gen(ts, s[i..j])
    ensures Step(ts[0], s, i) == Some(m')
    ensures i <= m <= j && Gen(ts[1..], s[m..j])
    ensures |ts| > 1 ==> m' == m
    ensures |ts| == 1 ==> m == j <= m'
  {
    var c, suf := ts[0].cls, ts[0].suffix;
    assert HeadFits(ts);
    var k :| GenSplit(ts, c, suf, s[i..j], k);
    RunComplete(ts, c, suf, s, i, j, k);
    m := i + k + |suf|;
    RunEndCovers(c, s, i, m);
    if |ts| > 1 {
      StopsAt(ts[1..], c, s, m, j);
      RunEndExact(c, s, i, m);
    }
    m' := SuffixedRunReaches(c, suf, s, i, i + k);
  }

  lemma ExecUnfold(ts: seq<Token>, s: string, i: nat, m: nat)
    requires |ts| > 0 && i <= |s|
    requires Step(ts[0], s, i) == Some(m)
    ensures m <= |s| && Exec(ts, s, i) == Exec(ts[1..], s, m)
  {
  }

  /** The literal after a run starts with a character outside the run's class. */
  lemma StopsAt(ts: seq<Token>, c: Class, s: string, m: nat, j: nat)
    requires |ts| > 0 && Stops(c, ts[0])
    requires m <= j <= |s|
    requires Gen(ts, s[m..j])
    ensures m < |s| && !InClass(c, s[m])
  {
    var l := ts[0].text;
    assert l <= s[m..j];
    assert s[m..j][0] == s[m];
  }
}
