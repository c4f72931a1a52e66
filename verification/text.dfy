/**
  String helpers the reply filter relies on: the whitespace class shared by
  `\s` and `str.strip`, stripping, splitting on and joining with newlines,
  and the order-preserving de-duplication that `dict.fromkeys` performs.
 */
module Text {

  /** The whitespace class: ASCII space, tab, newline, carriage return,
      vertical tab and form feed. */
  predicate IsSpace(c: char) {
    c == ' ' || c == '\t' || c == '\n' || c == '\r' || c == '\U{000B}' || c == '\U{000C}'
  }

  predicate AllSpace(s: string) {
    forall k :: 0 <= k < |s| ==> IsSpace(s[k])
  }

  predicate NoSpace(s: string) {
    forall k :: 0 <= k < |s| ==> !IsSpace(s[k])
  }

  /** No leading and no trailing whitespace. */
  predicate Stripped(s: string) {
    |s| == 0 || (!IsSpace(s[0]) && !IsSpace(s[|s| - 1]))
  }

  /** `u` sits in `s` at offset `a`. */
  predicate At(u: string, s: string, a: int) {
    0 <= a <= |s| - |u| && s[a..a + |u|] == u
  }

  /** `u` occurs in `s` as a contiguous factor. */
  ghost predicate Occurs(u: string, s: string) {
    exists a :: At(u, s, a)
  }

  function TrimStart(s: string): (r: string)
    ensures |r| <= |s|
    ensures r == s[|s| - |r|..]
    ensures AllSpace(s[..|s| - |r|])
    ensures |r| == 0 || !IsSpace(r[0])
  {
    if |s| > 0 && IsSpace(s[0]) then
      var t := TrimStart(s[1..]);
      assert s[..|s| - |t|] == [s[0]] + s[1..][..|s[1..]| - |t|];
      t
    else
      s
  }

  function TrimEnd(s: string): (r: string)
    ensures |r| <= |s|
    ensures r == s[..|r|]
    ensures AllSpace(s[|r|..])
    ensures |r| == 0 || !IsSpace(r[|r| - 1])
  {
    if |s| > 0 && IsSpace(s[|s| - 1]) then
      var t := TrimEnd(s[..|s| - 1]);
      assert s[|t|..] == s[..|s| - 1][|t|..] + [s[|s| - 1]];
      t
    else
      s
  }

  /** Python's `str.strip()`: the factor of `s` left after removing the
      whitespace at both ends. */
  function Strip(s: string): (r: string)
    ensures Stripped(r)
    ensures |r| <= |s|
    ensures At(r, s, StripOffset(s))
    ensures AllSpace(s[..StripOffset(s)]) && AllSpace(s[StripOffset(s) + |r|..])
    ensures Stripped(s) ==> r == s
  {
    var t := TrimStart(s);
    var r := TrimEnd(t);
    StripParts(s, t, r);
    r
  }

  /** Number of whitespace characters `Strip` removes at the front. */
  function StripOffset(s: string): (a: nat)
    ensures a <= |s|
  {
    |s| - |TrimStart(s)|
  }

  lemma StripParts(s: string, t: string, r: string)
    requires t == TrimStart(s) && r == TrimEnd(t)
    ensures At(r, s, StripOffset(s))
    ensures AllSpace(s[..StripOffset(s)]) && AllSpace(s[StripOffset(s) + |r|..])
    ensures Stripped(s) ==> r == s
    ensures Stripped(r)
  {
    StripFactor(s, t, r, StripOffset(s));
    if |r| > 0 {
      assert r[0] == t[0];
    }
    if Stripped(s) {
      TrimStartStripped(s);
      TrimEndStripped(s);
    }
  }

  lemma StripFactor(s: string, t: string, r: string, a: nat)
    requires a + |t| == |s| && t == s[a..] && AllSpace(s[..a])
    requires |r| <= |t| && r == t[..|r|] && AllSpace(t[|r|..])
    ensures At(r, s, a)
    ensures AllSpace(s[..a]) && AllSpace(s[a + |r|..])
  {
    StripFactorAt(s, t, r, a);
    StripFactorTail(s, t, r, a);
  }

  lemma StripFactorAt(s: string, t: string, r: string, a: nat)
    requires a + |t| == |s| && t == s[a..] && |r| <= |t| && r == t[..|r|]
    ensures At(r, s, a)
  {
    SliceOfSuffix(s, a, |r|);
  }

  lemma StripFactorTail(s: string, t: string, r: string, a: nat)
    requires a + |t| == |s| && t == s[a..] && |r| <= |t| && AllSpace(t[|r|..])
    ensures AllSpace(s[a + |r|..])
  {
    TailOfSuffix(s, a, |r|);
  }

  /** A slice of a slice is a slice. */
  lemma SliceOfSlice(s: string, a: nat, b: nat, c: nat, d: nat)
    requires a <= b <= |s| && c <= d <= b - a
    ensures s[a..b][c..d] == s[a + c..a + d]
  {
    var x, y := s[a..b][c..d], s[a + c..a + d];
    forall q | 0 <= q < |x| ensures x[q] == y[q] {
    }
    assert x == y;
  }

  lemma SliceOfSuffix(s: string, a: nat, n: nat)
    requires a + n <= |s|
    ensures s[a..][..n] == s[a..a + n]
  {
  }

  lemma TailOfSuffix(s: string, a: nat, n: nat)
    requires a + n <= |s|
    ensures s[a..][n..] == s[a + n..]
  {
  }

  lemma TrimStartStripped(s: string)
    requires Stripped(s)
    ensures TrimStart(s) == s
  {
  }

  lemma TrimEndStripped(s: string)
    requires Stripped(s)
    ensures TrimEnd(s) == s
  {
  }

  /** Stripping twice is stripping once. */
  lemma StripIdempotent(s: string)
    ensures Strip(Strip(s)) == Strip(s)
  {
  }

  /** Python's `str.split('\n')`: always at least one piece, no piece holds a
      newline. */
  function Split(s: string): (r: seq<string>)
    ensures |r| >= 1
    ensures forall k :: 0 <= k < |r| ==> '\n' !in r[k]
    decreases |s|
  {
    if '\n' in s then
      var k := FirstNewline(s);
      [s[..k]] + Split(s[k + 1..])
    else
      [s]
  }

  function FirstNewline(s: string): (k: nat)
    requires '\n' in s
    ensures k < |s| && s[k] == '\n' && '\n' !in s[..k]
  {
    if s[0] == '\n' then 0 else
      var k := FirstNewline(s[1..]);
      assert s[..k + 1] == [s[0]] + s[1..][..k];
      k + 1
  }

  /** Python's `'\n'.join(lines)`. */
  function Join(lines: seq<string>): (r: string)
    ensures |lines| == 1 ==> r == lines[0]
  {
    if |lines| == 0 then ""
    else if |lines| == 1 then lines[0]
    else lines[0] + "\n" + Join(lines[1..])
  }

  /** The first newline is the one with none before it. */
  lemma {:induction false} FirstNewlineAt(s: string, n: nat)
    requires n < |s| && s[n] == '\n' && '\n' !in s[..n]
    ensures FirstNewline(s) == n
  {
    if n > 0 {
      assert s[0] == s[..n][0];
      assert s[1..][..n - 1] == s[1..n];
      assert s[1..n] <= s[..n][1..];
      FirstNewlineAt(s[1..], n - 1);
    }
  }

  /** Joining the pieces of a split gives the text back. */
  lemma {:induction false} JoinSplit(s: string)
    ensures Join(Split(s)) == s
    decreases |s|
  {
    if '\n' in s {
      var k := FirstNewline(s);
      JoinSplit(s[k + 1..]);
      var rest := Split(s[k + 1..]);
      assert Split(s)[1..] == rest;
      assert s == s[..k] + "\n" + s[k + 1..];
    }
  }

  /** Splitting a join of newline-free lines gives the lines back. */
  lemma {:induction false} SplitJoin(lines: seq<string>)
    requires |lines| >= 1
    requires forall k :: 0 <= k < |lines| ==> '\n' !in lines[k]
    ensures Split(Join(lines)) == lines
  {
    if |lines| > 1 {
      SplitJoin(lines[1..]);
      var s := Join(lines);
      var n := |lines[0]|;
      assert s[n] == '\n';
      assert s[..n] == lines[0];
      assert '\n' in s;
      FirstNewlineAt(s, n);
      assert s[n + 1..] == Join(lines[1..]);
    }
  }

  /** Joining lines that are each no longer, and shorter where they differ,
      gives text that is no longer, and shorter when any line differs. */
  lemma {:induction false} JoinShrinks(a: seq<string>, b: seq<string>)
    requires |a| == |b|
    requires forall k :: 0 <= k < |a| ==> |b[k]| <= |a[k]| && (b[k] != a[k] ==> |b[k]| < |a[k]|)
    ensures |Join(b)| <= |Join(a)|
    ensures b != a ==> |Join(b)| < |Join(a)|
  {
    if |a| > 1 {
      JoinShrinks(a[1..], b[1..]);
      if b != a && b[1..] == a[1..] {
        assert b[0] != a[0];
      }
    }
  }

  /** Every element of `xs` is different from every other. */
  predicate Distinct<T(==)>(xs: seq<T>) {
    forall i, j :: 0 <= i < j < |xs| ==> xs[i] != xs[j]
  }

  /** Index of the first occurrence of `x` in `xs`. */
  function FirstIndex<T(==)>(xs: seq<T>, x: T): (k: nat)
    requires x in xs
    ensures k < |xs| && xs[k] == x && x !in xs[..k]
  {
    if xs[0] == x then 0 else
      var k := FirstIndex(xs[1..], x);
      assert xs[..k + 1] == [xs[0]] + xs[1..][..k];
      k + 1
  }

  /** The first occurrence is the one with none before it. */
  lemma {:induction false} FirstIndexAt<T>(xs: seq<T>, x: T, k: nat)
    requires k < |xs| && xs[k] == x && x !in xs[..k]
    ensures FirstIndex(xs, x) == k
  {
    if k > 0 {
      assert xs[0] == xs[..k][0];
      assert xs[1..][..k - 1] == xs[..k][1..];
      FirstIndexAt(xs[1..], x, k - 1);
    }
  }

  /** `list(dict.fromkeys(xs))`: the first occurrence of each element, in
      the order of first occurrence. */
  function Dedup(xs: seq<string>): (r: seq<string>)
    ensures Distinct(r)
    ensures forall x :: x in r <==> x in xs
    ensures forall i, j :: 0 <= i < j < |r| ==> FirstIndex(xs, r[i]) < FirstIndex(xs, r[j])
    ensures |r| <= |xs|
  {
    if |xs| == 0 then []
    else
      var init := xs[..|xs| - 1];
      var last := xs[|xs| - 1];
      var d := Dedup(init);
      assert xs == init + [last];
      assert forall x :: x in init ==> FirstIndex(xs, x) == FirstIndex(init, x) by {
        forall x | x in init ensures FirstIndex(xs, x) == FirstIndex(init, x) {
          PrefixFirstIndex(init, [last], x);
        }
      }
      if last in d then d
      else
        assert last !in init;
        assert FirstIndex(xs, last) == |xs| - 1;
        d + [last]
  }

  lemma PrefixFirstIndex(a: seq<string>, b: seq<string>, x: string)
    requires x in a
    ensures FirstIndex(a + b, x) == FirstIndex(a, x)
  {
    var k := FirstIndex(a, x);
    assert (a + b)[..k] == a[..k];
    FirstIndexAt(a + b, x, k);
  }

  /** Already-distinct sequences pass through de-duplication unchanged. */
  lemma {:induction false} DedupOfDistinct(xs: seq<string>)
    requires Distinct(xs)
    ensures Dedup(xs) == xs
  {
    if |xs| > 0 {
      var init := xs[..|xs| - 1];
      DistinctInit(xs);
      DedupOfDistinct(init);
      DedupLast(xs);
      LastSplit(xs);
    }
  }

  lemma LastSplit(xs: seq<string>)
    requires |xs| > 0
    ensures xs == xs[..|xs| - 1] + [xs[|xs| - 1]]
  {
  }

  /** Dropping the last element of a distinct sequence keeps it distinct,
      and the last element is not among the others. */
  lemma DistinctInit(xs: seq<string>)
    requires Distinct(xs) && |xs| > 0
    ensures Distinct(xs[..|xs| - 1]) && xs[|xs| - 1] !in xs[..|xs| - 1]
  {
    var init := xs[..|xs| - 1];
    forall i, j | 0 <= i < j < |init| ensures init[i] != init[j] {
      assert init[i] == xs[i] && init[j] == xs[j];
    }
    forall i | 0 <= i < |init| ensures init[i] != xs[|xs| - 1] {
      assert init[i] == xs[i];
    }
  }

  lemma DedupLast(xs: seq<string>)
    requires |xs| > 0
    ensures Dedup(xs) == (var d := Dedup(xs[..|xs| - 1]);
                          if xs[|xs| - 1] in d then d else d + [xs[|xs| - 1]])
  {
  }

  /** De-duplication is idempotent. */
  lemma DedupIdempotent(xs: seq<string>)
    ensures Dedup(Dedup(xs)) == Dedup(xs)
  {
    DedupOfDistinct(Dedup(xs));
  }
}
