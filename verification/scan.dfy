/**
  The search loop behind `re.findall` and `re.sub`, for any pattern that
  never matches the empty string: try the pattern at each position from
  the front; on a match, record it and carry on at its end, otherwise carry
  on one character further.

  The pattern is given as a `Matcher`: what trying it at a position gives.
 */
module Scan {
  import opened Text
  import opened Grammar

  /** A match found at some position `lo`: the substitution puts
      `s[lo..keep]` back in place of the matched text `s[lo..end]`. */
  datatype Hit = Hit(keep: nat, end: nat)

  type Matcher = nat -> Option<Hit>

  /** Every match tried at `q` is non-empty, keeps a prefix of itself and
      ends within a text of length `n`. */
  ghost predicate Advances(m: Matcher, n: nat) {
    forall q: nat :: m(q).Some? ==> q <= m(q).value.keep < m(q).value.end <= n
  }

  /** A match at `lo` whose substitution keeps `s[lo..keep]` of `s[lo..hi]`. */
  datatype Span = Span(lo: nat, keep: nat, hi: nat)

  /** Position `q` lies inside none of the spans. */
  predicate Uncovered(r: seq<Span>, q: int) {
    forall k :: 0 <= k < |r| ==> !(r[k].lo <= q < r[k].hi)
  }

  /** `r` is a scan of `s` from `i`: each span is the match found at its
      start, the spans come in order without overlapping, and the pattern
      matches at no position outside them. */
  predicate Scanned(m: Matcher, n: nat, i: nat, r: seq<Span>) {
    && i <= n
    && (forall k :: 0 <= k < |r| ==> i <= r[k].lo && m(r[k].lo) == Some(Hit(r[k].keep, r[k].hi)))
    && (forall k, k' :: 0 <= k < k' < |r| ==> r[k].hi <= r[k'].lo)
    && (forall q :: i <= q < n && Uncovered(r, q) ==> m(q).None?)
  }

  /** The matches the search finds from `i` on, in a text of length `n`.
      `SpansScanned` shows the result is a scan, and `ScannedUnique` that
      it is the only one. */
  function Spans(m: Matcher, n: nat, i: nat): (r: seq<Span>)
    requires Advances(m, n) && i <= n
    decreases n - i
  {
    if i == n then []
    else if m(i).None? then Spans(m, n, i + 1)
    else [Span(i, m(i).value.keep, m(i).value.end)] + Spans(m, n, m(i).value.end)
  }

  /** What `Spans` finds is a scan. */
  lemma {:induction false} SpansScanned(m: Matcher, n: nat, i: nat)
    requires Advances(m, n) && i <= n
    ensures Scanned(m, n, i, Spans(m, n, i))
    decreases n - i
  {
    if i < n {
      if m(i).None? {
        SpansScanned(m, n, i + 1);
        ScannedSkip(m, n, i, Spans(m, n, i + 1));
      } else {
        var h := m(i).value;
        SpansScanned(m, n, h.end);
        ScannedCons(m, n, i, h, Spans(m, n, h.end));
      }
    }
  }

  lemma ScannedSkip(m: Matcher, n: nat, i: nat, r: seq<Span>)
    requires i < n && Scanned(m, n, i + 1, r) && m(i).None?
    ensures Scanned(m, n, i, r)
  {
  }

  lemma ScannedCons(m: Matcher, n: nat, i: nat, h: Hit, r: seq<Span>)
    requires m(i) == Some(h) && i < h.end <= n
    requires Scanned(m, n, h.end, r)
    ensures Scanned(m, n, i, [Span(i, h.keep, h.end)] + r)
  {
    var r' := [Span(i, h.keep, h.end)] + r;
    ConsCovers(m, n, i, h, r, r');
    ConsOrdered(h.end, r, r');
  }

  lemma ConsCovers(m: Matcher, n: nat, i: nat, h: Hit, r: seq<Span>, r': seq<Span>)
    requires i < h.end && r' == [Span(i, h.keep, h.end)] + r
    requires forall q :: h.end <= q < n && Uncovered(r, q) ==> m(q).None?
    ensures forall q :: i <= q < n && Uncovered(r', q) ==> m(q).None?
  {
    forall q | i <= q < n && Uncovered(r', q)
      ensures m(q).None?
    {
      assert !(r'[0].lo <= q < r'[0].hi);
      assert Uncovered(r, q) by {
        forall k | 0 <= k < |r|
          ensures !(r[k].lo <= q < r[k].hi)
        {
          assert r[k] == r'[k + 1];
        }
      }
    }
  }

  lemma ConsOrdered(e: nat, r: seq<Span>, r': seq<Span>)
    requires |r'| == |r| + 1 && r'[0].hi == e && r'[1..] == r
    requires forall k :: 0 <= k < |r| ==> e <= r[k].lo
    requires forall k, k' :: 0 <= k < k' < |r| ==> r[k].hi <= r[k'].lo
    ensures forall k, k' :: 0 <= k < k' < |r'| ==> r'[k].hi <= r'[k'].lo
  {
    forall k, k' | 0 <= k < k' < |r'|
      ensures r'[k].hi <= r'[k'].lo
    {
      assert r'[k'] == r[k' - 1];
      if k > 0 {
        assert r'[k] == r[k - 1];
      }
    }
  }

  /** The scan is determined: any list of spans that is a scan from `i` is
      the one `Spans` computes. */
  lemma {:induction false} ScannedUnique(m: Matcher, n: nat, i: nat, r: seq<Span>)
    requires Advances(m, n) && Scanned(m, n, i, r)
    ensures r == Spans(m, n, i)
    decreases n - i
  {
    if i == n {
      ScannedAtEnd(m, n, r);
    } else if m(i).None? {
      StepOnMiss(m, n, i, r);
      ScannedUnique(m, n, i + 1, r);
    } else {
      var j, head, rest := StepOnHit(m, n, i, r);
      ScannedUnique(m, n, j, rest);
    }
  }

  /** A miss is skipped by a scan and by `Spans` alike. */
  lemma StepOnMiss(m: Matcher, n: nat, i: nat, r: seq<Span>)
    requires Advances(m, n) && Scanned(m, n, i, r) && i < n && m(i).None?
    ensures Scanned(m, n, i + 1, r) && Spans(m, n, i) == Spans(m, n, i + 1)
  {
    ScannedPastMiss(m, n, i, r);
    SpansMiss(m, n, i);
  }

  /** A hit is taken whole by a scan and by `Spans` alike. */
  lemma StepOnHit(m: Matcher, n: nat, i: nat, r: seq<Span>) returns (j: nat, head: seq<Span>, rest: seq<Span>)
    requires Advances(m, n) && Scanned(m, n, i, r) && i < n && m(i).Some?
    ensures i < j <= n && Scanned(m, n, j, rest)
    ensures r == head + rest && Spans(m, n, i) == head + Spans(m, n, j)
  {
    ScannedAtHit(m, n, i, r);
    ScannedTail(m, n, i, r);
    SpansHit(m, n, i);
    j, head, rest := r[0].hi, [r[0]], r[1..];
    assert r == head + rest;
  }

  lemma SpansMiss(m: Matcher, n: nat, i: nat)
    requires Advances(m, n) && i < n && m(i).None?
    ensures Spans(m, n, i) == Spans(m, n, i + 1)
  {
  }

  lemma SpansHit(m: Matcher, n: nat, i: nat)
    requires Advances(m, n) && i < n && m(i).Some?
    ensures m(i).value.end <= n
    ensures Spans(m, n, i) == [Span(i, m(i).value.keep, m(i).value.end)] + Spans(m, n, m(i).value.end)
  {
  }

  lemma ScannedAtEnd(m: Matcher, n: nat, r: seq<Span>)
    requires Advances(m, n) && Scanned(m, n, n, r)
    ensures r == []
  {
    FirstSpan(m, n, n, r);
  }

  /** A scan's first span starts inside the text. */
  lemma FirstSpan(m: Matcher, n: nat, i: nat, r: seq<Span>)
    requires Advances(m, n) && Scanned(m, n, i, r)
    ensures |r| > 0 ==> i <= r[0].lo < n
  {
    if |r| > 0 {
      assert m(r[0].lo).Some?;
    }
  }

  lemma ScannedPastMiss(m: Matcher, n: nat, i: nat, r: seq<Span>)
    requires Advances(m, n) && Scanned(m, n, i, r) && i < n && m(i).None?
    ensures Scanned(m, n, i + 1, r)
  {
    LaterSpans(m, n, r);
    assert |r| == 0 || r[0].lo != i;
  }

  lemma ScannedAtHit(m: Matcher, n: nat, i: nat, r: seq<Span>)
    requires Advances(m, n) && Scanned(m, n, i, r) && i < n && m(i).Some?
    ensures |r| > 0 && r[0] == Span(i, m(i).value.keep, m(i).value.end)
  {
    assert !Uncovered(r, i);
    LaterSpans(m, n, r);
    assert r[0].lo <= i;
  }

  /** Every span starts no earlier than the first one. */
  lemma LaterSpans(m: Matcher, n: nat, r: seq<Span>)
    requires Advances(m, n)
    requires forall k :: 0 <= k < |r| ==> m(r[k].lo) == Some(Hit(r[k].keep, r[k].hi))
    requires forall k, k' :: 0 <= k < k' < |r| ==> r[k].hi <= r[k'].lo
    ensures forall k :: 0 <= k < |r| ==> r[0].lo <= r[k].lo
  {
    forall k | 0 < k < |r|
      ensures r[0].lo <= r[k].lo
    {
      assert m(r[0].lo).Some?;
    }
  }

  lemma ScannedTail(m: Matcher, n: nat, i: nat, r: seq<Span>)
    requires Advances(m, n) && Scanned(m, n, i, r) && |r| > 0 && r[0].lo == i
    ensures r[0].hi <= n && Scanned(m, n, r[0].hi, r[1..])
  {
    assert m(r[0].lo).Some?;
    var t := r[1..];
    forall q | r[0].hi <= q < n && Uncovered(t, q)
      ensures m(q).None?
    {
      assert Uncovered(r, q) by {
        forall k | 0 <= k < |r|
          ensures !(r[k].lo <= q < r[k].hi)
        {
          if k > 0 {
            assert r[k] == t[k - 1];
          }
        }
      }
    }
    forall k | 0 <= k < |t|
      ensures r[0].hi <= t[k].lo
    {
      assert t[k] == r[k + 1];
    }
  }

  /** The text of each span. */
  function Found(s: string, r: seq<Span>): (urls: seq<string>)
    requires forall k :: 0 <= k < |r| ==> r[k].lo <= r[k].hi <= |s|
    ensures |urls| == |r|
    ensures forall k :: 0 <= k < |r| ==> At(urls[k], s, r[k].lo) && |urls[k]| == r[k].hi - r[k].lo
  {
    if |r| == 0 then []
    else [s[r[0].lo..r[0].hi]] + Found(s, r[1..])
  }

  /** The spans lie within `s[pos..]`, in order, each keeping a prefix of
      its text. */
  predicate InOrder(s: string, r: seq<Span>, pos: nat) {
    && (forall k :: 0 <= k < |r| ==> pos <= r[k].lo <= r[k].keep <= r[k].hi <= |s|)
    && (forall k, k' :: 0 <= k < k' < |r| ==> r[k].hi <= r[k'].lo)
  }

  /** How many characters the substitution takes out. */
  function Removed(r: seq<Span>): nat
  {
    if |r| == 0 then 0 else (if r[0].keep <= r[0].hi then r[0].hi - r[0].keep else 0) + Removed(r[1..])
  }

  /** `s[pos..]` with the text of each span replaced by the part it keeps. */
  function Substitute(s: string, r: seq<Span>, pos: nat): (t: string)
    requires pos <= |s| && InOrder(s, r, pos)
    ensures |t| + Removed(r) == |s| - pos
    ensures |r| == 0 ==> t == s[pos..]
    decreases |r|
  {
    if |r| == 0 then s[pos..]
    else
      assert InOrder(s, r[1..], r[0].hi) by {
        forall k | 0 <= k < |r[1..]|
          ensures r[0].hi <= r[1..][k].lo
        {
          assert r[1..][k] == r[k + 1];
        }
      }
      s[pos..r[0].keep] + Substitute(s, r[1..], r[0].hi)
  }

  lemma InOrderTail(s: string, r: seq<Span>, pos: nat)
    requires |r| > 0 && InOrder(s, r, pos)
    ensures InOrder(s, r[1..], r[0].hi)
  {
    forall k | 0 <= k < |r[1..]|
      ensures r[0].hi <= r[1..][k].lo
    {
      assert r[1..][k] == r[k + 1];
    }
  }

  /** Position `q` is taken out by the substitution: it lies in the part
      of some span that is not kept. */
  predicate Cut(r: seq<Span>, q: int) {
    exists k :: 0 <= k < |r| && r[k].keep <= q < r[k].hi
  }

  /** The characters of `s[q..]` that no span takes out, in order. */
  function Kept(s: string, r: seq<Span>, q: nat): string
    requires q <= |s|
    decreases |s| - q
  {
    if q == |s| then []
    else (if Cut(r, q) then [] else [s[q]]) + Kept(s, r, q + 1)
  }

  /** A stretch that no span cuts survives whole. */
  lemma {:induction false} KeptUncut(s: string, r: seq<Span>, a: nat, b: nat)
    requires a <= b <= |s|
    requires forall q :: a <= q < b ==> !Cut(r, q)
    ensures Kept(s, r, a) == s[a..b] + Kept(s, r, b)
    decreases b - a
  {
    if a < b {
      assert !Cut(r, a);
      KeptUncut(s, r, a + 1, b);
      calc {
        Kept(s, r, a);
        [s[a]] + Kept(s, r, a + 1);
        [s[a]] + (s[a + 1..b] + Kept(s, r, b));
        { assert s[a..b] == [s[a]] + s[a + 1..b]; }
        s[a..b] + Kept(s, r, b);
      }
    }
  }

  /** A stretch that spans cut throughout vanishes. */
  lemma {:induction false} KeptCut(s: string, r: seq<Span>, a: nat, b: nat)
    requires a <= b <= |s|
    requires forall q :: a <= q < b ==> Cut(r, q)
    ensures Kept(s, r, a) == Kept(s, r, b)
    decreases b - a
  {
    if a < b {
      assert Cut(r, a);
      KeptCut(s, r, a + 1, b);
    }
  }

  /** Two lists of spans that cut the same positions from `a` on keep the
      same text. */
  lemma {:induction false} KeptAgree(s: string, r: seq<Span>, r': seq<Span>, a: nat)
    requires a <= |s|
    requires forall q :: a <= q < |s| ==> (Cut(r, q) <==> Cut(r', q))
    ensures Kept(s, r, a) == Kept(s, r', a)
    decreases |s| - a
  {
    if a < |s| {
      assert Cut(r, a) <==> Cut(r', a);
      KeptAgree(s, r, r', a + 1);
    }
  }

  /** The substitution keeps exactly the characters no span takes out:
      the text between the matches, and the kept part of each match. */
  lemma {:induction false} SubstituteKept(s: string, r: seq<Span>, pos: nat)
    requires pos <= |s| && InOrder(s, r, pos)
    ensures Substitute(s, r, pos) == Kept(s, r, pos)
    decreases |r|
  {
    if |r| == 0 {
      KeptUncut(s, r, pos, |s|);
    } else {
      var sp := r[0];
      InOrderTail(s, r, pos);
      SubstituteCons(s, r, pos);
      SubstituteKept(s, r[1..], sp.hi);
      HeadUncut(s, r, pos);
      KeptUncut(s, r, pos, sp.keep);
      forall q | sp.keep <= q < sp.hi
        ensures Cut(r, q)
      {
        assert r[0].keep <= q < r[0].hi;
      }
      KeptCut(s, r, sp.keep, sp.hi);
      TailCut(s, r, pos);
      KeptAgree(s, r, r[1..], sp.hi);
    }
  }

  /** Nothing before the kept part of the first span is cut. */
  lemma HeadUncut(s: string, r: seq<Span>, pos: nat)
    requires |r| > 0 && InOrder(s, r, pos)
    ensures forall q :: pos <= q < r[0].keep ==> !Cut(r, q)
  {
    forall q | pos <= q < r[0].keep
      ensures !Cut(r, q)
    {
      forall k | 0 <= k < |r|
        ensures !(r[k].keep <= q < r[k].hi)
      {
        if k > 0 {
          assert r[0].hi <= r[k].lo;
        }
      }
    }
  }

  /** Past the first span, only the later spans cut. */
  lemma TailCut(s: string, r: seq<Span>, pos: nat)
    requires |r| > 0 && InOrder(s, r, pos)
    ensures forall q :: r[0].hi <= q < |s| ==> (Cut(r, q) <==> Cut(r[1..], q))
  {
    forall q | r[0].hi <= q < |s|
      ensures Cut(r, q) <==> Cut(r[1..], q)
    {
      if Cut(r, q) {
        var k :| 0 <= k < |r| && r[k].keep <= q < r[k].hi;
        assert r[1..][k - 1] == r[k];
      }
      if Cut(r[1..], q) {
        var k :| 0 <= k < |r[1..]| && r[1..][k].keep <= q < r[1..][k].hi;
        assert r[k + 1] == r[1..][k];
      }
    }
  }

  /** Every span keeps something, and its text ends with the character
      it keeps last. */
  predicate KeepsEnds(s: string, r: seq<Span>) {
    forall k :: 0 <= k < |r| ==> EndsAlike(s, r[k])
  }

  /** The span keeps a non-empty part of itself that ends with the
      character the whole span ends with. */
  predicate EndsAlike(s: string, sp: Span) {
    sp.lo < sp.keep <= sp.hi <= |s| && s[sp.keep - 1] == s[sp.hi - 1]
  }

  lemma KeepsEndsTail(s: string, r: seq<Span>)
    requires |r| > 0 && KeepsEnds(s, r)
    ensures KeepsEnds(s, r[1..])
    ensures r[0].lo < r[0].keep && s[r[0].keep - 1] == s[r[0].hi - 1]
  {
    forall k | 0 <= k < |r[1..]|
      ensures r[1..][k] == r[k + 1]
    {
    }
  }

  /** Substituting spans that keep their ends leaves the first and the last
      character of the text where they were. */
  lemma {:induction false} SubstituteEnds(s: string, r: seq<Span>, pos: nat)
    requires pos < |s| && InOrder(s, r, pos) && KeepsEnds(s, r)
    ensures |Substitute(s, r, pos)| > 0
    ensures Substitute(s, r, pos)[0] == s[pos]
    ensures Substitute(s, r, pos)[|Substitute(s, r, pos)| - 1] == s[|s| - 1]
    decreases |r|
  {
    if |r| > 0 {
      InOrderTail(s, r, pos);
      KeepsEndsTail(s, r);
      SubstituteCons(s, r, pos);
      var head := s[pos..r[0].keep];
      var rest := Substitute(s, r[1..], r[0].hi);
      var t := Substitute(s, r, pos);
      assert t[0] == head[0];
      if r[0].hi < |s| {
        SubstituteEnds(s, r[1..], r[0].hi);
        assert t[|t| - 1] == rest[|rest| - 1];
      } else {
        SpanAtEnd(s, r, pos);
      }
    }
  }

  lemma SubstituteCons(s: string, r: seq<Span>, pos: nat)
    requires pos <= |s| && |r| > 0 && InOrder(s, r, pos) && InOrder(s, r[1..], r[0].hi)
    ensures Substitute(s, r, pos) == s[pos..r[0].keep] + Substitute(s, r[1..], r[0].hi)
  {
  }

  lemma SpanAtEnd(s: string, r: seq<Span>, pos: nat)
    requires |r| > 0 && InOrder(s, r, pos) && r[0].hi == |s| && KeepsEnds(s, r)
    ensures Substitute(s, r, pos) == s[pos..r[0].keep]
    ensures s[pos..r[0].keep][r[0].keep - pos - 1] == s[|s| - 1]
  {
    SecondSpan(s, r, pos);
    assert |r[1..]| == 0;
  }

  /** A second span starts where the first ends or later, and inside the text. */
  lemma SecondSpan(s: string, r: seq<Span>, pos: nat)
    requires |r| > 0 && InOrder(s, r, pos) && KeepsEnds(s, r)
    ensures |r| > 1 ==> r[0].hi <= r[1].lo < |s|
  {
  }

  /** Spans that each drop something take something out. */
  lemma {:induction false} RemovedPositive(r: seq<Span>)
    requires |r| > 0 && forall k :: 0 <= k < |r| ==> r[k].keep < r[k].hi
    ensures Removed(r) > 0
  {
    assert r[0].keep < r[0].hi;
  }

  /** A scan lies in order within the text it was made of. */
  lemma SpansInOrder(m: Matcher, s: string)
    requires Advances(m, |s|)
    ensures InOrder(s, Spans(m, |s|, 0), 0)
    ensures forall k :: 0 <= k < |Spans(m, |s|, 0)| ==>
      Spans(m, |s|, 0)[k].keep < Spans(m, |s|, 0)[k].hi
  {
    var r := Spans(m, |s|, 0);
    SpansScanned(m, |s|, 0);
    forall k | 0 <= k < |r|
      ensures r[k].lo <= r[k].keep < r[k].hi <= |s|
    {
      assert m(r[k].lo) == Some(Hit(r[k].keep, r[k].hi));
    }
  }
}
