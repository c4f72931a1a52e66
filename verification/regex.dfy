/**
  `re.findall` and `re.sub` for the five patterns of the reply filter: the
  search loop of `Scan` run with the matchers of `Patterns`.
 */
module Regex {
  import opened Text
  import opened Grammar
  import opened Scan
  import opened Patterns

  /** Pattern `p` tried at each position of `s`. */
  function Tries(p: Pattern, s: string): (m: Matcher)
    ensures Advances(m, |s|)
    ensures forall q: nat :: q <= |s| ==> m(q) == MatchAt(p, s, q)
  {
    (q: nat) => if q <= |s| then MatchAt(p, s, q) else None
  }

  /** The matches the search finds in `s`, front to back. */
  function Matches(p: Pattern, s: string): (r: seq<Span>)
    ensures Scanned(Tries(p, s), |s|, 0, r)
  {
    SpansScanned(Tries(p, s), |s|, 0);
    Spans(Tries(p, s), |s|, 0)
  }

  /** The search finds no match exactly when the pattern matches at no
      position of `s`. */
  lemma NoMatchesExactly(p: Pattern, s: string)
    ensures |Matches(p, s)| == 0 <==> forall q :: 0 <= q <= |s| ==> MatchAt(p, s, q).None?
  {
    var r := Matches(p, s);
    var m := Tries(p, s);
    if |r| > 0 {
      assert m(r[0].lo).Some?;
    } else {
      forall q | 0 <= q <= |s|
        ensures MatchAt(p, s, q).None?
      {
        assert Uncovered(r, q);
        assert m(q) == MatchAt(p, s, q);
      }
    }
  }

  /** Each match the search finds is the pattern's match at its start. */
  lemma MatchesAreMatches(p: Pattern, s: string)
    ensures forall k :: 0 <= k < |Matches(p, s)| ==>
      var sp := Matches(p, s)[k];
      sp.lo < sp.hi <= |s| && MatchAt(p, s, sp.lo) == Some(Hit(sp.keep, sp.hi))
  {
    var r := Matches(p, s);
    var m := Tries(p, s);
    forall k | 0 <= k < |r|
      ensures r[k].lo < r[k].hi <= |s| && MatchAt(p, s, r[k].lo) == Some(Hit(r[k].keep, r[k].hi))
    {
      assert m(r[k].lo) == Some(Hit(r[k].keep, r[k].hi));
    }
  }

  /** `re.findall(p, s)`: the text of every match, in the order found. */
  function FindAll(p: Pattern, s: string): (urls: seq<string>)
    ensures |urls| == |Matches(p, s)|
    ensures forall k :: 0 <= k < |urls| ==>
      At(urls[k], s, Matches(p, s)[k].lo) && MatchAt(p, s, Matches(p, s)[k].lo).Some?
    ensures forall k :: 0 <= k < |urls| ==> |urls[k]| == Matches(p, s)[k].hi - Matches(p, s)[k].lo
    ensures forall u :: u in urls ==> Occurs(u, s)
  {
    MatchesAreMatches(p, s);
    var urls := Found(s, Matches(p, s));
    FoundOccurs(s, Matches(p, s), urls);
    urls
  }

  lemma FoundOccurs(s: string, r: seq<Span>, urls: seq<string>)
    requires |urls| == |r| && forall k :: 0 <= k < |r| ==> At(urls[k], s, r[k].lo)
    ensures forall u :: u in urls ==> Occurs(u, s)
  {
    forall u | u in urls
      ensures Occurs(u, s)
    {
      var k :| 0 <= k < |urls| && urls[k] == u;
      assert At(u, s, r[k].lo);
    }
  }

  /** `re.sub(p, repl, s)`: every match replaced, by nothing for the four
      link patterns and by its group for `Repeat`. What is left is exactly
      the characters no match takes out; the text changes exactly when the
      pattern matches somewhere, and then it gets shorter. */
  function Sub(p: Pattern, s: string): (t: string)
    ensures t == Kept(s, Matches(p, s), 0)
    ensures |Matches(p, s)| == 0 ==> t == s
    ensures |Matches(p, s)| > 0 ==> |t| < |s|
  {
    var r := Matches(p, s);
    SpansInOrder(Tries(p, s), s);
    SubstituteKept(s, r, 0);
    if |r| > 0 then
      RemovedPositive(r);
      Substitute(s, r, 0)
    else
      Substitute(s, r, 0)
  }

  /** coze_url.py:94: each run of back-to-back copies of a URL collapsed to
      one copy. Of each run the search finds, the group `s[lo..keep]` stays
      and the copies `s[keep..hi]` go; everything outside the runs stays.
      Collapsing shortens the text exactly when some URL is directly
      followed by a copy of itself, and keeps stripped text stripped. */
  function Collapse(s: string): (t: string)
    ensures t == Kept(s, Matches(Repeat, s), 0)
    ensures |t| <= |s|
    ensures (forall q :: 0 <= q <= |s| ==> RepeatAt(s, q).None?) ==> t == s
    ensures (exists q :: 0 <= q <= |s| && RepeatAt(s, q).Some?) ==> |t| < |s|
    ensures Stripped(s) ==> Stripped(t)
  {
    NoMatchesExactly(Repeat, s);
    SomeRepeat(s);
    if |s| > 0 then
      CollapseEnds(s);
      Sub(Repeat, s)
    else
      Sub(Repeat, s)
  }

  /** A repeat anywhere is a match the search finds. */
  lemma SomeRepeat(s: string)
    ensures (exists q :: 0 <= q <= |s| && RepeatAt(s, q).Some?) ==> |Matches(Repeat, s)| > 0
  {
    if exists q :: 0 <= q <= |s| && RepeatAt(s, q).Some? {
      var q :| 0 <= q <= |s| && RepeatAt(s, q).Some?;
      assert MatchAt(Repeat, s, q).Some?;
      NoMatchesExactly(Repeat, s);
    }
  }

  lemma CollapseEnds(s: string)
    requires |s| > 0
    ensures |Sub(Repeat, s)| > 0
    ensures Sub(Repeat, s)[0] == s[0] && Sub(Repeat, s)[|Sub(Repeat, s)| - 1] == s[|s| - 1]
  {
    var r := Matches(Repeat, s);
    SpansInOrder(Tries(Repeat, s), s);
    RepeatsKeepEnds(s);
    SubstituteEnds(s, r, 0);
  }

  /** Each collapsed run ends with the character its kept copy ends with. */
  lemma RepeatsKeepEnds(s: string)
    ensures KeepsEnds(s, Matches(Repeat, s))
  {
    var r := Matches(Repeat, s);
    MatchesAreMatches(Repeat, s);
    forall k | 0 <= k < |r|
      ensures EndsAlike(s, r[k])
    {
      RepeatKeepsEnd(s, r[k]);
    }
  }

  lemma RepeatKeepsEnd(s: string, sp: Span)
    requires sp.lo < sp.hi <= |s| && MatchAt(Repeat, s, sp.lo) == Some(Hit(sp.keep, sp.hi))
    ensures EndsAlike(s, sp)
  {
    CollapsibleEnds(s, sp.lo, sp.keep, sp.hi);
  }
}
