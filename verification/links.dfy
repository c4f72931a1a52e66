/**
  Every pattern of the reply filter starts with `http://` or `https://`.
  So a text reply without either passes through the handler untouched
  except for the stripping of coze_url.py:31, and nothing is sent.
 */
module Links {
  import opened Text
  import opened Grammar
  import opened Patterns
  import opened Regex
  import opened Parens
  import opened Rewriter

  /** A scheme, `https://` or `http://`, starts at `q` in `s`. */
  predicate LinkAt(s: string, q: int) {
    0 <= q <= |s| && ("https://" <= s[q..] || "http://" <= s[q..])
  }

  /** `s` holds no scheme anywhere. */
  predicate NoLink(s: string) {
    forall q :: 0 <= q <= |s| ==> !LinkAt(s, q)
  }

  /** Each of the five patterns matches only where a scheme starts. */
  lemma MatchNeedsLink(p: Pattern, s: string, q: nat)
    requires q <= |s|
    ensures MatchAt(p, s, q).Some? ==> LinkAt(s, q)
  {
    match p
    case Byteimg =>
      assert ByteimgTokens[0] == Lit("https://");
      ExecHead(ByteimgTokens, s, q);
    case Png => ExecHead(PngTokens, s, q);
    case Coze => ExecHead(CozeTokens, s, q);
    case NewImage => ExecHead(PngTokens, s, q);
    case Repeat =>
  }

  lemma ExecHead(ts: seq<Token>, s: string, q: nat)
    requires q <= |s| && |ts| > 0
    requires ts[0] == Scheme || ts[0] == Lit("https://")
    ensures Exec(ts, s, q).Some? ==> LinkAt(s, q)
  {
  }

  /** Without a scheme no pattern matches anywhere. */
  lemma NoLinkNoMatch(p: Pattern, s: string)
    requires NoLink(s)
    ensures forall q :: 0 <= q <= |s| ==> MatchAt(p, s, q).None?
  {
    forall q | 0 <= q <= |s|
      ensures MatchAt(p, s, q).None?
    {
      MatchNeedsLink(p, s, q);
    }
  }

  /** The parenthesised URL of a line starts with a scheme. */
  lemma ParenNeedsLink(line: string, i: int)
    requires ParenAt(line, i)
    ensures LinkAt(line, i + 1)
  {
    var w := line[i + 1..|line| - 1];
    if |w| > 8 && w[..8] == "https://" {
      assert line[i + 1..][..8] == w[..8];
    } else {
      assert line[i + 1..][..7] == w[..7];
    }
  }

  /** A factor of text without a scheme has none either. */
  lemma FactorNoLink(u: string, s: string, a: int)
    requires At(u, s, a) && NoLink(s)
    ensures NoLink(u)
  {
    forall q | 0 <= q <= |u|
      ensures !LinkAt(u, q)
    {
      if "https://" <= u[q..] {
        assert s[a + q..][..8] == u[q..][..8];
        assert LinkAt(s, a + q);
      }
      if "http://" <= u[q..] {
        assert s[a + q..][..7] == u[q..][..7];
        assert LinkAt(s, a + q);
      }
    }
  }

  /** A factor of a suffix is a factor of the whole. */
  lemma AtShift(u: string, s: string, c: nat, b: int)
    requires c <= |s| && At(u, s[c..], b)
    ensures At(u, s, c + b)
  {
    assert s[c..][b..b + |u|] == s[c + b..c + b + |u|];
  }

  /** Every line of a split is a factor of the text. */
  lemma {:induction false} SplitFactors(s: string)
    ensures forall k :: 0 <= k < |Split(s)| ==> Occurs(Split(s)[k], s)
    decreases |s|
  {
    if '\n' in s {
      var n := FirstNewline(s);
      var rest := s[n + 1..];
      SplitFactors(rest);
      assert Split(s) == [s[..n]] + Split(rest);
      forall k | 0 <= k < |Split(s)|
        ensures Occurs(Split(s)[k], s)
      {
        if k == 0 {
          assert At(s[..n], s, 0);
        } else {
          var u := Split(rest)[k - 1];
          assert Occurs(u, rest);
          var b :| At(u, rest, b);
          AtShift(u, s, n + 1, b);
        }
      }
    } else {
      assert At(s, s, 0);
    }
  }

  /** Without a scheme no line holds a parenthesised URL. */
  lemma NoLinkNoParen(d: string)
    requires NoLink(d)
    ensures !ParenLine(d)
  {
    SplitFactors(d);
    forall k, i | 0 <= k < |Split(d)|
      ensures !ParenAt(Split(d)[k], i)
    {
      var b :| At(Split(d)[k], d, b);
      FactorNoLink(Split(d)[k], d, b);
      if ParenAt(Split(d)[k], i) {
        ParenNeedsLink(Split(d)[k], i);
      }
    }
  }

  /** The handler keeps text without a scheme as it is. */
  lemma HandleNoLink(c: string)
    requires Stripped(c) && NoLink(c)
    ensures Handle(c) == Effect([], Updated(c))
  {
    forall p: Pattern
      ensures Quiet(p, c)
    {
      NoLinkNoMatch(p, c);
    }
    NoLinkNoParen(c);
    Idle(c);
  }

  /** A text reply without `http://` or `https://` in it comes out only
      stripped, and nothing is sent. */
  lemma PlainTextPassesThrough(reply: Reply)
    requires Applies(reply) && NoLink(reply.content)
    ensures OnDecorateReply(reply) == Effect([], Updated(Strip(reply.content)))
  {
    var c := Strip(reply.content);
    FactorNoLink(c, reply.content, StripOffset(reply.content));
    HandleNoLink(c);
  }
}
