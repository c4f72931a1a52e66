/**
  The five regular expressions of `coze_url.on_decorate_reply`, each as a
  matcher anchored at a position that returns where Python's leftmost,
  greedy, backtracking match from that position ends.

  - `Byteimg`  : signed byteimg image links (coze_url.py:38)
  - `Png`      : `https?://[^\s]+\.png` (coze_url.py:50)
  - `Coze`     : `https?://s\.coze\.cn/t/[^\s]+` (coze_url.py:66)
  - `NewImage` : `https?://[^\s]+\.png(~tplv-[^\s]+)?(\?.*)?` (coze_url.py:81)
  - `Repeat`   : `(https?://[^\s]+)\1+` (coze_url.py:94)
 */
module Patterns {
  import opened Text
  import opened Grammar
  import opened Scan

  datatype Pattern = Byteimg | Png | Coze | NewImage | Repeat

  /** coze_url.py:38, piece by piece: host, image path, image name and
      signed query. */
  const ByteimgTokens: seq<Token> := ByteimgHost + ByteimgPath + ByteimgName + ByteimgQuery

  const ByteimgHost: seq<Token> :=
    [Lit("https://"), PlusThen(AlnumDash, "-bot-workflow-sign"), Lit(".byteimg.com/tos-cn-i-")]

  const ByteimgPath: seq<Token> := [Plus(Alnum), Lit("/"), Plus(Alnum), Lit(".png~tplv-")]

  const ByteimgName: seq<Token> := [PlusThen(AlnumDash, "-image"), Lit(".png?rk3s=")]

  const ByteimgQuery: seq<Token> :=
    [Plus(Alnum), Lit("&x-expires="), Plus(Digit), Lit("&x-signature="), Plus(AlnumPercent)]

  /** coze_url.py:50, and the head of coze_url.py:81. */
  const PngTokens: seq<Token> := [Scheme, PlusThen(NonSpace, ".png")]

  /** coze_url.py:66. */
  const CozeTokens: seq<Token> := [Scheme, Lit("s.coze.cn/t/"), Plus(NonSpace)]

  /** The three patterns that are plain token sequences are well formed, so
      `Exec` is their leftmost-longest match. */
  lemma TokenPatternsWellFormed()
    ensures WellFormed(ByteimgTokens) && WellFormed(PngTokens) && WellFormed(CozeTokens)
  {
    ByteimgWellFormed();
    PngWellFormed(PngTokens);
    CozeWellFormed(CozeTokens);
  }

  lemma PngWellFormed(b: seq<Token>)
    requires b == PngTokens
    ensures WellFormed(b)
  {
    assert WellFormed(b[1..]);
  }

  lemma CozeWellFormed(b: seq<Token>)
    requires b == CozeTokens
    ensures WellFormed(b)
  {
    assert WellFormed(b[2..]);
    assert WellFormed(b[1..]);
  }

  lemma ByteimgWellFormed()
    ensures WellFormed(ByteimgTokens)
  {
    HostWellFormed(ByteimgHost);
    PathWellFormed(ByteimgPath);
    NameWellFormed(ByteimgName);
    QueryWellFormed(ByteimgQuery);
    var nq := ByteimgName + ByteimgQuery;
    WellFormedAppend(ByteimgName, ByteimgQuery);
    var pnq := ByteimgPath + nq;
    WellFormedAppend(ByteimgPath, nq);
    WellFormedAppend(ByteimgHost, pnq);
    assert ByteimgTokens == ByteimgHost + pnq;
  }

  lemma HostWellFormed(b: seq<Token>)
    requires b == ByteimgHost
    ensures WellFormed(b)
  {
    assert WellFormed(b[2..]);
    SignSuffixWithin();
    assert HeadFits(b[1..]);
    assert WellFormed(b[1..]);
  }

  lemma SignSuffixWithin()
    ensures Within(AlnumDash, "-bot-workflow-sign")
  {
  }

  lemma PathWellFormed(b: seq<Token>)
    requires b == ByteimgPath
    ensures WellFormed(b)
  {
    assert WellFormed(b[3..]);
    assert WellFormed(b[2..]);
    assert WellFormed(b[1..]);
  }

  lemma NameWellFormed(b: seq<Token>)
    requires b == ByteimgName
    ensures WellFormed(b)
  {
    assert WellFormed(b[1..]);
  }

  lemma QueryWellFormed(b: seq<Token>)
    requires b == ByteimgQuery
    ensures WellFormed(b)
  {
    assert WellFormed(b[4..]);
    assert WellFormed(b[3..]);
    assert WellFormed(b[2..]);
    assert WellFormed(b[1..]);
  }

  /** The whole of `w` is described by `https?://[^\s]+`. */
  predicate UrlShaped(w: string) {
    || (|w| > 8 && w[..8] == "https://" && NoSpace(w[8..]))
    || (|w| > 7 && w[..7] == "http://" && NoSpace(w[7..]))
  }

  /** Where the pattern matches when the search tries position `i`, if it
      does. */
  function MatchAt(p: Pattern, s: string, i: nat): (r: Option<Hit>)
    requires i <= |s|
    ensures r.Some? ==> i <= r.value.keep < r.value.end <= |s|
    ensures r.Some? && p != Repeat ==> r.value.keep == i
    ensures r.Some? && p == Repeat ==> Collapsible(s, i, r.value.keep, r.value.end)
  {
    match p
    case Byteimg => Whole(ByteimgTokens, s, i)
    case Png => Whole(PngTokens, s, i)
    case Coze => Whole(CozeTokens, s, i)
    case NewImage =>
      var h := Whole(PngTokens, s, i);
      if h.None? then None else Some(Hit(i, DecorationEnd(s, h.value.end)))
    case Repeat => RepeatAt(s, i)
  }

  /** A token pattern's match, all of it removed by the substitution. */
  function Whole(ts: seq<Token>, s: string, i: nat): (r: Option<Hit>)
    requires i <= |s|
    requires |ts| > 0 && (ts[0].Scheme? || (ts[0].Lit? && |ts[0].text| > 0))
    ensures r.Some? <==> Exec(ts, s, i).Some?
    ensures r.Some? ==> r.value == Hit(i, Exec(ts, s, i).value) && i < r.value.end
  {
    var e := Exec(ts, s, i);
    if e.None? then None
    else
      ExecAdvances(ts, s, i);
      Some(Hit(i, e.value))
  }

  /** A pattern that starts with the scheme or with non-empty literal text
      never matches the empty string. */
  lemma ExecAdvances(ts: seq<Token>, s: string, i: nat)
    requires i <= |s|
    requires |ts| > 0 && (ts[0].Scheme? || (ts[0].Lit? && |ts[0].text| > 0))
    requires Exec(ts, s, i).Some?
    ensures i < Exec(ts, s, i).value
  {
    var m := Step(ts[0], s, i).value;
    ExecUnfold(ts, s, i, m);
  }

  /** `~tplv-` followed by a run of non-space: group 2 of coze_url.py:81. */
  predicate Tplv(d: string) {
    |d| > 6 && d[..6] == "~tplv-" && NoSpace(d[6..])
  }

  /** `?` followed by anything but a newline: group 3 of coze_url.py:81. */
  predicate Query(d: string) {
    |d| > 0 && d[0] == '?' && '\n' !in d
  }

  /** End of the line that position `k` is on. */
  function LineEnd(s: string, k: nat): (e: nat)
    requires k <= |s|
    ensures k <= e <= |s|
    ensures '\n' !in s[k..e]
    ensures e == |s| || s[e] == '\n'
    decreases |s| - k
  {
    if k < |s| && s[k] != '\n' then
      var e := LineEnd(s, k + 1);
      assert s[k..e] == [s[k]] + s[k + 1..e];
      e
    else
      k
  }

  /** Where the optional tails `(~tplv-[^\s]+)?(\?.*)?` of coze_url.py:81
      end when tried at `k`. Both groups are greedy and cannot follow each
      other (a `~tplv-` run stops at whitespace, which is not `?`), so the
      regular expression takes the longest tail of either kind, or none. */
  function DecorationEnd(s: string, k: nat): (j: nat)
    requires k <= |s|
    ensures k <= j <= |s|
    ensures j == k || Tplv(s[k..j]) || Query(s[k..j])
    ensures forall j' :: j < j' <= |s| ==> !Tplv(s[k..j']) && !Query(s[k..j'])
  {
    if k + 6 < |s| && s[k..k + 6] == "~tplv-" && !IsSpace(s[k + 6]) then
      var e := RunEnd(NonSpace, s, k + 6);
      TplvEnd(s, k, e);
      e
    else if k < |s| && s[k] == '?' then
      var e := LineEnd(s, k);
      QueryEnd(s, k, e);
      e
    else
      NoDecoration(s, k);
      k
  }

  lemma TplvEnd(s: string, k: nat, e: nat)
    requires k + 6 < |s| && s[k..k + 6] == "~tplv-" && !IsSpace(s[k + 6])
    requires e == RunEnd(NonSpace, s, k + 6)
    ensures Tplv(s[k..e])
    ensures forall j' :: e < j' <= |s| ==> !Tplv(s[k..j']) && !Query(s[k..j'])
  {
    RunEndCovers(NonSpace, s, k + 6, k + 7);
    assert s[k..e][..6] == s[k..k + 6];
    assert s[k..e][6..] == s[k + 6..e];
    forall j' | e < j' <= |s|
      ensures !Tplv(s[k..j']) && !Query(s[k..j'])
    {
      assert s[k..j'][6..][e - k - 6] == s[e];
      assert s[k..j'][0] == s[k..k + 6][0];
    }
  }

  lemma QueryEnd(s: string, k: nat, e: nat)
    requires k < |s| && s[k] == '?'
    requires e == LineEnd(s, k)
    ensures Query(s[k..e])
    ensures forall j' :: e < j' <= |s| ==> !Tplv(s[k..j']) && !Query(s[k..j'])
  {
    assert s[k..e][0] == '?';
    forall j' | e < j' <= |s|
      ensures !Tplv(s[k..j']) && !Query(s[k..j'])
    {
      assert s[k..j'][e - k] == '\n';
      if |s[k..j']| > 6 {
        assert s[k..j'][..6][0] == '?';
      }
    }
  }

  lemma NoDecoration(s: string, k: nat)
    requires k <= |s|
    requires !(k + 6 < |s| && s[k..k + 6] == "~tplv-" && !IsSpace(s[k + 6]))
    requires !(k < |s| && s[k] == '?')
    ensures forall j' :: k < j' <= |s| ==> !Tplv(s[k..j']) && !Query(s[k..j'])
  {
    forall j' | k < j' <= |s|
      ensures !Tplv(s[k..j']) && !Query(s[k..j'])
    {
      assert s[k..j'][0] == s[k];
      if j' > k + 6 {
        assert s[k..j'][..6] == s[k..k + 6];
        assert s[k..j'][6..][0] == s[k + 6];
      }
    }
  }

  /** `t` is zero or more copies of `u` back to back. */
  predicate Tiled(u: string, t: string)
    requires |u| > 0
    decreases |t|
  {
    |t| == 0 || (u <= t && Tiled(u, t[|u|..]))
  }

  /** Where the greedy `\1+` of coze_url.py:94 stops: copies of `u` are
      taken from `j` for as long as the next one is there. */
  function CopiesEnd(u: string, s: string, j: nat): (e: nat)
    requires |u| > 0 && j <= |s|
    ensures j <= e <= |s|
    ensures Tiled(u, s[j..e])
    ensures !At(u, s, e)
    ensures At(u, s, j) ==> j < e
    decreases |s| - j
  {
    if At(u, s, j) then
      var e := CopiesEnd(u, s, j + |u|);
      assert s[j..e][..|u|] == s[j..j + |u|];
      assert s[j..e][|u|..] == s[j + |u|..e];
      e
    else
      j
  }

  /** A non-empty tiling ends with the last character of the tile. */
  lemma {:induction false} TiledLast(u: string, t: string)
    requires |u| > 0 && |t| > 0 && Tiled(u, t)
    ensures t[|t| - 1] == u[|u| - 1]
    decreases |t|
  {
    var rest := t[|u|..];
    if |rest| > 0 {
      TiledLast(u, rest);
      assert rest[|rest| - 1] == t[|t| - 1];
    } else {
      assert t[..|u|] == u;
    }
  }

  /** The largest `g` in `lo..top` for which the text `s[i..g]` comes again
      straight after itself. */
  function LongestGroup(s: string, i: nat, lo: nat, top: int): (r: Option<nat>)
    requires i < lo && top <= |s|
    ensures r.Some? ==> lo <= r.value <= top && At(s[i..r.value], s, r.value)
    ensures r.Some? ==> forall g :: r.value < g <= top ==> !At(s[i..g], s, g)
    ensures r.None? ==> forall g :: lo <= g <= top ==> !At(s[i..g], s, g)
    decreases top + 1 - lo
  {
    if top < lo then None
    else if At(s[i..top], s, top) then Some(top)
    else LongestGroup(s, i, lo, top - 1)
  }

  /** `s[i..g]` is URL-shaped and `s[g..end]` is as many copies of it as
      follow it, at least one. */
  predicate Collapsible(s: string, i: nat, g: nat, end: nat) {
    && i < g < end <= |s|
    && UrlShaped(s[i..g])
    && Tiled(s[i..g], s[g..end])
    && !At(s[i..g], s, end)
  }

  /** No URL-shaped text from `i` that ends past `lo` is followed by a copy
      of itself. */
  predicate NoLongerGroup(s: string, i: nat, lo: nat) {
    forall g :: lo < g <= |s| && i <= g && UrlShaped(s[i..g]) ==> !At(s[i..g], s, g)
  }

  /** `(https?://[^\s]+)\1+` of coze_url.py:94 tried at `i`: the group is
      the longest URL-shaped text that is followed by a copy of itself, and
      the match runs over as many copies as follow. The substitution keeps
      the group. */
  function RepeatAt(s: string, i: nat): (r: Option<Hit>)
    requires i <= |s|
    ensures r.Some? ==> Collapsible(s, i, r.value.keep, r.value.end)
    ensures r.Some? ==> NoLongerGroup(s, i, r.value.keep)
    ensures r.None? ==> NoLongerGroup(s, i, i)
  {
    var b := Step(Scheme, s, i);
    if b.None? then
      NoScheme(s, i);
      None
    else
      var e := RunEnd(NonSpace, s, b.value);
      var found := LongestGroup(s, i, b.value + 1, e);
      if found.None? then
        GroupsWithin(s, i, b.value, e);
        None
      else
        var g := found.value;
        var end := CopiesEnd(s[i..g], s, g);
        RepeatFound(s, i, b.value, e, g, end);
        Some(Hit(g, end))
  }

  lemma RepeatFound(s: string, i: nat, b: nat, e: nat, g: nat, end: nat)
    requires i <= |s| && Step(Scheme, s, i) == Some(b)
    requires e == RunEnd(NonSpace, s, b)
    requires LongestGroup(s, i, b + 1, e) == Some(g)
    requires end == CopiesEnd(s[i..g], s, g)
    ensures Collapsible(s, i, g, end)
    ensures NoLongerGroup(s, i, g)
  {
    GroupShaped(s, i, b, g);
    GroupsWithin(s, i, b, e);
  }

  /** A collapsible run ends with the character its group ends with. */
  lemma CollapsibleEnds(s: string, i: nat, g: nat, end: nat)
    requires Collapsible(s, i, g, end)
    ensures s[g - 1] == s[end - 1]
  {
    var u, t := s[i..g], s[g..end];
    TiledLast(u, t);
    assert t[|t| - 1] == s[end - 1];
    assert u[|u| - 1] == s[g - 1];
  }

  /** Without a scheme at `i` nothing from `i` is URL-shaped. */
  lemma NoScheme(s: string, i: nat)
    requires i <= |s| && Step(Scheme, s, i).None?
    ensures forall g :: i <= g <= |s| ==> !UrlShaped(s[i..g])
  {
    forall g | i <= g <= |s|
      ensures !UrlShaped(s[i..g])
    {
      if |s[i..g]| > 8 {
        assert s[i..g][..8] == s[i..][..8];
      }
      if |s[i..g]| > 7 {
        assert s[i..g][..7] == s[i..][..7];
      }
    }
  }

  /** Past the scheme, URL-shaped text from `i` ends inside the non-space
      run. */
  lemma GroupsWithin(s: string, i: nat, b: nat, e: nat)
    requires i <= |s| && Step(Scheme, s, i) == Some(b)
    requires e == RunEnd(NonSpace, s, b)
    ensures forall g :: i <= g <= |s| && UrlShaped(s[i..g]) ==> b < g <= e
  {
    forall g | i <= g <= |s| && UrlShaped(s[i..g])
      ensures b < g <= e
    {
      var w := s[i..g];
      var n := b - i;
      if |w| > 8 && w[..8] == "https://" {
        assert s[i..][..8] == w[..8];
        assert n == 8;
      } else {
        assert s[i..][..7] == w[..7];
        assert s[i + 4] == w[4] == ':';
        assert !("https://" <= s[i..]) by {
          assert s[i..][4] == ':';
        }
        assert n == 7;
      }
      assert w[n..] == s[b..g];
      InClassForms(NonSpace, s[b..g]);
      RunEndCovers(NonSpace, s, b, g);
    }
  }

  /** A group chosen past the scheme and inside the run is URL-shaped. */
  lemma GroupShaped(s: string, i: nat, b: nat, g: nat)
    requires i <= |s| && Step(Scheme, s, i) == Some(b)
    requires b < g <= RunEnd(NonSpace, s, b)
    ensures UrlShaped(s[i..g])
  {
    var w := s[i..g];
    var e := RunEnd(NonSpace, s, b);
    assert w[b - i..] == s[b..g] == s[b..e][..g - b];
    InClassForms(NonSpace, s[b..g]);
    if "https://" <= s[i..] {
      assert w[..8] == s[i..][..8];
    } else {
      assert w[..7] == s[i..][..7];
    }
  }

  /** The token program of each plain pattern. */
  function TokensOf(p: Pattern): seq<Token>
    requires p == Byteimg || p == Png || p == Coze
  {
    match p
    case Byteimg => ByteimgTokens
    case Png => PngTokens
    case _ => CozeTokens
  }

  /** For the byteimg, png and coze patterns, trying the pattern at `i`
      finds the longest text from `i` that the pattern describes, and finds
      nothing exactly when no text from `i` is described. */
  lemma TokenMatch(p: Pattern, s: string, i: nat)
    requires p == Byteimg || p == Png || p == Coze
    requires i <= |s|
    ensures MatchAt(p, s, i).Some? ==>
      i < MatchAt(p, s, i).value.end && Gen(TokensOf(p), s[i..MatchAt(p, s, i).value.end])
    ensures forall j :: i <= j <= |s| && Gen(TokensOf(p), s[i..j]) ==>
      MatchAt(p, s, i).Some? && j <= MatchAt(p, s, i).value.end
  {
    TokenPatternsWellFormed();
    var ts := TokensOf(p);
    assert MatchAt(p, s, i) == Whole(ts, s, i);
    if Exec(ts, s, i).Some? {
      ExecSound(ts, s, i);
    }
    forall j | i <= j <= |s| && Gen(ts, s[i..j])
      ensures Exec(ts, s, i).Some? && j <= Exec(ts, s, i).value
    {
      ExecComplete(ts, s, i, j);
    }
  }

  /** The new-image pattern matches where the png pattern does, and runs
      on over the longest `~tplv-` or `?` tail after it. */
  lemma NewImageExtendsPng(s: string, i: nat)
    requires i <= |s|
    ensures MatchAt(NewImage, s, i).Some? <==> MatchAt(Png, s, i).Some?
    ensures MatchAt(Png, s, i).Some? ==>
      var k, j := MatchAt(Png, s, i).value.end, MatchAt(NewImage, s, i).value.end;
      && k <= j
      && (j == k || Tplv(s[k..j]) || Query(s[k..j]))
      && forall j' :: j < j' <= |s| ==> !Tplv(s[k..j']) && !Query(s[k..j'])
  {
  }
}
