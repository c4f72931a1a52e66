/**
  The last step of the reply filter (coze_url.py:96-104): on every line, a
  URL in parentheses that ends the line, as a Markdown link leaves it, loses
  its parentheses and gets a space in front, so that a chat client does
  not read the closing `)` as part of the address. This is
  `re.sub(r'\((https?://[^\s]+)\)$', r' \1', line)` for each line of
  `content.split('\n')`.
 */
module Parens {
  import opened Text
  import opened Grammar
  import opened Patterns

  /** The pattern matches `line` at `i`: an opening parenthesis, URL-shaped
      text, and a closing parenthesis that ends the line. Lines hold no
      newline, so `$` is the end of the line. */
  predicate ParenAt(line: string, i: int) {
    && 0 <= i
    && i + 2 <= |line|
    && line[i] == '('
    && line[|line| - 1] == ')'
    && UrlShaped(line[i + 1..|line| - 1])
  }

  /** The pattern matches somewhere in `line`. */
  ghost predicate HasParen(line: string) {
    exists i :: ParenAt(line, i)
  }

  /** Some line of `d` holds a match. */
  ghost predicate ParenLine(d: string) {
    exists k :: 0 <= k < |Split(d)| && HasParen(Split(d)[k])
  }

  /** The leftmost position from `i` on where the pattern matches. */
  function FirstParen(line: string, i: nat): (r: Option<nat>)
    requires i <= |line|
    ensures r.Some? ==> i <= r.value && ParenAt(line, r.value)
    ensures r.Some? ==> forall k :: i <= k < r.value ==> !ParenAt(line, k)
    ensures r.None? ==> forall k :: i <= k ==> !ParenAt(line, k)
    decreases |line| - i
  {
    if i == |line| then None
    else if ParenAt(line, i) then Some(i)
    else FirstParen(line, i + 1)
  }

  /** One line rewritten. The search stops at the first match, which runs
      to the end of the line, so at most one replacement happens: the
      leftmost `(url)` tail becomes ` url`. */
  function Unparen(line: string): (r: string)
    ensures r == line <==> !HasParen(line)
    ensures r != line ==> exists i ::
      && ParenAt(line, i)
      && (forall k :: 0 <= k < i ==> !ParenAt(line, k))
      && r == line[..i] + " " + line[i + 1..|line| - 1]
    ensures |r| <= |line|
    ensures r != line ==> |r| == |line| - 1
    ensures '\n' !in line ==> '\n' !in r
  {
    var f := FirstParen(line, 0);
    if f.None? then line
    else
      var i := f.value;
      var r := line[..i] + " " + line[i + 1..|line| - 1];
      assert |r| == |line| - 1;
      NoNewlineParts(line, i);
      r
  }

  lemma NoNewlineParts(line: string, i: nat)
    requires i + 2 <= |line|
    ensures '\n' !in line ==> '\n' !in line[..i] + " " + line[i + 1..|line| - 1]
  {
    if '\n' !in line {
      var r := line[..i] + " " + line[i + 1..|line| - 1];
      forall q | 0 <= q < |r|
        ensures r[q] != '\n'
      {
        if q < i {
          assert r[q] == line[q];
        } else if q > i {
          assert r[q] == line[q];
        }
      }
    }
  }

  /** Every line rewritten. The list changes exactly when some line holds
      a match, and the number of lines stays the same. */
  function UnparenLines(lines: seq<string>): (r: seq<string>)
    ensures |r| == |lines|
    ensures forall k :: 0 <= k < |r| ==> r[k] == Unparen(lines[k])
    ensures r != lines <==> exists k :: 0 <= k < |lines| && HasParen(lines[k])
  {
    var r := seq(|lines|, k requires 0 <= k < |lines| => Unparen(lines[k]));
    LinesChange(lines, r);
    r
  }

  lemma LinesChange(lines: seq<string>, r: seq<string>)
    requires |r| == |lines| && forall k :: 0 <= k < |r| ==> (r[k] == lines[k] <==> !HasParen(lines[k]))
    ensures r != lines <==> exists k :: 0 <= k < |lines| && HasParen(lines[k])
  {
    if r != lines {
      var k :| 0 <= k < |r| && r[k] != lines[k];
      assert HasParen(lines[k]);
    }
    if exists k :: 0 <= k < |lines| && HasParen(lines[k]) {
      var k :| 0 <= k < |lines| && HasParen(lines[k]);
      assert r[k] != lines[k];
    }
  }

  /** A line that ends in `(w)`, with URL-shaped `w` and no parenthesis
      before it, loses that pair of parentheses and nothing else. */
  lemma UnparenAfter(v: string, w: string)
    requires '(' !in v && UrlShaped(w)
    ensures Unparen(v + "(" + w + ")") == v + " " + w
  {
    var line := v + "(" + w + ")";
    assert line[|v| + 1..|line| - 1] == w;
    assert ParenAt(line, |v|);
    forall k | 0 <= k < |v|
      ensures !ParenAt(line, k)
    {
      assert line[k] == v[k];
    }
    assert FirstParen(line, 0) == Some(|v|) by {
      FirstParenAt(line, 0, |v|);
    }
    assert line[..|v|] == v;
  }

  /** The search from `i` stops at the first match `m` it meets. */
  lemma {:induction false} FirstParenAt(line: string, i: nat, m: nat)
    requires i <= m <= |line| && ParenAt(line, m)
    requires forall k :: i <= k < m ==> !ParenAt(line, k)
    ensures FirstParen(line, i) == Some(m)
    decreases m - i
  {
    if i < m {
      FirstParenAt(line, i + 1, m);
    }
  }
}
