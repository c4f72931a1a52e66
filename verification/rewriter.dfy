/**
  The reply filter of coze_url.py:25-104 as a pure function from the reply
  to what the handler does with it: the image replies it sends on the
  channel, in order, and what becomes of the reply itself.
 */
module Rewriter {
  import opened Text
  import opened Grammar
  import opened Scan
  import opened Patterns
  import opened Regex
  import opened Parens

  /** The reply types the filter tells apart: text, and every other type. */
  datatype ReplyType = PlainText | OtherType

  datatype Reply = Reply(kind: ReplyType, content: string)

  /** An image reply sent on the channel, with the stage whose pattern found
      its URL. */
  datatype Send = Send(stage: Pattern, url: string)

  /** What the handler does to the reply in the event. */
  datatype Outcome =
    | NotApplicable             // returns without touching it
    | Updated(content: string)  // sets its content to the cleaned text
    | Replaced(reply: Reply)    // puts a new text reply in its place

  datatype Effect = Effect(sends: seq<Send>, outcome: Outcome)

  /** What one link stage sends, and the text it leaves. */
  datatype StageResult = StageResult(urls: seq<string>, rest: string)

  /** What a sequence of link stages sends, and the text it leaves. */
  datatype Pass = Pass(sends: seq<Send>, rest: string)

  /** Position of each pattern in the handler. */
  function Rank(p: Pattern): nat {
    match p
    case Byteimg => 0
    case Png => 1
    case Coze => 2
    case NewImage => 3
    case Repeat => 4
  }

  /** The four stages that send the URLs they find and delete them,
      coze_url.py:37-91, in the handler's order. */
  const LinkStages: seq<Pattern> := [Byteimg, Png, Coze, NewImage]

  predicate Ascending(ps: seq<Pattern>) {
    forall i, j :: 0 <= i < j < |ps| ==> Rank(ps[i]) < Rank(ps[j])
  }

  lemma LinkStagesRun()
    ensures Repeat !in LinkStages && Ascending(LinkStages)
  {
  }

  /** One link stage: when the pattern finds anything, each URL found is
      sent once, in the order of first occurrence, and every match is
      deleted from the text, which is then stripped; otherwise nothing is
      sent and the text is left as it is. */
  function Stage(p: Pattern, content: string): (r: StageResult)
    requires p != Repeat
    ensures Distinct(r.urls)
    ensures forall u :: u in r.urls <==> u in FindAll(p, content)
    ensures forall i, j :: 0 <= i < j < |r.urls| ==>
      FirstIndex(FindAll(p, content), r.urls[i]) < FirstIndex(FindAll(p, content), r.urls[j])
    ensures forall u :: u in r.urls ==> Occurs(u, content)
    ensures |r.urls| == 0 <==> forall q :: 0 <= q <= |content| ==> MatchAt(p, content, q).None?
    ensures |r.urls| == 0 ==> r.rest == content
    ensures |r.urls| > 0 ==> r.rest == Strip(Kept(content, Matches(p, content), 0))
    ensures |r.urls| > 0 ==> |r.rest| < |content| && Stripped(r.rest)
  {
    var found := FindAll(p, content);
    NoMatchesExactly(p, content);
    if |found| == 0 then StageResult([], content)
    else
      assert found[0] in Dedup(found);
      StageResult(Dedup(found), Strip(Sub(p, content)))
  }

  /** The URLs of one stage as the replies sent for them. */
  function Tag(p: Pattern, urls: seq<string>): (r: seq<Send>)
    ensures |r| == |urls|
    ensures forall k :: 0 <= k < |r| ==> r[k] == Send(p, urls[k])
  {
    seq(|urls|, k requires 0 <= k < |urls| => Send(p, urls[k]))
  }

  /** The URLs sent by stage `p`, in the order they are sent. */
  function Of(sends: seq<Send>, p: Pattern): seq<string>
    decreases |sends|
  {
    if |sends| == 0 then []
    else (if sends[0].stage == p then [sends[0].url] else []) + Of(sends[1..], p)
  }

  /** The link stages `ps` run one after the other. Sends come stage by
      stage, never twice the same URL from one stage, and the first stage
      sends exactly the URLs its pattern finds. The text changes exactly
      when something is sent, never grows, and stays stripped. */
  function Run(ps: seq<Pattern>, content: string): (r: Pass)
    requires Repeat !in ps && Ascending(ps)
    ensures forall a :: 0 <= a < |r.sends| ==> r.sends[a].stage in ps
    ensures forall a, b :: 0 <= a < b < |r.sends| ==> Rank(r.sends[a].stage) <= Rank(r.sends[b].stage)
    ensures forall a, b :: 0 <= a < b < |r.sends| && r.sends[a].stage == r.sends[b].stage ==>
      r.sends[a].url != r.sends[b].url
    ensures |ps| > 0 ==> forall u :: Send(ps[0], u) in r.sends <==> u in FindAll(ps[0], content)
    ensures |r.sends| == 0 <==> r.rest == content
    ensures |r.rest| <= |content|
    ensures Stripped(content) ==> Stripped(r.rest)
    decreases |ps|
  {
    if |ps| == 0 then Pass([], content)
    else
      var s := Stage(ps[0], content);
      assert Ascending(ps[1..]);
      var tail := Run(ps[1..], s.rest);
      var r := Pass(Tag(ps[0], s.urls) + tail.sends, tail.rest);
      RunOrder(ps, s.urls, tail.sends, r.sends);
      RunFirst(ps, s.urls, tail.sends, r.sends);
      r
  }

  /** The text that enters stage `k` when the stages `ps` run on `c`, one
      after the other: `c` itself for the first stage, and otherwise what
      the first stage leaves, run through the stages after it. */
  function Before(ps: seq<Pattern>, k: nat, c: string): string
    requires Repeat !in ps && k <= |ps|
    decreases k
  {
    if k == 0 then c else Before(ps[1..], k - 1, Stage(ps[0], c).rest)
  }

  /** The text the four link stages leave behind. */
  function Delinked(c: string): string {
    Before(LinkStages, |LinkStages|, c)
  }

  /** The stages leave the text that would enter a stage after the last. */
  lemma {:induction false} RunRest(ps: seq<Pattern>, c: string)
    requires Repeat !in ps && Ascending(ps)
    ensures Run(ps, c).rest == Before(ps, |ps|, c)
    decreases |ps|
  {
    if |ps| > 0 {
      var rest := Stage(ps[0], c).rest;
      RunHead(ps, c);
      RunRest(ps[1..], rest);
      BeforeHead(ps, c);
    }
  }

  lemma BeforeHead(ps: seq<Pattern>, c: string)
    requires Repeat !in ps && |ps| > 0
    ensures Before(ps, |ps|, c) == Before(ps[1..], |ps[1..]|, Stage(ps[0], c).rest)
  {
  }

  /** Stage `k` alone sends URLs tagged with its pattern, and they are
      exactly the URLs it finds in the text that enters it. */
  lemma {:induction false} RunSendsOf(ps: seq<Pattern>, c: string, k: nat, u: string)
    requires Repeat !in ps && Ascending(ps) && k < |ps|
    ensures Send(ps[k], u) in Run(ps, c).sends <==> u in Stage(ps[k], Before(ps, k, c)).urls
    decreases |ps|
  {
    var s0 := Stage(ps[0], c);
    if k == 0 {
      SendsOfHead(ps, c, u);
    } else {
      assert Rank(ps[0]) < Rank(ps[k]);
      SendsPastHead(ps, c, ps[k], u);
      assert Ascending(ps[1..]);
      RunSendsOf(ps[1..], s0.rest, k - 1, u);
      TailIndex(ps, k - 1);
      assert Before(ps, k, c) == Before(ps[1..], k - 1, s0.rest);
    }
  }

  /** The first stage's sends are the URLs it finds. */
  lemma SendsOfHead(ps: seq<Pattern>, c: string, u: string)
    requires Repeat !in ps && Ascending(ps) && |ps| > 0
    ensures Send(ps[0], u) in Run(ps, c).sends <==> u in Stage(ps[0], c).urls
  {
    var s0 := Stage(ps[0], c);
    RunHead(ps, c);
    TagHolds(ps[0], s0.urls, ps[0], u);
    LaterStages(ps, Run(ps[1..], s0.rest).sends, u);
  }

  /** A send tagged with a later stage comes from the stages after the
      first. */
  lemma SendsPastHead(ps: seq<Pattern>, c: string, q: Pattern, u: string)
    requires Repeat !in ps && Ascending(ps) && |ps| > 0 && q != ps[0]
    ensures Ascending(ps[1..])
    ensures Send(q, u) in Run(ps, c).sends <==> Send(q, u) in Run(ps[1..], Stage(ps[0], c).rest).sends
  {
    RunHead(ps, c);
    TagHolds(ps[0], Stage(ps[0], c).urls, q, u);
  }

  lemma RunHead(ps: seq<Pattern>, c: string)
    requires Repeat !in ps && Ascending(ps) && |ps| > 0
    ensures Ascending(ps[1..])
    ensures Run(ps, c).sends == Tag(ps[0], Stage(ps[0], c).urls) + Run(ps[1..], Stage(ps[0], c).rest).sends
    ensures Run(ps, c).rest == Run(ps[1..], Stage(ps[0], c).rest).rest
  {
    assert Ascending(ps[1..]);
  }

  /** The later stages send nothing tagged with the first stage. */
  lemma LaterStages(ps: seq<Pattern>, later: seq<Send>, u: string)
    requires |ps| > 0 && Ascending(ps)
    requires forall a :: 0 <= a < |later| ==> later[a].stage in ps[1..]
    ensures Send(ps[0], u) !in later
  {
  }

  lemma TailIndex(ps: seq<Pattern>, k: nat)
    requires k + 1 < |ps|
    ensures ps[1..][k] == ps[k + 1]
  {
  }

  lemma TagHolds(p: Pattern, urls: seq<string>, q: Pattern, u: string)
    ensures Send(q, u) in Tag(p, urls) <==> q == p && u in urls
  {
    if Send(q, u) in Tag(p, urls) {
      var k :| 0 <= k < |Tag(p, urls)| && Tag(p, urls)[k] == Send(q, u);
    }
    if q == p && u in urls {
      var k :| 0 <= k < |urls| && urls[k] == u;
      assert Tag(p, urls)[k] == Send(q, u);
    }
  }

  /** What the stages `ps`, run on `c`, send from stage `q`, stage by
      stage. */
  function OfStages(ps: seq<Pattern>, q: Pattern, c: string): seq<string>
    requires Repeat !in ps
    decreases |ps|
  {
    if |ps| == 0 then []
    else
      var s := Stage(ps[0], c);
      (if ps[0] == q then s.urls else []) + OfStages(ps[1..], q, s.rest)
  }

  /** The sends tagged with `q` are, in order, what the stages send from
      stage `q`. */
  lemma {:induction false} RunOfStages(ps: seq<Pattern>, q: Pattern, c: string)
    requires Repeat !in ps && Ascending(ps)
    ensures Of(Run(ps, c).sends, q) == OfStages(ps, q, c)
    decreases |ps|
  {
    if |ps| > 0 {
      var s := Stage(ps[0], c);
      RunHead(ps, c);
      RunOfStages(ps[1..], q, s.rest);
      OfAppend(Tag(ps[0], s.urls), Run(ps[1..], s.rest).sends, q);
      OfTag(ps[0], s.urls, q);
    }
  }

  /** A pattern that is not among the stages has nothing sent for it. */
  lemma {:induction false} OfStagesAbsent(ps: seq<Pattern>, q: Pattern, c: string)
    requires Repeat !in ps && q !in ps
    ensures OfStages(ps, q, c) == []
    decreases |ps|
  {
    if |ps| > 0 {
      OfStagesAbsent(ps[1..], q, Stage(ps[0], c).rest);
    }
  }

  /** Nothing the first stage sends is tagged with another pattern. */
  lemma OfStagesPast(ps: seq<Pattern>, c: string, q: Pattern)
    requires Repeat !in ps && |ps| > 0 && q != ps[0]
    ensures OfStages(ps, q, c) == OfStages(ps[1..], q, Stage(ps[0], c).rest)
  {
    var s := Stage(ps[0], c);
    assert OfStages(ps, q, c) == [] + OfStages(ps[1..], q, s.rest);
  }

  /** Among ascending stages, what is sent from the first stage is what
      it sends on the input. */
  lemma OfStagesHead(ps: seq<Pattern>, c: string)
    requires Repeat !in ps && Ascending(ps) && |ps| > 0
    ensures OfStages(ps, ps[0], c) == Stage(ps[0], c).urls
  {
    forall j | 0 <= j < |ps[1..]|
      ensures ps[1..][j] != ps[0]
    {
      assert Rank(ps[0]) < Rank(ps[j + 1]);
    }
    OfStagesAbsent(ps[1..], ps[0], Stage(ps[0], c).rest);
  }

  /** Among ascending stages, what is sent from stage `k` is what that
      stage sends on the text that enters it. */
  lemma {:induction false} OfStagesAt(ps: seq<Pattern>, k: nat, c: string)
    requires Repeat !in ps && Ascending(ps) && k < |ps|
    ensures OfStages(ps, ps[k], c) == Stage(ps[k], Before(ps, k, c)).urls
    decreases |ps|
  {
    if k == 0 {
      OfStagesHead(ps, c);
    } else {
      assert Ascending(ps[1..]);
      assert Rank(ps[0]) < Rank(ps[k]);
      TailIndex(ps, k - 1);
      var r := Stage(ps[0], c).rest;
      OfStagesPast(ps, c, ps[k]);
      OfStagesAt(ps[1..], k - 1, r);
    }
  }

  /** The sends tagged with stage `k` are, in order, what that stage sends
      on the text that enters it. */
  lemma RunOf(ps: seq<Pattern>, c: string, k: nat)
    requires Repeat !in ps && Ascending(ps) && k < |ps|
    ensures Of(Run(ps, c).sends, ps[k]) == Stage(ps[k], Before(ps, k, c)).urls
  {
    RunOfStages(ps, ps[k], c);
    OfStagesAt(ps, k, c);
  }

  lemma {:induction false} OfAppend(a: seq<Send>, b: seq<Send>, p: Pattern)
    ensures Of(a + b, p) == Of(a, p) + Of(b, p)
    decreases |a|
  {
    if |a| == 0 {
      assert a + b == b;
    } else {
      assert (a + b)[1..] == a[1..] + b;
      OfAppend(a[1..], b, p);
    }
  }

  lemma {:induction false} OfTag(p: Pattern, urls: seq<string>, q: Pattern)
    ensures Of(Tag(p, urls), q) == (if q == p then urls else [])
    decreases |urls|
  {
    if |urls| > 0 {
      assert Tag(p, urls)[1..] == Tag(p, urls[1..]);
      OfTag(p, urls[1..], q);
    }
  }

  /** A stage sends `dict.fromkeys` of what `findall` returns. */
  lemma StageDedup(p: Pattern, c: string)
    requires p != Repeat
    ensures Stage(p, c).urls == Dedup(FindAll(p, c))
  {
  }

  /** After the first stage come only later stages. */
  lemma LaterRanks(ps: seq<Pattern>, later: seq<Send>)
    requires |ps| > 0 && Ascending(ps)
    requires forall a :: 0 <= a < |later| ==> later[a].stage in ps[1..]
    ensures forall a :: 0 <= a < |later| ==> Rank(ps[0]) < Rank(later[a].stage)
  {
    forall a | 0 <= a < |later|
      ensures Rank(ps[0]) < Rank(later[a].stage)
    {
      var j :| 0 <= j < |ps[1..]| && ps[1..][j] == later[a].stage;
      assert ps[j + 1] == later[a].stage;
    }
  }

  lemma RunOrder(ps: seq<Pattern>, urls: seq<string>, later: seq<Send>, sends: seq<Send>)
    requires |ps| > 0 && Ascending(ps) && Distinct(urls)
    requires forall a :: 0 <= a < |later| ==> later[a].stage in ps[1..]
    requires forall a, b :: 0 <= a < b < |later| ==> Rank(later[a].stage) <= Rank(later[b].stage)
    requires forall a, b :: 0 <= a < b < |later| && later[a].stage == later[b].stage ==>
      later[a].url != later[b].url
    requires sends == Tag(ps[0], urls) + later
    ensures forall a :: 0 <= a < |sends| ==> sends[a].stage in ps
    ensures forall a, b :: 0 <= a < b < |sends| ==> Rank(sends[a].stage) <= Rank(sends[b].stage)
    ensures forall a, b :: 0 <= a < b < |sends| && sends[a].stage == sends[b].stage ==>
      sends[a].url != sends[b].url
  {
    LaterRanks(ps, later);
    RunStagesIn(ps, urls, later, sends);
    RunRanks(ps[0], urls, later, sends);
    RunDistinct(ps[0], urls, later, sends);
  }

  lemma RunStagesIn(ps: seq<Pattern>, urls: seq<string>, later: seq<Send>, sends: seq<Send>)
    requires |ps| > 0
    requires forall a :: 0 <= a < |later| ==> later[a].stage in ps[1..]
    requires sends == Tag(ps[0], urls) + later
    ensures forall a :: 0 <= a < |sends| ==> sends[a].stage in ps
  {
    forall a | 0 <= a < |sends|
      ensures sends[a].stage in ps
    {
      if a >= |urls| {
        assert sends[a] == later[a - |urls|];
      }
    }
  }

  lemma RunRanks(p: Pattern, urls: seq<string>, later: seq<Send>, sends: seq<Send>)
    requires forall a :: 0 <= a < |later| ==> Rank(p) < Rank(later[a].stage)
    requires forall a, b :: 0 <= a < b < |later| ==> Rank(later[a].stage) <= Rank(later[b].stage)
    requires sends == Tag(p, urls) + later
    ensures forall a, b :: 0 <= a < b < |sends| ==> Rank(sends[a].stage) <= Rank(sends[b].stage)
  {
    var n := |urls|;
    forall a, b | 0 <= a < b < |sends|
      ensures Rank(sends[a].stage) <= Rank(sends[b].stage)
    {
      if b >= n {
        assert sends[b] == later[b - n];
      }
      if a >= n {
        assert sends[a] == later[a - n];
      }
    }
  }

  lemma RunDistinct(p: Pattern, urls: seq<string>, later: seq<Send>, sends: seq<Send>)
    requires Distinct(urls)
    requires forall a :: 0 <= a < |later| ==> Rank(p) < Rank(later[a].stage)
    requires forall a, b :: 0 <= a < b < |later| && later[a].stage == later[b].stage ==>
      later[a].url != later[b].url
    requires sends == Tag(p, urls) + later
    ensures forall a, b :: 0 <= a < b < |sends| && sends[a].stage == sends[b].stage ==>
      sends[a].url != sends[b].url
  {
    var n := |urls|;
    forall a, b | 0 <= a < b < |sends| && sends[a].stage == sends[b].stage
      ensures sends[a].url != sends[b].url
    {
      if b < n {
        assert sends[a].url == urls[a] && sends[b].url == urls[b];
      } else if a >= n {
        assert sends[a] == later[a - n] && sends[b] == later[b - n];
      }
    }
  }

  lemma RunFirst(ps: seq<Pattern>, urls: seq<string>, later: seq<Send>, sends: seq<Send>)
    requires |ps| > 0 && Ascending(ps)
    requires forall a :: 0 <= a < |later| ==> later[a].stage in ps[1..]
    requires sends == Tag(ps[0], urls) + later
    ensures forall u :: Send(ps[0], u) in sends <==> u in urls
  {
    var tag := Tag(ps[0], urls);
    forall u
      ensures Send(ps[0], u) in sends <==> u in urls
    {
      if Send(ps[0], u) in sends {
        var a :| 0 <= a < |sends| && sends[a] == Send(ps[0], u);
        if a < |tag| {
          assert urls[a] == u;
        }
      }
      if u in urls {
        var k :| 0 <= k < |urls| && urls[k] == u;
        assert sends[k] == tag[k];
      }
    }
  }

  /** The text once the link stages have run and repeated URLs are
      collapsed (coze_url.py:37-94): of the text the last link stage leaves,
      the characters that no run of copies takes out. It never grows and
      stays stripped, and text on which no pattern matches comes through as
      it is. */
  function Cleaned(c: string): (d: string)
    ensures var e := Delinked(c); d == Kept(e, Matches(Repeat, e), 0)
    ensures |d| <= |c|
    ensures Stripped(c) ==> Stripped(d)
    ensures Delinked(c) == c && (forall q :: 0 <= q <= |c| ==> RepeatAt(c, q).None?) ==> d == c
  {
    DelinkedRest(c);
    Collapse(Delinked(c))
  }

  /** What the link stages leave: never longer than the text, still
      stripped, and the text itself exactly when nothing is sent. */
  lemma DelinkedRest(c: string)
    ensures Repeat !in LinkStages && Ascending(LinkStages)
    ensures Run(LinkStages, c).rest == Delinked(c)
    ensures |Delinked(c)| <= |c|
    ensures Stripped(c) ==> Stripped(Delinked(c))
    ensures |Run(LinkStages, c).sends| == 0 <==> Delinked(c) == c
  {
    LinkStagesRun();
    RunRest(LinkStages, c);
  }

  /** Each link stage sends exactly the URLs its pattern finds in the text
      that enters it, once each, in the order they are first found. */
  ghost predicate SendsFound(sends: seq<Send>, c: string) {
    (forall k, u :: 0 <= k < |LinkStages| ==>
      (Send(LinkStages[k], u) in sends <==> u in FindAll(LinkStages[k], Before(LinkStages, k, c))))
    && (forall k :: 0 <= k < |LinkStages| ==>
      Of(sends, LinkStages[k]) == Dedup(FindAll(LinkStages[k], Before(LinkStages, k, c))))
  }

  lemma LinkStagesFound(c: string)
    ensures Ascending(LinkStages)
    ensures SendsFound(Run(LinkStages, c).sends, c)
    ensures Run(LinkStages, c).rest == Delinked(c)
    ensures |Run(LinkStages, c).sends| == 0 <==> Delinked(c) == c
    ensures forall a :: 0 <= a < |Run(LinkStages, c).sends| ==> Run(LinkStages, c).sends[a].stage != Repeat
  {
    LinkStagesRun();
    RunRest(LinkStages, c);
    var sends := Run(LinkStages, c).sends;
    assert forall a :: 0 <= a < |sends| ==> sends[a].stage in LinkStages;
    forall k, u | 0 <= k < |LinkStages|
      ensures Send(LinkStages[k], u) in Run(LinkStages, c).sends <==>
        u in FindAll(LinkStages[k], Before(LinkStages, k, c))
    {
      RunSendsOf(LinkStages, c, k, u);
    }
    forall k | 0 <= k < |LinkStages|
      ensures Of(sends, LinkStages[k]) == Dedup(FindAll(LinkStages[k], Before(LinkStages, k, c)))
    {
      RunOf(LinkStages, c, k);
      StageDedup(LinkStages[k], Before(LinkStages, k, c));
    }
  }

  /** The first stage sees the stripped text itself. */
  lemma FirstStageFound(sends: seq<Send>, c: string)
    requires SendsFound(sends, c)
    ensures forall u :: Send(Byteimg, u) in sends <==> u in FindAll(Byteimg, c)
  {
    forall u
      ensures Send(Byteimg, u) in sends <==> u in FindAll(Byteimg, c)
    {
      assert LinkStages[0] == Byteimg;
      assert Before(LinkStages, 0, c) == c;
    }
  }

  /** The download-error marker that stops the filter. */
  const DownloadError: string := "[DOWNLOAD_ERROR]"

  /** The filter applies to text replies whose stripped text does not start
      with the download-error marker. */
  predicate Applies(reply: Reply) {
    reply.kind == PlainText && !(DownloadError <= Strip(reply.content))
  }

  /** coze_url.py:96-104: when rewriting the lines changes any of them, the
      rewritten lines joined and stripped become a new text reply;
      otherwise the reply keeps the text `d`. */
  function Finish(d: string): (o: Outcome)
    ensures !o.NotApplicable?
    ensures o.Replaced? <==> ParenLine(d)
    ensures o.Updated? ==> o.content == d
    ensures o.Replaced? ==> o.reply.kind == PlainText && Stripped(o.reply.content)
    ensures o.Replaced? ==> |o.reply.content| < |d|
  {
    SplitChanges(d);
    RejoinShorter(d);
    if UnparenLines(Split(d)) != Split(d) then
      Replaced(Reply(PlainText, Strip(Join(UnparenLines(Split(d))))))
    else
      Updated(d)
  }

  /** Every changed line loses a character, so the rejoined text is
      shorter than `d` once any line changes. */
  lemma RejoinShorter(d: string)
    ensures UnparenLines(Split(d)) != Split(d) ==> |Join(UnparenLines(Split(d)))| < |d|
  {
    var lines := Split(d);
    JoinShrinks(lines, UnparenLines(lines));
    JoinSplit(d);
  }

  lemma SplitChanges(d: string)
    ensures UnparenLines(Split(d)) != Split(d) <==> ParenLine(d)
  {
  }

  /** What the link stages of the handler send: each stage exactly the URLs
      it finds in the text that enters it, in the order they are first
      found, stage by stage, never twice the same URL from one stage, none
      from the repeat pattern, and nothing at all exactly when they leave
      the text as it is. */
  function LinkPass(c: string): (sends: seq<Send>)
    ensures SendsFound(sends, c)
    ensures |sends| == 0 <==> Delinked(c) == c
    ensures forall a, b :: 0 <= a < b < |sends| ==> Rank(sends[a].stage) <= Rank(sends[b].stage)
    ensures forall a, b :: 0 <= a < b < |sends| && sends[a].stage == sends[b].stage ==>
      sends[a].url != sends[b].url
    ensures forall a :: 0 <= a < |sends| ==> sends[a].stage != Repeat
  {
    var sends := Run(LinkStages, c).sends;
    LinkStagesFound(c);
    assert SendsFound(sends, c);
    sends
  }

  /** The handler on the stripped text `c` of a reply it applies to
      (coze_url.py:37-104). */
  function Handle(c: string): (e: Effect)
    requires Stripped(c)
    ensures forall a, b :: 0 <= a < b < |e.sends| ==> Rank(e.sends[a].stage) <= Rank(e.sends[b].stage)
    ensures forall a, b :: 0 <= a < b < |e.sends| && e.sends[a].stage == e.sends[b].stage ==>
      e.sends[a].url != e.sends[b].url
    ensures forall a :: 0 <= a < |e.sends| ==> e.sends[a].stage != Repeat
    ensures !e.outcome.NotApplicable?
    ensures e.outcome.Updated? ==>
      Stripped(e.outcome.content) && |e.outcome.content| <= |c| && !ParenLine(e.outcome.content)
    ensures e.outcome.Replaced? ==>
      e.outcome.reply.kind == PlainText && Stripped(e.outcome.reply.content)
    ensures e.outcome.Replaced? ==> |e.outcome.reply.content| < |c|
    ensures e.outcome.Replaced? <==> ParenLine(Cleaned(c))
    ensures SendsFound(e.sends, c)
    ensures forall u :: Send(Byteimg, u) in e.sends <==> u in FindAll(Byteimg, c)
    ensures |e.sends| == 0 <==> Delinked(c) == c
    ensures e.outcome.Updated? ==> e.outcome.content == Cleaned(c)
  {
    var sends := LinkPass(c);
    FirstStageFound(sends, c);
    Effect(sends, Finish(Cleaned(c)))
  }

  /** `on_decorate_reply`, coze_url.py:25-104. */
  function OnDecorateReply(reply: Reply): (e: Effect)
    ensures !Applies(reply) ==> e == Effect([], NotApplicable)
    ensures e.outcome.NotApplicable? <==> !Applies(reply)
    ensures forall a, b :: 0 <= a < b < |e.sends| ==> Rank(e.sends[a].stage) <= Rank(e.sends[b].stage)
    ensures forall a, b :: 0 <= a < b < |e.sends| && e.sends[a].stage == e.sends[b].stage ==>
      e.sends[a].url != e.sends[b].url
    ensures forall a :: 0 <= a < |e.sends| ==> e.sends[a].stage != Repeat
    ensures e.outcome.Updated? ==>
      Stripped(e.outcome.content) && |e.outcome.content| <= |Strip(reply.content)|
    ensures e.outcome.Updated? ==> !ParenLine(e.outcome.content)
    ensures e.outcome.Replaced? ==>
      e.outcome.reply.kind == PlainText && Stripped(e.outcome.reply.content)
    ensures e.outcome.Replaced? ==> |e.outcome.reply.content| < |Strip(reply.content)|
    ensures e.outcome.Replaced? <==> Applies(reply) && ParenLine(Cleaned(Strip(reply.content)))
    ensures Applies(reply) ==> SendsFound(e.sends, Strip(reply.content))
    ensures Applies(reply) ==>
      forall u :: Send(Byteimg, u) in e.sends <==> u in FindAll(Byteimg, Strip(reply.content))
    ensures Applies(reply) ==> (|e.sends| == 0 <==> Delinked(Strip(reply.content)) == Strip(reply.content))
    ensures e.outcome.Updated? ==> e.outcome.content == Cleaned(Strip(reply.content))
  {
    if !Applies(reply) then Effect([], NotApplicable)
    else Handle(Strip(reply.content))
  }

  /** Both branches of coze_url.py:99-104 leave the same text: when no line
      changes, the cleaned text the reply keeps is what joining its
      unchanged lines and stripping would give. */
  lemma OutcomeText(reply: Reply)
    requires Applies(reply)
    ensures var e := OnDecorateReply(reply);
      var want := Strip(Join(UnparenLines(Split(Cleaned(Strip(reply.content))))));
      && (e.outcome.Updated? ==> e.outcome.content == want)
      && (e.outcome.Replaced? ==> e.outcome.reply.content == want)
  {
    var d := Cleaned(Strip(reply.content));
    SplitChanges(d);
    if !ParenLine(d) {
      JoinSplit(d);
    }
  }

  /** Pattern `p` matches nowhere in `c`. */
  ghost predicate Quiet(p: Pattern, c: string) {
    forall q :: 0 <= q <= |c| ==> MatchAt(p, c, q).None?
  }

  /** Link stages whose patterns match nowhere send nothing and leave the
      text as it is. */
  lemma {:induction false} RunIdle(ps: seq<Pattern>, c: string)
    requires Repeat !in ps && Ascending(ps)
    requires forall k :: 0 <= k < |ps| ==> Quiet(ps[k], c)
    ensures Run(ps, c) == Pass([], c)
    decreases |ps|
  {
    if |ps| > 0 {
      assert Quiet(ps[0], c);
      assert Stage(ps[0], c) == StageResult([], c);
      assert Ascending(ps[1..]);
      assert forall k :: 0 <= k < |ps[1..]| ==> Quiet(ps[1..][k], c) by {
        forall k | 0 <= k < |ps[1..]|
          ensures Quiet(ps[1..][k], c)
        {
          assert ps[1..][k] == ps[k + 1];
        }
      }
      RunIdle(ps[1..], c);
    }
  }

  /** Text on which no pattern matches comes out of the link stages and the
      collapse as it is, and nothing is sent. */
  lemma CleanedIdle(c: string)
    requires forall p :: Quiet(p, c)
    ensures LinkPass(c) == [] && Cleaned(c) == c
  {
    LinkStagesIdle(c);
    RepeatIdle(c);
  }

  lemma LinkStagesIdle(c: string)
    requires Quiet(Byteimg, c) && Quiet(Png, c) && Quiet(Coze, c) && Quiet(NewImage, c)
    ensures Ascending(LinkStages) && Run(LinkStages, c) == Pass([], c)
  {
    assert Ascending(LinkStages);
    RunIdle(LinkStages, c);
  }

  lemma RepeatIdle(c: string)
    requires Quiet(Repeat, c)
    ensures forall q :: 0 <= q <= |c| ==> RepeatAt(c, q).None?
  {
    forall q | 0 <= q <= |c|
      ensures RepeatAt(c, q).None?
    {
      assert MatchAt(Repeat, c, q).None?;
    }
  }

  /** Stripped text on which no pattern matches and no line ends in a
      parenthesised URL is kept as it is, and nothing is sent: running the
      handler again on text it has left in that state changes nothing. */
  lemma Idle(c: string)
    requires Stripped(c) && (forall p :: Quiet(p, c)) && !ParenLine(c)
    ensures Handle(c) == Effect([], Updated(c))
  {
    CleanedIdle(c);
  }
}
