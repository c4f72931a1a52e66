# coze_url reply filter, modelled in Dafny

`coze_url` is a chat-bot plugin. It rewrites the text replies a Coze
workflow produces before they reach the chat client. The core is its
handler `on_decorate_reply`, which runs these steps on a text reply:

1. Strip the reply text.
2. Stop at once if the text starts with the `[DOWNLOAD_ERROR]` marker.
3. Run four link stages in a fixed order: signed byteimg image links, `.png`
   links, `s.coze.cn/t/` short links, and `.png` links with an optional
   `~tplv-…` and `?…` decoration. Each stage:
   - finds every match of its pattern;
   - sends each distinct URL once, in the order of first occurrence, as an
     image reply on the channel;
   - deletes every match from the text, then strips it.
4. Collapse back-to-back copies of a URL into one copy.
5. On every line, turn a parenthesised URL that ends the line into
   ` url`.
6. If that last step changed any line, the rejoined and stripped text
   becomes a new text reply. Otherwise the reply keeps the cleaned text.

The model is a pure function from the reply to an `Effect`. An `Effect`
holds the image replies sent, in order, and the `Outcome` for the reply
itself:
- `NotApplicable`: the handler left the reply alone.
- `Updated`: its content was set to the cleaned text.
- `Replaced`: a new text reply took its place.

The regular expressions run on Python's `re` semantics:
- Matches are leftmost, greedy and non-overlapping.
- Search resumes at the end of each match.
- The model takes `\s` and `str.strip` to mean the six ASCII whitespace
  characters: space, tab, newline, carriage return, vertical tab and form
  feed.

The modules follow the program's layers:
- `Text`: stripping, `split('\n')` and `'\n'.join`, and the
  order-preserving de-duplication of `dict.fromkeys`.
- `Grammar`: the token language the link patterns are written in, and a
  greedy matcher for it, proved sound and complete against a generative
  definition.
- `Scan`: the search loop of `re.findall` and `re.sub` for any pattern that
  never matches the empty string.
- `Patterns`: the five patterns of the handler as matchers.
- `Regex`: `findall`, `sub` and the repeat collapse.
- `Parens`: the per-line parenthesis rewrite.
- `Rewriter`: the stages and the handler.
- `Links`: what the handler does to text without any link.

## Model

| member | source | states |
|---|---|---|
| Text.Strip | coze_url.py:31 | the result has no leading or trailing whitespace, is a factor of the input with only whitespace cut off at either end, and equals the input when that is already stripped |
| Text.StripIdempotent | coze_url.py:47 | stripping twice gives what stripping once gives, so the repeated `.strip()` of the stages loses nothing |
| Text.Split | coze_url.py:97 | `split('\n')` yields at least one piece and no piece holds a newline |
| Text.JoinSplit | coze_url.py:97-101 | joining the pieces of a split with newlines gives back the text |
| Text.SplitJoin | coze_url.py:97-101 | splitting a newline-free list of lines joined with newlines gives back the lines |
| Text.JoinShrinks | coze_url.py:98-101 | joining lines that each stay the same or get shorter gives no longer a text, and a strictly shorter one once any line changes |
| Text.Dedup | coze_url.py:42 | `dict.fromkeys` keeps exactly the members of the list, each once, in order of their first occurrence, and never lengthens the list |
| Text.DedupOfDistinct | coze_url.py:56 | a list without repeats is kept as it is |
| Text.DedupIdempotent | coze_url.py:72 | de-duplicating twice is the same as once |
| Grammar.ExecSound | coze_url.py:38-66 | whatever the greedy token matcher consumes is text the token pattern describes |
| Grammar.ExecComplete | coze_url.py:38-66 | for a well-formed token pattern, any text from a position that the pattern describes is matched there, and the match is at least as long |
| Patterns.TokenPatternsWellFormed | coze_url.py:38-66 | the byteimg, png and coze patterns meet the well-formedness condition that makes greedy matching leftmost-longest |
| Patterns.TokenMatch | coze_url.py:38-66 | for the byteimg, png and coze patterns, a match at a position is non-empty text the pattern describes, and no longer such text starts there |
| Patterns.MatchAt | coze_url.py:38-94 | a match of any of the five patterns is non-empty and within the text; a link pattern removes all it matches; the repeat pattern keeps a URL-shaped group followed by as many copies of it as follow |
| Patterns.DecorationEnd | coze_url.py:81 | after a `.png` link the optional `~tplv-…` or `?…` decoration taken is the longest one present |
| Patterns.NewImageExtendsPng | coze_url.py:81 | the decorated-image pattern matches exactly where the png pattern does, and extends that match by the longest decoration |
| Patterns.RepeatAt | coze_url.py:94 | the repeat pattern matches exactly when some URL-shaped text is directly followed by a copy of itself; its group is the longest such text and its match runs over every following copy |
| Patterns.CopiesEnd | coze_url.py:94 | `\1+` consumes the longest run of back-to-back copies of the group |
| Patterns.LongestGroup | coze_url.py:94 | the group is the longest candidate that is followed by a copy of itself |
| Scan.SpansScanned | coze_url.py:39 | the search loop produces matches that are in order, do not overlap, each start where the pattern matches, and leave uncovered only positions where it does not match |
| Scan.ScannedUnique | coze_url.py:39 | there is only one such sequence of matches, so the search loop is the definition of `findall` |
| Scan.Substitute | coze_url.py:47 | substitution shortens the text by exactly the matched text it does not keep |
| Scan.SubstituteKept | coze_url.py:47 | the substitution leaves exactly the characters of the text that no match takes out, in order: all text between the matches and the kept part of each match |
| Scan.SubstituteEnds | coze_url.py:94 | a substitution whose matches each end on the same character as the part they keep leaves the first and last character of the text as they were |
| Regex.NoMatchesExactly | coze_url.py:41 | `findall` finds nothing exactly when the pattern matches at no position |
| Regex.MatchesAreMatches | coze_url.py:39 | every match found is the pattern's own match at its start |
| Regex.FindAll | coze_url.py:39 | `findall` returns one string per match found, in order, each the text of that match and as long as it, so each occurs in the input |
| Regex.Sub | coze_url.py:47 | `sub` leaves exactly the characters no match takes out: nothing of a link match, only the group of a repeat match, and all text between matches; it leaves the text as it is when nothing matches and makes it strictly shorter otherwise |
| Regex.Collapse | coze_url.py:94 | the repeat collapse keeps all text outside the runs of copies and, of each run, only its first copy; it is the identity when no URL is directly followed by a copy of itself and strictly shortens the text when one is; it keeps stripped text stripped |
| Regex.SomeRepeat | coze_url.py:94 | a URL directly followed by a copy of itself anywhere in the text gives a match that the search finds |
| Regex.CollapseEnds | coze_url.py:94 | collapsing keeps the first and last character of non-empty text |
| Parens.FirstParen | coze_url.py:98 | the line rewrite finds the leftmost position where a `(`, URL-shaped text and a `)` ending the line begin |
| Parens.Unparen | coze_url.py:98 | a line changes exactly when it ends in a parenthesised URL; then the leftmost such `(url)` becomes ` url` and the line loses one character; no newline appears |
| Parens.UnparenAfter | coze_url.py:98 | a line that ends in a parenthesised URL with no `(` before it becomes the text before the `(`, a space, and the URL |
| Parens.UnparenLines | coze_url.py:98-99 | the rewritten list has as many lines as the original, each the rewrite of its line, and differs from the original exactly when some line ends in a parenthesised URL |
| Rewriter.Stage | coze_url.py:38-47 | a link stage sends each URL `findall` finds exactly once, in order of first occurrence, every one of them occurring in the text; it sends nothing exactly when the pattern matches nowhere, and then leaves the text as it is; otherwise the text becomes the stripped remainder of what no match covers, shorter than before |
| Rewriter.Run | coze_url.py:37-91 | the link stages send stage by stage, never the same URL twice from one stage; the first stage sends exactly the URLs it finds; the text changes exactly when something is sent, never grows, and stays stripped |
| Rewriter.RunRest | coze_url.py:37-91 | the text the link stages leave is the text that would enter a stage after the last, each stage taking what the one before it left |
| Rewriter.RunSendsOf | coze_url.py:41-89 | the sends tagged with stage `k` are exactly the URLs stage `k` finds in the text that enters it, for every stage and not only the first |
| Rewriter.DelinkedRest | coze_url.py:37-91 | the text the four link stages leave is no longer than the input, stays stripped, and is the input itself exactly when nothing is sent |
| Rewriter.RunOf | coze_url.py:41-89 | the sends tagged with stage `k`, in the order they are sent, are exactly the list stage `k` sends on the text that enters it |
| Rewriter.RunOfStages | coze_url.py:37-91 | the sends tagged with a pattern, in order, are the concatenation, stage by stage, of what each stage with that pattern sends |
| Rewriter.OfStagesAt | coze_url.py:41-89 | among stages in their fixed order, what is sent from stage `k` is what that stage sends on the text the earlier stages leave |
| Rewriter.LinkStagesFound | coze_url.py:37-91 | each of the four link stages sends exactly the URLs its pattern finds in the text that enters it, in the order `dict.fromkeys` of the `findall` list gives them (once each, by first occurrence), and nothing is sent exactly when the stages leave the text as it is |
| Rewriter.FirstStageFound | coze_url.py:38-45 | the byteimg URLs sent are exactly the ones the byteimg pattern finds in the stripped text |
| Rewriter.LinkPass | coze_url.py:41-89 | each of the four link stages sends exactly the URLs its pattern finds in the text that enters it, in the order `dict.fromkeys` of the `findall` list gives them; the sends are ordered by stage, hold no URL twice within a stage and nothing from the repeat pattern; nothing is sent exactly when the stages leave the text as it is |
| Rewriter.Cleaned | coze_url.py:37-94 | the text after the link stages and the collapse is exactly what the repeat collapse keeps of the text the last link stage leaves; it is no longer than the input and stays stripped; it is the input itself when the link stages leave the text as it is and no URL is followed by a copy of itself |
| Rewriter.Finish | coze_url.py:96-104 | the reply is replaced exactly when some line ends in a parenthesised URL, with a stripped text reply strictly shorter than the cleaned text; otherwise it keeps the cleaned text |
| Rewriter.RejoinShorter | coze_url.py:101 | once any line changes, the rejoined text is shorter than the text before the rewrite |
| Rewriter.Handle | coze_url.py:37-104 | on stripped text, the handler sends exactly the URLs each link stage finds in the text that enters it (the byteimg URLs found in the text itself), stage after stage, and within a stage in the order `dict.fromkeys` of the `findall` list gives them, and nothing exactly when the link stages change nothing; it always rewrites the reply, sets an updated reply to the cleaned text, keeps no parenthesised line end when it updates, and replaces the reply exactly when the cleaned text has such a line end |
| Rewriter.OnDecorateReply | coze_url.py:25-104 | the handler does nothing and sends nothing exactly when the reply is not text or its stripped text starts with `[DOWNLOAD_ERROR]`; otherwise each link stage sends exactly the URLs it finds in the text that enters it, the byteimg stage those found in the stripped text, stage after stage, and within a stage in the order `dict.fromkeys` of the `findall` list gives them, and nothing exactly when the link stages change nothing; an updated reply holds the cleaned text; the new text is stripped and no longer than the stripped original, strictly shorter when the reply is replaced; an updated reply keeps no parenthesised line end; the reply is replaced exactly when the cleaned text has one |
| Rewriter.OutcomeText | coze_url.py:99-104 | both branches leave the same text: the cleaned lines rewritten, rejoined and stripped |
| Rewriter.RunIdle | coze_url.py:41-91 | link stages whose patterns match nowhere send nothing and leave the text as it is |
| Rewriter.Idle | coze_url.py:37-104 | stripped text on which no pattern matches and no line ends in a parenthesised URL is kept as it is and nothing is sent, so a second pass over such output changes nothing |
| Links.MatchNeedsLink | coze_url.py:38-94 | each of the five patterns matches only where `http://` or `https://` starts |
| Links.SplitFactors | coze_url.py:97 | every line of the split occurs in the text |
| Links.NoLinkNoParen | coze_url.py:98 | text without a scheme has no line ending in a parenthesised URL |
| Links.HandleNoLink | coze_url.py:37-104 | the handler keeps stripped text without a scheme as it is and sends nothing |
| Links.PlainTextPassesThrough | coze_url.py:25-104 | a text reply without `http://` or `https://` that the handler applies to comes out only stripped, and nothing is sent |

## Left out

- Plugin registration, `__init__` and `get_help_text` (coze_url.py:7-23, 111-112) only wire the handler into the bot framework. They do nothing to replies.
- `channel.send` is modelled as the ordered list of sends in the `Effect`. The channel, the context and the `Reply` objects they carry are not modelled.
- Each send also records the stage whose pattern found its URL. The program sends only `Reply(IMAGE_URL, url)`; the stage is there so that stage order can be stated.
- The log calls (coze_url.py:58, 100, 107) are left out because they have no effect on the reply.
- The `except`/`finally` of coze_url.py:106-109 is left out. Nothing in the modelled steps raises an exception, and `EventAction.CONTINUE` is the same on every path that reaches the `try`.
- Reply types other than text are one `OtherType`, because the handler only tests for text.
- `IsSpace` is the six ASCII whitespace characters. Python's `\s` and `str.strip` on `str` also treat `\x1c`–`\x1f`, `\x85` and the Unicode spaces as whitespace, so text holding them is modelled with fewer whitespace characters.
- Rewriter.Idle: this is the second-pass property only for text on which no pattern matches. A first pass can leave text on which a pattern matches again: deleting a match can join two pieces into a new link, and the parenthesis rewrite can expose another `(url)` line end, as in `(http://a(http://b))`. There the first pass gives `http://a(http://b)` and a second pass gives `http://a http://b`; Parens.UnparenAfter gives both rewrites, with the text before the `(` empty and then `http://a`.
- Rewriter.Run: its own contract ties only the first stage's sends to that stage's `findall`. Rewriter.RunSendsOf (which URLs) and Rewriter.RunOf (in which order) state the same for every stage, on the text that enters it.

## Notes on the code

- The sends go stage by stage: first every byteimg URL, then every png URL, and so on. A png link placed before a byteimg link is sent after it.
- The comment at coze_url.py:94 speaks of repeated links. The pattern `(https?://[^\s]+)\1+` collapses only copies that follow each other with nothing between them. `U U U` with spaces between the copies is kept as it is, and a `.png` URL is deleted by the png stage before the collapse runs anyway.
- Deleting a match keeps the whitespace around it. For `see https://x.com/a.png https://x.com/a.png more` the png stage leaves `see   more`, with three spaces, because `strip` only trims the ends.
- The text is not stripped again after the collapse. Rewriter.Cleaned shows it is stripped all the same.
- The match of the decorated-image pattern of coze_url.py:81 is the first one in backtracking order. That is not the longest text the expression describes. For `http://x.png?a.png b` Python matches `http://x.png?a.png`, although the whole of it also fits, through `\?.*`. The model takes the png match plus the longest decoration after it, which is the same match.
- The png stage runs before the decorated-image stage, and the png pattern matches wherever the decorated-image pattern does (Patterns.NewImageExtendsPng). So the png stage takes the head of a decorated link first. For `http://x.png?a=1` it sends `http://x.png` and leaves `?a=1` in the text. The model keeps this order, as the code has it.
