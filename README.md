# formatQuoteText of egg-word, in Dafny

egg-word is a small Next.js app: the user types a complaint, a language model
answers as "エッグさん" with a short quote, and the home page shows that quote
(and can save it as an image). Before the quote is displayed, the page lays it out
with `formatQuoteText` (`egg-word/app/page.tsx`, lines 17-36). This project models
that function and proves what its layout guarantees.

`formatQuoteText` returns the empty text and the placeholder message unchanged.
Any other text goes through four string rewrites:

1. `/(。|！|？)(　*)(?!$)/g` → mark + `\n`: break after each full-width sentence end
   that is not at the end of the text, and swallow the full-width spaces after it;
2. `/(。でも|。しかし|。けれども|。それでも|。そして)/g`: break between a 。 and a
   conjunction that follows it;
3. `/\n+/g` → `\n`: collapse runs of line feeds;
4. `trim()`, as ECMAScript defines it.

The model is pure: each global `replace` is a recursive function that scans
left to right, one step at a time. `JsText` holds the ECMAScript side: the
WhiteSpace and LineTerminator code points of ECMA-262, sections 12.2 and 12.3,
and `String.prototype.trim`. `QuoteFormat` holds the four rewrites, the whole
function and the lemmas.

Things that are proved:

- For every input, each 。！？ in the result is the last character or is followed
  by a line feed.
- No result contains two adjacent line feeds.
- No result starts or ends with whitespace or a line terminator.
- The non-whitespace characters of the result are those of the input, in order.
- Formatting a formatted quote changes nothing.
- The `(?!$)` lookahead leaves a final mark without a line feed.
- Full-width spaces after a mark that has text after it are all swallowed.
- In rewrite 1, full-width spaces after a mark that run to the end of the text
  lose all but one (`TrailingSpacesBacktrack`); trim then removes that one and
  the line feed before it, so the mark ends the result (`FinalMarkEndsResult`).
- Rewrites 2 and 3 change nothing but line feeds, and rewrite 1 nothing but
  line feeds and full-width spaces: with those erased, input and output are the
  same text.
- Rewrite 2 does fire on its own (a 。 followed by a conjunction gets a line
  feed), yet in `formatQuoteText` it can never fire, because rewrite 1 has
  already broken the line after every 。 that has a successor. The comment at
  line 22 says rewrite 1 does not break before conjunctions, but it does:
  `ExampleBreakBeforeConjunction`.
- The guard at lines 18-20 only saves work: on the placeholder and on the empty
  text the four rewrites give the same result.

## Model

| member | source | states |
|---|---|---|
| QuoteFormat.FormatQuoteText | egg-word/app/page.tsx:17-36 | the empty text and the placeholder come back unchanged; for every input each mark ends its line or the text, no two line feeds are adjacent, nothing trimmable is at either end, and the visible characters are those of the input, in order |
| QuoteFormat.GuardIsShortcut | egg-word/app/page.tsx:18-20 | the early return changes no result: on every input, including the empty text and the placeholder, the result equals the four rewrites alone |
| QuoteFormat.PlaceholderFacts | egg-word/app/page.tsx:9 | the placeholder message has no sentence mark and no line feed, already has the layout, and has no trimmable character at either end |
| QuoteFormat.IsSentenceEnd | egg-word/app/page.tsx:23 | the alternation `(。\|！\|？)`: exactly the three full-width sentence-ending marks |
| JsText.IsWhiteSpace | egg-word/app/page.tsx:35 | the WhiteSpace code points `trim` removes (section 12.2 of ECMA-262): TAB, VT, FF, ZWNBSP and the Zs space separators U+0020, U+00A0, U+1680, U+2000 to U+200A, U+202F, U+205F, U+3000 |
| JsText.IsLineTerminator | egg-word/app/page.tsx:35 | the LineTerminator code points `trim` removes (section 12.3 of ECMA-262): LF, CR, U+2028, U+2029 |
| JsText.IsTrimmable | egg-word/app/page.tsx:35 | what `trim` removes from either end: the union of WhiteSpace and LineTerminator |
| QuoteFormat.Rewrites | egg-word/app/page.tsx:23-35 | the four rewrites of the function body in source order, without the guard |
| QuoteFormat.RunLength | egg-word/app/page.tsx:23 | the greedy `　*`: the length of the longest run of the character at the start of the text, with nothing but that character inside it and a different character (or the end) after it |
| QuoteFormat.BreakStep | egg-word/app/page.tsx:23-25 | one position of the global scan of rewrite 1: it emits the character alone, or a mark followed by a line feed, and the latter exactly when the mark is not the last character; everything it consumes after the mark is full-width space |
| QuoteFormat.BreakAfterMarks | egg-word/app/page.tsx:23-25 | rewrite 1 as a left-to-right scan of `BreakStep`; it keeps the first character |
| QuoteFormat.BreakAfterMarksOnlyBreaks | egg-word/app/page.tsx:23-25 | rewrite 1 changes nothing but line feeds and full-width spaces: with U+3000 and `\n` erased from both, input and output are the same text |
| QuoteFormat.BreakAfterMarksBreaks | egg-word/app/page.tsx:23-25 | after rewrite 1, every 。！？ is the last character or is followed by a line feed |
| QuoteFormat.BreakAfterMarksVisible | egg-word/app/page.tsx:23-25 | rewrite 1 keeps the visible text: the characters that are not whitespace, in order |
| QuoteFormat.BreakAfterMarksPlacesBreaks | egg-word/app/page.tsx:23-25 | on a text without line feeds, rewrite 1 puts line feeds right after marks and nowhere else |
| QuoteFormat.BreakAfterMarksKeepsFinalMark | egg-word/app/page.tsx:23 | the `(?!$)` lookahead: a text that ends with a mark still ends with that mark after rewrite 1 |
| QuoteFormat.BreakAfterMarksNoMarks | egg-word/app/page.tsx:23-25 | a text with no 。！？ is left unchanged by rewrite 1 |
| QuoteFormat.BreakAfterMarksConcat | egg-word/app/page.tsx:23 | the global scan never matches across a character that is neither a mark nor a full-width space, so rewrite 1 of a concatenation split there is the concatenation of the rewrites |
| QuoteFormat.SpacesAfterMarkSwallowed | egg-word/app/page.tsx:23-25 | a mark followed by any number of full-width spaces and then more text becomes the mark and one line feed; none of the spaces survives |
| QuoteFormat.TrailingSpacesBacktrack | egg-word/app/page.tsx:23 | a mark followed by k > 0 full-width spaces up to the end of the text becomes the mark, a line feed and exactly one full-width space, because `　*` backtracks to satisfy `(?!$)` |
| QuoteFormat.FinalMarkUnbroken | egg-word/app/page.tsx:23 | a mark that is the last character of the text is copied without a line feed |
| QuoteFormat.ConjunctionLength | egg-word/app/page.tsx:28 | the length of the first alternative of the conjunction list that the text starts with; 0 exactly when it starts with none of them |
| QuoteFormat.ConjunctionStep | egg-word/app/page.tsx:28-30 | one step of rewrite 2 either copies one character, or consumes a 。 and a conjunction and emits them with a line feed between them; whenever a 。 is followed by any of the conjunctions it does the latter |
| QuoteFormat.RewriteConjunctions | egg-word/app/page.tsx:28-30 | rewrite 2 as a left-to-right scan of `ConjunctionStep`; it keeps the first character |
| QuoteFormat.ConjunctionLengthOf | egg-word/app/page.tsx:28 | no conjunction is a prefix of another, so on a 。 followed by a conjunction the alternation matches exactly that conjunction |
| QuoteFormat.ConjunctionGetsBreak | egg-word/app/page.tsx:28-30 | rewrite 2 puts a line feed between a 。 and any conjunction that directly follows it, and goes on after the conjunction |
| QuoteFormat.ExampleConjunctionRewrite | egg-word/app/page.tsx:28-30 | rewrite 2 on its own turns `。でも` into `。\nでも` |
| QuoteFormat.RewriteConjunctionsOnlyBreaks | egg-word/app/page.tsx:28-30 | rewrite 2 changes nothing but line feeds: with `\n` erased from both, input and output are the same text |
| QuoteFormat.RewriteConjunctionsVisible | egg-word/app/page.tsx:28-30 | rewrite 2 keeps the visible text |
| QuoteFormat.RewriteConjunctionsIdentity | egg-word/app/page.tsx:28-30 | a text in which every mark is followed by a line feed or ends the text is left unchanged by rewrite 2 |
| QuoteFormat.ConjunctionRewriteIsNoOp | egg-word/app/page.tsx:22-30 | rewrite 2 applied to the output of rewrite 1 changes nothing, for every input |
| QuoteFormat.CollapseStep | egg-word/app/page.tsx:33 | one step of rewrite 3 emits the first character once, after consuming either that one character or, at a line feed, the whole run of line feeds |
| QuoteFormat.CollapseNewlines | egg-word/app/page.tsx:33 | rewrite 3 as a left-to-right scan of `CollapseStep`; it keeps the first character |
| QuoteFormat.CollapseNewlinesOnlyBreaks | egg-word/app/page.tsx:33 | rewrite 3 changes nothing but line feeds: with `\n` erased from both, input and output are the same text |
| QuoteFormat.CollapseNewlinesNoDouble | egg-word/app/page.tsx:33 | after rewrite 3 no two line feeds are adjacent |
| QuoteFormat.CollapseNewlinesKeepsMarksBroken | egg-word/app/page.tsx:33 | rewrite 3 keeps every mark followed by a line feed or at the end |
| QuoteFormat.CollapseNewlinesVisible | egg-word/app/page.tsx:33 | rewrite 3 keeps the visible text |
| QuoteFormat.CollapseNewlinesIdentity | egg-word/app/page.tsx:33 | a text without adjacent line feeds is left unchanged by rewrite 3 |
| QuoteFormat.CollapseNewlinesConcat | egg-word/app/page.tsx:33 | rewrite 3 of a concatenation that does not split a run of line feeds is the concatenation of the rewrites |
| JsText.LeadingBlank | egg-word/app/page.tsx:35 | the number of WhiteSpace or LineTerminator characters at the start of the text: all of them trimmable, and the next one (if any) not |
| JsText.TrailingBlank | egg-word/app/page.tsx:35 | the number of WhiteSpace or LineTerminator characters at the end of the text: all of them trimmable, and the one before them (if any) not |
| JsText.Trim | egg-word/app/page.tsx:35 | `String.prototype.trim`: the result neither starts nor ends with a WhiteSpace or LineTerminator character, and a text that already has none there is returned as it is |
| JsText.TrimPiece | egg-word/app/page.tsx:35 | what `trim` keeps: the result is one contiguous piece of the input, and everything cut off before and after it is WhiteSpace or LineTerminator; with `Trim`'s own contract the cuts are the longest such prefix and suffix |
| JsText.TrimVisible | egg-word/app/page.tsx:35 | trimming removes no visible character |
| QuoteFormat.TrimKeepsLayout | egg-word/app/page.tsx:35 | trimming keeps each mark broken, keeps line feeds single and keeps line feeds right after marks |
| QuoteFormat.RewritesLayout | egg-word/app/page.tsx:23-35 | the four rewrites together give every input the layout: marks broken, no blank line, trimmed, visible text unchanged |
| QuoteFormat.BreaksOnlyAfterMarks | egg-word/app/page.tsx:23-35 | for an input without line feeds, every line feed of the result directly follows a 。！？ and the result does not start with one |
| QuoteFormat.RelayoutIsIdentity | egg-word/app/page.tsx:23-33 | rewrites 1 and 3 give back unchanged a text that already has every mark broken and no blank line |
| QuoteFormat.FormatQuoteTextIdempotent | egg-word/app/page.tsx:17-36 | formatting an already formatted quote changes nothing |
| QuoteFormat.FormatKeepsEnds | egg-word/app/page.tsx:17-36 | the result is empty exactly when the input has no visible character; otherwise it starts with the first and ends with the last visible character of the input |
| QuoteFormat.FinalMarkEndsResult | egg-word/app/page.tsx:23-35 | a mark followed only by whitespace or line terminators at the end of the input is the last character of the result |
| QuoteFormat.ExampleBreakBeforeConjunction | egg-word/app/page.tsx:22-25 | rewrite 1 turns `だめ。でも` into `だめ。\nでも`, a break before a conjunction |
| QuoteFormat.ExampleTrailingSpace | egg-word/app/page.tsx:23-25 | rewrite 1 turns `はい。　` into `はい。\n　`: the last full-width space survives |

## Left out

- `generateQuote` (the fetch to the API route, retries and loading state), image
  generation and download through html2canvas, and the JSX of the page: they are
  I/O and rendering, not layout logic.
- `app/api/generate/route.ts`, `app/layout.tsx`, `middleware.ts` and
  `tailwind.config.ts`: outside the formatting core.
- A general regular-expression engine: each of the three patterns is modelled by
  its own greedy, left-to-right scan, including the backtracking of `　*` that the
  `(?!$)` lookahead forces when the spaces reach the end of the text.
- Strings are sequences of Unicode scalar values, while ECMAScript strings are
  UTF-16 code units. Every character the code matches or trims lies in the Basic
  Multilingual Plane, so the two views give the same results.
- A `null` or `undefined` argument, which `!text` would also return unchanged: the
  parameter is typed `string`, so only the empty string reaches that branch here.
